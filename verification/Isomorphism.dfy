/** What it means that a collection keeps the object graph: the heaps are equal up to the addresses of objects. */
module Isomorphisms {
  import opened ObjectModel
  import opened Reachability

  type Renaming = map<Addr, Addr>

  predicate MapsValue(f: Renaming, v: Value, w: Value) {
    if v.Pointer? then v.target in f && w == Pointer(f[v.target]) else w == v
  }

  /** `c` is `o` with every pointer renamed; hash, size, payload and bytes are the same. */
  predicate MapsObject(f: Renaming, o: Object, c: Object) {
    && c.hash == o.hash && c.size == o.size && c.payload == o.payload && c.bytes == o.bytes
    && o.cls in f && c.cls == f[o.cls]
    && |c.vars| == |o.vars| && forall i :: 0 <= i < |o.vars| ==> MapsValue(f, o.vars[i], c.vars[i])
  }

  ghost predicate IsInjective(f: Renaming) {
    forall a, b :: a in f && b in f && f[a] == f[b] ==> a == b
  }

  ghost predicate IsImageOfSome(f: Renaming, b: Addr) {
    exists a :: a in f && f[a] == b
  }

  ghost predicate MapsObjects(f: Renaming, cells: Cells, cells': Cells) {
    forall a :: a in f ==> a in cells && f[a] in cells' && MapsObject(f, cells[a], cells'[f[a]])
  }

  ghost predicate MapsRoots(f: Renaming, roots: seq<Value>, roots': seq<Value>) {
    |roots'| == |roots| && forall i :: 0 <= i < |roots| ==> MapsValue(f, roots[i], roots'[i])
  }

  /** `f` renames the objects of its domain to all objects of the second heap. */
  ghost predicate IsIsomorphism(cells: Cells, roots: seq<Value>, cells': Cells, roots': seq<Value>, f: Renaming) {
    && IsInjective(f) && IsOnto(f, cells')
    && MapsObjects(f, cells, cells') && MapsRoots(f, roots, roots')
  }

  /** The domain of an isomorphism holds everything that is reachable from the roots. */
  lemma DomainIsClosed(cells: Cells, roots: seq<Value>, cells': Cells, roots': seq<Value>, f: Renaming)
    requires MapsObjects(f, cells, cells') && MapsRoots(f, roots, roots')
    ensures IsClosed(cells, f.Keys) && RootTargets(roots) <= f.Keys
    ensures ReachableSet(cells, RootTargets(roots)) <= f.Keys
  {
    hide ReachableSet, MapsObject, MapsRoots, HasEdge;
    forall a, b | a in f.Keys && HasEdge(cells[a], b)
      ensures b in f.Keys
    {
      EdgeIsMapped(f, cells[a], cells'[f[a]], b);
    }
    forall b | b in RootTargets(roots)
      ensures b in f.Keys
    {
      RootIsMapped(f, roots, roots', b);
    }
    ReachableIsLeast(cells, RootTargets(roots), f.Keys);
  }

  lemma EdgeIsMapped(f: Renaming, o: Object, c: Object, b: Addr)
    requires MapsObject(f, o, c) && HasEdge(o, b)
    ensures b in f && HasEdge(c, f[b])
  {
    if b != o.cls {
      var i :| 0 <= i < |o.vars| && o.vars[i] == Pointer(b);
      assert MapsValue(f, o.vars[i], c.vars[i]);
      assert c.vars[i] == Pointer(f[b]);
    }
  }

  lemma EdgeIsReflected(f: Renaming, o: Object, c: Object, d: Addr)
    requires MapsObject(f, o, c) && HasEdge(c, d)
    ensures exists b :: b in f && f[b] == d && HasEdge(o, b)
  {
    if d == c.cls {
      assert f[o.cls] == d && HasEdge(o, o.cls);
    } else {
      var i :| 0 <= i < |c.vars| && c.vars[i] == Pointer(d);
      assert MapsValue(f, o.vars[i], c.vars[i]);
      var b := o.vars[i].target;
      assert o.vars[i] in o.vars && f[b] == d && HasEdge(o, b);
    }
  }

  lemma RootIsReflected(f: Renaming, roots: seq<Value>, roots': seq<Value>, d: Addr)
    requires MapsRoots(f, roots, roots') && d in RootTargets(roots')
    ensures exists b :: b in f && f[b] == d && b in RootTargets(roots)
  {
    var i :| 0 <= i < |roots'| && roots'[i] == Pointer(d);
    assert MapsValue(f, roots[i], roots'[i]);
    var b := roots[i].target;
    assert roots[i] in roots && b in f && f[b] == d && b in RootTargets(roots);
  }

  function ImageOf(f: Renaming, s: set<Addr>): set<Addr> {
    set a | a in s && a in f :: f[a]
  }

  /** Everything reachable in the second heap is the image of something reachable in the first. */
  lemma ReachableIsReflected(cells: Cells, roots: seq<Value>, cells': Cells, roots': seq<Value>, f: Renaming)
    requires IsIsomorphism(cells, roots, cells', roots', f) && IsClosed(cells, cells.Keys) && RootTargets(roots) <= cells.Keys
    ensures ReachableSet(cells', RootTargets(roots')) <= ImageOf(f, ReachableSet(cells, RootTargets(roots)))
  {
    hide ReachableSet, MapsObject, MapsRoots, IsOnto, IsInjective, HasEdge;
    var start := RootTargets(roots);
    var reachable := ReachableSet(cells, start);
    ReachableIsClosed(cells, start);
    var image := ImageOf(f, reachable);
    forall c, d | c in image && HasEdge(cells'[c], d)
      ensures d in image
    {
      var a :| a in reachable && a in f && f[a] == c;
      EdgeIsReflected(f, cells[a], cells'[c], d);
      var b :| b in f && f[b] == d && HasEdge(cells[a], b);
    }
    forall d | d in RootTargets(roots')
      ensures d in image
    {
      RootIsReflected(f, roots, roots', d);
    }
    ReachableIsLeast(cells', RootTargets(roots'), image);
  }

  /** Isomorphisms keep and reflect reachability. */
  lemma ReachabilityIsKept(cells: Cells, roots: seq<Value>, cells': Cells, roots': seq<Value>, f: Renaming, a: Addr)
    requires IsIsomorphism(cells, roots, cells', roots', f) && a in f
    requires IsClosed(cells, cells.Keys) && RootTargets(roots) <= cells.Keys
    requires IsClosed(cells', cells'.Keys) && RootTargets(roots') <= cells'.Keys
    ensures a in ReachableSet(cells, RootTargets(roots)) <==> f[a] in ReachableSet(cells', RootTargets(roots'))
  {
    hide ReachableSet, MapsObject, MapsRoots, IsOnto, HasEdge, IsClosed;
    if f[a] in ReachableSet(cells', RootTargets(roots')) {
      ReachableIsReflected(cells, roots, cells', roots', f);
      var b :| b in ReachableSet(cells, RootTargets(roots)) && b in f && f[b] == f[a];
    }
    if a in ReachableSet(cells, RootTargets(roots)) {
      ReachableIsMapped(cells, roots, cells', roots', f);
    }
  }

  lemma ReachableIsMapped(cells: Cells, roots: seq<Value>, cells': Cells, roots': seq<Value>, f: Renaming)
    requires IsIsomorphism(cells, roots, cells', roots', f)
    requires IsClosed(cells', cells'.Keys) && RootTargets(roots') <= cells'.Keys
    ensures forall a :: a in ReachableSet(cells, RootTargets(roots)) ==> a in f && f[a] in ReachableSet(cells', RootTargets(roots'))
  {
    hide ReachableSet, MapsObject, MapsRoots, MapsValue, IsOnto, HasEdge, IsInjective;
    var start' := RootTargets(roots');
    ReachableIsClosed(cells', start');
    var s := set a | a in f && f[a] in ReachableSet(cells', start');
    forall a, b | a in s && HasEdge(cells[a], b)
      ensures b in s
    {
      EdgeIsMapped(f, cells[a], cells'[f[a]], b);
    }
    forall b | b in RootTargets(roots)
      ensures b in s
    {
      RootIsMapped(f, roots, roots', b);
    }
    ReachableIsLeast(cells, RootTargets(roots), s);
  }

  lemma RootIsMapped(f: Renaming, roots: seq<Value>, roots': seq<Value>, b: Addr)
    requires MapsRoots(f, roots, roots') && b in RootTargets(roots)
    ensures b in f && f[b] in RootTargets(roots')
  {
    var i :| 0 <= i < |roots| && roots[i] == Pointer(b);
    assert MapsValue(f, roots[i], roots'[i]);
    assert roots'[i] in roots';
  }

  function Then(f: Renaming, g: Renaming): Renaming {
    map a | a in f && f[a] in g :: g[f[a]]
  }

  lemma MapsCompose(f: Renaming, g: Renaming, o: Object, c: Object, d: Object)
    requires MapsObject(f, o, c) && MapsObject(g, c, d)
    ensures MapsObject(Then(f, g), o, d)
  {
    forall i | 0 <= i < |o.vars|
      ensures MapsValue(Then(f, g), o.vars[i], d.vars[i])
    {
      assert MapsValue(f, o.vars[i], c.vars[i]) && MapsValue(g, c.vars[i], d.vars[i]);
    }
  }

  ghost predicate IsOnto(f: Renaming, cells: Cells) {
    forall b :: b in cells ==> IsImageOfSome(f, b)
  }

  lemma OntoCompose(f: Renaming, g: Renaming, cells': Cells, cells'': Cells)
    requires IsOnto(f, cells') && IsOnto(g, cells'') && g.Keys <= cells'.Keys
    ensures IsOnto(Then(f, g), cells'')
  {
    forall d | d in cells''
      ensures IsImageOfSome(Then(f, g), d)
    {
      assert IsImageOfSome(g, d);
      var b :| b in g && g[b] == d;
      assert IsImageOfSome(f, b);
      var a :| a in f && f[a] == b;
      assert a in Then(f, g) && Then(f, g)[a] == d;
    }
  }

  lemma ObjectsCompose(f: Renaming, g: Renaming, cells: Cells, cells': Cells, cells'': Cells)
    requires MapsObjects(f, cells, cells') && MapsObjects(g, cells', cells'')
    ensures MapsObjects(Then(f, g), cells, cells'')
  {
    hide MapsObject;
    var h := Then(f, g);
    forall a | a in h
      ensures a in cells && h[a] in cells'' && MapsObject(h, cells[a], cells''[h[a]])
    {
      MapsCompose(f, g, cells[a], cells'[f[a]], cells''[h[a]]);
    }
  }

  lemma RootsCompose(f: Renaming, g: Renaming, roots: seq<Value>, roots': seq<Value>, roots'': seq<Value>)
    requires MapsRoots(f, roots, roots') && MapsRoots(g, roots', roots'')
    ensures MapsRoots(Then(f, g), roots, roots'')
  {
    forall i | 0 <= i < |roots|
      ensures MapsValue(Then(f, g), roots[i], roots''[i])
    {
      assert MapsValue(f, roots[i], roots'[i]) && MapsValue(g, roots'[i], roots''[i]);
    }
  }

  lemma InjectiveCompose(f: Renaming, g: Renaming)
    requires IsInjective(f) && IsInjective(g)
    ensures IsInjective(Then(f, g))
  {
  }

  /** A collection after a collection: isomorphisms compose. */
  lemma IsomorphismsCompose(cells: Cells, roots: seq<Value>, cells': Cells, roots': seq<Value>, cells'': Cells, roots'': seq<Value>,
                            f: Renaming, g: Renaming)
    requires IsIsomorphism(cells, roots, cells', roots', f) && IsIsomorphism(cells', roots', cells'', roots'', g)
    ensures IsIsomorphism(cells, roots, cells'', roots'', Then(f, g))
  {
    hide MapsObject, MapsRoots, IsOnto, IsInjective;
    assert g.Keys <= cells'.Keys;
    OntoCompose(f, g, cells', cells'');
    ObjectsCompose(f, g, cells, cells', cells'');
    RootsCompose(f, g, roots, roots', roots'');
    InjectiveCompose(f, g);
  }
}
