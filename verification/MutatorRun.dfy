/**
 Runs of a program on the heap, against a store that is never collected.

 The store has the same objects, under names that are never reused.  Whatever the program does, and
 whenever collections move or drop objects, it sees what it would see in the store.
 */
module MutatorRuns {
  import opened Collections
  import opened ObjectModel
  import opened FreeLists
  import opened PageSpaces
  import opened RememberedSets
  import opened Heaps
  import opened Reachability
  import opened Isomorphisms
  import opened Markings
  import opened Scavenging
  import opened MarkingAndSweeping
  import opened HeapOperations

  datatype Store = Store(objects: Cells, roots: seq<Value>)

  /** The root that holds nil (Handles.nil). */
  const NIL: nat := 0

  /** What a program does; the numbers are indices of roots, `index` is that of a variable. */
  datatype Op =
    | New(dst: nat, cls: nat, size: nat)
    | Put(dst: nat, word: nat)
    | Move(dst: nat, src: nat)
    | Load(dst: nat, holder: nat, index: nat)
    | LoadClass(dst: nat, holder: nat)
    | Write(holder: nat, index: nat, src: nat)
    | Same(left: nat, right: nat)
    | Inspect(holder: nat)
    | Read(src: nat)
    | Collect

  /** What the program learns from an operation; one that makes no sense in the current state is skipped. */
  datatype Outcome = Skipped | Done | Answer(same: bool) | Contents(hash: nat, size: nat, payload: seq<nat>, bytes: seq<nat>) | Word(word: nat)

  datatype Effect = Effect(outcome: Outcome, store: Store)

  predicate IsObject(s: Store, i: nat) {
    i < |s.roots| && s.roots[i].Pointer? && s.roots[i].target in s.objects
  }

  function ObjectAt(s: Store, i: nat): Object
    requires IsObject(s, i)
  {
    s.objects[s.roots[i].target]
  }

  predicate CanAllocate(s: Store, op: Op)
    requires op.New?
  {
    && IsObject(s, NIL) && IsObject(s, op.cls) && op.dst < |s.roots|
    && IsClass(ObjectAt(s, op.cls)) && (ShapeOf(ObjectAt(s, op.cls)).isIndexed || op.size == 0)
  }

  predicate CanLoad(s: Store, op: Op)
    requires op.Load?
  {
    IsObject(s, op.holder) && op.dst < |s.roots| && op.index < |ObjectAt(s, op.holder).vars|
  }

  predicate CanWrite(s: Store, op: Op)
    requires op.Write?
  {
    && IsObject(s, op.holder) && op.src < |s.roots| && !s.roots[op.src].Shape?
    && (s.roots[op.src].Pointer? ==> s.roots[op.src].target in s.objects)
    && IsVariable(s.objects, s.roots[op.holder].target, op.index)
  }

  function WithRoot(s: Store, i: nat, v: Value): Store {
    if i < |s.roots| then s.(roots := s.roots[i := v]) else s
  }

  /** An operation on a store that is not collected; a new object gets the name and the hash that are given. */
  function Apply(s: Store, op: Op, name: Addr, hash: nat): Effect {
    match op
    case New(dst, cls, size) =>
      if CanAllocate(s, op) then
        var o := NewObject(name, s.roots[cls].target, ShapeOf(ObjectAt(s, cls)), size, s.roots[NIL]).(hash := hash);
        Effect(Done, WithRoot(Store(s.objects[name := o], s.roots), dst, Pointer(name)))
      else Effect(Skipped, s)
    case Put(dst, word) => if dst < |s.roots| then Effect(Done, WithRoot(s, dst, Immediate(word))) else Effect(Skipped, s)
    case Move(dst, src) =>
      if dst < |s.roots| && src < |s.roots| then Effect(Done, WithRoot(s, dst, s.roots[src])) else Effect(Skipped, s)
    case Load(dst, holder, index) =>
      if CanLoad(s, op) then Effect(Done, WithRoot(s, dst, ObjectAt(s, holder).vars[index])) else Effect(Skipped, s)
    case LoadClass(dst, holder) =>
      if IsObject(s, holder) && dst < |s.roots| then Effect(Done, WithRoot(s, dst, Pointer(ObjectAt(s, holder).cls))) else Effect(Skipped, s)
    case Write(holder, index, src) =>
      if CanWrite(s, op) then
        var a := s.roots[holder].target;
        Effect(Done, s.(objects := s.objects[a := WithVar(s.objects[a], index, s.roots[src])]))
      else Effect(Skipped, s)
    case Same(left, right) =>
      if left < |s.roots| && right < |s.roots| then Effect(Answer(s.roots[left] == s.roots[right]), s) else Effect(Skipped, s)
    case Inspect(holder) =>
      if IsObject(s, holder) then
        var o := ObjectAt(s, holder);
        Effect(Contents(o.hash, o.size, o.payload, o.bytes), s)
      else Effect(Skipped, s)
    case Read(src) =>
      if src < |s.roots| && s.roots[src].Immediate? then Effect(Word(s.roots[src].word), s) else Effect(Skipped, s)
    case Collect => Effect(Done, s)
  }

  /** What was written is loaded from its place, and other places hold what they held. */
  lemma LoadAfterWrite(s: Store, op: Op, dst: nat, holder: nat, index: nat, name: Addr, hash: nat)
    requires op.Write? && CanWrite(s, op) && dst < |s.roots|
    requires IsObject(s, holder) && index < |ObjectAt(s, holder).vars|
    ensures var s' := Apply(s, op, name, hash).store;
            Apply(s', Load(dst, holder, index), name, hash) ==
            Effect(Done, Store(s'.objects, s.roots[dst := if s.roots[holder] == s.roots[op.holder] && index == op.index then s.roots[op.src]
                                                         else ObjectAt(s, holder).vars[index]]))
  {
  }

  /** The variables of a new object are nil, and its class is the one that was given. */
  lemma LoadAfterNew(s: Store, op: Op, dst: nat, index: nat, name: Addr, hash: nat)
    requires op.New? && CanAllocate(s, op) && dst < |s.roots|
    ensures var s' := Apply(s, op, name, hash).store;
            var shape := ShapeOf(ObjectAt(s, op.cls));
            && s'.roots == s.roots[op.dst := Pointer(name)]
            && Apply(s', LoadClass(dst, op.dst), name, hash).store.roots == s'.roots[dst := s.roots[op.cls]]
            && Apply(s', Load(dst, op.dst, index), name, hash) ==
               if index < shape.varsSize + (if shape.isIndexed && !shape.isBytes then op.size else 0)
               then Effect(Done, Store(s'.objects, s'.roots[dst := s.roots[NIL]])) else Effect(Skipped, s')
  {
    hide IsClass, ShapeOf;
    NewObjectFields(name, s.roots[op.cls].target, ShapeOf(ObjectAt(s, op.cls)), op.size, s.roots[NIL]);
  }

  ghost predicate IsStep(s: Store, op: Op, outcome: Outcome, s': Store) {
    exists name, hash :: name !in s.objects && Apply(s, op, name, hash) == Effect(outcome, s')
  }

  /** `f` tells where the objects of the store that are still needed are found. */
  ghost predicate Refines(s: Store, c: Store, f: Renaming) {
    IsIsomorphism(s.objects, s.roots, c.objects, c.roots, f)
  }

  lemma RefinesRoots(s: Store, c: Store, f: Renaming)
    requires Refines(s, c, f)
    ensures |c.roots| == |s.roots| && forall i :: 0 <= i < |s.roots| ==> MapsValue(f, s.roots[i], c.roots[i])
    ensures f.Keys <= s.objects.Keys
    ensures forall i: nat :: IsObject(s, i) <==> IsObject(c, i)
  {
    hide MapsObject, IsOnto, IsInjective;
    assert MapsRoots(f, s.roots, c.roots);
    forall i: nat | i < |s.roots|
      ensures IsObject(s, i) <==> IsObject(c, i)
    {
      assert MapsValue(f, s.roots[i], c.roots[i]);
    }
  }

  lemma RefinesObject(s: Store, c: Store, f: Renaming, i: nat)
    requires Refines(s, c, f) && IsObject(s, i)
    ensures IsObject(c, i) && s.roots[i].target in f && c.roots[i] == Pointer(f[s.roots[i].target])
    ensures MapsObject(f, ObjectAt(s, i), ObjectAt(c, i))
  {
    hide MapsObject, IsOnto, IsInjective;
    RefinesRoots(s, c, f);
    assert MapsValue(f, s.roots[i], c.roots[i]);
  }

  lemma RootIsReplaced(s: Store, c: Store, f: Renaming, i: nat, v: Value, w: Value)
    requires Refines(s, c, f) && MapsValue(f, v, w)
    ensures Refines(WithRoot(s, i, v), WithRoot(c, i, w), f)
  {
    hide MapsObject, IsOnto, IsInjective, MapsValue;
    assert MapsRoots(f, WithRoot(s, i, v).roots, WithRoot(c, i, w).roots);
  }

  lemma ValuesAreDistinguished(f: Renaming, v: Value, w: Value, v': Value, w': Value)
    requires IsInjective(f) && MapsValue(f, v, v') && MapsValue(f, w, w')
    ensures v == w <==> v' == w'
  {
  }

  lemma ObjectIsReplaced(s: Store, c: Store, f: Renaming, a: Addr, i: nat, v: Value, w: Value)
    requires Refines(s, c, f) && a in f && MapsValue(f, v, w)
    ensures a in s.objects && f[a] in c.objects
    ensures Refines(s.(objects := s.objects[a := WithVar(s.objects[a], i, v)]),
                    c.(objects := c.objects[f[a] := WithVar(c.objects[f[a]], i, w)]), f)
  {
    hide MapsObject, MapsValue, MapsRoots, WithVar;
    var o, o' := WithVar(s.objects[a], i, v), WithVar(c.objects[f[a]], i, w);
    assert MapsObject(f, s.objects[a], c.objects[f[a]]);
    VarIsReplaced(f, s.objects[a], c.objects[f[a]], i, v, w);
    assert MapsObjects(f, s.objects[a := o], c.objects[f[a] := o']);
    assert IsOnto(f, c.objects[f[a] := o']);
  }

  lemma VarIsReplaced(f: Renaming, o: Object, c: Object, i: nat, v: Value, w: Value)
    requires MapsObject(f, o, c) && MapsValue(f, v, w)
    ensures MapsObject(f, WithVar(o, i, v), WithVar(c, i, w))
  {
    hide MapsValue;
  }

  // ---------- Operations that neither allocate nor collect ----------

  function LoadedValue(s: Store, op: Op): Value
    requires op.Load? && CanLoad(s, op)
  {
    ObjectAt(s, op.holder).vars[op.index]
  }

  lemma LoadCommutes(s: Store, c: Store, f: Renaming, op: Op)
    requires Refines(s, c, f) && op.Load?
    ensures if CanLoad(s, op) then CanLoad(c, op) && MapsValue(f, LoadedValue(s, op), LoadedValue(c, op)) else !CanLoad(c, op)
  {
    hide Refines, MapsValue;
    RefinesRoots(s, c, f);
    if IsObject(s, op.holder) {
      RefinesObject(s, c, f, op.holder);
    }
  }

  lemma WriteCommutes(s: Store, c: Store, f: Renaming, op: Op)
    requires Refines(s, c, f) && op.Write?
    ensures CanWrite(s, op) <==> CanWrite(c, op)
    ensures CanWrite(s, op) ==> Refines(Apply(s, op, 0, 0).store, Apply(c, op, 0, 0).store, f)
  {
    hide Refines;
    RefinesRoots(s, c, f);
    if IsObject(s, op.holder) && op.src < |s.roots| {
      RefinesObject(s, c, f, op.holder);
      assert MapsValue(f, s.roots[op.src], c.roots[op.src]);
      VariablesAgree(f, ObjectAt(s, op.holder), ObjectAt(c, op.holder), op.index);
      if s.roots[op.src].Pointer? {
        RefinesTarget(s, c, f, op.src);
      }
      ObjectIsReplaced(s, c, f, s.roots[op.holder].target, op.index, s.roots[op.src], c.roots[op.src]);
    }
  }

  lemma VariablesAgree(f: Renaming, o: Object, c: Object, i: nat)
    requires MapsObject(f, o, c)
    ensures |o.vars| == |c.vars| && (i < |o.vars| ==> (o.vars[i].Shape? <==> c.vars[i].Shape?))
  {
    assert i < |o.vars| ==> MapsValue(f, o.vars[i], c.vars[i]);
  }

  lemma RefinesTarget(s: Store, c: Store, f: Renaming, i: nat)
    requires Refines(s, c, f) && i < |s.roots| && s.roots[i].Pointer?
    ensures IsObject(s, i) && IsObject(c, i)
  {
    hide Refines;
    RefinesRoots(s, c, f);
    assert MapsValue(f, s.roots[i], c.roots[i]);
  }

  predicate IsPlain(op: Op) {
    !op.New? && !op.Collect?
  }

  /** The store and the heap agree on the outcome of an operation, and on what it does. */
  lemma PlainOpCommutes(s: Store, c: Store, f: Renaming, op: Op, name: Addr, hash: nat)
    requires Refines(s, c, f) && IsPlain(op)
    ensures Apply(s, op, name, hash).outcome == Apply(c, op, name, hash).outcome
    ensures Refines(Apply(s, op, name, hash).store, Apply(c, op, name, hash).store, f)
  {
    hide Refines, WithRoot, MapsValue, IsObject, MapsObject, CanLoad, CanWrite, WithVar;
    RefinesRoots(s, c, f);
    match op
    case Put(dst, word) =>
      ImmediateMaps(f, word);
      RootIsReplaced(s, c, f, dst, Immediate(word), Immediate(word));
    case Move(dst, src) =>
      if src < |s.roots| {
        RootIsReplaced(s, c, f, dst, s.roots[src], c.roots[src]);
      }
    case Load(dst, holder, index) =>
      LoadCommutes(s, c, f, op);
      if CanLoad(s, op) {
        RootIsReplaced(s, c, f, dst, LoadedValue(s, op), LoadedValue(c, op));
      }
    case LoadClass(dst, holder) =>
      if IsObject(s, holder) {
        RefinesObject(s, c, f, holder);
        ClassMaps(f, ObjectAt(s, holder), ObjectAt(c, holder));
        RootIsReplaced(s, c, f, dst, Pointer(ObjectAt(s, holder).cls), Pointer(ObjectAt(c, holder).cls));
      }
    case Write(holder, index, src) =>
      WriteCommutes(s, c, f, op);
    case Same(left, right) =>
      if left < |s.roots| && right < |s.roots| {
        RefinesInjectively(s, c, f);
        ValuesAreDistinguished(f, s.roots[left], s.roots[right], c.roots[left], c.roots[right]);
      }
    case Inspect(holder) =>
      if IsObject(s, holder) {
        RefinesObject(s, c, f, holder);
        ClassMaps(f, ObjectAt(s, holder), ObjectAt(c, holder));
      }
    case Read(src) =>
      if src < |s.roots| {
        WordsAgree(f, s.roots[src], c.roots[src]);
      }
  }

  lemma ImmediateMaps(f: Renaming, word: nat)
    ensures MapsValue(f, Immediate(word), Immediate(word))
  {
  }

  lemma WordsAgree(f: Renaming, v: Value, w: Value)
    requires MapsValue(f, v, w)
    ensures v.Immediate? <==> w.Immediate?
    ensures v.Immediate? ==> w == v
  {
  }

  lemma ClassMaps(f: Renaming, o: Object, c: Object)
    requires MapsObject(f, o, c)
    ensures MapsValue(f, Pointer(o.cls), Pointer(c.cls))
    ensures c.hash == o.hash && c.size == o.size && c.payload == o.payload && c.bytes == o.bytes
  {
  }

  lemma RefinesInjectively(s: Store, c: Store, f: Renaming)
    requires Refines(s, c, f)
    ensures IsInjective(f)
  {
  }

  // ---------- Allocation ----------

  lemma AllocationCommutes(s: Store, c: Store, f: Renaming, op: Op)
    requires Refines(s, c, f) && op.New?
    ensures CanAllocate(s, op) <==> CanAllocate(c, op)
    ensures CanAllocate(s, op) ==> ShapeOf(ObjectAt(s, op.cls)) == ShapeOf(ObjectAt(c, op.cls))
  {
    hide Refines, MapsObject, IsClass, ShapeOf;
    RefinesRoots(s, c, f);
    if IsObject(s, op.cls) {
      RefinesObject(s, c, f, op.cls);
      ShapesAgree(f, ObjectAt(s, op.cls), ObjectAt(c, op.cls));
    }
  }

  lemma ShapesAgree(f: Renaming, o: Object, c: Object)
    requires MapsObject(f, o, c)
    ensures IsClass(o) <==> IsClass(c)
    ensures IsClass(o) ==> ShapeOf(o) == ShapeOf(c)
  {
    if INSTANCE_SHAPE_VAR < |o.vars| {
      assert MapsValue(f, o.vars[INSTANCE_SHAPE_VAR], c.vars[INSTANCE_SHAPE_VAR]);
    }
  }

  function WithHandle(s: Store, i: nat): Store {
    if i < |s.roots| then s.(roots := s.roots + [s.roots[i]]) else s
  }

  lemma HandleIsAdded(s: Store, c: Store, f: Renaming, i: nat)
    requires Refines(s, c, f) && i < |s.roots|
    ensures Refines(WithHandle(s, i), WithHandle(c, i), f)
  {
    hide MapsObject, IsOnto, IsInjective, MapsValue;
    RefinesRoots(s, c, f);
    assert MapsRoots(f, WithHandle(s, i).roots, WithHandle(c, i).roots);
  }

  lemma HandleIsDropped(s: Store, c: Store, f: Renaming, i: nat, v: Value)
    requires i < |s.roots| && Refines(WithHandle(s, i), c.(roots := c.roots + [v]), f)
    ensures Refines(s, c, f) && MapsValue(f, s.roots[i], v)
  {
    hide MapsObject, IsOnto, IsInjective, MapsValue;
    var s', c' := WithHandle(s, i), c.(roots := c.roots + [v]);
    RefinesRoots(s', c', f);
    assert s'.roots[|s.roots|] == s.roots[i] && c'.roots[|c.roots|] == v;
    assert forall j :: 0 <= j < |s.roots| ==> s'.roots[j] == s.roots[j] && c'.roots[j] == c.roots[j];
    assert MapsRoots(f, s.roots, c.roots);
  }

  lemma MapGrows(f: Renaming, name: Addr, p: Addr, o: Object, c: Object)
    requires name !in f && MapsObject(f, o, c)
    ensures MapsObject(f[name := p], o, c)
  {
    forall i | 0 <= i < |o.vars|
      ensures MapsValue(f[name := p], o.vars[i], c.vars[i])
    {
      assert MapsValue(f, o.vars[i], c.vars[i]);
    }
  }

  /** An object that is new on both sides. */
  lemma ObjectIsAdded(s: Store, c: Store, f: Renaming, name: Addr, o: Object, p: Addr, o': Object)
    requires Refines(s, c, f) && name !in s.objects && p !in c.objects && MapsObject(f, o, o')
    ensures Refines(Store(s.objects[name := o], s.roots), Store(c.objects[p := o'], c.roots), f[name := p])
  {
    hide MapsObject;
    var f' := f[name := p];
    assert name !in f;
    forall a | a in f'
      ensures a in s.objects[name := o] && f'[a] in c.objects[p := o'] && MapsObject(f', s.objects[name := o][a], c.objects[p := o'][f'[a]])
    {
      MapGrows(f, name, p, if a == name then o else s.objects[a], if a == name then o' else c.objects[f[a]]);
    }
    forall i | 0 <= i < |s.roots|
      ensures MapsValue(f', s.roots[i], c.roots[i])
    {
      assert MapsValue(f, s.roots[i], c.roots[i]);
    }
    forall b | b in c.objects[p := o']
      ensures IsImageOfSome(f', b)
    {
      if b == p {
        assert f'[name] == p;
      } else {
        assert IsImageOfSome(f, b);
        var a :| a in f && f[a] == b;
        assert f'[a] == b;
      }
    }
  }

  /** The object that allocateObject makes is, but for its hash, the object that the store makes. */
  lemma NewObjectMaps(f: Renaming, name: Addr, cls: Addr, p: Addr, cls': Addr, shape: InstanceShape, size: nat, nil: Value, nil': Value)
    requires MapsValue(f, Pointer(cls), Pointer(cls')) && MapsValue(f, nil, nil')
    ensures var c := NewObject(p, cls', shape, size, nil'); MapsObject(f, NewObject(name, cls, shape, size, nil).(hash := c.hash), c)
  {
  }

  lemma FreshName(names: set<Addr>) returns (name: Addr)
    ensures name !in names
  {
    name := 0;
    var below := {};
    while name in names
      invariant forall a :: a in below ==> a in names && a < name
      invariant |below| == name
      decreases |names| - name
    {
      below := below + {name};
      name := name + 1;
      SubsetIsSmaller(below, names);
    }
  }

  // ---------- Small objects ----------

  /** Every object takes less than 2048 bytes, so that no allocation can fail the assertion of splitFreeSpace. */
  ghost predicate AreSmall(cells: Cells) {
    forall a :: a in cells ==> SizeOf(cells, a) < FREE_LIST_SIZE * HEAP_OBJECT_ALIGN
  }

  predicate IsSmallStep(s: Store, op: Op) {
    op.New? && CanAllocate(s, op) ==> Align(InstanceSize(ShapeOf(ObjectAt(s, op.cls)), op.size)) < FREE_LIST_SIZE * HEAP_OBJECT_ALIGN
  }

  lemma SmallCannotFail(cells: Cells, survivorEnd: Addr, mmap: seq<HeapPage> -> Addr)
    requires AreSmall(cells) && HasPages(mmap)
    ensures CannotFail(cells, survivorEnd, mmap)
  {
    hide SizeOf, HasPages, IsNew;
  }

  lemma SizeIsMapped(cells: Cells, cells': Cells, f: Renaming, a: Addr)
    requires MapsObjects(f, cells, cells') && a in f
    ensures a in cells && f[a] in cells' && SizeOf(cells', f[a]) == SizeOf(cells, a) && cells'[f[a]].cls in cells'
  {
    hide CellSize, IsClass, ShapeOf, MapsObject;
    ClassIsFollowed(f, cells[a], cells'[f[a]]);
    var cls := cells[a].cls;
    assert MapsObject(f, cells[cls], cells'[f[cls]]);
    ShapesAgree(f, cells[cls], cells'[f[cls]]);
  }

  lemma ClassIsFollowed(f: Renaming, o: Object, c: Object)
    requires MapsObject(f, o, c)
    ensures o.cls in f && c.cls == f[o.cls] && c.size == o.size
  {
  }

  lemma SmallIsKept(s: Store, c: Store, f: Renaming)
    requires Refines(s, c, f) && AreSmall(s.objects)
    ensures AreSmall(c.objects) && forall b :: b in c.objects ==> c.objects[b].cls in c.objects
  {
    hide SizeOf, MapsObjects, MapsRoots, IsInjective;
    forall b | b in c.objects
      ensures SizeOf(c.objects, b) < FREE_LIST_SIZE * HEAP_OBJECT_ALIGN && c.objects[b].cls in c.objects
    {
      assert IsImageOfSome(f, b);
      var a :| a in f && f[a] == b;
      SizeIsMapped(s.objects, c.objects, f, a);
    }
  }

  lemma AddedKeepsSmall(cells: Cells, p: Addr, o: Object)
    requires AreSmall(cells) && p !in cells && forall b :: b in cells ==> cells[b].cls in cells
    requires SizeOf(cells[p := o], p) < FREE_LIST_SIZE * HEAP_OBJECT_ALIGN
    ensures AreSmall(cells[p := o])
  {
    hide SizeOf;
    forall a | a in cells
      ensures SizeOf(cells[p := o], a) == SizeOf(cells, a)
    {
      AddedKeepsSize(cells, p, o, a);
    }
  }

  lemma AddedKeepsSize(cells: Cells, p: Addr, o: Object, a: Addr)
    requires p !in cells && a in cells && cells[a].cls in cells
    ensures SizeOf(cells[p := o], a) == SizeOf(cells, a)
  {
    hide CellSize, IsClass, ShapeOf;
  }

  lemma SameContentsKeepSmall(cells: Cells, cells': Cells)
    requires AreSameContents(cells, cells') && AreSmall(cells)
    ensures AreSmall(cells')
  {
    hide CellSize, IsClass, HasSameContents, SizeOf;
    forall a | a in cells'
      ensures SizeOf(cells', a) == SizeOf(cells, a)
    {
      SameContentsKeepSize(cells, cells', a);
    }
  }

  lemma SameContentsKeepSize(cells: Cells, cells': Cells, a: Addr)
    requires AreSameContents(cells, cells') && a in cells
    ensures SizeOf(cells', a) == SizeOf(cells, a)
  {
    hide CellSize;
    assert HasSameContents(cells[a], cells'[a]);
    if cells[a].cls in cells {
      assert HasSameContents(cells[cells[a].cls], cells'[cells[a].cls]);
    }
  }

  lemma WrittenKeepsSmall(cells: Cells, a: Addr, i: nat, v: Value)
    requires AreObjectsOk(cells) && AreSmall(cells) && IsVariable(cells, a, i) && !v.Shape? && (v.Pointer? ==> v.target in cells)
    ensures AreSmall(cells[a := WithVar(cells[a], i, v)])
  {
    hide SizeOf, AreObjectsOk, WithVar, IsObjectOk;
    forall x | x in cells
      ensures SizeOf(cells[a := WithVar(cells[a], i, v)], x) == SizeOf(cells, x)
    {
      ObjectIsOk(cells, x);
      ChangedObjectIsOk(cells, a, i, v, x);
    }
  }

  lemma PlainKeepsSmall(c: Store, op: Op, c': Store)
    requires AreObjectsOk(c.objects) && AreSmall(c.objects) && IsPlain(op)
    requires AreSameContents(Apply(c, op, 0, 0).store.objects, c'.objects)
    ensures AreSmall(c'.objects)
  {
    hide AreSmall, AreObjectsOk, AreSameContents, WithVar;
    if op.Write? && CanWrite(c, op) {
      WrittenKeepsSmall(c.objects, c.roots[op.holder].target, op.index, c.roots[op.src]);
    }
    SameContentsKeepSmall(Apply(c, op, 0, 0).store.objects, c'.objects);
  }

  // ---------- The program runs on the heap ----------

  ghost function StoreOf(h: Heap): Store
    reads h
  {
    Store(h.cells, h.roots)
  }

  /** Marks and TAG_REMEMBERED are invisible to the program. */
  lemma TagsAreInvisible(s: Store, c: Store, c': Store, f: Renaming)
    requires Refines(s, c, f) && AreSameContents(c.objects, c'.objects) && c'.roots == c.roots
    ensures Refines(s, c', f)
  {
    hide IsInjective, MapsRoots, MapsObject, HasSameContents;
    forall a | a in f
      ensures f[a] in c'.objects && MapsObject(f, s.objects[a], c'.objects[f[a]])
    {
      SameContentsMap(f, s.objects[a], c.objects[f[a]], c'.objects[f[a]]);
    }
  }

  lemma SameContentsMap(f: Renaming, o: Object, c: Object, c': Object)
    requires MapsObject(f, o, c) && HasSameContents(c, c')
    ensures MapsObject(f, o, c')
  {
  }

  method SetRoot(h: Heap, i: nat, v: Value)
    requires h.Valid() && i < |h.roots| && (v.Pointer? ==> v.target in h.cells)
    modifies h`roots
    ensures h.Valid() && StoreOf(h) == WithRoot(old(StoreOf(h)), i, v)
  {
    hide FreeList.Valid, ArePages, IsMmap, Tiles, AreBlocks, Scavenger.Valid, AreObjectsOk, AreTagsOk, AreListed, IsRememberedSetComplete, AreWithin, NewSizes, OldSizes;
    h.roots := h.roots[i := v];
  }

  lemma RootIsObject(h: Heap, i: nat)
    requires h.Valid() && i < |h.roots| && h.roots[i].Pointer?
    ensures IsObject(StoreOf(h), i)
    ensures IsObjectOk(h.cells, ObjectAt(StoreOf(h), i))
  {
    hide Heap.Valid, AreObjectsOk, IsObjectOk;
    ValidCells(h);
    ObjectIsOk(h.cells, h.roots[i].target);
  }

  /** What the heap holds afterwards, up to tags. */
  ghost predicate IsEffect(h: Heap, e: Effect, outcome: Outcome)
    reads h
  {
    outcome == e.outcome && h.roots == e.store.roots && AreSameContents(e.store.objects, h.cells)
  }

  method DoMove(h: Heap, op: Op) returns (outcome: Outcome)
    requires h.Valid() && (op.Put? || op.Move?)
    modifies h`roots
    ensures h.Valid() && IsEffect(h, Apply(old(StoreOf(h)), op, 0, 0), outcome)
  {
    hide Heap.Valid, IsObject, AreObjectsOk;
    outcome := Skipped;
    if op.dst < |h.roots| {
      if op.Put? {
        SetRoot(h, op.dst, Immediate(op.word));
        outcome := Done;
      } else if op.src < |h.roots| {
        ValidCells(h);
        SetRoot(h, op.dst, h.roots[op.src]);
        outcome := Done;
      }
    }
  }

  method DoLoad(h: Heap, op: Op) returns (outcome: Outcome)
    requires h.Valid() && (op.Load? || op.LoadClass?)
    modifies h`roots
    ensures h.Valid() && IsEffect(h, Apply(old(StoreOf(h)), op, 0, 0), outcome)
  {
    hide Heap.Valid, IsClass;
    outcome := Skipped;
    if op.holder < |h.roots| && h.roots[op.holder].Pointer? && op.dst < |h.roots| {
      RootIsObject(h, op.holder);
      var o := h.cells[h.roots[op.holder].target];
      if op.LoadClass? {
        SetRoot(h, op.dst, Pointer(o.cls));
        outcome := Done;
      } else if op.index < |o.vars| {
        SetRoot(h, op.dst, o.vars[op.index]);
        outcome := Done;
      }
    }
  }

  /** A pointer is stored with the write barrier, a number or character without. */
  method DoWrite(h: Heap, op: Op) returns (outcome: Outcome)
    requires h.Valid() && op.Write?
    modifies h`cells, h.rememberedSet
    ensures h.Valid() && IsEffect(h, Apply(old(StoreOf(h)), op, 0, 0), outcome)
  {
    hide Heap.Valid, IsObjectOk, IsNew;
    outcome := Skipped;
    if op.holder < |h.roots| && h.roots[op.holder].Pointer? && op.src < |h.roots| && !h.roots[op.src].Shape? {
      RootIsObject(h, op.holder);
      var a, v := h.roots[op.holder].target, h.roots[op.src];
      if op.index < |h.cells[a].vars| && !h.cells[a].vars[op.index].Shape? {
        if v.Pointer? {
          RootIsObject(h, op.src);
          RawObjectStorePtr(h, a, op.index, v.target);
        } else {
          SetVar(h, a, op.index, v);
        }
        outcome := Done;
      }
    }
  }

  method DoObserve(h: Heap, op: Op) returns (outcome: Outcome)
    requires h.Valid() && (op.Same? || op.Inspect? || op.Read?)
    ensures h.Valid() && IsEffect(h, Apply(StoreOf(h), op, 0, 0), outcome)
  {
    hide Heap.Valid, IsObjectOk;
    outcome := Skipped;
    match op
    case Same(left, right) =>
      if left < |h.roots| && right < |h.roots| {
        outcome := Answer(h.roots[left] == h.roots[right]);
      }
    case Inspect(holder) =>
      if holder < |h.roots| && h.roots[holder].Pointer? {
        RootIsObject(h, holder);
        var o := h.cells[h.roots[holder].target];
        outcome := Contents(o.hash, o.size, o.payload, o.bytes);
      }
    case Read(src) =>
      if src < |h.roots| && h.roots[src].Immediate? {
        outcome := Word(h.roots[src].word);
      }
  }

  /** A run ends early when an assertion fails, or when an object is initialised whose pointers to new space no barrier has seen. */
  datatype Status = Completed | Failed | Unbarriered

  /** The allocation will leave an object in old space whose class or variables are in new space. */
  ghost predicate MissesBarrier(c: Store, b: Bounds, op: Op) {
    op.New? && CanAllocate(c, op) && IsBarrierMissed(c.objects, c.roots, b, NIL, c.roots[op.cls].target, op.size)
  }

  /** The class of the new object and nil are in old space. */
  predicate HasOldHandles(c: Store, op: Op) {
    op.New? && CanAllocate(c, op) ==> IsOld(c.roots[op.cls].target) && IsOld(c.roots[NIL].target)
  }

  lemma OldHandlesNeedNoBarrier(c: Store, b: Bounds, op: Op)
    requires HasOldHandles(c, op)
    ensures !MissesBarrier(c, b, op)
  {
    hide IsNewSpaceFull;
  }

  /** What the heap looked like after the collections and before the object was there, and what they did. */
  ghost predicate IsAllocation(c: Store, op: Op, c1: Store, g: Renaming, p: Addr, c': Store)
    requires op.New? && CanAllocate(c, op)
  {
    var cls := c.roots[op.cls].target;
    && cls in g && NIL < |c1.roots| && p !in c1.objects
    && Refines(WithHandle(c, op.cls), c1.(roots := c1.roots + [Pointer(g[cls])]), g)
    && c' == WithRoot(Store(c1.objects[p := NewObject(p, g[cls], ShapeOf(ObjectAt(c, op.cls)), op.size, c1.roots[NIL])], c1.roots), op.dst, Pointer(p))
  }

  lemma AllocatedKeepsSmall(c: Store, op: Op, c1: Store, g: Renaming, p: Addr, cells: Cells)
    requires AreSmall(c.objects) && op.New? && CanAllocate(c, op) && IsSmallStep(c, op) && p !in c1.objects
    requires Refines(WithHandle(c, op.cls), c1.(roots := c1.roots + [Pointer(NewClass(c, op, g))]), g) && NIL < |c1.roots|
    requires cells == c1.objects[p := NewObject(p, NewClass(c, op, g), ShapeOf(ObjectAt(c, op.cls)), op.size, c1.roots[NIL])]
    ensures AreSmall(cells)
  {
    hide AreSmall, IsIsomorphism, Align, ShapeOf, IsClass;
    var cls, cls' := c.roots[op.cls].target, NewClass(c, op, g);
    var s', c' := WithHandle(c, op.cls), c1.(roots := c1.roots + [Pointer(cls')]);
    SmallIsKept(s', c', g);
    RefinesRoots(s', c', g);
    assert s'.roots[NIL] == c.roots[NIL] && s'.roots[op.cls] == c.roots[op.cls];
    RefinesObject(s', c', g, op.cls);
    RefinesObject(s', c', g, NIL);
    ShapesAgree(g, ObjectAt(s', op.cls), ObjectAt(c', op.cls));
    NewObjectIsOk(c1.objects, p, cls', ShapeOf(ObjectAt(c, op.cls)), op.size, c1.roots[NIL]);
    AddedKeepsSmall(c1.objects, p, cells[p]);
  }

  /** Where the class of the new object is after the collections. */
  function NewClass(c: Store, op: Op, g: Renaming): Addr
    requires op.New? && IsObject(c, op.cls)
  {
    var cls := c.roots[op.cls].target;
    if cls in g then g[cls] else cls
  }

  method DoNew(h: Heap, op: Op) returns (status: Status, outcome: Outcome, ghost c1: Store, ghost g: Renaming, ghost p: Addr)
    requires h.Valid() && op.New?
    modifies h.Repr()
    ensures status.Completed? ==> h.Valid()
    ensures !CanAllocate(old(StoreOf(h)), op) ==> status.Completed? && outcome == Skipped && StoreOf(h) == old(StoreOf(h))
    ensures CanAllocate(old(StoreOf(h)), op) && status.Completed? ==>
              outcome == Done && IsAllocation(old(StoreOf(h)), op, c1, g, p, StoreOf(h))
    ensures AreSmall(old(h.cells)) && HasPages(h.oldSpace.mmap) && IsSmallStep(old(StoreOf(h)), op) ==> !status.Failed?
    ensures AreSmall(old(h.cells)) && IsSmallStep(old(StoreOf(h)), op) && status.Completed? ==> AreSmall(h.cells)
    ensures status.Unbarriered? ==> MissesBarrier(old(StoreOf(h)), old(BoundsOf(h)), op)
    ensures status.Completed? ==> !MissesBarrier(old(StoreOf(h)), old(BoundsOf(h)), op)
  {
    hide IsBarrierMissed, Heap.Valid, IsObjectOk, IsIsomorphism, CannotFail, NewObject, ShapeOf, IsClass, HasPointerToNew, IsNew, AreSmall, HasPages, Align;
    ghost var c := StoreOf(h);
    if AreSmall(h.cells) && HasPages(h.oldSpace.mmap) {
      SmallCannotFail(h.cells, h.newSpace.survivorEnd, h.oldSpace.mmap);
    }
    outcome, c1, g, p := Skipped, c, map[], 0;
    if NIL < |h.roots| && h.roots[NIL].Pointer? && op.cls < |h.roots| && h.roots[op.cls].Pointer? && op.dst < |h.roots| {
      RootIsObject(h, NIL);
      RootIsObject(h, op.cls);
      var cls := h.roots[op.cls].target;
      if IsClass(h.cells[cls]) && (ShapeOf(h.cells[cls]).isIndexed || op.size == 0) {
        var ok, object';
        ok, object', g := AllocateObject(h, NIL, cls, op.size);
        if !ok {
          return Failed, Done, c, g, 0;
        }
        p := object';
        c1 := Store(h.cells - {p}, h.roots);
        if IsOld(object') && HasPointerToNew(h.cells[object']) {
          return Unbarriered, Done, c1, g, p;
        }
        assert h.cells == c1.objects[p := h.cells[p]];
        GraphIsIsomorphic(c.objects, c.roots + [Pointer(cls)], c1.objects, c1.roots + [Pointer(g[cls])], g);
        RootsAreAsMany(WithHandle(c, op.cls), c1.(roots := c1.roots + [Pointer(g[cls])]), g);
        if AreSmall(c.objects) && IsSmallStep(c, op) {
          AllocatedKeepsSmall(c, op, c1, g, p, h.cells);
        }
        SetRoot(h, op.dst, Pointer(object'));
        return Completed, Done, c1, g, p;
      }
    }
    status := Completed;
  }

  lemma RootsAreAsMany(s: Store, c: Store, f: Renaming)
    requires Refines(s, c, f)
    ensures |s.roots| == |c.roots|
  {
    hide MapsRoots, IsInjective, IsOnto, MapsObject;
    RefinesRoots(s, c, f);
  }

  /** The effect of an allocation, and of the collections that came with it, as seen from the store. */
  lemma NewCommutes(s: Store, c: Store, f: Renaming, op: Op, c1: Store, g: Renaming, p: Addr, c': Store, name: Addr)
      returns (hash: nat, f': Renaming)
    requires Refines(s, c, f) && op.New? && CanAllocate(c, op) && IsAllocation(c, op, c1, g, p, c') && name !in s.objects
    ensures Apply(s, op, name, hash).outcome == Done && Refines(Apply(s, op, name, hash).store, c', f')
  {
    hide IsIsomorphism, NewObject, ShapeOf, IsClass, WithRoot, MapsValue, MapsObject;
    AllocationCommutes(s, c, f, op);
    HandleIsAdded(s, c, f, op.cls);
    var cls, shape, h := Then(f, g), ShapeOf(ObjectAt(s, op.cls)), g[c.roots[op.cls].target];
    IsomorphismsCompose(WithHandle(s, op.cls).objects, WithHandle(s, op.cls).roots, WithHandle(c, op.cls).objects, WithHandle(c, op.cls).roots,
                        c1.objects, c1.roots + [Pointer(h)], f, g);
    HandleIsDropped(s, c1, cls, op.cls, Pointer(h));
    RefinesRoots(s, c1, cls);
    assert MapsValue(cls, s.roots[NIL], c1.roots[NIL]);
    NewObjectMaps(cls, name, s.roots[op.cls].target, p, h, shape, op.size, s.roots[NIL], c1.roots[NIL]);
    var o' := NewObject(p, h, shape, op.size, c1.roots[NIL]);
    hash := o'.hash;
    var o := NewObject(name, s.roots[op.cls].target, shape, op.size, s.roots[NIL]).(hash := hash);
    ObjectIsAdded(s, c1, cls, name, o, p, o');
    f' := cls[name := p];
    AddedMaps(cls, name, p);
    RootIsReplaced(Store(s.objects[name := o], s.roots), Store(c1.objects[p := o'], c1.roots), f', op.dst, Pointer(name), Pointer(p));
  }

  lemma AddedMaps(f: Renaming, name: Addr, p: Addr)
    ensures MapsValue(f[name := p], Pointer(name), Pointer(p))
  {
  }

  lemma CollectionCommutes(s: Store, c: Store, f: Renaming, c': Store, g: Renaming)
    requires Refines(s, c, f) && IsGraphKept(c.objects, c.roots, c'.objects, c'.roots, g)
    ensures Refines(s, c', Then(f, g))
  {
    hide IsIsomorphism;
    IsomorphismsCompose(s.objects, s.roots, c.objects, c.roots, c'.objects, c'.roots, f, g);
  }

  lemma CollectionKeepsSmall(c: Store, c': Store, g: Renaming)
    requires AreSmall(c.objects) && IsGraphKept(c.objects, c.roots, c'.objects, c'.roots, g)
    ensures AreSmall(c'.objects)
  {
    hide IsIsomorphism, AreSmall;
    SmallIsKept(c, c', g);
  }

  method DoPlain(h: Heap, op: Op) returns (outcome: Outcome)
    requires h.Valid() && IsPlain(op)
    modifies h`cells, h`roots, h.rememberedSet
    ensures h.Valid() && IsEffect(h, Apply(old(StoreOf(h)), op, 0, 0), outcome)
  {
    hide Heap.Valid, IsEffect, Apply;
    match op
    case Put(_, _) => outcome := DoMove(h, op);
    case Move(_, _) => outcome := DoMove(h, op);
    case Load(_, _, _) => outcome := DoLoad(h, op);
    case LoadClass(_, _) => outcome := DoLoad(h, op);
    case Write(_, _, _) => outcome := DoWrite(h, op);
    case Same(_, _) => outcome := DoObserve(h, op);
    case Inspect(_) => outcome := DoObserve(h, op);
    case Read(_) => outcome := DoObserve(h, op);
  }

  /** One operation: its outcome, and what the heap holds afterwards, are those of the store. */
  method Step(h: Heap, op: Op, ghost s: Store, ghost f: Renaming) returns (status: Status, outcome: Outcome, ghost s': Store, ghost f': Renaming)
    requires h.Valid() && Refines(s, StoreOf(h), f)
    modifies h.Repr()
    ensures status.Completed? ==> h.Valid() && IsStep(s, op, outcome, s') && Refines(s', StoreOf(h), f')
    ensures AreSmall(old(h.cells)) && HasPages(h.oldSpace.mmap) && IsSmallStep(s, op) ==> !status.Failed?
    ensures AreSmall(old(h.cells)) && IsSmallStep(s, op) && status.Completed? ==> AreSmall(h.cells)
    ensures status.Unbarriered? ==> MissesBarrier(old(StoreOf(h)), old(BoundsOf(h)), op)
    ensures status.Completed? ==> !MissesBarrier(old(StoreOf(h)), old(BoundsOf(h)), op)
  {
    hide IsBarrierMissed, Heap.Valid, Refines, Apply, CannotFail, IsGraphKept, CanAllocate, IsAllocation, AreSmall, HasPages, AreObjectsOk, IsNew;
    if AreSmall(h.cells) && HasPages(h.oldSpace.mmap) {
      SmallCannotFail(h.cells, h.newSpace.survivorEnd, h.oldSpace.mmap);
    }
    ValidCells(h);
    ghost var c := StoreOf(h);
    ghost var name := FreshName(s.objects.Keys);
    s', f' := s, f;
    match op
    case New(_, _, _) =>
      ghost var c1, g, p;
      status, outcome, c1, g, p := DoNew(h, op);
      AllocationCommutes(s, c, f, op);
      if !CanAllocate(c, op) {
        SkippedIsStep(s, op, name);
      } else if status.Completed? {
        ghost var hash;
        hash, f' := NewCommutes(s, c, f, op, c1, g, p, StoreOf(h), name);
        s' := Apply(s, op, name, hash).store;
        assert Apply(s, op, name, hash) == Effect(Done, s');
      }
    case Collect =>
      ghost var g;
      var ok;
      ok, g := CollectGarbage(h);
      if !ok {
        return Failed, Done, s, f;
      }
      status, outcome := Completed, Done;
      CollectionCommutes(s, c, f, StoreOf(h), g);
      if AreSmall(c.objects) {
        CollectionKeepsSmall(c, StoreOf(h), g);
      }
      f' := Then(f, g);
      CollectIsStep(s, name);
    case _ =>
      status := Completed;
      outcome := DoPlain(h, op);
      ghost var e, e' := Apply(s, op, name, 0), Apply(c, op, 0, 0);
      PlainIgnoresName(c, op, name, 0);
      PlainOpCommutes(s, c, f, op, name, 0);
      if AreSmall(c.objects) {
        PlainKeepsSmall(c, op, StoreOf(h));
      }
      TagsAreInvisible(e.store, e'.store, StoreOf(h), f);
      s' := e.store;
      assert Apply(s, op, name, 0) == Effect(outcome, s');
  }

  lemma SkippedIsStep(s: Store, op: Op, name: Addr)
    requires op.New? && !CanAllocate(s, op) && name !in s.objects
    ensures IsStep(s, op, Skipped, s)
  {
    assert Apply(s, op, name, 0) == Effect(Skipped, s);
  }

  lemma CollectIsStep(s: Store, name: Addr)
    requires name !in s.objects
    ensures IsStep(s, Collect, Done, s)
  {
    assert Apply(s, Collect, name, 0) == Effect(Done, s);
  }

  lemma PlainIgnoresName(s: Store, op: Op, name: Addr, hash: nat)
    requires IsPlain(op)
    ensures Apply(s, op, name, hash) == Apply(s, op, 0, 0)
  {
  }

  /** The store went through the states of `trace` with these outcomes. */
  ghost predicate IsRun(ops: seq<Op>, outcomes: seq<Outcome>, trace: seq<Store>) {
    && |trace| == |outcomes| + 1 && |outcomes| <= |ops|
    && forall i :: 0 <= i < |outcomes| ==> IsStep(trace[i], ops[i], outcomes[i], trace[i + 1])
  }

  lemma RunGoesOn(ops: seq<Op>, outcomes: seq<Outcome>, trace: seq<Store>, outcome: Outcome, s': Store)
    requires IsRun(ops, outcomes, trace) && |outcomes| < |ops| && IsStep(trace[|outcomes|], ops[|outcomes|], outcome, s')
    ensures IsRun(ops, outcomes + [outcome], trace + [s'])
  {
    hide IsStep;
    var outcomes', trace' := outcomes + [outcome], trace + [s'];
    forall i | 0 <= i < |outcomes'|
      ensures IsStep(trace'[i], ops[i], outcomes'[i], trace'[i + 1])
    {
      assert i < |outcomes| ==> IsStep(trace[i], ops[i], outcomes[i], trace[i + 1]);
    }
  }

  /** The heap when an operation starts. */
  datatype Moment = Moment(store: Store, bounds: Bounds)

  ghost function MomentOf(h: Heap): Moment
    reads h, h.newSpace
  {
    Moment(StoreOf(h), BoundsOf(h))
  }

  /** At this moment the heap refined the store. */
  ghost predicate IsMomentOf(m: Moment, s: Store) {
    exists f :: Refines(s, m.store, f)
  }

  /** `moments` tells of each operation that was begun what the heap was like; all but the last were completed. */
  ghost predicate AreMoments(ops: seq<Op>, trace: seq<Store>, moments: seq<Moment>, count: nat) {
    && count <= |moments| <= count + 1 && |moments| <= |ops| && |moments| <= |trace|
    && (forall i :: 0 <= i < |moments| ==> IsMomentOf(moments[i], trace[i]))
    && (forall i :: 0 <= i < count ==> !MissesBarrier(moments[i].store, moments[i].bounds, ops[i]))
  }

  lemma NextMoment(ops: seq<Op>, trace: seq<Store>, moments: seq<Moment>, m: Moment, f: Renaming)
    requires AreMoments(ops, trace, moments, |moments|) && |moments| < |ops| && |moments| < |trace| && Refines(trace[|moments|], m.store, f)
    ensures AreMoments(ops, trace, moments + [m], |moments|)
    ensures !MissesBarrier(m.store, m.bounds, ops[|moments|]) ==> AreMoments(ops, trace, moments + [m], |moments| + 1)
  {
    hide Refines, MissesBarrier;
    assert IsMomentOf(m, trace[|moments|]);
  }

  lemma LongerTrace(ops: seq<Op>, trace: seq<Store>, moments: seq<Moment>, s': Store)
    requires AreMoments(ops, trace, moments, |moments|)
    ensures AreMoments(ops, trace + [s'], moments, |moments|)
  {
    hide IsMomentOf, MissesBarrier;
  }

  /**
   Any list of operations on a valid heap has the outcomes it would have on a store that is never
   collected, and leaves a valid heap that is isomorphic to what is in use of the store.
   */
  method Run(h: Heap, ops: seq<Op>, ghost s: Store, ghost f: Renaming)
    returns (status: Status, outcomes: seq<Outcome>, ghost trace: seq<Store>, ghost f': Renaming, ghost moments: seq<Moment>)
    requires h.Valid() && Refines(s, StoreOf(h), f)
    modifies h.Repr()
    ensures IsRun(ops, outcomes, trace) && trace[0] == s
    ensures status.Completed? ==> |outcomes| == |ops| && h.Valid() && Refines(trace[|ops|], StoreOf(h), f')
    // No assertion fails while all objects are small and the operating system has pages left.
    ensures status.Failed? && HasPages(h.oldSpace.mmap) && AreSmall(old(h.cells)) ==>
              exists i :: 0 <= i < |trace| && i < |ops| && !IsSmallStep(trace[i], ops[i])
    // The barrier is missed by an allocation in old space whose class or nil is young, and by no other.
    ensures AreMoments(ops, trace, moments, |outcomes|) && (ops != [] ==> moments != [] && moments[0] == old(MomentOf(h)))
    ensures status.Unbarriered? ==>
              |moments| == |outcomes| + 1 && MissesBarrier(moments[|outcomes|].store, moments[|outcomes|].bounds, ops[|outcomes|])
    // So a run never ends that way in which class and nil are in old space whenever an object is allocated.
    ensures (forall i :: 0 <= i < |moments| ==> HasOldHandles(moments[i].store, ops[i])) ==> !status.Unbarriered?
  {
    hide MissesBarrier, HasOldHandles, AreMoments, Heap.Valid, Refines, IsStep, IsRun, AreSmall, HasPages, IsSmallStep, IsNew, CanAllocate;
    status, outcomes, trace, f', moments := Completed, [], [s], f, [];
    EmptyRun(ops, s);
    while |outcomes| < |ops|
      invariant IsRun(ops, outcomes, trace) && |trace| == |outcomes| + 1 && |outcomes| <= |ops| && trace[0] == s
      invariant status.Completed? && h.Valid() && Refines(trace[|outcomes|], StoreOf(h), f')
      invariant AreSmall(old(h.cells)) && (forall i :: 0 <= i < |outcomes| ==> IsSmallStep(trace[i], ops[i])) ==> AreSmall(h.cells)
      invariant |moments| == |outcomes| && AreMoments(ops, trace, moments, |moments|)
      invariant if moments == [] then MomentOf(h) == old(MomentOf(h)) else moments[0] == old(MomentOf(h))
    {
      var outcome;
      ghost var s', m := s, MomentOf(h);
      NextMoment(ops, trace, moments, m, f');
      moments := moments + [m];
      if HasOldHandles(m.store, ops[|outcomes|]) {
        OldHandlesNeedNoBarrier(m.store, m.bounds, ops[|outcomes|]);
      }
      status, outcome, s', f' := Step(h, ops[|outcomes|], trace[|outcomes|], f');
      if !status.Completed? {
        return;
      }
      LongerTrace(ops, trace, moments, s');
      RunGoesOn(ops, outcomes, trace, outcome, s');
      outcomes, trace := outcomes + [outcome], trace + [s'];
    }
  }

  lemma EmptyRun(ops: seq<Op>, s: Store)
    ensures IsRun(ops, [], [s]) && AreMoments(ops, [s], [], 0)
  {
  }

  /** A heap refines the store that holds the same objects. */
  lemma HeapRefinesItself(h: Heap)
    requires h.Valid()
    ensures Refines(StoreOf(h), StoreOf(h), Identity(h.cells.Keys))
  {
    hide Heap.Valid, IsIsomorphism;
    ValidCells(h);
    NothingIsKept(h.cells, h.roots);
  }
}
