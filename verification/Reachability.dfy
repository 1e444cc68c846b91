/** The object graph: an object points to its class and to the targets of its pointer variables. */
module Reachability {
  import opened ObjectModel

  predicate HasEdge(o: Object, b: Addr) {
    o.cls == b || Pointer(b) in o.vars
  }

  ghost predicate IsPath(cells: Cells, start: set<Addr>, path: seq<Addr>) {
    && path != []
    && path[0] in start
    && (forall i :: 0 <= i < |path| ==> path[i] in cells)
    && (forall i :: 0 <= i < |path| - 1 ==> HasEdge(cells[path[i]], path[i + 1]))
  }

  ghost predicate IsReachable(cells: Cells, start: set<Addr>, a: Addr) {
    exists path :: IsPath(cells, start, path) && path[|path| - 1] == a
  }

  ghost function ReachableSet(cells: Cells, start: set<Addr>): set<Addr> {
    set a | a in cells && IsReachable(cells, start, a)
  }

  /** A set of objects that no edge leaves. */
  ghost predicate IsClosed(cells: Cells, s: set<Addr>) {
    s <= cells.Keys && forall a, b {:trigger HasEdge(cells[a], b)} :: a in s && HasEdge(cells[a], b) ==> b in s
  }

  function RootTargets(roots: seq<Value>): set<Addr> {
    set v | v in roots && v.Pointer? :: v.target
  }

  lemma ReachableIsClosed(cells: Cells, start: set<Addr>)
    requires IsClosed(cells, cells.Keys) && start <= cells.Keys
    ensures IsClosed(cells, ReachableSet(cells, start)) && start <= ReachableSet(cells, start)
  {
    forall a | a in start
      ensures IsReachable(cells, start, a)
    {
      assert IsPath(cells, start, [a]) && [a][|[a]| - 1] == a;
    }
    forall a, b | a in ReachableSet(cells, start) && HasEdge(cells[a], b)
      ensures b in ReachableSet(cells, start)
    {
      var path :| IsPath(cells, start, path) && path[|path| - 1] == a;
      assert IsPath(cells, start, path + [b]) && (path + [b])[|path + [b]| - 1] == b;
    }
  }

  lemma {:induction false} PathStaysInside(cells: Cells, start: set<Addr>, path: seq<Addr>, s: set<Addr>)
    requires IsPath(cells, start, path) && IsClosed(cells, s) && start <= s
    ensures path[|path| - 1] in s
  {
    if |path| > 1 {
      var front := path[..|path| - 1];
      assert IsPath(cells, start, front);
      PathStaysInside(cells, start, front, s);
      assert HasEdge(cells[path[|path| - 2]], path[|path| - 1]);
    }
  }

  /** What is reachable is the least closed set that holds the start. */
  lemma ReachableIsLeast(cells: Cells, start: set<Addr>, s: set<Addr>)
    requires IsClosed(cells, s) && start <= s
    ensures ReachableSet(cells, start) <= s
  {
    forall a | a in ReachableSet(cells, start)
      ensures a in s
    {
      var path :| IsPath(cells, start, path) && path[|path| - 1] == a;
      PathStaysInside(cells, start, path, s);
    }
  }
}
