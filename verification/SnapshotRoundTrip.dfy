/** Reading what was written gives the object graph back. */
module SnapshotRoundTrips {
  import opened Collections
  import opened ObjectModel
  import opened Reachability
  import opened Isomorphisms
  import opened SnapshotFormats
  import opened SnapshotWriting
  import opened SnapshotReading

  /** A value as the word it is in memory: the shape of a class is a word like any other. */
  function RawValue(v: Value): Value {
    if v.Shape? then Immediate(ShapeWord(v.shape)) else v
  }

  /** An object as far as a snapshot tells of it: without its payload. */
  function RawObject(o: Object): Object {
    o.(payload := [], vars := seq(|o.vars|, i requires 0 <= i < |o.vars| => RawValue(o.vars[i])))
  }

  function RawCells(cells: Cells): Cells {
    map a | a in cells :: RawObject(cells[a])
  }

  /** Where the object that was written as `a` is found after reading. */
  function Restoration(ids: IdTable, table: ObjectTable): Renaming {
    map a | a in ids && ids[a] in table && table[ids[a]].Pointer? :: table[ids[a]].target
  }

  lemma FieldMaps(cells: Cells, ids: IdTable, cells': Cells, table: ObjectTable, f: Field, v: Value)
    requires Describes(cells, ids, f, v) && IsLoaded(cells', table, f) && IsTable(table, cells')
    ensures MapsValue(Restoration(ids, table), RawValue(v), ValueOf(table, f)) && RawValue(ValueOf(table, f)) == ValueOf(table, f)
  {
    hide IsRestored, IsClass, ShapeOf, ShapeWord;
  }

  lemma RecordMaps(cells: Cells, ids: IdTable, cells': Cells, table: ObjectTable, f: Field, v: Value)
    requires Describes(cells, ids, f, v) && IsLoaded(cells', table, f) && IsTable(table, cells') && f.Inline?
    ensures v.Pointer? && v.target in cells && v.target in Restoration(ids, table)
    ensures var p := Restoration(ids, table)[v.target];
            p in cells' && MapsObject(Restoration(ids, table), RawObject(cells[v.target]), RawObject(cells'[p]))
  {
    hide IsTable, Restoration, RawValue, ValueOf, MapsValue, IsClass, ShapeOf, HashOfWord;
    FieldMaps(cells, ids, cells', table, f, v);
    RecordTarget(ids, table, f, v);
    FieldMaps(cells, ids, cells', table, f.cls, Pointer(cells[v.target].cls));
    PointerMaps(Restoration(ids, table), cells[v.target].cls, ValueOf(table, f.cls));
    var o, c := cells[v.target], cells'[table[f.id].target];
    forall i | 0 <= i < |o.vars|
      ensures MapsValue(Restoration(ids, table), RawValue(o.vars[i]), RawValue(c.vars[i]))
    {
      FieldMaps(cells, ids, cells', table, f.vars[i], o.vars[i]);
    }
  }

  lemma RecordTarget(ids: IdTable, table: ObjectTable, f: Field, v: Value)
    requires f.Inline? && v.Pointer? && v.target in ids && ids[v.target] == f.id && f.id in table && table[f.id].Pointer?
    ensures v.target in Restoration(ids, table) && Restoration(ids, table)[v.target] == table[f.id].target
  {
  }

  lemma PointerMaps(f: Renaming, a: Addr, w: Value)
    requires MapsValue(f, RawValue(Pointer(a)), w)
    ensures a in f && w == Pointer(f[a])
  {
  }

  /** All objects whose records are inside a field. */
  ghost predicate AreRestored(cells: Cells, ids: IdTable, cells': Cells, table: ObjectTable, records: set<nat>) {
    forall a :: a in ids && ids[a] in records ==>
      && a in cells && a in Restoration(ids, table) && Restoration(ids, table)[a] in cells'
      && MapsObject(Restoration(ids, table), RawObject(cells[a]), RawObject(cells'[Restoration(ids, table)[a]]))
  }

  lemma {:induction false} FieldIsRestored(cells: Cells, ids: IdTable, cells': Cells, table: ObjectTable, f: Field, v: Value)
    requires Describes(cells, ids, f, v) && IsLoaded(cells', table, f) && IsTable(table, cells') && AreIds(ids)
    ensures AreRestored(cells, ids, cells', table, Ids(f))
    decreases f
  {
    hide IsTable, Restoration, MapsObject, RawObject, IsRestored, IsClass, ShapeOf, HashOfWord;
    if f.Inline? {
      FieldIsRestored(cells, ids, cells', table, f.cls, Pointer(cells[v.target].cls));
      FieldsAreRestored(cells, ids, cells', table, f.vars, cells[v.target].vars);
      RecordMaps(cells, ids, cells', table, f, v);
    }
  }

  lemma {:induction false} FieldsAreRestored(cells: Cells, ids: IdTable, cells': Cells, table: ObjectTable, fields: seq<Field>, values: seq<Value>)
    requires |fields| == |values| && IsTable(table, cells') && AreIds(ids)
    requires forall i :: 0 <= i < |fields| ==> Describes(cells, ids, fields[i], values[i]) && IsLoaded(cells', table, fields[i])
    ensures AreRestored(cells, ids, cells', table, IdsOfAll(fields))
    decreases fields
  {
    hide IsTable, Restoration, MapsObject, RawObject, Describes, IsLoaded, Ids, AreIds;
    if fields != [] {
      var last := |fields| - 1;
      FieldsAreRestored(cells, ids, cells', table, fields[..last], values[..last]);
      FieldIsRestored(cells, ids, cells', table, fields[last], values[last]);
    }
  }

  // ---------- The whole file ----------

  function Pointers(objects: seq<Addr>): seq<Value> {
    seq(|objects|, i requires 0 <= i < |objects| => Pointer(objects[i]))
  }

  /** The objects that have got a record are exactly those that are reachable. */
  lemma RestoredAreReachable(cells: Cells, handles: seq<Addr>, roots: seq<Addr>, ids: IdTable, fields: seq<Field>, objects: seq<Value>,
                             cells': Cells, table: ObjectTable)
    requires IsSnapshot(cells, handles, roots, ids, fields, objects) && IsTable(table, cells') && table.Keys == IdsOfAll(fields)
    ensures Restoration(ids, table).Keys == ReachableSet(cells, SetOf(roots))
    ensures forall a :: a in ids ==> (ids[a] in table <==> a in ReachableSet(cells, SetOf(roots)))
  {
    hide ReachableSet, IsSnapshot, IdsOfAll, IdsOf, IsTable, AreIds;
    var reachable := ReachableSet(cells, SetOf(roots));
    SnapshotIds(cells, handles, roots, ids, fields, objects);
    TableHasPointers(table, cells');
    forall a | a in ids
      ensures ids[a] in table <==> a in reachable
    {
      IdIsOfReachable(ids, reachable, a);
    }
  }

  lemma SnapshotIds(cells: Cells, handles: seq<Addr>, roots: seq<Addr>, ids: IdTable, fields: seq<Field>, objects: seq<Value>)
    requires IsSnapshot(cells, handles, roots, ids, fields, objects)
    ensures AreIds(ids) && ReachableSet(cells, SetOf(roots)) <= ids.Keys
    ensures IdsOfAll(fields) == IdsOf(ids, ReachableSet(cells, SetOf(roots)))
  {
  }

  lemma TableHasPointers(table: ObjectTable, cells: Cells)
    requires IsTable(table, cells)
    ensures forall id :: id in table ==> table[id].Pointer?
  {
  }

  lemma IdIsOfReachable(ids: IdTable, objects: set<Addr>, a: Addr)
    requires AreIds(ids) && a in ids
    ensures ids[a] in IdsOf(ids, objects) <==> a in objects
  {
    if ids[a] in IdsOf(ids, objects) {
      var b :| b in objects && b in ids && ids[b] == ids[a];
    }
  }

  /** The graph that was read is isomorphic to the one that is reachable from the handles. */
  lemma RestorationIsIsomorphism(cells: Cells, handles: seq<Addr>, roots: seq<Addr>, ids: IdTable, fields: seq<Field>, objects: seq<Value>,
                                 cells': Cells, table: ObjectTable, restored: seq<Value>)
    requires IsSnapshot(cells, handles, roots, ids, fields, objects) && IsTable(table, cells') && table.Keys == IdsOfAll(fields)
    requires forall k :: 0 <= k < |fields| ==> IsLoaded(cells', table, fields[k])
    requires HasNoDuplicates(handles) && (forall i :: 0 <= i < |handles| ==> handles[i] in ReachableSet(cells, SetOf(roots)))
    requires |restored| == |handles| && (forall i :: 0 <= i < |handles| ==> i in table && restored[i] == table[i])
    ensures IsIsomorphism(RawCells(cells), Pointers(handles), RawCells(cells'), restored, Restoration(ids, table))
  {
    hide ReachableSet, Describes, IsWellFormed, AreOrdered, IdsOfAll, RegisterAll, IsImage, IsLoaded, MapsObject, RawObject, IsTable, Restoration, AreIds, AreRestored, IsOnto, IsInjective;
    var f := Restoration(ids, table);
    FieldsAreRestored(cells, ids, cells', table, fields, objects);
    RestoredAreReachable(cells, handles, roots, ids, fields, objects, cells', table);
    RestoredObjects(cells, ids, cells', table, IdsOfAll(fields));
    RestorationIsBijective(cells, handles, roots, ids, fields, objects, cells', table);
    BuiltinIds(handles);
    forall i | 0 <= i < |handles|
      ensures MapsValue(f, Pointers(handles)[i], restored[i])
    {
      RestoredHandle(ids, table, cells', handles[i]);
    }
  }

  lemma RestoredObjects(cells: Cells, ids: IdTable, cells': Cells, table: ObjectTable, records: set<nat>)
    requires AreRestored(cells, ids, cells', table, records) && table.Keys == records
    ensures MapsObjects(Restoration(ids, table), RawCells(cells), RawCells(cells'))
  {
    hide MapsObject, RawObject;
  }

  lemma RestoredHandle(ids: IdTable, table: ObjectTable, cells: Cells, a: Addr)
    requires IsTable(table, cells) && a in ids && ids[a] in table
    ensures MapsValue(Restoration(ids, table), Pointer(a), table[ids[a]])
  {
  }

  lemma RestorationIsBijective(cells: Cells, handles: seq<Addr>, roots: seq<Addr>, ids: IdTable, fields: seq<Field>, objects: seq<Value>,
                               cells': Cells, table: ObjectTable)
    requires IsSnapshot(cells, handles, roots, ids, fields, objects) && IsTable(table, cells') && table.Keys == IdsOfAll(fields)
    ensures IsInjective(Restoration(ids, table)) && IsOnto(Restoration(ids, table), RawCells(cells'))
  {
    hide ReachableSet, Describes, IsWellFormed, AreOrdered, IdsOfAll, RegisterAll, IdsGrow, RawObject;
    forall p | p in RawCells(cells')
      ensures IsImageOfSome(Restoration(ids, table), p)
    {
      assert IsImage(table, p);
      var id :| id in table && table[id] == Pointer(p);
      assert id in IdsOf(ids, ReachableSet(cells, SetOf(roots)));
      var a :| a in ReachableSet(cells, SetOf(roots)) && a in ids && ids[a] == id;
      assert Restoration(ids, table)[a] == p;
    }
  }

  /** What was read is isomorphic to the part of the heap that was written, each handle going to the image of its object. */
  ghost predicate IsRestoration(cells: Cells, handles: seq<Addr>, written: set<Addr>, cells': Cells, restored: seq<Value>) {
    exists f: Renaming :: f.Keys == written && IsIsomorphism(RawCells(cells), Pointers(handles), RawCells(cells'), restored, f)
  }

  /**
   snapshotWrite followed by snapshotRead, for any heap and any allocator.  If every builtin object is
   reachable and held by one handle, the i-th handle is restored to the image of the i-th object.  The
   writer fails exactly when there are too many objects for its dictionary.
   */
  method WriteAndRead(cells: Cells, handles: seq<Addr>, roots: seq<Addr>, allocate: (Cells, nat) -> Addr, memory: Addr -> seq<nat>)
    returns (ok: bool, cells': Cells, restored: seq<Value>)
    requires IsSource(cells, SetOf(roots)) && IsAllocator(allocate)
    requires HasNoDuplicates(handles) && forall i :: 0 <= i < |handles| ==> handles[i] in ReachableSet(cells, SetOf(roots))
    ensures ok <==> !IsTooLarge(SetOf(handles), ReachableSet(cells, SetOf(roots)))
    ensures ok ==> IsRestoration(cells, handles, ReachableSet(cells, SetOf(roots)), cells', restored)
  {
    hide IsSource, ReachableSet, IsIsomorphism, IsTable, IsLoaded, IsAllocator, Restoration, IsSnapshot, AreOrdered, IsWellFormed, IdsOfAll, FlattenAll, IdsGrow, RegisterAll, HasNoDuplicates, IsTooLarge;
    var writer := new SnapshotWriter(cells);
    ghost var fields, objects;
    ok, fields, objects := writer.Write(handles, roots);
    cells', restored := map[], [];
    if !ok {
      return;
    }
    var reader := new SnapshotReader(writer.out, allocate, memory);
    SnapshotIsWellFormed(cells, handles, roots, writer.ids, fields, objects);
    reader.Read(fields);
    RestoredAreReachable(cells, handles, roots, writer.ids, fields, objects, reader.cells, reader.table);
    HandlesAreKnown(handles, writer.ids, reader.table, ReachableSet(cells, SetOf(roots)));
    restored := reader.CreateBuiltinObjectsHandles(|handles|);
    RestorationIsIsomorphism(cells, handles, roots, writer.ids, fields, objects, reader.cells, reader.table, restored);
    cells' := reader.cells;
    assert IsIsomorphism(RawCells(cells), Pointers(handles), RawCells(cells'), restored, Restoration(writer.ids, reader.table));
  }

  lemma SnapshotIsWellFormed(cells: Cells, handles: seq<Addr>, roots: seq<Addr>, ids: IdTable, fields: seq<Field>, objects: seq<Value>)
    requires IsSnapshot(cells, handles, roots, ids, fields, objects)
    ensures AreOrdered({}, fields) && IdsGrow(RegisterAll(handles), ids)
    ensures forall k :: 0 <= k < |fields| ==> fields[k].Inline? && IsWellFormed(fields[k])
  {
  }

  /** The i-th handle is found under the id i exactly when its object was written. */
  lemma HandlesAreKnown(handles: seq<Addr>, ids: IdTable, table: ObjectTable, reachable: set<Addr>)
    requires HasNoDuplicates(handles) && IdsGrow(RegisterAll(handles), ids)
    requires forall a :: a in ids ==> (ids[a] in table <==> a in reachable)
    ensures forall i :: 0 <= i < |handles| ==> (i in table <==> handles[i] in reachable)
  {
    hide RegisterAll, HasNoDuplicates;
    BuiltinIds(handles);
    forall i | 0 <= i < |handles|
      ensures i in table <==> handles[i] in reachable
    {
      assert handles[i] in ids && ids[handles[i]] == i;
    }
  }
}
