/**
 The dictionaries of the virtual machine (vm/Dictionary.c): open addressing with linear probing.

 `K` stands for the keys as their comparator sees them, symbols by identity or strings by contents;
 `hash` is what the comparator goes with.  An association is an object of its own, which the model
 tells from others by a number.
 */
module Dictionaries {
  import opened Collections

  datatype Option<V> = None | Some(value: V)

  datatype Entry<K, V> = Nil | Assoc(id: nat, key: K, value: V)

  /** Bitwise conjunction. */
  function BitAnd(a: nat, b: nat): (c: nat)
    ensures c <= b
  {
    if a == 0 || b == 0 then 0 else 2 * BitAnd(a / 2, b / 2) + if a % 2 == 1 && b % 2 == 1 then 1 else 0
  }

  /** The place where the search for a key starts: `hash & size - 1`. */
  function Home(hash: nat, size: nat): (i: nat)
    requires 0 < size
    ensures i < size
  {
    BitAnd(hash, size - 1)
  }

  function PowerOfTwo(k: nat): (size: nat)
    ensures 0 < size
  {
    if k == 0 then 1 else 2 * PowerOfTwo(k - 1)
  }

  lemma LowestBitApart(a: nat, m: nat)
    requires 0 < m
    ensures a % (2 * m) == 2 * (a / 2 % m) + a % 2
  {
    var q, r := a / 2 / m, a / 2 % m;
    assert a / 2 == m * q + r;
    assert a == (2 * m) * q + (2 * r + a % 2);
    RemainderIs(a, 2 * m, q, 2 * r + a % 2);
  }

  lemma MultipleIsApart(m: nat, d: int)
    ensures 1 <= d ==> m <= m * d
    ensures d <= -1 ==> m * d + m <= 0
  {
  }

  lemma RemainderIs(a: nat, m: nat, q: nat, r: nat)
    requires a == m * q + r && r < m
    ensures a % m == r
  {
    var d := a / m - q;
    assert m * d == r - a % m;
    MultipleIsApart(m, d);
  }

  lemma MaskIsOdd(a: nat, m: nat)
    requires 0 < m
    ensures BitAnd(a, 2 * m - 1) == 2 * BitAnd(a / 2, m - 1) + a % 2
  {
    assert (2 * m - 1) / 2 == m - 1 && (2 * m - 1) % 2 == 1;
  }

  lemma MaskTakesRemainder(a: nat, m: nat)
    requires 0 < m && BitAnd(a / 2, m - 1) == a / 2 % m
    ensures BitAnd(a, 2 * m - 1) == a % (2 * m)
  {
    MaskIsOdd(a, m);
    LowestBitApart(a, m);
  }

  /** For capacities that are powers of two, the mask takes the remainder of the hash. */
  lemma {:induction false} HomeIsRemainder(hash: nat, k: nat)
    ensures Home(hash, PowerOfTwo(k)) == hash % PowerOfTwo(k)
  {
    hide BitAnd;
    if k > 0 {
      HomeIsRemainder(hash / 2, k - 1);
      MaskTakesRemainder(hash, PowerOfTwo(k - 1));
    }
  }

  /** The place `d` steps further, around the end. */
  function Step(i: nat, d: nat, size: nat): (j: nat)
    requires i < size && d < size
    ensures j < size
  {
    if i + d < size then i + d else i + d - size
  }

  /** Every place is fewer than `size` steps away. */
  function Distance(i: nat, j: nat, size: nat): (d: nat)
    requires i < size && j < size
    ensures d < size && Step(i, d, size) == j
  {
    if i <= j then j - i else j + size - i
  }

  ghost predicate HasKey<K, V>(s: seq<Entry<K, V>>, i: nat, key: K) {
    i < |s| && s[i].Assoc? && s[i].key == key
  }

  /** The search for the key of entry `i` does not stop before it gets there. */
  ghost predicate IsFound<K, V>(s: seq<Entry<K, V>>, hash: K -> nat, i: nat)
    requires i < |s| && s[i].Assoc?
  {
    var home := Home(hash(s[i].key), |s|);
    forall e :: 0 <= e < Distance(home, i, |s|) ==> s[Step(home, e, |s|)].Assoc?
  }

  /** Keys are stored once. */
  ghost predicate AreKeysDistinct<K, V>(s: seq<Entry<K, V>>) {
    forall i, j :: 0 <= i < j < |s| && s[i].Assoc? && s[j].Assoc? ==> s[i].key != s[j].key
  }

  ghost predicate IsTable<K, V>(s: seq<Entry<K, V>>, hash: K -> nat) {
    && (forall i :: 0 <= i < |s| && s[i].Assoc? ==> IsFound(s, hash, i))
    && AreKeysDistinct(s)
  }

  ghost function AsMap<K, V>(s: seq<Entry<K, V>>): map<K, V> {
    if s == [] then map[]
    else
      var init, last := AsMap(s[..|s| - 1]), s[|s| - 1];
      if last.Assoc? then init[last.key := last.value] else init
  }

  lemma {:induction false} MapHasEntries<K, V>(s: seq<Entry<K, V>>)
    requires AreKeysDistinct(s)
    ensures forall i :: 0 <= i < |s| && s[i].Assoc? ==> s[i].key in AsMap(s) && AsMap(s)[s[i].key] == s[i].value
    ensures forall k :: k in AsMap(s) ==> exists i :: HasKey(s, i, k)
  {
    if s != [] {
      var init, last := s[..|s| - 1], |s| - 1;
      MapHasEntries(init);
      forall k | k in AsMap(s)
        ensures exists i :: HasKey(s, i, k)
      {
        if s[last].Assoc? && s[last].key == k {
          assert HasKey(s, last, k);
        } else {
          assert k in AsMap(init);
          var i :| HasKey(init, i, k);
          assert HasKey(s, i, k);
        }
      }
    }
  }

  /** Writing an association for a key that no other place has. */
  lemma {:induction false} MapIsUpdated<K, V>(s: seq<Entry<K, V>>, i: nat, id: nat, key: K, value: V)
    requires i < |s| && (s[i].Assoc? ==> s[i].key == key) && AreKeysDistinct(s)
    requires forall j :: 0 <= j < |s| && j != i && s[j].Assoc? ==> s[j].key != key
    ensures AsMap(s[i := Assoc(id, key, value)]) == AsMap(s)[key := value]
  {
    var s', last := s[i := Assoc(id, key, value)], |s| - 1;
    if i == last {
      assert s'[..last] == s[..last];
    } else {
      assert s'[..last] == s[..last][i := Assoc(id, key, value)];
      MapIsUpdated(s[..last], i, id, key, value);
    }
  }

  /** How many entries are in use. */
  function Count<K, V>(s: seq<Entry<K, V>>): (n: nat)
    ensures n <= |s|
  {
    if s == [] then 0 else Count(s[..|s| - 1]) + if s[|s| - 1].Assoc? then 1 else 0
  }

  lemma {:induction false} CountIsUpdated<K, V>(s: seq<Entry<K, V>>, i: nat, e: Entry<K, V>)
    requires i < |s| && e.Assoc?
    ensures Count(s[i := e]) == Count(s) + if s[i].Assoc? then 0 else 1
  {
    var s', last := s[i := e], |s| - 1;
    if i == last {
      assert s'[..last] == s[..last];
    } else {
      assert s'[..last] == s[..last][i := e];
      CountIsUpdated(s[..last], i, e);
    }
  }

  lemma {:induction false} SomeIsNil<K, V>(s: seq<Entry<K, V>>)
    requires Count(s) < |s|
    ensures exists i :: 0 <= i < |s| && s[i].Nil?
  {
    var last := |s| - 1;
    if s[last].Assoc? {
      SomeIsNil(s[..last]);
      var i :| 0 <= i < last && s[..last][i].Nil?;
      assert s[i].Nil?;
    }
  }

  lemma {:induction false} CountIsSize<K, V>(s: seq<Entry<K, V>>)
    requires AreKeysDistinct(s)
    ensures |AsMap(s)| == Count(s)
  {
    if s != [] {
      var init, last := s[..|s| - 1], s[|s| - 1];
      CountIsSize(init);
      MapHasEntries(init);
      if last.Assoc? {
        assert last.key !in AsMap(init);
      }
    }
  }

  lemma {:induction false} NothingCounts<K, V>(s: seq<Entry<K, V>>)
    requires forall i :: 0 <= i < |s| ==> s[i].Nil?
    ensures Count(s) == 0 && AsMap(s) == map[]
  {
    if s != [] {
      NothingCounts(s[..|s| - 1]);
    }
  }

  // ---------- Probing ----------

  /** The search for `key` has passed `d` places. */
  ghost predicate HasPassed<K, V>(s: seq<Entry<K, V>>, hash: K -> nat, key: K, d: nat) {
    && 0 < |s| && d <= |s|
    && forall e :: 0 <= e < d ==> s[Step(Home(hash(key), |s|), e, |s|)].Assoc? && s[Step(Home(hash(key), |s|), e, |s|)].key != key
  }

  lemma SearchEnds<K, V>(s: seq<Entry<K, V>>, hash: K -> nat, key: K, d: nat)
    requires HasPassed(s, hash, key, d) && Count(s) < |s|
    ensures d < |s|
  {
    SomeIsNil(s);
    var j :| 0 <= j < |s| && s[j].Nil?;
    assert Step(Home(hash(key), |s|), Distance(Home(hash(key), |s|), j, |s|), |s|) == j;
  }

  /** A place that is not in use ends the search: the key is nowhere. */
  lemma NilEndsSearch<K, V>(s: seq<Entry<K, V>>, hash: K -> nat, key: K, d: nat)
    requires IsTable(s, hash) && HasPassed(s, hash, key, d) && d < |s| && s[Step(Home(hash(key), |s|), d, |s|)].Nil?
    ensures forall j :: 0 <= j < |s| && s[j].Assoc? ==> s[j].key != key
    ensures key !in AsMap(s)
  {
    hide Home, Step, Distance;
    forall j | 0 <= j < |s| && s[j].Assoc?
      ensures s[j].key != key
    {
      if s[j].key == key {
        assert IsFound(s, hash, j);
        var away := Distance(Home(hash(key), |s|), j, |s|);
      }
    }
    MapHasEntries(s);
  }

  lemma InsertKeepsTable<K, V>(s: seq<Entry<K, V>>, hash: K -> nat, d: nat, id: nat, key: K, value: V)
    requires IsTable(s, hash) && HasPassed(s, hash, key, d) && d < |s|
    requires var i := Step(Home(hash(key), |s|), d, |s|); s[i].Nil?
    requires forall j :: 0 <= j < |s| && s[j].Assoc? ==> s[j].key != key
    ensures IsTable(s[Step(Home(hash(key), |s|), d, |s|) := Assoc(id, key, value)], hash)
  {
    var home := Home(hash(key), |s|);
    var i := Step(home, d, |s|);
    var s' := s[i := Assoc(id, key, value)];
    assert Distance(home, i, |s|) == d;
    hide Home, Step, Distance;
    forall j | 0 <= j < |s'| && s'[j].Assoc?
      ensures IsFound(s', hash, j)
    {
      if j != i {
        assert IsFound(s, hash, j);
      }
    }
  }

  lemma UpdateKeepsTable<K, V>(s: seq<Entry<K, V>>, hash: K -> nat, i: nat, value: V)
    requires IsTable(s, hash) && i < |s| && s[i].Assoc?
    ensures IsTable(s[i := s[i].(value := value)], hash)
  {
    hide Home, Step, Distance;
    var s' := s[i := s[i].(value := value)];
    forall j | 0 <= j < |s'| && s'[j].Assoc?
      ensures IsFound(s', hash, j)
    {
      assert IsFound(s, hash, j);
    }
  }

  ghost predicate AreIdsBelow<K, V>(s: seq<Entry<K, V>>, limit: nat) {
    forall i :: 0 <= i < |s| && s[i].Assoc? ==> s[i].id < limit
  }

  ghost predicate AreIdsFrom<K, V>(s: seq<Entry<K, V>>, limit: nat) {
    forall i :: 0 <= i < |s| && s[i].Assoc? ==> limit <= s[i].id
  }

  /** The association `id` is an entry of the dictionary. */
  ghost predicate IsStored<K, V>(s: seq<Entry<K, V>>, id: nat) {
    exists i :: 0 <= i < |s| && s[i].Assoc? && s[i].id == id
  }

  /** How deep the recursion of puts and growths can still go; a put may grow twice only when every place is in use. */
  function PutDepth(count: nat, tally: nat, size: nat): nat {
    if tally + 1 < size then 0 else if count + 1 < size then 1 else 2
  }

  function GrowDepth(count: nat, size: nat): nat {
    if count < size then 1 else 2
  }

  lemma NextEntry<K, V>(s: seq<Entry<K, V>>, i: nat)
    requires i < |s|
    ensures Count(s[..i + 1]) == Count(s[..i]) + (if s[i].Assoc? then 1 else 0) && Count(s[..i]) <= i
    ensures AsMap(s[..i + 1]) == if s[i].Assoc? then AsMap(s[..i])[s[i].key := s[i].value] else AsMap(s[..i])
  {
    assert s[..i + 1][..i] == s[..i];
  }

  /** A key is not among the entries before its own. */
  lemma KeyIsAhead<K, V>(s: seq<Entry<K, V>>, i: nat)
    requires AreKeysDistinct(s) && i < |s| && s[i].Assoc?
    ensures s[i].key !in AsMap(s[..i])
  {
    MapHasEntries(s[..i]);
  }

  lemma KeyIsUnique<K, V>(s: seq<Entry<K, V>>, hash: K -> nat, i: nat)
    requires IsTable(s, hash) && i < |s| && s[i].Assoc?
    ensures AreKeysDistinct(s) && s[i].key in AsMap(s)
    ensures forall j :: 0 <= j < |s| && j != i && s[j].Assoc? ==> s[j].key != s[i].key
  {
    MapHasEntries(s);
  }

  lemma TableHasKeys<K, V>(s: seq<Entry<K, V>>, hash: K -> nat)
    requires IsTable(s, hash)
    ensures AreKeysDistinct(s)
  {
  }

  lemma {:induction false} CountGrows<K, V>(s: seq<Entry<K, V>>, i: nat)
    requires i <= |s|
    ensures Count(s[..i]) <= Count(s)
  {
    if i == |s| {
      assert s[..i] == s;
    } else {
      CountGrows(s[..|s| - 1], i);
      assert s[..|s| - 1][..i] == s[..i];
    }
  }

  lemma NoEntries<K, V>(s: seq<Entry<K, V>>)
    ensures Count(s[..0]) == 0 && AsMap(s[..0]) == map[]
  {
  }

  lemma NothingIsTable<K, V>(s: seq<Entry<K, V>>, hash: K -> nat)
    requires forall i :: 0 <= i < |s| ==> s[i].Nil?
    ensures IsTable(s, hash)
  {
  }

  /**
   The capacity is doubled and `count` keys are counted again on top of the old count; if the table
   was full of keys, the last of them makes it grow once more.
   */
  predicate IsGrown(count: nat, size: nat, tally: nat, size': nat) {
    if count < size then size' == 2 * size && tally == size + count else size' == 4 * size && tally == 3 * size
  }

  class Dictionary<K(==), V> {
    const hash: K -> nat
    var contents: array<Entry<K, V>>
    /** Counts what was ever put into places not in use, so keys that moved in a growth count again. */
    var tally: nat
    var nextId: nat

    /** The entries are a table; the counter is an upper bound of their number. */
    ghost predicate IsOk()
      reads this, contents
    {
      && 0 < contents.Length && IsTable(contents[..], hash)
      && Count(contents[..]) <= tally <= contents.Length && AreIdsBelow(contents[..], nextId)
    }

    ghost predicate Valid()
      reads this, contents
    {
      IsOk() && tally < contents.Length
    }

    ghost function Map(): map<K, V>
      reads this, contents
    {
      AsMap(contents[..])
    }

    /** newDictionary. */
    constructor (hash: K -> nat, size: nat)
      requires 0 < size
      ensures Valid() && Map() == map[] && fresh(contents) && contents.Length == size && tally == 0
    {
      this.hash := hash;
      contents := new Entry<K, V>[size](_ => Nil);
      tally := 0;
      nextId := 0;
      new;
      NothingCounts(contents[..]);
    }

    /** findIndex: the place of the key, or one not in use where it belongs. */
    method FindIndex(key: K) returns (index: nat, ghost d: nat)
      requires 0 < contents.Length && IsTable(contents[..], hash) && Count(contents[..]) < contents.Length
      ensures HasPassed(contents[..], hash, key, d) && d < contents.Length && index == Step(Home(hash(key), contents.Length), d, contents.Length)
      ensures contents[index].Assoc? ==> contents[index].key == key
    {
      hide Home, Count, IsTable;
      index := Home(hash(key), contents.Length);
      d := 0;
      while contents[index].Assoc? && contents[index].key != key
        invariant HasPassed(contents[..], hash, key, d) && d < contents.Length && index == Step(Home(hash(key), contents.Length), d, contents.Length)
        decreases contents.Length - d
      {
        SearchEnds(contents[..], hash, key, d + 1);
        d := d + 1;
        index := if index == contents.Length - 1 then 0 else index + 1;
      }
    }

    /** dictAt; None is nil. */
    method At(key: K) returns (value: Option<V>)
      requires Valid()
      ensures value == if key in Map() then Some(Map()[key]) else None
    {
      hide Home, Count;
      var index, d := FindIndex(key);
      MapHasEntries(contents[..]);
      if contents[index].Nil? {
        NilEndsSearch(contents[..], hash, key, d);
        return None;
      }
      assert contents[..][index].Assoc?;
      value := Some(contents[index].value);
    }

    /**
     dictAtPut.  `id` is the association that is returned; it is the one that is stored unless the
     put has made the dictionary grow, because growing makes new associations for all keys.
     */
    method Put(key: K, value: V) returns (id: nat, ghost grown: bool)
      requires Valid()
      modifies this`contents, this`tally, this`nextId, contents
      ensures Valid() && (contents == old(contents) || fresh(contents))
      ensures Map() == old(Map())[key := value] && Count(contents[..]) == old(Count(contents[..])) + (if key in old(Map()) then 0 else 1)
      ensures grown <==> key !in old(Map()) && old(tally) + 1 == old(contents.Length)
      ensures !grown ==> contents == old(contents) && tally == old(tally) + (if key in old(Map()) then 0 else 1)
      ensures grown ==> IsGrown(old(Count(contents[..])) + 1, old(contents.Length), tally, contents.Length)
      ensures IsStored(contents[..], id) <==> !grown
      ensures !grown ==> exists i :: 0 <= i < contents.Length && contents[i] == Assoc(id, key, value)
      ensures old(nextId) <= nextId
      ensures forall limit: nat :: limit <= old(nextId) && AreIdsFrom(old(contents[..]), limit) ==> AreIdsFrom(contents[..], limit)
      decreases PutDepth(Count(contents[..]), tally, contents.Length), 1
    {
      hide Home, Step, Distance, Count, IsTable, AsMap, HasPassed;
      ghost var before := contents[..];
      var index, d := FindIndex(key);
      grown := false;
      if contents[index].Nil? {
        NilEndsSearch(before, hash, key, d);
        TableHasKeys(before, hash);
        id := nextId;
        InsertKeepsTable(before, hash, d, id, key, value);
        MapIsUpdated(before, index, id, key, value);
        CountIsUpdated(before, index, Assoc(id, key, value));
        contents[index] := Assoc(id, key, value);
        nextId := nextId + 1;
        tally := tally + 1;
        assert contents[..] == before[index := Assoc(id, key, value)];
        if tally == contents.Length {
          Grow();
          grown := true;
        }
      } else {
        id := contents[index].id;
        KeyIsUnique(before, hash, index);
        MapIsUpdated(before, index, id, key, value);
        CountIsUpdated(before, index, Assoc(id, key, value));
        UpdateKeepsTable(before, hash, index, value);
        contents[index] := contents[index].(value := value);
        assert contents[..] == before[index := Assoc(id, key, value)];
      }
    }

    /** growDictionary: every key is put anew and counted again. */
    method Grow()
      requires IsOk() && tally == contents.Length
      modifies this`contents, this`tally, this`nextId
      ensures Valid() && fresh(contents) && Map() == old(Map()) && Count(contents[..]) == old(Count(contents[..]))
      ensures IsGrown(old(Count(contents[..])), old(contents.Length), tally, contents.Length)
      ensures old(nextId) <= nextId && AreIdsFrom(contents[..], old(nextId))
      decreases GrowDepth(Count(contents[..]), contents.Length), 0
    {
      hide Home, Step, Distance, Count, IsTable, AsMap, HasPassed;
      var entries := contents;
      ghost var s := entries[..];
      TableHasKeys(s, hash);
      NoEntries(s);
      contents := new Entry<K, V>[entries.Length * 2](_ => Nil);
      NothingCounts(contents[..]);
      NothingIsTable(contents[..], hash);
      var i := 0;
      while i < entries.Length
        invariant i <= entries.Length && contents != entries && fresh(contents) && entries[..] == s && Valid() && old(nextId) <= nextId
        invariant Map() == AsMap(s[..i]) && Count(contents[..]) == Count(s[..i])
        invariant IsGrown(Count(s[..i]), |s|, tally, contents.Length)
        invariant AreIdsFrom(contents[..], old(nextId))
      {
        NextEntry(s, i);
        if entries[i].Assoc? {
          KeyIsAhead(s, i);
          CountGrows(s, i + 1);
          var _, _ := Put(entries[i].key, entries[i].value);
        }
        i := i + 1;
      }
      assert s[..i] == s;
    }
  }

  /** With the last of as many keys as it has places a dictionary grows: the key is there, and its association is not the returned one. */
  method LoseAssociation(hash: nat -> nat, size: nat) returns (dict: Dictionary<nat, nat>, id: nat)
    requires 0 < size
    ensures fresh(dict) && dict.Valid() && size - 1 in dict.Map() && !IsStored(dict.contents[..], id)
  {
    hide IsTable, AsMap, Count, IsStored;
    dict := new Dictionary(hash, size);
    id := 0;
    var key := 0;
    while key < size
      invariant key <= size && fresh(dict) && fresh(dict.contents) && dict.Valid()
      invariant forall k :: k in dict.Map() ==> k < key
      invariant key < size ==> dict.contents.Length == size && dict.tally == key
      invariant key == size ==> size - 1 in dict.Map() && !IsStored(dict.contents[..], id)
    {
      ghost var grown;
      id, grown := dict.Put(key, key);
      key := key + 1;
    }
  }
}
