/** Facts about sequences and sets that several components need. */
module Collections {
  ghost predicate HasNoDuplicates<T>(s: seq<T>) {
    forall i, j :: 0 <= i < j < |s| ==> s[i] != s[j]
  }

  ghost function SetOf<T>(s: seq<T>): set<T> {
    set x | x in s
  }

  lemma {:induction false} SetIsNotLarger<T>(s: seq<T>)
    ensures |SetOf(s)| <= |s|
  {
    if s != [] {
      var init, last := s[..|s| - 1], s[|s| - 1];
      SetIsNotLarger(init);
      assert s == init + [last];
      assert SetOf(s) == SetOf(init) + {last};
    }
  }

  lemma {:induction false} SizeOfDistinct<T>(s: seq<T>)
    requires HasNoDuplicates(s)
    ensures |SetOf(s)| == |s|
  {
    if s != [] {
      var init, last := s[..|s| - 1], s[|s| - 1];
      SizeOfDistinct(init);
      assert s == init + [last] && last !in init;
      assert SetOf(s) == SetOf(init) + {last};
    }
  }

  lemma CountOfTwo<T>(s: seq<T>, i: nat, j: nat)
    requires i < j < |s| && s[i] == s[j]
    ensures multiset(s)[s[i]] >= 2
  {
    assert s == s[..j] + [s[j]] + s[j + 1..];
    assert s[i] in s[..j];
  }

  lemma {:induction false} CountOfDistinct<T>(s: seq<T>, x: T)
    requires HasNoDuplicates(s)
    ensures multiset(s)[x] <= 1
  {
    if s != [] {
      CountOfDistinct(s[1..], x);
      assert s == [s[0]] + s[1..];
      if x == s[0] {
        assert x !in s[1..];
      }
    }
  }

  lemma {:induction false} PermutationHasNoDuplicates<T>(a: seq<T>, b: seq<T>)
    requires multiset(a) == multiset(b) && HasNoDuplicates(a)
    ensures HasNoDuplicates(b)
  {
    forall i, j | 0 <= i < j < |b|
      ensures b[i] != b[j]
    {
      if b[i] == b[j] {
        CountOfTwo(b, i, j);
        CountOfDistinct(a, b[i]);
      }
    }
  }

  lemma SubsetIsSmaller<T>(s: set<T>, t: set<T>)
    requires s <= t
    ensures |s| <= |t|
  {
    assert t == s + (t - s);
  }

  /** The items of `part` come next in `s`. */
  ghost predicate IsNext<T>(s: seq<T>, pos: nat, part: seq<T>) {
    pos + |part| <= |s| && s[pos..pos + |part|] == part
  }

  lemma PartFits<T>(s: seq<T>, pos: nat, part: seq<T>)
    requires IsNext(s, pos, part)
    ensures pos + |part| <= |s|
  {
  }

  lemma PartIsNext<T>(s: seq<T>, pos: nat, left: seq<T>, right: seq<T>)
    requires IsNext(s, pos, left + right)
    ensures IsNext(s, pos, left) && IsNext(s, pos + |left|, right)
  {
    var all := s[pos..pos + |left + right|];
    assert all[..|left|] == left && all[|left|..] == right;
    assert s[pos..pos + |left|] == all[..|left|];
    assert s[pos + |left|..pos + |left| + |right|] == all[|left|..];
  }

  lemma ItemIsNext<T>(s: seq<T>, pos: nat, item: T, rest: seq<T>)
    requires IsNext(s, pos, [item] + rest)
    ensures pos < |s| && s[pos] == item && IsNext(s, pos + 1, rest)
  {
    PartIsNext(s, pos, [item], rest);
    assert s[pos] == s[pos..pos + 1][0];
  }
}
