/** `std::sort` as a function: insertion sort by a comparison, with the facts every caller may rely on. */
module Sorting {

  /** The comparison orders any two values, is reflexive and transitive; ties are allowed. */
  ghost predicate TotalPreorder<T(!new)>(le: (T, T) -> bool) {
    && (forall x, y :: le(x, y) || le(y, x))
    && (forall x, y, z :: le(x, y) && le(y, z) ==> le(x, z))
  }

  ghost predicate Sorted<T>(s: seq<T>, le: (T, T) -> bool) {
    forall i, j :: 0 <= i < j < |s| ==> le(s[i], s[j])
  }

  ghost predicate NoDuplicates<T>(s: seq<T>) {
    forall i, j :: 0 <= i < j < |s| ==> s[i] != s[j]
  }

  function Insert<T>(x: T, s: seq<T>, le: (T, T) -> bool): seq<T> {
    if s == [] || le(x, s[0]) then [x] + s else [s[0]] + Insert(x, s[1..], le)
  }

  function SortBy<T>(s: seq<T>, le: (T, T) -> bool): seq<T> {
    if s == [] then [] else Insert(s[0], SortBy(s[1..], le), le)
  }

  lemma {:induction false} InsertAdds<T(!new)>(x: T, s: seq<T>, le: (T, T) -> bool)
    ensures multiset(Insert(x, s, le)) == multiset{x} + multiset(s)
  {
    if s == [] || le(x, s[0]) {
      assert multiset([x] + s) == multiset{x} + multiset(s);
    } else {
      InsertAdds(x, s[1..], le);
      assert s == [s[0]] + s[1..];
    }
  }

  lemma InsertedBelow<T(!new)>(x: T, s: seq<T>, le: (T, T) -> bool, y: T)
    requires y in Insert(x, s, le)
    ensures y == x || y in s
  {
    InsertAdds(x, s, le);
    assert y in multiset(Insert(x, s, le));
  }

  lemma {:induction false} InsertKeeps<T(!new)>(x: T, s: seq<T>, le: (T, T) -> bool)
    requires TotalPreorder(le) && Sorted(s, le)
    ensures Sorted(Insert(x, s, le), le)
  {
    if s == [] {
    } else if le(x, s[0]) {
      forall j | 0 <= j < |s|
        ensures le(x, s[j])
      {
        assert le(s[0], s[j]);
      }
    } else {
      InsertKeeps(x, s[1..], le);
      var r := Insert(x, s[1..], le);
      forall y | y in r
        ensures le(s[0], y)
      {
        InsertedBelow(x, s[1..], le, y);
      }
    }
  }

  /** Sorting permutes its input into order. */
  lemma {:induction false} SortByCorrect<T(!new)>(s: seq<T>, le: (T, T) -> bool)
    requires TotalPreorder(le)
    ensures Sorted(SortBy(s, le), le)
    ensures multiset(SortBy(s, le)) == multiset(s)
    ensures |SortBy(s, le)| == |s|
  {
    if s != [] {
      SortByCorrect(s[1..], le);
      InsertKeeps(s[0], SortBy(s[1..], le), le);
      InsertAdds(s[0], SortBy(s[1..], le), le);
      assert s == [s[0]] + s[1..];
    }
    assert |SortBy(s, le)| == |multiset(SortBy(s, le))|;
  }

  lemma {:induction false} NoDuplicatesMultiplicity<T>(s: seq<T>, x: T)
    requires NoDuplicates(s)
    ensures multiset(s)[x] <= 1
  {
    if s != [] {
      NoDuplicatesMultiplicity(s[1..], x);
      assert s == [s[0]] + s[1..];
      if x == s[0] {
        assert x !in s[1..];
      }
    }
  }

  lemma RepeatMultiplicity<T>(s: seq<T>, i: nat, j: nat)
    requires i < j < |s| && s[i] == s[j]
    ensures multiset(s)[s[i]] >= 2
  {
    assert s == s[..j] + [s[j]] + s[j + 1..];
    assert s[i] in s[..j];
  }

  /** A permutation of a duplicate-free sequence is duplicate-free. */
  lemma PermutationNoDuplicates<T>(s: seq<T>, t: seq<T>)
    requires NoDuplicates(s) && multiset(s) == multiset(t)
    ensures NoDuplicates(t)
  {
    forall i, j | 0 <= i < j < |t|
      ensures t[i] != t[j]
    {
      NoDuplicatesMultiplicity(s, t[i]);
      if t[i] == t[j] {
        RepeatMultiplicity(t, i, j);
      }
    }
  }
}
