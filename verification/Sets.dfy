/**
  Small facts about finite sets of numbers and other values: picking an element, and sizes of unions, of differences and
  of ranges below a bound.
 */
module Sets {
  lemma SomeElement<T>(s: set<T>) returns (x: T)
    requires s != {}
    ensures x in s
  {
    x :| x in s;
  }

  lemma UnionSize<T>(whole: set<T>, a: set<T>, b: set<T>)
    requires forall m: T :: m in whole <==> m in a + b
    requires forall m: T :: !(m in a && m in b)
    ensures |whole| == |a| + |b|
  {
    assert whole == a + b;
    assert a !! b;
  }

  /** A set of numbers below `n` has at most `n` elements, and all of them when it has `n`. */
  lemma {:induction false} BelowSize(a: set<nat>, n: nat)
    requires forall x :: x in a ==> x < n
    ensures |a| <= n && (|a| == n ==> forall x: nat :: x < n ==> x in a)
  {
    if n > 0 {
      BelowSize(a - {n - 1}, n - 1);
    }
  }

  /** One number more. */
  lemma AddedSize<T>(a: set<T>, b: set<T>, x: T)
    requires x !in a && forall y: T :: y in b <==> y in a || y == x
    ensures |b| == |a| + 1
  {
    assert b == a + {x};
  }

  lemma SameSize<T>(a: set<T>, b: set<T>)
    requires forall y: T :: y in b <==> y in a
    ensures |b| == |a|
  {
    assert b == a;
  }

  lemma {:induction false} BelowFull(a: set<nat>, n: nat)
    requires forall x :: x in a ==> x < n
    requires forall x: nat :: x < n ==> x in a
    ensures |a| == n
  {
    if n > 0 {
      BelowFull(a - {n - 1}, n - 1);
    }
  }

  lemma {:induction false} SubsetSize<T>(a: set<T>, b: set<T>)
    requires a <= b
    ensures |a| <= |b|
  {
    if a != {} {
      var x := SomeElement(a);
      SubsetSize(a - {x}, b - {x});
    }
  }
}
