/** How the loops of the partitioner cut `n` items among `T` threads, and sums over per-thread counters. */
module ThreadSlices {

  /** C++ integer division: towards zero. */
  function TruncDiv(a: int, b: int): int
    requires b > 0
  {
    if a >= 0 then a / b else -((-a) / b)
  }

  /** `subsize`, the length of a thread's slice. */
  function SliceLength(n: nat, T: nat): int
    requires T > 0
  {
    TruncDiv(n - 1, T) + 1
  }

  function SliceStart(n: nat, T: nat, t: nat): int
    requires T > 0
  {
    t * SliceLength(n, T)
  }

  function SliceEnd(n: nat, T: nat, t: nat): int
    requires T > 0
  {
    var e := (t + 1) * SliceLength(n, T);
    if e < n then e else n
  }

  /** The thread in whose slice item `p` lies. */
  function Owner(n: nat, T: nat, p: nat): int
    requires T > 0 && p < n
  {
    p / SliceLength(n, T)
  }

  lemma MulMono(a: int, b: int, c: int)
    requires a <= b && c >= 0
    ensures a * c <= b * c
  {
  }

  /** Together the slices are long enough to reach the last item. */
  lemma SlicesReachEnd(n: nat, T: nat)
    requires T > 0 && n > 0
    ensures SliceLength(n, T) >= 1
    ensures T * SliceLength(n, T) >= n
  {
    var q := (n - 1) / T;
    assert n - 1 == T * q + (n - 1) % T;
    assert T * (q + 1) == T * q + T;
  }

  /** The quotient is the one multiple of `len` whose interval holds `p`. */
  lemma QuotientUnique(p: nat, len: nat, t: nat)
    requires len > 0
    ensures t * len <= p < (t + 1) * len <==> t == p / len
  {
    var q := p / len;
    assert q * len <= p < (q + 1) * len by {
      assert p == len * q + p % len;
    }
    if t < q {
      MulMono(t + 1, q, len);
    } else if t > q {
      MulMono(q + 1, t, len);
    }
  }

  /** The slices partition the items: every item lies in the slice of its owner and in no other. */
  lemma SlicesPartition(n: nat, T: nat, p: nat)
    requires T > 0 && p < n
    ensures 0 <= Owner(n, T, p) < T
    ensures forall t: nat :: SliceStart(n, T, t) <= p < SliceEnd(n, T, t) <==> t == Owner(n, T, p)
  {
    var len := SliceLength(n, T);
    SlicesReachEnd(n, T);
    var q := p / len;
    QuotientUnique(p, len, q);
    if T <= q {
      MulMono(T, q, len);
    }
    forall t: nat
      ensures SliceStart(n, T, t) <= p < SliceEnd(n, T, t) <==> t == q
    {
      QuotientUnique(p, len, t);
    }
  }

  /** `T` threads at positions `pc` of their slices have between them finished exactly the items `done`. */
  ghost predicate Progress(n: nat, T: nat, pc: seq<int>, done: set<int>)
    requires T > 0
  {
    && |pc| == T
    && (forall t :: 0 <= t < T ==> pc[t] == SliceStart(n, T, t) || SliceStart(n, T, t) <= pc[t] <= SliceEnd(n, T, t))
    && (forall p :: p in done ==> 0 <= p < n)
    && (forall p :: 0 <= p < n ==> 0 <= Owner(n, T, p) < T && (p in done <==> p < pc[Owner(n, T, p)]))
  }

  function StartPositions(n: nat, T: nat): seq<int>
    requires T > 0
  {
    seq(T, t requires 0 <= t < T => SliceStart(n, T, t))
  }

  lemma ProgressStart(n: nat, T: nat)
    requires T > 0
    ensures Progress(n, T, StartPositions(n, T), {})
  {
    forall p | 0 <= p < n
      ensures 0 <= Owner(n, T, p) < T && p >= StartPositions(n, T)[Owner(n, T, p)]
    {
      SlicesPartition(n, T, p);
    }
  }

  /** Whichever thread moves next, it finishes one item nobody has touched. */
  lemma ProgressStep(n: nat, T: nat, pc: seq<int>, done: set<int>, t: nat)
    requires T > 0 && Progress(n, T, pc, done)
    requires t < T && pc[t] < SliceEnd(n, T, t)
    ensures 0 <= pc[t] < n && pc[t] !in done
    ensures Progress(n, T, pc[t := pc[t] + 1], done + {pc[t]})
    ensures |done| < |done + {pc[t]}| <= n
  {
    MulNonNegative(t, SliceLength(n, T), n, T);
    SlicesPartition(n, T, pc[t]);
    forall p | 0 <= p < n
      ensures p in done + {pc[t]} <==> p < pc[t := pc[t] + 1][Owner(n, T, p)]
    {
      SlicesPartition(n, T, p);
    }
    RangeBound(done + {pc[t]}, n);
  }

  lemma MulNonNegative(t: nat, len: int, n: nat, T: nat)
    requires T > 0 && len == SliceLength(n, T)
    ensures 0 <= t * len
  {
    if n > 0 {
      SlicesReachEnd(n, T);
      MulMono(0, t, len);
    } else {
      assert len == 0 || len == 1;
    }
  }

  ghost function Range(n: nat): (r: set<int>)
    ensures forall p :: p in r <==> 0 <= p < n
    ensures |r| == n
  {
    if n == 0 then {} else Range(n - 1) + {n - 1}
  }

  lemma RangeBound(s: set<int>, n: nat)
    requires forall p :: p in s ==> 0 <= p < n
    ensures |s| <= n
  {
    assert Range(n) == s + (Range(n) - s);
  }

  lemma ProgressEnd(n: nat, T: nat, pc: seq<int>, done: set<int>)
    requires T > 0 && Progress(n, T, pc, done)
    requires forall t :: 0 <= t < T ==> pc[t] >= SliceEnd(n, T, t)
    ensures forall p :: 0 <= p < n ==> p in done
  {
    forall p | 0 <= p < n
      ensures p in done
    {
      SlicesPartition(n, T, p);
    }
  }

  ghost predicate Rectangular(m: seq<seq<int>>, rows: nat, cols: nat) {
    |m| == rows && forall t :: 0 <= t < rows ==> |m[t]| == cols
  }

  /** The sum of column `k`: what the threads counted for cluster `k` together. */
  function ColumnSum(m: seq<seq<int>>, k: nat): int
    requires forall t :: 0 <= t < |m| ==> k < |m[t]|
  {
    if m == [] then 0 else ColumnSum(m[..|m| - 1], k) + m[|m| - 1][k]
  }

  lemma {:induction false} ColumnSumUpdate(m: seq<seq<int>>, cols: nat, t: nat, k: nat, v: int, j: nat)
    requires Rectangular(m, |m|, cols) && t < |m| && k < cols && j < cols
    ensures ColumnSum(m[t := m[t][k := v]], j) == ColumnSum(m, j) + if j == k then v - m[t][k] else 0
  {
    var m' := m[t := m[t][k := v]];
    var n := |m| - 1;
    if t == n {
      assert m'[..n] == m[..n];
    } else {
      ColumnSumUpdate(m[..n], cols, t, k, v, j);
      assert m'[..n] == m[..n][t := m[..n][t][k := v]];
    }
  }
}
