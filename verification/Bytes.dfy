/**
  Bytes and little-endian unsigned integers of a fixed width, how values outside the width are cut, and byte sequences
  laid end to end.
 */
module Bytes {
  const UINT32: int := 0x1_0000_0000

  type byte = x: int | 0 <= x < 0x100

  function Power256(w: nat): (p: nat)
    ensures p >= 1
  {
    if w == 0 then 1 else 0x100 * Power256(w - 1)
  }

  /** The `w` low bytes of `n`, least significant first: what a cast to that width keeps. */
  function Little(n: nat, w: nat): (s: seq<byte>)
    ensures |s| == w
    decreases w, n
  {
    if w == 0 then [] else [n % 0x100] + Little(n / 0x100, w - 1)
  }

  function FromLittle(s: seq<byte>): (n: nat)
    decreases |s|
  {
    if s == [] then 0 else s[0] + 0x100 * FromLittle(s[1..])
  }

  /** Reading back what was written gives the value cut to the width. */
  lemma {:induction false} LittleRoundTrip(n: nat, w: nat)
    ensures FromLittle(Little(n, w)) == n % Power256(w)
    decreases w
  {
    if w > 0 {
      LittleRoundTrip(n / 0x100, w - 1);
      assert Little(n, w)[1..] == Little(n / 0x100, w - 1);
      ModSplit(n, Power256(w - 1));
    }
  }

  lemma ModSplit(n: nat, p: nat)
    requires p > 0
    ensures n % (0x100 * p) == n % 0x100 + 0x100 * (n / 0x100 % p)
  {
    var q, r := n / 0x100 / p, n / 0x100 % p;
    assert n / 0x100 == p * q + r;
    assert n == 0x100 * (n / 0x100) + n % 0x100;
    var low := n % 0x100 + 0x100 * r;
    assert n == (0x100 * p) * q + low;
    assert 0 <= low < 0x100 * p;
    ModOf(n, 0x100 * p, q, low);
  }

  lemma ModOf(n: nat, d: nat, q: nat, low: nat)
    requires d > 0 && n == d * q + low && low < d
    ensures n % d == low
  {
    var q', r' := n / d, n % d;
    assert n == d * q' + r';
    if q' < q {
      MulMono(d, q' + 1, q);
    } else if q' > q {
      MulMono(d, q + 1, q');
    }
  }

  lemma MulMono(d: nat, a: nat, b: nat)
    requires a <= b
    ensures d * a <= d * b
  {
  }

  /** A value that fits comes back unchanged. */
  lemma LittleFits(n: nat, w: nat)
    requires n < Power256(w)
    ensures FromLittle(Little(n, w)) == n
  {
    LittleRoundTrip(n, w);
  }

  lemma {:induction false} FromLittleBound(s: seq<byte>)
    ensures FromLittle(s) < Power256(|s|)
    decreases |s|
  {
    if s != [] {
      FromLittleBound(s[1..]);
    }
  }

  // ----- parts, one behind the other -----

  /** The bytes of the first `n` parts. */
  function Concat(parts: seq<seq<byte>>, n: nat): seq<byte>
    requires n <= |parts|
    decreases n
  {
    if n == 0 then [] else Concat(parts, n - 1) + parts[n - 1]
  }

  lemma {:induction false} ConcatPrefix(parts: seq<seq<byte>>, i: nat, j: nat)
    requires i <= j <= |parts|
    ensures Concat(parts, i) <= Concat(parts, j)
    decreases j
  {
    if i < j {
      ConcatPrefix(parts, i, j - 1);
    }
  }

  lemma ConcatStep(parts: seq<seq<byte>>, i: nat)
    requires i < |parts|
    ensures |Concat(parts, i)| + |parts[i]| == |Concat(parts, i + 1)| <= |Concat(parts, |parts|)|
  {
    ConcatPrefix(parts, i + 1, |parts|);
  }

  lemma ConcatSlice(parts: seq<seq<byte>>, i: nat)
    requires i < |parts|
    ensures |Concat(parts, i)| + |parts[i]| == |Concat(parts, i + 1)| <= |Concat(parts, |parts|)|
    ensures Concat(parts, |parts|)[|Concat(parts, i)|..|Concat(parts, i + 1)|] == parts[i]
  {
    ConcatPrefix(parts, i + 1, |parts|);
  }
}
