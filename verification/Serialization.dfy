/** `SimpleSerialization`: scalars, strings and byte arrays written into and read from a byte buffer in place. */
module Serialization {
  import opened Bytes

  // ----- what a write does to a buffer -----

  /** `before` with `data` at `pos`. */
  function Overwritten(before: seq<byte>, pos: nat, data: seq<byte>): (after: seq<byte>)
    requires pos + |data| <= |before|
    ensures |after| == |before|
  {
    before[..pos] + data + before[pos + |data|..]
  }

  ghost predicate Wrote(before: seq<byte>, after: seq<byte>, pos: nat, data: seq<byte>) {
    pos + |data| <= |before| && after == Overwritten(before, pos, data)
  }

  /** Two writes, one behind the other, are one write. */
  lemma WroteBoth(s0: seq<byte>, s1: seq<byte>, s2: seq<byte>, pos: nat, a: seq<byte>, b: seq<byte>)
    requires Wrote(s0, s1, pos, a) && Wrote(s1, s2, pos + |a|, b)
    ensures Wrote(s0, s2, pos, a + b)
  {
    assert s1[..pos + |a|] == s0[..pos] + a;
    assert s1[pos + |a| + |b|..] == s0[pos + |a + b|..];
    assert s0[..pos] + a + b == s0[..pos] + (a + b);
  }

  /** What was written stands there. */
  lemma WroteHolds(before: seq<byte>, after: seq<byte>, pos: nat, data: seq<byte>)
    requires Wrote(before, after, pos, data)
    ensures Holds(after, pos, data)
  {
  }

  // ----- what a buffer holds -----

  /** `data` stands at `pos`. */
  ghost predicate Holds(s: seq<byte>, pos: nat, data: seq<byte>) {
    pos + |data| <= |s| && forall k :: 0 <= k < |data| ==> s[pos + k] == data[k]
  }

  lemma HoldsSlice(s: seq<byte>, pos: nat, data: seq<byte>)
    ensures Holds(s, pos, data) <==> pos + |data| <= |s| && s[pos..pos + |data|] == data
  {
    if pos + |data| <= |s| {
      var found := s[pos..pos + |data|];
      assert forall k :: 0 <= k < |data| ==> found[k] == s[pos + k];
    }
  }

  lemma HoldsBoth(s: seq<byte>, pos: nat, a: seq<byte>, b: seq<byte>)
    ensures Holds(s, pos, a + b) <==> Holds(s, pos, a) && Holds(s, pos + |a|, b)
  {
    if Holds(s, pos, a + b) {
      assert forall k :: 0 <= k < |a| ==> a[k] == (a + b)[k];
      assert forall k :: 0 <= k < |b| ==> b[k] == (a + b)[|a| + k] == s[pos + (|a| + k)];
    }
    if Holds(s, pos, a) && Holds(s, pos + |a|, b) {
      forall k | 0 <= k < |a + b|
        ensures s[pos + k] == (a + b)[k]
      {
        assert k >= |a| ==> (a + b)[k] == b[k - |a|];
      }
    }
  }

  // ----- reading -----

  /** What a read gives: the value and the next place, or nothing past the end of the buffer. */
  datatype Parsed<T> = Parsed(value: T, next: nat) | PastEnd

  /** Wherever `part` stands, `read` gives `value` and stops right behind it. */
  ghost predicate Understands<T(!new)>(read: (seq<byte>, nat) -> Parsed<T>, part: seq<byte>, value: T) {
    forall s: seq<byte>, pos: nat :: Holds(s, pos, part) ==> read(s, pos) == Parsed(value, pos + |part|)
  }

  /** `n` values, one behind the other. */
  function ReadMany<T>(read: (seq<byte>, nat) -> Parsed<T>, s: seq<byte>, pos: nat, n: nat): (r: Parsed<seq<T>>)
    ensures r.Parsed? ==> |r.value| == n
    decreases n
  {
    if n == 0 then Parsed([], pos)
    else
      match ReadMany(read, s, pos, n - 1)
      case PastEnd => PastEnd
      case Parsed(values, p) =>
        match read(s, p)
        case PastEnd => PastEnd
        case Parsed(x, q) => Parsed(values + [x], q)
  }

  /** Parts that are understood one by one are understood one behind the other. */
  lemma {:induction false} ManyUnderstood<T(!new)>(read: (seq<byte>, nat) -> Parsed<T>, s: seq<byte>, pos: nat,
      parts: seq<seq<byte>>, values: seq<T>, n: nat)
    requires n <= |parts| == |values| && Holds(s, pos, Concat(parts, n))
    requires forall i :: 0 <= i < |parts| ==> Understands(read, parts[i], values[i])
    ensures ReadMany(read, s, pos, n) == Parsed(values[..n], pos + |Concat(parts, n)|)
    decreases n
  {
    if n > 0 {
      HoldsBoth(s, pos, Concat(parts, n - 1), parts[n - 1]);
      ManyUnderstood(read, s, pos, parts, values, n - 1);
      assert Understands(read, parts[n - 1], values[n - 1]);
      assert values[..n] == values[..n - 1] + [values[n - 1]];
    }
  }

  /** A longer list is read only if every shorter one is. */
  lemma {:induction false} ReadPrefix<T>(read: (seq<byte>, nat) -> Parsed<T>, s: seq<byte>, pos: nat, n: nat, m: nat)
    requires n <= m && ReadMany(read, s, pos, m).Parsed?
    ensures ReadMany(read, s, pos, n).Parsed?
    decreases m
  {
    if n < m {
      ReadPrefix(read, s, pos, n, m - 1);
    }
  }

  // ----- scalars -----

  function ReadScalar(s: seq<byte>, pos: nat, w: nat): Parsed<nat> {
    if pos + w <= |s| then Parsed(FromLittle(s[pos..pos + w]), pos + w) else PastEnd
  }

  lemma ScalarRead(s: seq<byte>, pos: nat, n: nat, w: nat)
    requires Holds(s, pos, Little(n, w)) && n < Power256(w)
    ensures ReadScalar(s, pos, w) == Parsed(n, pos + w)
  {
    HoldsSlice(s, pos, Little(n, w));
    LittleFits(n, w);
  }

  method SimpleWriteBuffer(n: nat, w: nat, buffer: array<byte>, pos: nat) returns (next: nat)
    requires pos + w <= buffer.Length
    modifies buffer
    ensures next == pos + w && Wrote(old(buffer[..]), buffer[..], pos, Little(n, w))
  {
    ghost var before := buffer[..];
    var rest, i := n, 0;
    while i < w
      invariant i <= w && Little(n, w)[i..] == Little(rest, w - i)
      invariant forall k :: 0 <= k < i ==> buffer[pos + k] == Little(n, w)[k]
      invariant forall k :: 0 <= k < pos ==> buffer[k] == before[k]
      invariant forall k :: pos + w <= k < buffer.Length ==> buffer[k] == before[k]
    {
      assert Little(n, w)[i] == Little(rest, w - i)[0];
      buffer[pos + i] := rest % 0x100;
      assert Little(n, w)[i + 1..] == Little(n, w)[i..][1..];
      assert Little(rest, w - i)[1..] == Little(rest / 0x100, w - i - 1);
      rest, i := rest / 0x100, i + 1;
    }
    assert buffer[..] == Overwritten(before, pos, Little(n, w));
    next := pos + w;
  }

  // ----- strings and byte arrays: a 32-bit length, then the bytes -----

  function EncodeBytes(b: seq<byte>): (s: seq<byte>)
    ensures |s| == 4 + |b|
  {
    Little(|b|, 4) + b
  }

  function ReadBytes(s: seq<byte>, pos: nat): Parsed<seq<byte>> {
    match ReadScalar(s, pos, 4)
    case PastEnd => PastEnd
    case Parsed(len, start) => if start + len <= |s| then Parsed(s[start..start + len], start + len) else PastEnd
  }

  /** A byte array comes back when its length fits 32 bits. */
  lemma BytesRead(s: seq<byte>, pos: nat, b: seq<byte>)
    requires Holds(s, pos, EncodeBytes(b)) && |b| < UINT32
    ensures ReadBytes(s, pos) == Parsed(b, pos + 4 + |b|)
  {
    HoldsBoth(s, pos, Little(|b|, 4), b);
    HoldsSlice(s, pos, Little(|b|, 4));
    HoldsSlice(s, pos + 4, b);
    ScalarRead(s, pos, |b|, 4);
  }

  lemma BytesUnderstood(b: seq<byte>)
    requires |b| < UINT32
    ensures Understands(ReadBytes, EncodeBytes(b), b)
  {
    forall s: seq<byte>, pos: nat | Holds(s, pos, EncodeBytes(b))
      ensures ReadBytes(s, pos) == Parsed(b, pos + |EncodeBytes(b)|)
    {
      BytesRead(s, pos, b);
    }
  }

  /** A longer one never does: its length is cut to 32 bits. */
  lemma LongBytesRead(s: seq<byte>, pos: nat, b: seq<byte>)
    requires Holds(s, pos, EncodeBytes(b)) && |b| >= UINT32
    ensures ReadBytes(s, pos) == Parsed(b[..|b| % UINT32], pos + 4 + |b| % UINT32)
  {
    HoldsBoth(s, pos, Little(|b|, 4), b);
    HoldsSlice(s, pos, Little(|b|, 4));
    HoldsSlice(s, pos + 4, b);
    LittleRoundTrip(|b|, 4);
    var len := |b| % UINT32;
    assert s[pos + 4..pos + 4 + |b|][..len] == s[pos + 4..pos + 4 + len];
  }

  /** So what is read back is what was written exactly when the length fits. */
  lemma BytesRoundTripIff(s: seq<byte>, pos: nat, b: seq<byte>)
    requires Holds(s, pos, EncodeBytes(b))
    ensures ReadBytes(s, pos) == Parsed(b, pos + 4 + |b|) <==> |b| < UINT32
  {
    if |b| < UINT32 {
      BytesRead(s, pos, b);
    } else {
      LongBytesRead(s, pos, b);
    }
  }

  /** 2^32 bytes come back as none. */
  lemma LengthCut(b: seq<byte>)
    requires |b| == UINT32
    ensures ReadBytes(EncodeBytes(b), 0) == Parsed([], 4)
  {
    HoldsSlice(EncodeBytes(b), 0, EncodeBytes(b));
    LongBytesRead(EncodeBytes(b), 0, b);
  }

  function EstimateBufferSize(b: seq<byte>): (n: nat)
    ensures n == |EncodeBytes(b)|
  {
    4 + |b|
  }

  method WriteBytes(b: seq<byte>, buffer: array<byte>, pos: nat) returns (next: nat)
    requires pos + EstimateBufferSize(b) <= buffer.Length
    modifies buffer
    ensures next == pos + EstimateBufferSize(b) && Wrote(old(buffer[..]), buffer[..], pos, EncodeBytes(b))
  {
    ghost var s0 := buffer[..];
    var start := SimpleWriteBuffer(|b|, 4, buffer, pos);
    ghost var s1 := buffer[..];
    forall k | 0 <= k < |b| {
      buffer[start + k] := b[k];
    }
    assert buffer[..] == Overwritten(s1, start, b);
    WroteBoth(s0, s1, buffer[..], pos, Little(|b|, 4), b);
    next := start + |b|;
  }

  method ReadBytesAt(buffer: array<byte>, pos: nat) returns (b: seq<byte>, next: nat)
    requires ReadBytes(buffer[..], pos).Parsed?
    ensures ReadBytes(buffer[..], pos) == Parsed(b, next)
  {
    ghost var s := buffer[..];
    assert buffer[pos..pos + 4] == s[pos..pos + 4];
    var len := FromLittle(buffer[pos..pos + 4]);
    assert buffer[pos + 4..pos + 4 + len] == s[pos + 4..pos + 4 + len];
    b, next := buffer[pos + 4..pos + 4 + len], pos + 4 + len;
  }
}
