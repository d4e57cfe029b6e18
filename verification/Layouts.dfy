/** The bytes of the files and messages, place by place. */
module Layouts {
  import opened Bytes
  import opened Serialization
  import opened MetadataView
  import Wire = RemoteSearchQuery

  // ----- numbers -----

  /** Byte `i` of a number is its digit to the base 256, the lowest first. */
  lemma {:induction false} LittleDigit(n: nat, w: nat, i: nat)
    requires i < w
    ensures Little(n, w)[i] == n / Power256(i) % 0x100
    decreases w
  {
    if i > 0 {
      LittleDigit(n / 0x100, w - 1, i - 1);
      DivideTwice(n, Power256(i - 1));
    }
  }

  lemma DivideTwice(n: nat, p: nat)
    requires p > 0
    ensures n / 0x100 / p == n / (0x100 * p)
  {
    var a, q := n / 0x100, n / 0x100 / p;
    assert a == p * q + a % p;
    var rest := 0x100 * (a % p) + n % 0x100;
    assert n == 0x100 * p * q + rest;
    assert 0 <= rest < 0x100 * p;
    QuotientOf(n, 0x100 * p, q, rest);
  }

  lemma QuotientOf(n: nat, d: nat, q: nat, rest: nat)
    requires d > 0 && n == d * q + rest && rest < d
    ensures n / d == q
  {
    var q', r' := n / d, n % d;
    assert n == d * q' + r';
    if q' < q {
      MulMono(d, q' + 1, q);
    } else if q' > q {
      MulMono(d, q + 1, q');
    }
  }

  /** The four bytes at `pos` are the 32-bit number `n`, the lowest first. */
  ghost predicate Word32(s: seq<byte>, pos: nat, n: nat) {
    pos + 4 <= |s| && s[pos] == n % 0x100 && s[pos + 1] == n / 0x100 % 0x100 && s[pos + 2] == n / 0x1_0000 % 0x100
      && s[pos + 3] == n / 0x100_0000 % 0x100
  }

  lemma Powers()
    ensures Power256(0) == 1 && Power256(1) == 0x100 && Power256(2) == 0x1_0000 && Power256(3) == 0x100_0000
  {
    assert Power256(1) == 0x100 * Power256(0);
    assert Power256(2) == 0x100 * Power256(1);
    assert Power256(3) == 0x100 * Power256(2);
  }

  lemma Little32(n: nat, s: seq<byte>, pos: nat)
    requires Holds(s, pos, Little(n, 4))
    ensures Word32(s, pos, n)
  {
    Powers();
    LittleDigit(n, 4, 0);
    LittleDigit(n, 4, 1);
    LittleDigit(n, 4, 2);
    LittleDigit(n, 4, 3);
    assert s[pos + 0] == Little(n, 4)[0];
  }

  // ----- parts of one size -----

  lemma {:induction false} ConcatAt(parts: seq<seq<byte>>, n: nat, w: nat, j: nat)
    requires j < n <= |parts| && forall i :: 0 <= i < n ==> |parts[i]| == w
    ensures |Concat(parts, n)| == w * n && Holds(Concat(parts, n), w * j, parts[j])
    decreases n
  {
    assert w * n == w * (n - 1) + w;
    if n == 1 {
      assert Concat(parts, 0) == [];
    } else {
      ConcatAt(parts, n - 1, w, if j < n - 1 then j else 0);
      if j < n - 1 {
        assert w * (n - 1) >= w * j + w by {
          MulMono(w, j + 1, n - 1);
        }
      }
    }
  }

  // ----- the index file -----

  lemma {:induction false} IndexAt(offsets: seq<nat>, n: nat, k: nat)
    requires k < n <= |offsets|
    ensures |IndexUpTo(offsets, n)| == 4 + 8 * n
    ensures Holds(IndexUpTo(offsets, n), 0, Little(|offsets| - 1, 4))
    ensures Holds(IndexUpTo(offsets, n), 4 + 8 * k, Little(offsets[k], 8))
    decreases n
  {
    if k < n - 1 {
      IndexAt(offsets, n - 1, k);
    } else if n > 1 {
      IndexAt(offsets, n - 1, 0);
    } else {
      assert IndexUpTo(offsets, 0) == Little(|offsets| - 1, 4);
    }
  }

  /** The index file: the number of records in four bytes, then every offset in eight, low bytes first. */
  lemma IndexLayout(offsets: seq<nat>, k: nat, i: nat)
    requires k < |offsets| && i < 8
    ensures |EncodeIndex(offsets)| == 4 + 8 * |offsets|
    ensures Word32(EncodeIndex(offsets), 0, |offsets| - 1)
    ensures EncodeIndex(offsets)[4 + 8 * k + i] == offsets[k] / Power256(i) % 0x100
  {
    IndexAt(offsets, |offsets|, k);
    Little32(|offsets| - 1, EncodeIndex(offsets), 0);
    LittleDigit(offsets[k], 8, i);
    assert EncodeIndex(offsets)[4 + 8 * k + i] == Little(offsets[k], 8)[i];
  }

  // ----- the messages -----

  /** A byte array: its length in four bytes, then the bytes. */
  lemma BytesLayout(b: seq<byte>)
    ensures |EncodeBytes(b)| == 4 + |b| && Word32(EncodeBytes(b), 0, |b|) && EncodeBytes(b)[4..] == b
  {
    Little32(|b|, EncodeBytes(b), 0);
  }

  lemma VersionBytes()
    ensures Wire.Versions() == [1, 0, 0, 0]
  {
    Powers();
    assert Little(1, 2) == [1] + Little(0, 1);
    assert Little(0, 2) == [0] + Little(0, 1);
    assert Little(0, 1) == [0] + Little(0, 0);
  }

  /** A query: major version 1 and mirror version 0 in two bytes each, its type, and its text. */
  lemma QueryLayout(q: Wire.Query)
    ensures Wire.EncodeQuery(q) == [1, 0, 0, 0, q.kind] + EncodeBytes(q.text)
  {
    VersionBytes();
    assert Little(q.kind, 1) == [q.kind] + Little(0, 0);
  }

  /** A search result: the versions, the status, the number of indexes, and the results of each index in turn. */
  lemma ResultLayout(r: Wire.SearchResult)
    ensures var s := Wire.Encode(r);
      && |s| == 9 + |Concat(Wire.IndexParts(r.all), |r.all|)|
      && s[..5] == [1, 0, 0, 0, r.status] && Word32(s, 5, |r.all|)
      && s[9..] == Concat(Wire.IndexParts(r.all), |r.all|)
  {
    var s, rest := Wire.Encode(r), Wire.EncodeAll(r.all);
    FrontLayout(r);
    SplitFront(s, r.status, Little(|r.all|, 4), Wire.Versions(), Wire.Front(r), rest);
    Little32(|r.all|, s, 5);
  }

  lemma SplitFront(s: seq<byte>, status: byte, count: seq<byte>, a: seq<byte>, b: seq<byte>, rest: seq<byte>)
    requires |count| == 4 && s == a + (b + rest) && a + b == [1, 0, 0, 0, status] + count
    ensures |s| == 9 + |rest| && s[..5] == [1, 0, 0, 0, status] && Holds(s, 5, count) && s[9..] == rest
  {
    assert s == a + b + rest;
  }

  lemma FrontLayout(r: Wire.SearchResult)
    ensures Wire.Versions() + Wire.Front(r) == [1, 0, 0, 0, r.status] + Little(|r.all|, 4)
  {
    VersionBytes();
    assert Little(r.status, 1) == [r.status] + Little(0, 0);
  }

  /**
    The results of one index: its name as a byte array, the number of results, a byte that tells whether metadata
    follow, eight bytes for every result, and the metadata.
   */
  lemma IndexResultLayout(x: Wire.IndexResult)
    ensures var s, p := Wire.EncodeIndex(x), 4 + |x.name|;
      && |s| == p + 5 + 8 * |x.hits| + |Wire.EncodeMetas(x)|
      && s[..p] == EncodeBytes(x.name) && Word32(s, p, |x.hits|) && s[p + 4] == (if x.withMeta then 1 else 0)
      && s[p + 5..p + 5 + 8 * |x.hits|] == Wire.EncodePairs(x.hits)
      && s[p + 5 + 8 * |x.hits|..] == if x.withMeta then Concat(Wire.MetaParts(x.hits), |x.hits|) else []
  {
    var s, p := Wire.EncodeIndex(x), 4 + |x.name|;
    PairsSize(x.hits);
    var tail := Little(|x.hits|, 4) + Little(Wire.FlagOf(x.withMeta), 1);
    assert Wire.EncodeHead(x) == EncodeBytes(x.name) + tail && |tail| == 5;
    assert s[p..p + 5] == tail;
    assert Little(Wire.FlagOf(x.withMeta), 1) == [Wire.FlagOf(x.withMeta)] + Little(0, 0);
    Little32(|x.hits|, s, p);
  }

  lemma PairsSize(hits: seq<Wire.Hit>)
    ensures |Wire.EncodePairs(hits)| == 8 * |hits|
  {
    if hits != [] {
      ConcatAt(Wire.PairParts(hits), |hits|, 8, 0);
    }
  }

  /** One result: the id, a negative one counted from 2^32 down, and the bits of the distance. */
  lemma PairLayout(hits: seq<Wire.Hit>, j: nat)
    requires j < |hits| && -0x8000_0000 <= hits[j].vid < 0x8000_0000
    ensures var s, u := Wire.EncodePairs(hits), if hits[j].vid < 0 then hits[j].vid + 0x1_0000_0000 else hits[j].vid;
      Word32(s, 8 * j, u) && Word32(s, 8 * j + 4, hits[j].dist)
  {
    var s, u := Wire.EncodePairs(hits), Wire.ToUnsigned(hits[j].vid);
    PairHolds(hits, j);
    Little32(u, s, 8 * j);
    Little32(hits[j].dist, s, 8 * j + 4);
  }

  lemma PairHolds(hits: seq<Wire.Hit>, j: nat)
    requires j < |hits|
    ensures Holds(Wire.EncodePairs(hits), 8 * j, Little(Wire.ToUnsigned(hits[j].vid), 4))
    ensures Holds(Wire.EncodePairs(hits), 8 * j + 4, Little(hits[j].dist, 4))
  {
    ConcatAt(Wire.PairParts(hits), |hits|, 8, j);
    HoldsBoth(Wire.EncodePairs(hits), 8 * j, Little(Wire.ToUnsigned(hits[j].vid), 4), Little(hits[j].dist, 4));
  }
}
