/** `RemoteQuery` and `RemoteSearchResult`: the two messages, written into and read from a byte buffer. */
module RemoteSearchQuery {
  import opened Bytes
  import opened Serialization

  const MAJOR: int := 1
  const MIRROR: int := 0

  /** One result: an `int32` id, the 32-bit pattern of the distance, and the metadata. */
  datatype Hit = Hit(vid: int, dist: nat, meta: seq<byte>)
  datatype IndexResult = IndexResult(name: seq<byte>, withMeta: bool, hits: seq<Hit>)
  datatype SearchResult = SearchResult(status: byte, all: seq<IndexResult>)

  /** What `Read` answers: a null pointer for another major version, or what it parsed. */
  datatype Outcome<T> = WrongVersion | Read(parsed: Parsed<T>)

  /** What stands before the results of one index. */
  datatype Head = Head(name: seq<byte>, resNum: nat, withMeta: bool)

  // ----- fields -----

  function ToUnsigned(v: int): (u: nat)
    ensures u < UINT32
  {
    v % UINT32
  }

  function ToSigned(u: nat): int {
    if u >= 0x8000_0000 then u - UINT32 else u
  }

  predicate IsInt32(v: int) {
    -0x8000_0000 <= v < 0x8000_0000
  }

  function FlagOf(b: bool): nat {
    if b then 1 else 0
  }

  // ----- the bytes of a search result -----

  function EncodePair(h: Hit): (s: seq<byte>)
    ensures |s| == 8
  {
    Little(ToUnsigned(h.vid), 4) + Little(h.dist, 4)
  }

  function PairParts(hits: seq<Hit>): (parts: seq<seq<byte>>)
    ensures |parts| == |hits|
  {
    seq(|hits|, i requires 0 <= i < |hits| => EncodePair(hits[i]))
  }

  function MetaParts(hits: seq<Hit>): (parts: seq<seq<byte>>)
    ensures |parts| == |hits|
  {
    seq(|hits|, i requires 0 <= i < |hits| => EncodeBytes(hits[i].meta))
  }

  function EncodePairs(hits: seq<Hit>): seq<byte> {
    Concat(PairParts(hits), |hits|)
  }

  /** The metadata part, present only with the flag. */
  function EncodeMetas(x: IndexResult): seq<byte> {
    if x.withMeta then Concat(MetaParts(x.hits), |x.hits|) else []
  }

  function EncodeHead(x: IndexResult): seq<byte> {
    EncodeBytes(x.name) + (Little(|x.hits|, 4) + Little(FlagOf(x.withMeta), 1))
  }

  function EncodeIndex(x: IndexResult): seq<byte> {
    EncodeHead(x) + (EncodePairs(x.hits) + EncodeMetas(x))
  }

  function IndexParts(all: seq<IndexResult>): (parts: seq<seq<byte>>)
    ensures |parts| == |all|
  {
    seq(|all|, i requires 0 <= i < |all| => EncodeIndex(all[i]))
  }

  function EncodeAll(all: seq<IndexResult>): seq<byte> {
    Concat(IndexParts(all), |all|)
  }

  function Versions(): (s: seq<byte>)
    ensures |s| == 4
  {
    Little(MAJOR, 2) + Little(MIRROR, 2)
  }

  /** The fields in front of the index results. */
  function Front(r: SearchResult): (s: seq<byte>)
    ensures |s| == 5
  {
    Little(r.status, 1) + Little(|r.all|, 4)
  }

  function Encode(r: SearchResult): seq<byte> {
    Versions() + (Front(r) + EncodeAll(r.all))
  }

  // ----- reading them back -----

  function ReadPair(s: seq<byte>, pos: nat): Parsed<Hit> {
    if pos + 8 > |s| then PastEnd
    else Parsed(Hit(ToSigned(FromLittle(s[pos..pos + 4])), FromLittle(s[pos + 4..pos + 8]), []), pos + 8)
  }

  /** The results with their metadata set. */
  function SetMetas(hits: seq<Hit>, metas: seq<seq<byte>>): (r: seq<Hit>)
    requires |hits| == |metas|
    ensures |r| == |hits|
  {
    seq(|hits|, i requires 0 <= i < |hits| && |hits| == |metas| => hits[i].(meta := metas[i]))
  }

  function ReadHead(s: seq<byte>, pos: nat): Parsed<Head> {
    match ReadBytes(s, pos)
    case PastEnd => PastEnd
    case Parsed(name, p) =>
      if p + 5 <= |s| then Parsed(Head(name, FromLittle(s[p..p + 4]), FromLittle(s[p + 4..p + 5]) != 0), p + 5)
        else PastEnd
  }

  function ReadBody(s: seq<byte>, pos: nat, resNum: nat, withMeta: bool): Parsed<seq<Hit>> {
    match ReadMany(ReadPair, s, pos, resNum)
    case PastEnd => PastEnd
    case Parsed(hits, p) =>
      if !withMeta then Parsed(hits, p)
      else
        match ReadMany(ReadBytes, s, p, resNum)
        case PastEnd => PastEnd
        case Parsed(metas, q) => Parsed(SetMetas(hits, metas), q)
  }

  function ReadIndex(s: seq<byte>, pos: nat): Parsed<IndexResult> {
    match ReadHead(s, pos)
    case PastEnd => PastEnd
    case Parsed(head, p) =>
      match ReadBody(s, p, head.resNum, head.withMeta)
      case PastEnd => PastEnd
      case Parsed(hits, q) => Parsed(IndexResult(head.name, head.withMeta, hits), q)
  }

  /** The major version at `pos`; the mirror version behind it is skipped. */
  function ReadMajor(s: seq<byte>, pos: nat): Parsed<nat> {
    if pos + 4 <= |s| then Parsed(FromLittle(s[pos..pos + 2]), pos + 4) else PastEnd
  }

  function ReadRest(s: seq<byte>, pos: nat): Parsed<SearchResult> {
    if pos + 5 > |s| then PastEnd
    else
      match ReadMany(ReadIndex, s, pos + 5, FromLittle(s[pos + 1..pos + 5]))
      case PastEnd => PastEnd
      case Parsed(all, next) => Parsed(SearchResult(s[pos], all), next)
  }

  function Decode(s: seq<byte>, pos: nat): Outcome<SearchResult> {
    match ReadMajor(s, pos)
    case PastEnd => Read(PastEnd)
    case Parsed(major, p) => if major != MAJOR then WrongVersion else Read(ReadRest(s, p))
  }

  // ----- the round trip -----

  ghost predicate FitsHit(h: Hit, withMeta: bool) {
    IsInt32(h.vid) && h.dist < UINT32 && (withMeta ==> |h.meta| < UINT32)
  }

  /** Every count and length fits the field it is written in. */
  ghost predicate FitsIndex(x: IndexResult) {
    && |x.name| < UINT32 && |x.hits| < 0x8000_0000
    && forall i :: 0 <= i < |x.hits| ==> FitsHit(x.hits[i], x.withMeta)
  }

  ghost predicate Fits(r: SearchResult) {
    |r.all| < UINT32 && forall i :: 0 <= i < |r.all| ==> FitsIndex(r.all[i])
  }

  /** What travels: metadata only with the flag. */
  function Sent(x: IndexResult): IndexResult {
    if x.withMeta then x else x.(hits := Bare(x.hits))
  }

  function Bare(hits: seq<Hit>): (r: seq<Hit>)
    ensures |r| == |hits|
  {
    seq(|hits|, i requires 0 <= i < |hits| => hits[i].(meta := []))
  }

  function MetasOf(hits: seq<Hit>): (r: seq<seq<byte>>)
    ensures |r| == |hits|
  {
    seq(|hits|, i requires 0 <= i < |hits| => hits[i].meta)
  }

  function SentAll(all: seq<IndexResult>): (r: seq<IndexResult>)
    ensures |r| == |all|
  {
    seq(|all|, i requires 0 <= i < |all| => Sent(all[i]))
  }

  lemma PairRead(s: seq<byte>, pos: nat, h: Hit)
    requires Holds(s, pos, EncodePair(h)) && IsInt32(h.vid) && h.dist < UINT32
    ensures ReadPair(s, pos) == Parsed(h.(meta := []), pos + 8)
  {
    HoldsBoth(s, pos, Little(ToUnsigned(h.vid), 4), Little(h.dist, 4));
    HoldsSlice(s, pos, Little(ToUnsigned(h.vid), 4));
    HoldsSlice(s, pos + 4, Little(h.dist, 4));
    LittleFits(ToUnsigned(h.vid), 4);
    LittleFits(h.dist, 4);
  }

  lemma PairUnderstood(h: Hit)
    requires IsInt32(h.vid) && h.dist < UINT32
    ensures Understands(ReadPair, EncodePair(h), h.(meta := []))
  {
    forall s: seq<byte>, pos: nat | Holds(s, pos, EncodePair(h))
      ensures ReadPair(s, pos) == Parsed(h.(meta := []), pos + 8)
    {
      PairRead(s, pos, h);
    }
  }

  lemma PairsRead(s: seq<byte>, pos: nat, x: IndexResult)
    requires Holds(s, pos, EncodePairs(x.hits)) && FitsIndex(x)
    ensures ReadMany(ReadPair, s, pos, |x.hits|) == Parsed(Bare(x.hits), pos + |EncodePairs(x.hits)|)
  {
    var n, parts, values := |x.hits|, PairParts(x.hits), Bare(x.hits);
    forall i | 0 <= i < n
      ensures Understands(ReadPair, parts[i], values[i])
    {
      assert FitsHit(x.hits[i], x.withMeta);
      PairUnderstood(x.hits[i]);
    }
    ManyUnderstood(ReadPair, s, pos, parts, values, n);
    assert values[..n] == values;
  }

  lemma MetasRead(s: seq<byte>, pos: nat, x: IndexResult)
    requires Holds(s, pos, EncodeMetas(x)) && FitsIndex(x) && x.withMeta
    ensures ReadMany(ReadBytes, s, pos, |x.hits|) == Parsed(MetasOf(x.hits), pos + |EncodeMetas(x)|)
  {
    var n, parts, values := |x.hits|, MetaParts(x.hits), MetasOf(x.hits);
    forall i | 0 <= i < n
      ensures Understands(ReadBytes, parts[i], values[i])
    {
      assert FitsHit(x.hits[i], x.withMeta);
      BytesUnderstood(x.hits[i].meta);
    }
    ManyUnderstood(ReadBytes, s, pos, parts, values, n);
    assert values[..n] == values;
  }

  lemma MetasBack(hits: seq<Hit>)
    ensures SetMetas(Bare(hits), MetasOf(hits)) == hits
  {
    var found := SetMetas(Bare(hits), MetasOf(hits));
    forall i | 0 <= i < |hits|
      ensures found[i] == hits[i]
    {
      assert Bare(hits)[i] == hits[i].(meta := []) && MetasOf(hits)[i] == hits[i].meta;
    }
  }

  lemma HeadRead(s: seq<byte>, pos: nat, x: IndexResult)
    requires Holds(s, pos, EncodeHead(x)) && |x.name| < UINT32 && |x.hits| < UINT32
    ensures ReadHead(s, pos) == Parsed(Head(x.name, |x.hits|, x.withMeta), pos + |EncodeHead(x)|)
  {
    HoldsBoth(s, pos, EncodeBytes(x.name), Little(|x.hits|, 4) + Little(FlagOf(x.withMeta), 1));
    BytesRead(s, pos, x.name);
    CountAndFlagRead(s, pos + 4 + |x.name|, |x.hits|, FlagOf(x.withMeta));
  }

  lemma CountAndFlagRead(s: seq<byte>, p: nat, count: nat, flag: nat)
    requires Holds(s, p, Little(count, 4) + Little(flag, 1)) && count < UINT32 && flag < 256
    ensures p + 5 <= |s| && FromLittle(s[p..p + 4]) == count && FromLittle(s[p + 4..p + 5]) == flag
  {
    HoldsBoth(s, p, Little(count, 4), Little(flag, 1));
    HoldsSlice(s, p, Little(count, 4));
    HoldsSlice(s, p + 4, Little(flag, 1));
    LittleFits(count, 4);
    LittleFits(flag, 1);
  }

  lemma BodyRead(s: seq<byte>, pos: nat, x: IndexResult)
    requires Holds(s, pos, EncodePairs(x.hits) + EncodeMetas(x)) && FitsIndex(x)
    ensures ReadBody(s, pos, |x.hits|, x.withMeta) ==
      Parsed(Sent(x).hits, pos + |EncodePairs(x.hits)| + |EncodeMetas(x)|)
  {
    HoldsBoth(s, pos, EncodePairs(x.hits), EncodeMetas(x));
    PairsRead(s, pos, x);
    if x.withMeta {
      MetasRead(s, pos + |EncodePairs(x.hits)|, x);
      MetasBack(x.hits);
    }
  }

  lemma IndexFrom(s: seq<byte>, pos: nat, head: Head, p: nat, hits: seq<Hit>, q: nat)
    requires ReadHead(s, pos) == Parsed(head, p) && ReadBody(s, p, head.resNum, head.withMeta) == Parsed(hits, q)
    ensures ReadIndex(s, pos) == Parsed(IndexResult(head.name, head.withMeta, hits), q)
  {
  }

  lemma IndexRead(s: seq<byte>, pos: nat, x: IndexResult)
    requires Holds(s, pos, EncodeIndex(x)) && FitsIndex(x)
    ensures ReadIndex(s, pos) == Parsed(Sent(x), pos + |EncodeIndex(x)|)
  {
    HoldsBoth(s, pos, EncodeHead(x), EncodePairs(x.hits) + EncodeMetas(x));
    HeadRead(s, pos, x);
    var p := pos + |EncodeHead(x)|;
    BodyRead(s, p, x);
    IndexFrom(s, pos, Head(x.name, |x.hits|, x.withMeta), p, Sent(x).hits, pos + |EncodeIndex(x)|);
  }

  lemma IndexUnderstood(x: IndexResult)
    requires FitsIndex(x)
    ensures Understands(ReadIndex, EncodeIndex(x), Sent(x))
  {
    forall s: seq<byte>, pos: nat | Holds(s, pos, EncodeIndex(x))
      ensures ReadIndex(s, pos) == Parsed(Sent(x), pos + |EncodeIndex(x)|)
    {
      IndexRead(s, pos, x);
    }
  }

  lemma EachUnderstood(all: seq<IndexResult>)
    requires forall i :: 0 <= i < |all| ==> FitsIndex(all[i])
    ensures forall i :: 0 <= i < |all| ==> Understands(ReadIndex, IndexParts(all)[i], SentAll(all)[i])
  {
    forall i | 0 <= i < |all|
      ensures Understands(ReadIndex, IndexParts(all)[i], SentAll(all)[i])
    {
      IndexUnderstood(all[i]);
    }
  }

  lemma AllRead(s: seq<byte>, pos: nat, all: seq<IndexResult>)
    requires Holds(s, pos, EncodeAll(all)) && forall i :: 0 <= i < |all| ==> FitsIndex(all[i])
    ensures ReadMany(ReadIndex, s, pos, |all|) == Parsed(SentAll(all), pos + |EncodeAll(all)|)
  {
    EachUnderstood(all);
    ManyUnderstood(ReadIndex, s, pos, IndexParts(all), SentAll(all), |all|);
    assert SentAll(all)[..|all|] == SentAll(all);
  }

  lemma VersionsRead(s: seq<byte>, pos: nat)
    requires Holds(s, pos, Versions())
    ensures ReadMajor(s, pos) == Parsed(MAJOR, pos + 4)
  {
    HoldsBoth(s, pos, Little(MAJOR, 2), Little(MIRROR, 2));
    HoldsSlice(s, pos, Little(MAJOR, 2));
    LittleFits(MAJOR, 2);
  }

  lemma FrontRead(s: seq<byte>, pos: nat, r: SearchResult)
    requires Holds(s, pos, Front(r)) && |r.all| < UINT32
    ensures pos + 5 <= |s| && s[pos] == r.status && FromLittle(s[pos + 1..pos + 5]) == |r.all|
  {
    HoldsBoth(s, pos, Little(r.status, 1), Little(|r.all|, 4));
    HoldsSlice(s, pos + 1, Little(|r.all|, 4));
    LittleFits(|r.all|, 4);
    assert s[pos + 0] == Little(r.status, 1)[0];
  }

  lemma RestRead(s: seq<byte>, pos: nat, r: SearchResult)
    requires Holds(s, pos, Front(r) + EncodeAll(r.all)) && Fits(r)
    ensures ReadRest(s, pos) == Parsed(SearchResult(r.status, SentAll(r.all)), pos + 5 + |EncodeAll(r.all)|)
  {
    HoldsBoth(s, pos, Front(r), EncodeAll(r.all));
    FrontRead(s, pos, r);
    AllRead(s, pos + 5, r.all);
  }

  /**
    Reading what was written gives the status, names, result pairs and flagged metadata back, and ends where the writing
    ended.
   */
  lemma ResultRoundTrip(s: seq<byte>, pos: nat, r: SearchResult)
    requires Holds(s, pos, Encode(r)) && Fits(r)
    ensures Decode(s, pos) == Read(Parsed(SearchResult(r.status, SentAll(r.all)), pos + |Encode(r)|))
  {
    HoldsBoth(s, pos, Versions(), Front(r) + EncodeAll(r.all));
    VersionsRead(s, pos);
    RestRead(s, pos + 4, r);
  }

  /** `GetMetadata`: without the flag there is none to be seen. */
  function GetMetadata(x: IndexResult, i: int): seq<byte> {
    if 0 <= i < |x.hits| && x.withMeta then x.hits[i].meta else []
  }

  /** Two results of an index look the same from outside. */
  ghost predicate SameLook(x: IndexResult, y: IndexResult) {
    && x.name == y.name && x.withMeta == y.withMeta && |x.hits| == |y.hits|
    && forall i :: 0 <= i < |x.hits| ==> SameHit(x, y, i)
  }

  ghost predicate SameHit(x: IndexResult, y: IndexResult, i: nat)
    requires i < |x.hits| == |y.hits|
  {
    x.hits[i].vid == y.hits[i].vid && x.hits[i].dist == y.hits[i].dist && GetMetadata(x, i) == GetMetadata(y, i)
  }

  /** What travels is all that can be seen of a result, and nothing that travels is hidden. */
  lemma SentIff(x: IndexResult, y: IndexResult)
    requires y.withMeta || forall i :: 0 <= i < |y.hits| ==> y.hits[i].meta == []
    ensures SameLook(x, y) <==> y == Sent(x)
  {
    if SameLook(x, y) {
      forall i | 0 <= i < |x.hits|
        ensures y.hits[i] == Sent(x).hits[i]
      {
        assert SameHit(x, y, i);
        assert GetMetadata(y, i) == y.hits[i].meta;
      }
      assert y.hits == Sent(x).hits;
    }
  }

  /** Reading gives back a result that looks in every part like the one written. */
  lemma LookRestored(s: seq<byte>, pos: nat, r: SearchResult) returns (got: SearchResult)
    requires Holds(s, pos, Encode(r)) && Fits(r)
    ensures Decode(s, pos) == Read(Parsed(got, pos + |Encode(r)|))
    ensures got.status == r.status && |got.all| == |r.all| && forall i :: 0 <= i < |r.all| ==>
      SameLook(r.all[i], got.all[i])
  {
    ResultRoundTrip(s, pos, r);
    got := SearchResult(r.status, SentAll(r.all));
    forall i | 0 <= i < |r.all|
      ensures SameLook(r.all[i], got.all[i])
    {
      SentIff(r.all[i], Sent(r.all[i]));
    }
  }

  /** The whole value comes back exactly when no metadata is hidden for want of its flag. */
  lemma RestoredIff(r: SearchResult)
    ensures SentAll(r.all) == r.all <==>
      forall i, j :: 0 <= i < |r.all| && 0 <= j < |r.all[i].hits| && !r.all[i].withMeta ==> r.all[i].hits[j].meta == []
  {
    forall i | 0 <= i < |r.all|
      ensures Sent(r.all[i]) == r.all[i] <==>
        forall j :: 0 <= j < |r.all[i].hits| && !r.all[i].withMeta ==> r.all[i].hits[j].meta == []
    {
    }
    assert forall i :: 0 <= i < |r.all| ==> SentAll(r.all)[i] == Sent(r.all[i]);
  }

  // ----- writing and reading a buffer in place -----

  /** The sizes are summed up part by part. */
  method EstimateIndex(x: IndexResult) returns (sum: nat)
    ensures sum == |EncodeIndex(x)|
  {
    sum := EstimateBufferSize(x.name) + 4 + 1;
    var pairs := 0;
    for i := 0 to |x.hits|
      invariant pairs == |Concat(PairParts(x.hits), i)|
    {
      pairs := pairs + 4 + 4;
    }
    var metas := 0;
    if x.withMeta {
      for i := 0 to |x.hits|
        invariant metas == |Concat(MetaParts(x.hits), i)|
      {
        metas := metas + EstimateBufferSize(x.hits[i].meta);
      }
    }
    sum := sum + pairs + metas;
  }

  method EstimateResult(r: SearchResult) returns (sum: nat)
    ensures sum == |Encode(r)|
  {
    sum := 0;
    for i := 0 to |r.all|
      invariant sum == |Concat(IndexParts(r.all), i)|
    {
      var size := EstimateIndex(r.all[i]);
      sum := sum + size;
    }
    sum := 2 + 2 + 1 + 4 + sum;
  }

  method WritePair(h: Hit, buffer: array<byte>, pos: nat) returns (next: nat)
    requires pos + 8 <= buffer.Length
    modifies buffer
    ensures next == pos + 8 && Wrote(old(buffer[..]), buffer[..], pos, EncodePair(h))
  {
    ghost var s0 := buffer[..];
    var p := SimpleWriteBuffer(ToUnsigned(h.vid), 4, buffer, pos);
    ghost var s1 := buffer[..];
    next := SimpleWriteBuffer(h.dist, 4, buffer, p);
    WroteBoth(s0, s1, buffer[..], pos, Little(ToUnsigned(h.vid), 4), Little(h.dist, 4));
  }

  method WritePairs(hits: seq<Hit>, buffer: array<byte>, pos: nat) returns (next: nat)
    requires pos + |EncodePairs(hits)| <= buffer.Length
    modifies buffer
    ensures next == pos + |EncodePairs(hits)| && Wrote(old(buffer[..]), buffer[..], pos, EncodePairs(hits))
  {
    ghost var parts, s0 := PairParts(hits), buffer[..];
    next := pos;
    for i := 0 to |hits|
      invariant next == pos + |Concat(parts, i)| && Wrote(s0, buffer[..], pos, Concat(parts, i))
    {
      ConcatStep(parts, i);
      ghost var s1 := buffer[..];
      next := WritePair(hits[i], buffer, next);
      WroteBoth(s0, s1, buffer[..], pos, Concat(parts, i), parts[i]);
    }
  }

  method WriteMetas(hits: seq<Hit>, buffer: array<byte>, pos: nat) returns (next: nat)
    requires pos + |Concat(MetaParts(hits), |hits|)| <= buffer.Length
    modifies buffer
    ensures next == pos + |Concat(MetaParts(hits), |hits|)|
      && Wrote(old(buffer[..]), buffer[..], pos, Concat(MetaParts(hits), |hits|))
  {
    ghost var parts, s0 := MetaParts(hits), buffer[..];
    next := pos;
    for i := 0 to |hits|
      invariant next == pos + |Concat(parts, i)| && Wrote(s0, buffer[..], pos, Concat(parts, i))
    {
      ConcatStep(parts, i);
      ghost var s1 := buffer[..];
      next := WriteBytes(hits[i].meta, buffer, next);
      WroteBoth(s0, s1, buffer[..], pos, Concat(parts, i), parts[i]);
    }
  }

  method WriteHead(x: IndexResult, buffer: array<byte>, pos: nat) returns (next: nat)
    requires pos + |EncodeHead(x)| <= buffer.Length
    modifies buffer
    ensures next == pos + |EncodeHead(x)| && Wrote(old(buffer[..]), buffer[..], pos, EncodeHead(x))
  {
    ghost var s0, count, flag := buffer[..], Little(|x.hits|, 4), Little(FlagOf(x.withMeta), 1);
    var p := WriteBytes(x.name, buffer, pos);
    ghost var s1 := buffer[..];
    var q := SimpleWriteBuffer(|x.hits|, 4, buffer, p);
    ghost var s2 := buffer[..];
    next := SimpleWriteBuffer(FlagOf(x.withMeta), 1, buffer, q);
    WroteBoth(s1, s2, buffer[..], p, count, flag);
    WroteBoth(s0, s1, buffer[..], pos, EncodeBytes(x.name), count + flag);
  }

  method WriteIndex(x: IndexResult, buffer: array<byte>, pos: nat) returns (next: nat)
    requires pos + |EncodeIndex(x)| <= buffer.Length
    modifies buffer
    ensures next == pos + |EncodeIndex(x)| && Wrote(old(buffer[..]), buffer[..], pos, EncodeIndex(x))
  {
    ghost var s0 := buffer[..];
    var p := WriteHead(x, buffer, pos);
    ghost var s1 := buffer[..];
    next := WritePairs(x.hits, buffer, p);
    ghost var s2 := buffer[..];
    if x.withMeta {
      next := WriteMetas(x.hits, buffer, next);
    }
    WroteBoth(s1, s2, buffer[..], p, EncodePairs(x.hits), EncodeMetas(x));
    WroteBoth(s0, s1, buffer[..], pos, EncodeHead(x), EncodePairs(x.hits) + EncodeMetas(x));
  }

  lemma FitsBehind(parts: seq<seq<byte>>, i: nat)
    requires i < |parts|
    ensures Concat(parts, i + 1) == Concat(parts, i) + parts[i]
      && |Concat(parts, i)| + |parts[i]| <= |Concat(parts, |parts|)|
  {
    ConcatStep(parts, i);
    ConcatPrefix(parts, i + 1, |parts|);
  }

  /** One more index result behind the first `i` parts. */
  method WriteNext(x: IndexResult, buffer: array<byte>, next: nat, ghost s0: seq<byte>, ghost pos: nat,
      ghost parts: seq<seq<byte>>, ghost i: nat) returns (next': nat)
    requires i < |parts| && parts[i] == EncodeIndex(x) && pos + |Concat(parts, |parts|)| <= buffer.Length
    requires next == pos + |Concat(parts, i)| && Wrote(s0, buffer[..], pos, Concat(parts, i))
    modifies buffer
    ensures next' == pos + |Concat(parts, i + 1)| && Wrote(s0, buffer[..], pos, Concat(parts, i + 1))
  {
    FitsBehind(parts, i);
    ghost var s1 := buffer[..];
    next' := WriteIndex(x, buffer, next);
    WroteBoth(s0, s1, buffer[..], pos, Concat(parts, i), parts[i]);
  }

  method WriteAll(all: seq<IndexResult>, buffer: array<byte>, pos: nat) returns (next: nat)
    requires pos + |EncodeAll(all)| <= buffer.Length
    modifies buffer
    ensures next == pos + |EncodeAll(all)| && Wrote(old(buffer[..]), buffer[..], pos, EncodeAll(all))
  {
    ghost var parts, s0 := IndexParts(all), buffer[..];
    next := pos;
    for i := 0 to |all|
      invariant next == pos + |Concat(parts, i)| && Wrote(s0, buffer[..], pos, Concat(parts, i))
    {
      next := WriteNext(all[i], buffer, next, s0, pos, parts, i);
    }
  }

  method WriteVersions(buffer: array<byte>, pos: nat) returns (next: nat)
    requires pos + 4 <= buffer.Length
    modifies buffer
    ensures next == pos + 4 && Wrote(old(buffer[..]), buffer[..], pos, Versions())
  {
    ghost var s0 := buffer[..];
    var p := SimpleWriteBuffer(MAJOR, 2, buffer, pos);
    ghost var s1 := buffer[..];
    next := SimpleWriteBuffer(MIRROR, 2, buffer, p);
    WroteBoth(s0, s1, buffer[..], pos, Little(MAJOR, 2), Little(MIRROR, 2));
  }

  method WriteFront(r: SearchResult, buffer: array<byte>, pos: nat) returns (next: nat)
    requires pos + 5 <= buffer.Length
    modifies buffer
    ensures next == pos + 5 && Wrote(old(buffer[..]), buffer[..], pos, Front(r))
  {
    ghost var s0 := buffer[..];
    var p := SimpleWriteBuffer(r.status, 1, buffer, pos);
    ghost var s1 := buffer[..];
    next := SimpleWriteBuffer(|r.all|, 4, buffer, p);
    WroteBoth(s0, s1, buffer[..], pos, Little(r.status, 1), Little(|r.all|, 4));
  }

  /** Advances by exactly the estimated size and touches no other byte. */
  method WriteResult(r: SearchResult, buffer: array<byte>, pos: nat) returns (next: nat)
    requires pos + |Encode(r)| <= buffer.Length
    modifies buffer
    ensures next == pos + |Encode(r)| && Wrote(old(buffer[..]), buffer[..], pos, Encode(r))
  {
    ghost var s0 := buffer[..];
    var p := WriteVersions(buffer, pos);
    ghost var s1 := buffer[..];
    var q := WriteFront(r, buffer, p);
    ghost var s2 := buffer[..];
    next := WriteAll(r.all, buffer, q);
    WroteBoth(s1, s2, buffer[..], p, Front(r), EncodeAll(r.all));
    WroteBoth(s0, s1, buffer[..], pos, Versions(), Front(r) + EncodeAll(r.all));
  }

  method ReadPairsAt(buffer: array<byte>, pos: nat, n: nat) returns (hits: seq<Hit>, next: nat)
    requires ReadMany(ReadPair, buffer[..], pos, n).Parsed?
    ensures ReadMany(ReadPair, buffer[..], pos, n) == Parsed(hits, next)
  {
    ghost var s := buffer[..];
    hits, next := [], pos;
    for i := 0 to n
      invariant ReadMany(ReadPair, s, pos, i) == Parsed(hits, next)
    {
      ReadPrefix(ReadPair, s, pos, i + 1, n);
      assert ReadPair(s, next).Parsed?;
      var h, q := ReadPairAt(buffer, next);
      hits, next := hits + [h], q;
    }
  }

  method ReadPairAt(buffer: array<byte>, pos: nat) returns (h: Hit, next: nat)
    requires ReadPair(buffer[..], pos).Parsed?
    ensures ReadPair(buffer[..], pos) == Parsed(h, next)
  {
    assert buffer[pos..pos + 4] == buffer[..][pos..pos + 4] && buffer[pos + 4..pos + 8] == buffer[..][pos + 4..pos + 8];
    h := Hit(ToSigned(FromLittle(buffer[pos..pos + 4])), FromLittle(buffer[pos + 4..pos + 8]), []);
    next := pos + 8;
  }

  method ReadMetasAt(buffer: array<byte>, pos: nat, n: nat) returns (metas: seq<seq<byte>>, next: nat)
    requires ReadMany(ReadBytes, buffer[..], pos, n).Parsed?
    ensures ReadMany(ReadBytes, buffer[..], pos, n) == Parsed(metas, next)
  {
    ghost var s := buffer[..];
    metas, next := [], pos;
    for i := 0 to n
      invariant ReadMany(ReadBytes, s, pos, i) == Parsed(metas, next)
    {
      ReadPrefix(ReadBytes, s, pos, i + 1, n);
      assert ReadBytes(s, next).Parsed?;
      var m, q := ReadBytesAt(buffer, next);
      metas, next := metas + [m], q;
    }
  }

  method ReadIndexAt(buffer: array<byte>, pos: nat) returns (x: IndexResult, next: nat)
    requires ReadIndex(buffer[..], pos).Parsed?
    ensures ReadIndex(buffer[..], pos) == Parsed(x, next)
  {
    ghost var s := buffer[..];
    var name, p := ReadBytesAt(buffer, pos);
    assert buffer[p..p + 4] == s[p..p + 4] && buffer[p + 4..p + 5] == s[p + 4..p + 5];
    var resNum, withMeta := FromLittle(buffer[p..p + 4]), FromLittle(buffer[p + 4..p + 5]) != 0;
    var hits, q := ReadPairsAt(buffer, p + 5, resNum);
    if withMeta {
      var metas;
      metas, q := ReadMetasAt(buffer, q, resNum);
      hits := SetMetas(hits, metas);
    }
    x, next := IndexResult(name, withMeta, hits), q;
  }

  method ReadAllAt(buffer: array<byte>, pos: nat, n: nat) returns (all: seq<IndexResult>, next: nat)
    requires ReadMany(ReadIndex, buffer[..], pos, n).Parsed?
    ensures ReadMany(ReadIndex, buffer[..], pos, n) == Parsed(all, next)
  {
    ghost var s := buffer[..];
    all, next := [], pos;
    for i := 0 to n
      invariant ReadMany(ReadIndex, s, pos, i) == Parsed(all, next)
    {
      ReadPrefix(ReadIndex, s, pos, i + 1, n);
      assert ReadIndex(s, next).Parsed?;
      var x, q := ReadIndexAt(buffer, next);
      all, next := all + [x], q;
    }
  }

  /** Reads a buffer that holds a whole message, as the code trusts it to; another major version gives no result. */
  method ReadResult(buffer: array<byte>, pos: nat) returns (r: Outcome<SearchResult>)
    requires Decode(buffer[..], pos) != Read(PastEnd)
    ensures r == Decode(buffer[..], pos)
  {
    ghost var s := buffer[..];
    assert buffer[pos..pos + 2] == s[pos..pos + 2];
    var majorVer := FromLittle(buffer[pos..pos + 2]);
    if majorVer != MAJOR {
      return WrongVersion;
    }
    var p := pos + 4;
    assert buffer[p + 1..p + 5] == s[p + 1..p + 5];
    var status, len := buffer[p], FromLittle(buffer[p + 1..p + 5]);
    var all, next := ReadAllAt(buffer, p + 5, len);
    r := Read(Parsed(SearchResult(status, all), next));
  }

  /** One buffer, written and read: the read stops where the write stopped, exactly the estimated size on. */
  method SendAndReceive(r: SearchResult) returns (sent: SearchResult)
    requires Fits(r)
    ensures sent == SearchResult(r.status, SentAll(r.all))
  {
    var size := EstimateResult(r);
    var buffer := new byte[size];
    ghost var before := buffer[..];
    var written := WriteResult(r, buffer, 0);
    WroteHolds(before, buffer[..], 0, Encode(r));
    ResultRoundTrip(buffer[..], 0, r);
    var answer := ReadResult(buffer, 0);
    assert answer.parsed.next == written == size;
    sent := answer.parsed.value;
  }

  // ----- queries -----

  /** The query type is kept as its byte. */
  datatype Query = Query(kind: byte, text: seq<byte>)

  function EncodeQuery(q: Query): (s: seq<byte>)
    ensures |s| == 2 + 2 + 1 + EstimateBufferSize(q.text)
  {
    Versions() + (Little(q.kind, 1) + EncodeBytes(q.text))
  }

  function ReadQueryRest(s: seq<byte>, pos: nat): Parsed<Query> {
    if pos + 1 > |s| then PastEnd
    else
      match ReadBytes(s, pos + 1)
      case PastEnd => PastEnd
      case Parsed(text, next) => Parsed(Query(s[pos], text), next)
  }

  function DecodeQuery(s: seq<byte>, pos: nat): Outcome<Query> {
    match ReadMajor(s, pos)
    case PastEnd => Read(PastEnd)
    case Parsed(major, p) => if major != MAJOR then WrongVersion else Read(ReadQueryRest(s, p))
  }

  /** A query comes back exactly when its length fits 32 bits. */
  lemma QueryRoundTripIff(s: seq<byte>, pos: nat, q: Query)
    requires Holds(s, pos, EncodeQuery(q))
    ensures DecodeQuery(s, pos) == Read(Parsed(q, pos + |EncodeQuery(q)|)) <==> |q.text| < UINT32
  {
    HoldsBoth(s, pos, Versions(), Little(q.kind, 1) + EncodeBytes(q.text));
    HoldsBoth(s, pos + 4, Little(q.kind, 1), EncodeBytes(q.text));
    VersionsRead(s, pos);
    assert s[pos + 4 + 0] == Little(q.kind, 1)[0];
    BytesRoundTripIff(s, pos + 5, q.text);
  }

  method WriteQuery(q: Query, buffer: array<byte>, pos: nat) returns (next: nat)
    requires pos + |EncodeQuery(q)| <= buffer.Length
    modifies buffer
    ensures next == pos + |EncodeQuery(q)| && Wrote(old(buffer[..]), buffer[..], pos, EncodeQuery(q))
  {
    ghost var s0 := buffer[..];
    var p := WriteVersions(buffer, pos);
    ghost var s1 := buffer[..];
    var k := SimpleWriteBuffer(q.kind, 1, buffer, p);
    ghost var s2 := buffer[..];
    next := WriteBytes(q.text, buffer, k);
    WroteBoth(s1, s2, buffer[..], p, Little(q.kind, 1), EncodeBytes(q.text));
    WroteBoth(s0, s1, buffer[..], pos, Versions(), Little(q.kind, 1) + EncodeBytes(q.text));
  }

  method ReadQuery(buffer: array<byte>, pos: nat) returns (r: Outcome<Query>)
    requires DecodeQuery(buffer[..], pos) != Read(PastEnd)
    ensures r == DecodeQuery(buffer[..], pos)
  {
    ghost var s := buffer[..];
    assert buffer[pos..pos + 2] == s[pos..pos + 2];
    var majorVer := FromLittle(buffer[pos..pos + 2]);
    if majorVer != MAJOR {
      return WrongVersion;
    }
    var text, next := ReadBytesAt(buffer, pos + 5);
    r := Read(Parsed(Query(buffer[pos + 4], text), next));
  }
}
