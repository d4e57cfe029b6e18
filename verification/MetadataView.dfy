/** Metadata records behind an offset table and two byte buffers, and the two files they are saved in. */
module MetadataView {
  import opened Options
  import opened Bytes

  // 2^31 - 1: record counts are 32-bit signed
  const MAX_COUNT: int := 0x7fff_ffff
  const WORD: int := 0x1_0000_0000_0000_0000

  type Record = seq<byte>

  /** `offsets` into the held bytes for the first `count` records, and on into the new bytes for the others. */
  datatype View = View(offsets: seq<nat>, count: nat, held: seq<byte>, added: seq<byte>)
  {
    ghost predicate Valid() {
      && count < |offsets| <= MAX_COUNT + 1
      && Ascending(offsets) && offsets[|offsets| - 1] < WORD
      && |held| >= offsets[count] && |added| == offsets[|offsets| - 1] - offsets[count]
    }

    /** The bytes continue where the offsets do: nothing stands behind the last held record, or nothing was added. */
    ghost predicate Seamless()
      requires count < |offsets|
    {
      |held| == offsets[count] || added == []
    }

    function Count(): nat
      requires |offsets| > 0
    {
      |offsets| - 1
    }

    /** `GetMetadata`: the split at `count` decides which buffer holds the record. */
    function Get(i: nat): Record
      requires i < |offsets| - 1 && offsets[i] <= offsets[i + 1] && count < |offsets|
      requires i < count ==> offsets[i + 1] <= |held|
      requires i >= count ==> offsets[count] <= offsets[i] && offsets[i + 1] - offsets[count] <= |added|
    {
      if i < count then held[offsets[i]..offsets[i + 1]]
      else added[offsets[i] - offsets[count]..offsets[i + 1] - offsets[count]]
    }

    /** The plain sequence of records the view stands for. */
    ghost function Records(): (rs: seq<Record>)
      requires Valid()
      ensures |rs| == Count()
    {
      seq(Count(), i requires 0 <= i < Count() && Valid() => Get(i))
    }

    /** All bytes, old ones first. */
    function AllBytes(): seq<byte> {
      held + added
    }

    /** The view after a record is added. */
    function Add(r: Record): View
      requires |offsets| > 0
    {
      View(offsets + [offsets[|offsets| - 1] + |r|], count, held, added + r)
    }
  }

  ghost predicate Ascending(offsets: seq<nat>) {
    forall i, j :: 0 <= i <= j < |offsets| ==> offsets[i] <= offsets[j]
  }

  /** Adding a record appends it to the sequence and touches no other. */
  lemma AddAppends(v: View, r: Record)
    requires v.Valid() && |v.offsets| <= MAX_COUNT && v.offsets[|v.offsets| - 1] + |r| < WORD
    ensures v.Add(r).Valid() && v.Add(r).Records() == v.Records() + [r]
  {
    var found, wanted := v.Add(r).Records(), v.Records() + [r];
    forall i | 0 <= i < |wanted|
      ensures found[i] == wanted[i]
    {
    }
  }

  /** Where each record stands: in its buffer, and in all the bytes. */
  lemma RecordIsSlice(v: View, i: nat)
    requires v.Valid() && i < v.Count()
    ensures i < v.count ==> v.offsets[i + 1] <= |v.held|
    ensures i >= v.count ==> v.offsets[v.count] <= v.offsets[i] && v.offsets[i + 1] - v.offsets[v.count] <= |v.added|
    ensures v.Records()[i] == v.Get(i)
    ensures v.offsets[i] <= v.offsets[i + 1] <= |v.AllBytes()|
    ensures i < v.count || |v.held| == v.offsets[v.count] ==> v.Get(i) == v.AllBytes()[v.offsets[i]..v.offsets[i + 1]]
  {
  }

  // ----- the files -----

  /** The first `n` offsets of the index file, eight bytes each. */
  function EncodeOffsets(offsets: seq<nat>, n: nat): (s: seq<byte>)
    requires n <= |offsets|
    ensures |s| == 8 * n
    decreases n
  {
    if n == 0 then [] else EncodeOffsets(offsets, n - 1) + Little(offsets[n - 1], 8)
  }

  function DecodeOffsets(s: seq<byte>, n: nat): (offsets: seq<nat>)
    requires |s| >= 8 * n
    ensures |offsets| == n
    decreases n
  {
    if n == 0 then [] else DecodeOffsets(s, n - 1) + [FromLittle(s[8 * (n - 1)..8 * n])]
  }

  /** The index file up to the first `n` offsets: the count, then the offsets. */
  function IndexUpTo(offsets: seq<nat>, n: nat): seq<byte>
    requires n <= |offsets| && offsets != []
    decreases n
  {
    if n == 0 then Little(|offsets| - 1, 4) else IndexUpTo(offsets, n - 1) + Little(offsets[n - 1], 8)
  }

  function EncodeIndex(offsets: seq<nat>): seq<byte>
    requires |offsets| > 0
  {
    IndexUpTo(offsets, |offsets|)
  }

  lemma {:induction false} IndexSplit(offsets: seq<nat>, n: nat)
    requires n <= |offsets| && offsets != []
    ensures IndexUpTo(offsets, n) == Little(|offsets| - 1, 4) + EncodeOffsets(offsets, n)
    decreases n
  {
    if n > 0 {
      IndexSplit(offsets, n - 1);
    }
  }

  /** Reading the index file: the count, then one offset more than that; nothing when the file is too short. */
  function DecodeIndex(s: seq<byte>): (r: Option<seq<nat>>)
    ensures r.Some? ==> 0 < |r.value| <= MAX_COUNT + 1
  {
    if |s| < 4 then None
    else
      var count := FromLittle(s[..4]);
      if count > MAX_COUNT || |s| < 4 + 8 * (count + 1) then None else Some(DecodeOffsets(s[4..], count + 1))
  }

  lemma {:induction false} DecodePrefix(s: seq<byte>, t: seq<byte>, n: nat)
    requires |s| >= 8 * n
    ensures DecodeOffsets(s + t, n) == DecodeOffsets(s, n)
    decreases n
  {
    if n > 0 {
      DecodePrefix(s, t, n - 1);
      assert (s + t)[8 * (n - 1)..8 * n] == s[8 * (n - 1)..8 * n];
    }
  }

  lemma {:induction false} OffsetsRoundTrip(offsets: seq<nat>, n: nat)
    requires n <= |offsets| && forall i :: 0 <= i < |offsets| ==> offsets[i] < WORD
    ensures DecodeOffsets(EncodeOffsets(offsets, n), n) == offsets[..n]
    decreases n
  {
    if n > 0 {
      var before, last := EncodeOffsets(offsets, n - 1), Little(offsets[n - 1], 8);
      OffsetsRoundTrip(offsets, n - 1);
      DecodePrefix(before, last, n - 1);
      LittleFits(offsets[n - 1], 8);
      assert (before + last)[8 * (n - 1)..8 * n] == last;
    }
  }

  lemma IndexRoundTrip(offsets: seq<nat>)
    requires 0 < |offsets| <= MAX_COUNT + 1 && forall i :: 0 <= i < |offsets| ==> offsets[i] < WORD
    ensures DecodeIndex(EncodeIndex(offsets)) == Some(offsets)
  {
    var head, body := Little(|offsets| - 1, 4), EncodeOffsets(offsets, |offsets|);
    LittleFits(|offsets| - 1, 4);
    OffsetsRoundTrip(offsets, |offsets|);
    var s := EncodeIndex(offsets);
    IndexSplit(offsets, |offsets|);
    assert s[..4] == head && s[4..] == body;
    assert offsets[..|offsets|] == offsets;
  }

  /** What `Init` holds after reading the two files. */
  function Loaded(offsets: seq<nat>, meta: seq<byte>): View
    requires |offsets| > 0 && offsets[|offsets| - 1] <= |meta|
  {
    View(offsets, |offsets| - 1, meta[..offsets[|offsets| - 1]], [])
  }

  /** Saving a view and loading the two files gives its records. */
  ghost predicate SurvivesSave(v: View)
    requires v.Valid()
  {
    && DecodeIndex(EncodeIndex(v.offsets)) == Some(v.offsets)
    && Loaded(v.offsets, v.AllBytes()).Valid() && Loaded(v.offsets, v.AllBytes()).Records() == v.Records()
  }

  lemma LoadedValid(v: View)
    requires v.Valid()
    ensures DecodeIndex(EncodeIndex(v.offsets)) == Some(v.offsets)
    ensures v.offsets[|v.offsets| - 1] <= |v.AllBytes()| && Loaded(v.offsets, v.AllBytes()).Valid()
  {
    IndexRoundTrip(v.offsets);
  }

  /** Where the bytes continue as the offsets do, saving writes all that loading needs. */
  lemma SaveLoad(v: View)
    requires v.Valid() && v.Seamless()
    ensures SurvivesSave(v)
  {
    LoadedValid(v);
    var w := Loaded(v.offsets, v.AllBytes());
    forall i | 0 <= i < v.Count()
      ensures w.Records()[i] == v.Records()[i]
    {
      RecordIsSlice(v, i);
      RecordIsSlice(w, i);
      if v.added == [] && i >= v.count {
        assert v.offsets[i] == v.offsets[i + 1];
      }
    }
    assert w.Records() == v.Records();
  }

  /** The first record with new bytes. */
  lemma FirstNew(offsets: seq<nat>, count: nat) returns (i: nat)
    requires count < |offsets| && Ascending(offsets) && offsets[count] < offsets[|offsets| - 1]
    ensures count <= i < |offsets| - 1 && offsets[i] == offsets[count] < offsets[i + 1]
  {
    i := count;
    while offsets[i + 1] == offsets[count]
      invariant count <= i < |offsets| - 1 && offsets[i] == offsets[count]
      decreases |offsets| - i
    {
      i := i + 1;
    }
  }

  /** Bytes behind the last held record come to stand where the first new record should. */
  lemma Misplaced(v: View)
    requires v.Valid() && |v.held| > v.offsets[v.count] && v.added != [] && v.added[0] != v.held[v.offsets[v.count]]
    ensures !SurvivesSave(v)
  {
    LoadedValid(v);
    var w := Loaded(v.offsets, v.AllBytes());
    var i := FirstNew(v.offsets, v.count);
    RecordIsSlice(v, i);
    RecordIsSlice(w, i);
    assert v.Records()[i][0] == v.added[0];
    assert w.Records()[i][0] == v.held[v.offsets[v.count]];
  }

  /** One byte too many in the file, one new record of one byte. */
  lemma TrailingByte()
    ensures View([0, 1], 0, [7], [8]).Valid() && !SurvivesSave(View([0, 1], 0, [7], [8]))
  {
    Misplaced(View([0, 1], 0, [7], [8]));
  }

  /**
    So whatever the new bytes are, they survive exactly when nothing stands behind the last held record, or there are
    none.
   */
  lemma SaveLoadIff(offsets: seq<nat>, count: nat, held: seq<byte>)
    requires View(offsets, count, held, seq(NewBytes(offsets, count), _ => 0)).Valid()
    ensures (forall added :: View(offsets, count, held, added).Valid() ==>
      SurvivesSave(View(offsets, count, held, added))) <==>
      |held| == offsets[count] || NewBytes(offsets, count) == 0
  {
    if |held| == offsets[count] || NewBytes(offsets, count) == 0 {
      forall added | View(offsets, count, held, added).Valid()
        ensures SurvivesSave(View(offsets, count, held, added))
      {
        SaveLoad(View(offsets, count, held, added));
      }
    } else {
      var other: byte := if held[offsets[count]] == 0 then 1 else 0;
      var v := View(offsets, count, held, seq(NewBytes(offsets, count), _ => other));
      assert v.Valid();
      Misplaced(v);
    }
  }

  function NewBytes(offsets: seq<nat>, count: nat): nat {
    if count < |offsets| && offsets[count] <= offsets[|offsets| - 1] then offsets[|offsets| - 1] - offsets[count] else 0
  }

  // ----- refinement -----

  ghost predicate InRange(v: View, indices: seq<int>)
    requires |v.offsets| > 0
  {
    forall i :: 0 <= i < |indices| ==> 0 <= indices[i] < v.Count()
  }

  /** The selected records, in index order. */
  ghost function Selected(v: View, indices: seq<int>): seq<Record>
    requires v.Valid() && InRange(v, indices)
  {
    seq(|indices|, i requires 0 <= i < |indices| && v.Valid() && InRange(v, indices) => v.Records()[indices[i]])
  }

  /** The running offsets the streaming refinement writes, starting at 0. */
  function RunningOffsets(rs: seq<Record>): (offsets: seq<nat>)
    ensures |offsets| == |rs| + 1
  {
    seq(|rs| + 1, i requires 0 <= i <= |rs| => |Concat(rs, i)|)
  }

  lemma RunningOffsetsAscend(rs: seq<Record>)
    ensures forall i, j :: 0 <= i <= j <= |rs| ==> RunningOffsets(rs)[i] <= RunningOffsets(rs)[j] <= |Concat(rs, |rs|)|
  {
    forall i, j | 0 <= i <= j <= |rs|
      ensures RunningOffsets(rs)[i] <= RunningOffsets(rs)[j] <= |Concat(rs, |rs|)|
    {
      ConcatPrefix(rs, i, j);
      ConcatPrefix(rs, j, |rs|);
    }
  }

  /** The records of the view that the files of a streaming refinement load as. */
  lemma RefinedView(rs: seq<Record>)
    requires |rs| <= MAX_COUNT && |Concat(rs, |rs|)| < WORD
    ensures Loaded(RunningOffsets(rs), Concat(rs, |rs|)).Valid()
      && Loaded(RunningOffsets(rs), Concat(rs, |rs|)).Records() == rs
  {
    var offsets, bytes := RunningOffsets(rs), Concat(rs, |rs|);
    RunningOffsetsAscend(rs);
    var w := Loaded(offsets, bytes);
    assert w.held == bytes;
    forall i | 0 <= i < |rs|
      ensures w.Records()[i] == rs[i]
    {
      ConcatSlice(rs, i);
      assert w.Get(i) == bytes[offsets[i]..offsets[i + 1]];
    }
  }

  /** Loading the files a streaming refinement writes gives the records it was given, in order. */
  lemma RefineLoad(rs: seq<Record>)
    requires |rs| <= MAX_COUNT && |Concat(rs, |rs|)| < WORD
    ensures DecodeIndex(EncodeIndex(RunningOffsets(rs))) == Some(RunningOffsets(rs))
    ensures RunningOffsets(rs)[|rs|] == |Concat(rs, |rs|)|
    ensures Loaded(RunningOffsets(rs), Concat(rs, |rs|)).Valid()
      && Loaded(RunningOffsets(rs), Concat(rs, |rs|)).Records() == rs
  {
    RunningOffsetsAscend(rs);
    IndexRoundTrip(RunningOffsets(rs));
    RefinedView(rs);
  }
}
