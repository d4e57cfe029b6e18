/**
  `MemMetadataSet` and `FileMetadataSet`: the two metadata stores, each kept in step with the plain sequence of byte
  records it stands for.
 */
module MetadataSet {
  import opened Options
  import opened Bytes
  import opened MetadataView
  import opened LockFree

  /** Can one more record be added to a bounded offset table? */
  predicate HasRoom(offsets: nat, capacity: nat) {
    Accepts(offsets, capacity, 1)
  }

  /** The offset table's bound is the number of records plus one; a zero bound wraps and bounds nothing. */
  lemma RoomIff(offsets: nat, capacity: nat)
    requires offsets < LockFree.WORD && capacity < LockFree.WORD
    ensures capacity > 0 ==> (HasRoom(offsets, capacity) <==> offsets < capacity)
    ensures capacity == 0 ==> HasRoom(offsets, capacity)
  {
    if capacity > 0 {
      assert (capacity - 1) % LockFree.WORD == capacity - 1;
    } else {
      assert (0 - 1) % LockFree.WORD == LockFree.WORD - 1;
    }
  }

  /** The bytes of a record that was refused are taken back. */
  lemma TakeBack(before: Record, data: Record)
    ensures (before + data)[..|before + data| - |data|] == before
  {
  }

  /** How many of `n` further records an offset table of `offsets` entries still takes. */
  function Taken(offsets: nat, capacity: nat, n: nat): (k: nat)
    ensures k <= n
  {
    if capacity == 0 then n
    else if offsets >= capacity then 0
    else if n <= capacity - offsets then n
    else capacity - offsets
  }

  /** One more record for a store that was given the first `i` records of `given`. */
  lemma TakenStep(records: seq<Record>, given: seq<Record>, i: nat, capacity: nat, before: seq<Record>,
      after: seq<Record>)
    requires i < |given| && |records| + i + 2 < LockFree.WORD && capacity < LockFree.WORD
    requires before == records + given[..Taken(|records| + 1, capacity, i)]
    requires after == if HasRoom(|before| + 1, capacity) then before + [given[i]] else before
    ensures after == records + given[..Taken(|records| + 1, capacity, i + 1)]
  {
    RoomIff(|before| + 1, capacity);
  }

  /** One more record of a batch, and its bytes. */
  lemma BatchStep(records: seq<Record>, data: seq<Record>, i: nat)
    requires i < |data|
    ensures records + data[..i] + [data[i]] == records + data[..i + 1]
    ensures |Concat(data, i + 1)| == |Concat(data, i)| + |data[i]| <= |Concat(data, |data|)|
  {
    PrefixStep(records, data, i);
    ConcatSlice(data, i);
  }

  lemma PrefixStep(records: seq<Record>, data: seq<Record>, i: nat)
    requires i < |data|
    ensures records + data[..i] + [data[i]] == records + data[..i + 1]
  {
  }

  function Last(offsets: seq<nat>): nat
    requires offsets != []
  {
    offsets[|offsets| - 1]
  }

  /** What `Init` relies on without checking: offsets that ascend, when it gets to read them. */
  ghost predicate Loadable(index: seq<byte>, meta: seq<byte>) {
    DecodeIndex(index).Some? ==>
      var offsets := DecodeIndex(index).value;
      Last(offsets) <= |meta| ==> Loaded(offsets, meta).Valid()
  }

  /** A new offset table that holds 0. */
  method StartOffsets(blockSize: nat, capacity: nat) returns (offsets: LockFreeVector<nat>)
    requires 1 <= blockSize <= 0x4000_0000 && capacity < LockFree.WORD
    ensures offsets.Valid() && fresh(offsets) && fresh(offsets.m_blocks) && offsets.m_maxSize == capacity
      && offsets.contents == [0]
  {
    offsets := new LockFreeVector<nat>(blockSize, capacity);
    RoomIff(0, capacity);
    var ok := offsets.push_back(0);
  }

  /** A new offset table that holds `tmp`. An empty table takes a run of any length, its bound notwithstanding. */
  method TableOf(tmp: seq<nat>, blockSize: nat, capacity: nat) returns (offsets: LockFreeVector<nat>)
    requires 1 <= blockSize <= 0x4000_0000 && |tmp| < LockFree.WORD && capacity < LockFree.WORD
    ensures offsets.Valid() && fresh(offsets) && fresh(offsets.m_blocks) && offsets.m_maxSize == capacity
      && offsets.contents == tmp
  {
    offsets := new LockFreeVector<nat>(blockSize, capacity);
    assert Accepts(0, capacity, |tmp|);
    var ok := offsets.assign(tmp);
  }

  /** The index loop of the streaming refinement, over the records it fetches. */
  method WriteRefinedIndex(records: seq<Record>) returns (index: seq<byte>)
    ensures index == EncodeIndex(RunningOffsets(records))
  {
    index := Little(|records|, 4);
    var offset := 0;
    for i := 0 to |records|
      invariant offset == |Concat(records, i)|
      invariant index == IndexUpTo(RunningOffsets(records), i)
    {
      index := index + Little(offset, 8);
      offset := offset + |records[i]|;
    }
    index := index + Little(offset, 8);
  }

  method WriteRefinedBytes(records: seq<Record>) returns (meta: seq<byte>)
    ensures meta == Concat(records, |records|)
  {
    meta := [];
    for i := 0 to |records|
      invariant meta == Concat(records, i)
    {
      meta := meta + records[i];
    }
  }

  class MemMetadataSet {
    const m_offsets: LockFreeVector<nat>
    const m_count: nat
    const m_metadataHolder: seq<byte>
    var m_newdata: seq<byte>

    /** The store as a view. */
    ghost function Model(): View
      reads this, m_offsets
    {
      View(m_offsets.contents, m_count, m_metadataHolder, m_newdata)
    }

    ghost predicate Valid()
      reads this, m_offsets, m_offsets.m_blocks
    {
      m_offsets.Valid() && Model().Valid()
    }

    ghost function Records(): seq<Record>
      requires Model().Valid()
      reads this, m_offsets
    {
      Model().Records()
    }

    /** An empty store. */
    constructor (blockSize: nat, capacity: nat)
      requires 1 <= blockSize <= 0x4000_0000 && capacity < LockFree.WORD
      ensures Valid() && Model() == View([0], 0, [], []) && Records() == []
      ensures fresh(m_offsets) && fresh(m_offsets.m_blocks) && m_offsets.m_maxSize == capacity
    {
      var offsets := StartOffsets(blockSize, capacity);
      m_offsets, m_count, m_metadataHolder, m_newdata := offsets, 0, [], [];
    }

    /** The store over an offset table and the bytes up to its last offset. */
    constructor Over(offsets: LockFreeVector<nat>, held: seq<byte>)
      requires offsets.Valid() && offsets.m_size > 0 && View(offsets.contents, offsets.m_size - 1, held, []).Valid()
      ensures m_offsets == offsets && Valid() && Model() == View(offsets.contents, offsets.m_size - 1, held, [])
    {
      m_offsets, m_count, m_metadataHolder, m_newdata := offsets, offsets.m_size - 1, held, [];
    }

    /** `Init` from an index file and a metadata file: fails exactly when one of them is too short. */
    static method Init(index: seq<byte>, meta: seq<byte>, blockSize: nat, capacity: nat)
      returns (r: Option<MemMetadataSet>)
      requires 1 <= blockSize <= 0x4000_0000 && capacity < LockFree.WORD && Loadable(index, meta)
      ensures r.Some? <==> DecodeIndex(index).Some? && Last(DecodeIndex(index).value) <= |meta|
      ensures r.Some? ==> fresh(r.value) && fresh(r.value.m_offsets) && fresh(r.value.m_offsets.m_blocks)
      ensures r.Some? ==> r.value.m_offsets.m_maxSize == capacity
      ensures r.Some? ==> r.value.Valid() && r.value.Model() == Loaded(DecodeIndex(index).value, meta)
    {
      var tmp := DecodeIndex(index);
      if tmp.None? {
        return None;
      }
      var offsets := TableOf(tmp.value, blockSize, capacity);
      var length := offsets.Get(|tmp.value| - 1);
      if length > |meta| {
        return None;
      }
      var store := new MemMetadataSet.Over(offsets, meta[..length]);
      r := Some(store);
    }

    method Count() returns (n: nat)
      requires Valid()
      ensures n == |Records()|
    {
      n := m_offsets.size() - 1;
    }

    function OldRecord(i: nat): (r: Record)
      requires Valid() && i < m_count
      reads this, m_offsets, m_offsets.m_blocks
      ensures r == Records()[i]
    {
      RecordIsSlice(Model(), i);
      var startoff := m_offsets.Get(i);
      var bytes := m_offsets.Get(i + 1) - startoff;
      m_metadataHolder[startoff..startoff + bytes]
    }

    function NewRecord(i: nat): (r: Record)
      requires Valid() && m_count <= i < |Records()|
      reads this, m_offsets, m_offsets.m_blocks
      ensures r == Records()[i]
    {
      RecordIsSlice(Model(), i);
      var startoff := m_offsets.Get(i);
      var bytes := m_offsets.Get(i + 1) - startoff;
      var place := startoff - m_offsets.Get(m_count);
      m_newdata[place..place + bytes]
    }

    function GetMetadata(i: nat): (r: Record)
      requires Valid() && i < |Records()|
      reads this, m_offsets, m_offsets.m_blocks
      ensures r == Records()[i]
    {
      if i < m_count then OldRecord(i) else NewRecord(i)
    }

    /** `m_offsets.push_back(m_offsets.back() + length)`. */
    method PushOffset(length: nat) returns (ok: bool)
      requires m_offsets.Valid() && 0 < m_offsets.m_size < LockFree.WORD - 1
      modifies m_offsets, m_offsets.m_blocks
      ensures m_offsets.Valid() && m_offsets.Extends(old(m_offsets.m_blocks))
        && m_offsets.m_maxSize == old(m_offsets.m_maxSize)
      ensures ok == HasRoom(old(m_offsets.m_size), m_offsets.m_maxSize)
      ensures m_offsets.contents == old(m_offsets.contents) +
        if ok then [old(m_offsets.contents[m_offsets.m_size - 1]) + length] else []
    {
      var last := m_offsets.back();
      ok := m_offsets.push_back(last + length);
    }

    method PushRecord(data: Record)
      requires m_offsets.Valid() && 0 < m_offsets.m_size < LockFree.WORD - 1
      modifies `m_newdata, m_offsets, m_offsets.m_blocks
      ensures m_offsets.Valid() && m_offsets.Extends(old(m_offsets.m_blocks))
        && m_offsets.m_maxSize == old(m_offsets.m_maxSize)
      ensures Model() == if HasRoom(old(m_offsets.m_size), m_offsets.m_maxSize) then old(Model()).Add(data)
        else old(Model())
    {
      TakeBack(m_newdata, data);
      m_newdata := m_newdata + data;
      ghost var v := old(Model());
      var ok := PushOffset(|data|);
      if !ok {
        m_newdata := m_newdata[..|m_newdata| - |data|];
        assert m_newdata == v.added && m_offsets.contents == v.offsets;
      } else {
        assert m_offsets.contents == v.offsets + [v.offsets[|v.offsets| - 1] + |data|];
      }
    }

    /** Appends the record, or at capacity takes its bytes back and changes nothing. */
    method Add(data: Record)
      requires Valid() && |Records()| < MAX_COUNT && |Model().AllBytes()| + |data| < MetadataView.WORD
      modifies `m_newdata, m_offsets, m_offsets.m_blocks
      ensures Valid() && m_offsets.Extends(old(m_offsets.m_blocks)) && m_offsets.m_maxSize == old(m_offsets.m_maxSize)
      ensures Records() == if HasRoom(old(m_offsets.m_size), m_offsets.m_maxSize) then old(Records()) + [data]
        else old(Records())
      ensures |Model().AllBytes()| <= old(|Model().AllBytes()|) + |data|
    {
      AddAppends(Model(), data);
      PushRecord(data);
    }

    /**
      What a store that started from `records` and `bytes` holds once it was given the first `n` of `given` one by one.
     */
    ghost predicate Received(records: seq<Record>, bytes: nat, capacity: nat, given: seq<Record>, n: nat)
      requires n <= |given|
      reads this, m_offsets, m_offsets.m_blocks
    {
      && Valid() && m_offsets.m_maxSize == capacity
      && Records() == records + given[..Taken(|records| + 1, capacity, n)]
      && |Model().AllBytes()| <= bytes + |Concat(given, n)|
    }

    /** One round of `AddBatch`. */
    method AddNext(data: seq<Record>, i: nat, ghost records: seq<Record>, ghost bytes: nat, ghost capacity: nat)
      requires i < |data| && |records| + |data| <= MAX_COUNT && bytes + |Concat(data, |data|)| < MetadataView.WORD
      requires Received(records, bytes, capacity, data, i)
      modifies `m_newdata, m_offsets, m_offsets.m_blocks
      ensures Received(records, bytes, capacity, data, i + 1) && m_offsets.Extends(old(m_offsets.m_blocks))
    {
      ghost var before := Records();
      assert m_offsets.m_size == |before| + 1;
      ConcatSlice(data, i);
      Add(data[i]);
      TakenStep(records, data, i, capacity, before, Records());
    }

    /**
      All records of another store, in order, as far as the capacity goes. The other store enters as its sequence of
      records.
     */
    method AddBatch(data: seq<Record>)
      requires Valid() && |Records()| + |data| <= MAX_COUNT
        && |Model().AllBytes()| + |Concat(data, |data|)| < MetadataView.WORD
      modifies `m_newdata, m_offsets, m_offsets.m_blocks
      ensures Valid() && m_offsets.Extends(old(m_offsets.m_blocks)) && m_offsets.m_maxSize == old(m_offsets.m_maxSize)
      ensures Records() == old(Records()) + data[..Taken(old(m_offsets.m_size), m_offsets.m_maxSize, |data|)]
    {
      ghost var records, bytes, capacity := Records(), |Model().AllBytes()|, m_offsets.m_maxSize;
      assert records + data[..0] == records;
      for i := 0 to |data|
        invariant Received(records, bytes, capacity, data, i) && m_offsets.Extends(old(m_offsets.m_blocks))
      {
        ghost var blocks := m_offsets.m_blocks;
        AddNext(data, i, records, bytes, capacity);
        m_offsets.StillExtends(old(m_offsets.m_blocks), blocks);
      }
    }

    /** The records at `indices`, in that order. */
    method Gather(indices: seq<int>) returns (rs: seq<Record>)
      requires Valid() && MetadataView.InRange(Model(), indices)
      ensures rs == Selected(Model(), indices)
    {
      rs := [];
      ghost var wanted := Selected(Model(), indices);
      for i := 0 to |indices|
        invariant rs == wanted[..i]
      {
        var r := GetMetadata(indices[i]);
        assert wanted[i] == r;
        rs := rs + [r];
      }
    }

    /** `RefineMetadata` into a new store: the records at `indices`, in that order, as far as the capacity goes. */
    method RefineMetadata(indices: seq<int>, blockSize: nat, capacity: nat) returns (refined: MemMetadataSet)
      requires Valid() && MetadataView.InRange(Model(), indices) && 1 <= blockSize <= 0x4000_0000
        && capacity < LockFree.WORD
      requires |indices| <= MAX_COUNT && |Concat(Selected(Model(), indices), |indices|)| < MetadataView.WORD
      ensures fresh(refined) && refined.Valid()
      ensures refined.Records() == old(Selected(Model(), indices))[..Taken(1, capacity, |indices|)]
    {
      var given := Gather(indices);
      refined := new MemMetadataSet(blockSize, capacity);
      assert refined.m_offsets.m_size == 1;
      refined.AddBatch(given);
      assert refined.Records() == [] + given[..Taken(1, capacity, |indices|)];
    }

    method SaveIndex() returns (index: seq<byte>)
      requires Valid()
      ensures index == EncodeIndex(Model().offsets)
    {
      var count := m_offsets.size() - 1;
      index := Little(count, 4);
      for i := 0 to count + 1
        invariant index == IndexUpTo(m_offsets.contents, i)
      {
        index := index + Little(m_offsets.Get(i), 8);
      }
    }

    /** Writes the two files. */
    method SaveMetadata() returns (index: seq<byte>, meta: seq<byte>)
      requires Valid()
      ensures index == EncodeIndex(Model().offsets) && meta == Model().AllBytes()
    {
      index := SaveIndex();
      meta := m_metadataHolder;
      if |m_newdata| > 0 {
        var count := m_offsets.size() - 1;
        meta := meta + m_newdata[..m_offsets.Get(count) - m_offsets.Get(m_count)];
      }
    }

    /** `RefineMetadata` to two files: offsets from 0, then the bytes. */
    method RefineToFiles(indices: seq<int>) returns (index: seq<byte>, meta: seq<byte>)
      requires Valid() && MetadataView.InRange(Model(), indices)
      ensures index == EncodeIndex(RunningOffsets(Selected(Model(), indices)))
      ensures meta == Concat(Selected(Model(), indices), |indices|)
    {
      var records := Gather(indices);
      index := WriteRefinedIndex(records);
      meta := WriteRefinedBytes(records);
    }
  }

  /** Whatever the capacity, saving a store and reading the two files back gives the same records. */
  method Reopen(store: MemMetadataSet, blockSize: nat, capacity: nat) returns (r: Option<MemMetadataSet>)
    requires store.Valid() && store.Model().Seamless() && 1 <= blockSize <= 0x4000_0000 && capacity < LockFree.WORD
    ensures r.Some? && fresh(r.value) && r.value.Valid() && r.value.Records() == old(store.Records())
  {
    SaveLoad(store.Model());
    var index, meta := store.SaveMetadata();
    r := MemMetadataSet.Init(index, meta, blockSize, capacity);
  }

  /** Streaming refinement and reading the two files back gives the selected records, in index order. */
  method RefineAndOpen(store: MemMetadataSet, indices: seq<int>, blockSize: nat, capacity: nat)
    returns (r: Option<MemMetadataSet>)
    requires store.Valid() && MetadataView.InRange(store.Model(), indices)
    requires 1 <= blockSize <= 0x4000_0000 && capacity < LockFree.WORD
    requires |indices| <= MAX_COUNT && |Concat(Selected(store.Model(), indices), |indices|)| < MetadataView.WORD
    ensures r.Some? && fresh(r.value) && r.value.Valid() && r.value.Records() == old(Selected(store.Model(), indices))
  {
    RefineLoad(Selected(store.Model(), indices));
    var index, meta := store.RefineToFiles(indices);
    r := MemMetadataSet.Init(index, meta, blockSize, capacity);
  }

  class FileMetadataSet {
    var m_offsets: seq<nat>
    var m_count: nat
    var m_fp: seq<byte>       // the open metadata file
    var m_newdata: seq<byte>

    ghost function Model(): View
      reads this
    {
      View(m_offsets, m_count, m_fp, m_newdata)
    }

    ghost predicate Valid()
      reads this
    {
      Model().Valid()
    }

    ghost function Records(): seq<Record>
      requires Valid()
      reads this
    {
      Model().Records()
    }

    constructor (offsets: seq<nat>, meta: seq<byte>)
      requires offsets != [] && View(offsets, |offsets| - 1, meta, []).Valid()
      ensures Valid() && Model() == View(offsets, |offsets| - 1, meta, [])
    {
      m_offsets, m_count, m_fp, m_newdata := offsets, |offsets| - 1, meta, [];
    }

    /**
      Opens the two files: fails exactly when the index file is too short. The metadata file is only read record by
      record and may be longer than the offsets say.
     */
    static method Open(index: seq<byte>, meta: seq<byte>) returns (r: Option<FileMetadataSet>)
      requires DecodeIndex(index).Some? ==>
        View(DecodeIndex(index).value, |DecodeIndex(index).value| - 1, meta, []).Valid()
      ensures r.Some? <==> DecodeIndex(index).Some?
      ensures r.Some? ==> fresh(r.value) && r.value.Valid()
      ensures r.Some? ==> r.value.Model() == View(DecodeIndex(index).value, |DecodeIndex(index).value| - 1, meta, [])
    {
      var offsets := DecodeIndex(index);
      if offsets.None? {
        return None;
      }
      var store := new FileMetadataSet(offsets.value, meta);
      r := Some(store);
    }

    function Count(): (n: nat)
      requires Valid()
      reads this
      ensures n == |Records()|
    {
      |m_offsets| - 1
    }

    function GetMetadata(i: nat): (r: Record)
      requires Valid() && i < |Records()|
      reads this
      ensures r == Records()[i]
    {
      RecordIsSlice(Model(), i);
      var startoff := m_offsets[i];
      var bytes := m_offsets[i + 1] - startoff;
      if i < m_count then m_fp[startoff..startoff + bytes]
      else m_newdata[startoff - m_offsets[m_count]..startoff - m_offsets[m_count] + bytes]
    }

    method Add(data: Record)
      requires Valid() && |Records()| < MAX_COUNT && |Model().AllBytes()| + |data| < MetadataView.WORD
      modifies this
      ensures Valid() && Records() == old(Records()) + [data]
      ensures |Model().AllBytes()| == old(|Model().AllBytes()|) + |data|
    {
      AddAppends(Model(), data);
      m_newdata := m_newdata + data;
      m_offsets := m_offsets + [m_offsets[|m_offsets| - 1] + |data|];
    }

    /** What a store that started from `records` and `bytes` holds once it was given the first `n` of `given`. */
    ghost predicate Received(records: seq<Record>, bytes: nat, given: seq<Record>, n: nat)
      requires n <= |given|
      reads this
    {
      Valid() && Records() == records + given[..n] && |Model().AllBytes()| == bytes + |Concat(given, n)|
    }

    /** One round of `AddBatch`. */
    method AddNext(data: seq<Record>, i: nat, ghost records: seq<Record>, ghost bytes: nat)
      requires i < |data| && |records| + |data| <= MAX_COUNT && bytes + |Concat(data, |data|)| < MetadataView.WORD
      requires Received(records, bytes, data, i)
      modifies this
      ensures Received(records, bytes, data, i + 1)
    {
      BatchStep(records, data, i);
      Add(data[i]);
    }

    /** All records of another store, in order. The other store enters as its sequence of records. */
    method AddBatch(data: seq<Record>)
      requires Valid() && |Records()| + |data| <= MAX_COUNT
        && |Model().AllBytes()| + |Concat(data, |data|)| < MetadataView.WORD
      modifies this
      ensures Valid() && Records() == old(Records()) + data
    {
      ghost var records, bytes := Records(), |Model().AllBytes()|;
      assert records + data[..0] == records;
      for i := 0 to |data|
        invariant Received(records, bytes, data, i)
      {
        AddNext(data, i, records, bytes);
      }
      assert data[..|data|] == data;
    }

    /** Copies the open file buffer by buffer. */
    method CopyFile(bufsize: nat) returns (out: seq<byte>)
      requires bufsize > 0
      ensures out == m_fp
    {
      out := [];
      var place: nat := 0;
      var readsize: nat := if |m_fp| < bufsize then |m_fp| else bufsize;
      while readsize > 0
        invariant place + readsize <= |m_fp| && out == m_fp[..place] && (readsize == 0 ==> place == |m_fp|)
        decreases |m_fp| - place
      {
        out := out + m_fp[place..place + readsize];
        place := place + readsize;
        readsize := if |m_fp| - place < bufsize then |m_fp| - place else bufsize;
      }
    }

    /** Writes the two files. */
    method SaveMetadata() returns (index: seq<byte>, meta: seq<byte>)
      requires Valid()
      ensures index == EncodeIndex(m_offsets) && meta == Model().AllBytes()
    {
      index := Little(Count(), 4);
      for i := 0 to |m_offsets|
        invariant index == IndexUpTo(m_offsets, i)
      {
        index := index + Little(m_offsets[i], 8);
      }
      meta := CopyFile(1000000);
      if |m_newdata| > 0 {
        meta := meta + m_newdata;
      }
    }

    /**
      Saves over the own file: every record is now a held one; where the bytes continue as the offsets do, the records
      are what they were.
     */
    method SaveOver() returns (index: seq<byte>)
      requires Valid()
      modifies this
      ensures Valid() && (old(Model().Seamless()) ==> Records() == old(Records()))
      ensures m_offsets == old(m_offsets) && m_count == |m_offsets| - 1 && m_newdata == []
        && m_fp == old(Model().AllBytes())
      ensures DecodeIndex(index) == Some(m_offsets)
    {
      var meta;
      index, meta := SaveMetadata();
      LoadedValid(Model());
      if Model().Seamless() {
        SaveLoad(Model());
        OpenIsLoaded(m_offsets, meta);
      }
      m_fp := meta;
      m_count := |m_offsets| - 1;
      m_newdata := [];
    }

    /** The records at `indices`, in that order. */
    method Gather(indices: seq<int>) returns (rs: seq<Record>)
      requires Valid() && MetadataView.InRange(Model(), indices)
      ensures rs == Selected(Model(), indices)
    {
      rs := [];
      ghost var wanted := Selected(Model(), indices);
      for i := 0 to |indices|
        invariant rs == wanted[..i]
      {
        var r := GetMetadata(indices[i]);
        assert wanted[i] == r;
        rs := rs + [r];
      }
    }

    /** `RefineMetadata` to two files. */
    method RefineToFiles(indices: seq<int>) returns (index: seq<byte>, meta: seq<byte>)
      requires Valid() && MetadataView.InRange(Model(), indices)
      ensures index == EncodeIndex(RunningOffsets(Selected(Model(), indices)))
      ensures meta == Concat(Selected(Model(), indices), |indices|)
    {
      var records := Gather(indices);
      index := WriteRefinedIndex(records);
      meta := WriteRefinedBytes(records);
    }
  }

  /** Reading record by record from the file sees what reading it as a whole would hold. */
  lemma OpenIsLoaded(offsets: seq<nat>, meta: seq<byte>)
    requires offsets != [] && Last(offsets) <= |meta| && Loaded(offsets, meta).Valid()
    ensures View(offsets, |offsets| - 1, meta, []).Valid()
    ensures View(offsets, |offsets| - 1, meta, []).Records() == Loaded(offsets, meta).Records()
  {
    var v, w := View(offsets, |offsets| - 1, meta, []), Loaded(offsets, meta);
    forall i | 0 <= i < |offsets| - 1
      ensures v.Records()[i] == w.Records()[i]
    {
      RecordIsSlice(v, i);
      RecordIsSlice(w, i);
    }
  }

  /** Streaming refinement of a store in files, and opening the two new files. */
  method RefineAndReopen(store: FileMetadataSet, indices: seq<int>) returns (r: Option<FileMetadataSet>)
    requires store.Valid() && MetadataView.InRange(store.Model(), indices)
    requires |indices| <= MAX_COUNT && |Concat(Selected(store.Model(), indices), |indices|)| < MetadataView.WORD
    ensures r.Some? && fresh(r.value) && r.value.Valid() && r.value.Records() == old(Selected(store.Model(), indices))
  {
    RefineLoad(Selected(store.Model(), indices));
    var index, meta := store.RefineToFiles(indices);
    OpenIsLoaded(RunningOffsets(Selected(store.Model(), indices)), meta);
    r := FileMetadataSet.Open(index, meta);
  }
}
