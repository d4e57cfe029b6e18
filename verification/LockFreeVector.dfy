/** `LockFreeVector`: a bounded sequence of elements of any type, in blocks of power-of-two length that stay put. */
module LockFree {

  // 2^64: sizes and offsets are 64-bit unsigned
  const WORD: int := 0x1_0000_0000_0000_0000

  // ----- offsets: block number and place in the block -----

  function Pow2(e: nat): (p: nat)
    ensures p >= 1
  {
    if e == 0 then 1 else 2 * Pow2(e - 1)
  }

  /** `ceil(log2(n))`. */
  function CeilLog2(n: nat): (e: nat)
    requires n >= 1
    ensures Pow2(e) >= n && (e > 0 ==> Pow2(e - 1) < n)
    decreases n
  {
    if n == 1 then 0 else CeilLog2((n + 1) / 2) + 1
  }

  /** `n >> e`. */
  function Shift(n: nat, e: nat): nat
    decreases e
  {
    if e == 0 then n else Shift(n / 2, e - 1)
  }

  /** `n & (2^e - 1)`: the low `e` bits. */
  function Mask(n: nat, e: nat): (m: nat)
    ensures m < Pow2(e)
    decreases e
  {
    if e == 0 then 0 else n % 2 + 2 * Mask(n / 2, e - 1)
  }

  /** Shift and mask split an offset into whole blocks and the rest, and no other split exists. */
  lemma {:induction false} ShiftMask(n: nat, e: nat)
    ensures n == Shift(n, e) * Pow2(e) + Mask(n, e)
    decreases e
  {
    if e > 0 {
      ShiftMask(n / 2, e - 1);
      Doubled(Shift(n, e), Pow2(e - 1));
    }
  }

  lemma Doubled(q: nat, p: nat)
    ensures q * (2 * p) == 2 * (q * p)
  {
  }

  lemma SplitIsUnique(q: nat, r: nat, e: nat)
    requires r < Pow2(e)
    ensures Shift(q * Pow2(e) + r, e) == q && Mask(q * Pow2(e) + r, e) == r
  {
    var n := q * Pow2(e) + r;
    ShiftMask(n, e);
    SameQuotient(q, r, Shift(n, e), Mask(n, e), Pow2(e));
  }

  lemma SameQuotient(q: nat, r: nat, q': nat, r': nat, p: nat)
    requires r < p && r' < p && q * p + r == q' * p + r'
    ensures q == q' && r == r'
  {
    if q' < q {
      MulLe(q' + 1, q, p);
    } else if q' > q {
      MulLe(q + 1, q', p);
    }
  }

  lemma MulLe(a: nat, b: nat, c: nat)
    requires a <= b
    ensures a * c <= b * c
  {
  }

  /** Later offsets are in the same or later blocks. */
  lemma ShiftMonotone(i: nat, j: nat, e: nat)
    requires i <= j
    ensures Shift(i, e) <= Shift(j, e)
    decreases e
  {
    if e > 0 {
      ShiftMonotone(i / 2, j / 2, e - 1);
    }
  }

  /** The block of the next offset is the block of the last one or the one behind it. */
  lemma NextBlock(o: nat, e: nat)
    ensures Shift(0, e) == 0 && Shift(o + 1, e) <= Shift(o, e) + 1
    decreases e
  {
    if e > 0 {
      NextBlock(o / 2, e - 1);
      ShiftMonotone((o + 1) / 2, o / 2 + 1, e - 1);
      NextBlock(0, e - 1);
    }
  }

  /** Which offsets lie in the `n` cells from offset `o` on, when those cells share a block. */
  lemma ChunkCells(o: nat, n: nat, i: nat, e: nat)
    requires Mask(o, e) + n <= Pow2(e)
    ensures o <= i < o + n <==> Shift(i, e) == Shift(o, e) && Mask(o, e) <= Mask(i, e) < Mask(o, e) + n
    ensures o <= i < o + n ==> Mask(i, e) - Mask(o, e) == i - o
  {
    ShiftMask(o, e);
    ShiftMask(i, e);
    if o <= i < o + n {
      SplitIsUnique(Shift(o, e), Mask(o, e) + (i - o), e);
    }
  }

  /** Neighbouring slices join. */
  lemma JoinSlices<T>(s: seq<T>, a: nat, b: nat, c: nat)
    requires a <= b <= c <= |s|
    ensures s[a..b] + s[b..c] == s[a..c]
  {
  }

  lemma JoinPrefix<T>(before: seq<T>, s: seq<T>, b: nat, c: nat)
    requires b <= c <= |s|
    ensures before + s[..b] + s[b..c] == before + s[..c]
  {
  }

  method Memcpy<T>(block: array<T>, pos: nat, data: seq<T>)
    requires pos + |data| <= block.Length
    modifies block
    ensures forall p :: 0 <= p < block.Length ==>
      block[p] == if pos <= p < pos + |data| then data[p - pos] else old(block[p])
  {
    forall p | pos <= p < pos + |data| {
      block[p] := data[p - pos];
    }
  }

  class LockFreeVector<T(0)> {
    var m_size: nat
    var m_maxSize: nat
    var m_blockSize: nat      // the mask: block length minus one
    var m_blockSizeEx: nat
    var m_blocks: seq<array<T>>
    var m_capacity: nat       // m_blocks.capacity()
    ghost var contents: seq<T>  // the sequence the vector stands for

    /** Distinct blocks of the same power-of-two length. */
    ghost predicate Shape()
      reads this
    {
      && m_maxSize < WORD && m_blockSize + 1 == Pow2(m_blockSizeEx)
      && (forall i, j :: 0 <= i < j < |m_blocks| ==> m_blocks[i] != m_blocks[j])
      && (forall i :: 0 <= i < |m_blocks| ==> m_blocks[i].Length == m_blockSize + 1)
      && |m_blocks| <= m_capacity
    }

    function BlockOf(offset: nat): nat
      reads this
    {
      Shift(offset, m_blockSizeEx)
    }

    function PosOf(offset: nat): (p: nat)
      reads this
      ensures p < Pow2(m_blockSizeEx)
    {
      Mask(offset, m_blockSizeEx)
    }

    /** The cell at `offset`, used or not. */
    function At(offset: nat): T
      requires Shape() && BlockOf(offset) < |m_blocks|
      reads this, m_blocks
    {
      m_blocks[BlockOf(offset)][PosOf(offset)]
    }

    /** The first cells hold `all`. */
    ghost predicate Holds(all: seq<T>)
      requires Shape()
      reads this, m_blocks
    {
      forall i: nat :: i < |all| ==> BlockOf(i) < |m_blocks| && At(i) == all[i]
    }

    ghost predicate Valid()
      reads this, m_blocks
    {
      Shape() && |contents| == m_size < WORD && Holds(contents)
    }

    constructor (blocksize: nat, maxsize: nat)
      requires 1 <= blocksize <= 0x4000_0000 && maxsize < WORD
      ensures Valid() && m_blocks == [] && contents == []
      ensures m_maxSize == maxsize && m_blockSizeEx == CeilLog2(blocksize)
      ensures m_capacity >= Shift(maxsize + m_blockSize, m_blockSizeEx)
    {
      m_size, m_maxSize := 0, maxsize;
      m_blockSizeEx := CeilLog2(blocksize);
      m_blockSize := Pow2(CeilLog2(blocksize)) - 1;
      m_blocks, contents := [], [];
      var capacity: nat :| capacity >= Shift(maxsize + Pow2(CeilLog2(blocksize)) - 1, CeilLog2(blocksize));
      m_capacity := capacity;
    }

    function size(): nat
      reads this
    {
      m_size
    }

    method clear()
      requires Valid()
      modifies `m_size, `contents
      ensures Valid() && contents == []
    {
      m_size, contents := 0, [];
    }

    /** `operator[]`. */
    function Get(offset: nat): (x: T)
      requires Valid() && offset < m_size
      reads this, m_blocks
      ensures x == contents[offset]
    {
      m_blocks[BlockOf(offset)][PosOf(offset)]
    }

    function back(): (x: T)
      requires Valid() && m_size > 0
      reads this, m_blocks
      ensures x == contents[m_size - 1]
    {
      Get(m_size - 1)
    }

    /** The blocks are those of before, followed by new ones. */
    twostate predicate Extends(before: seq<array<T>>)
      reads this
    {
      && |before| <= |m_blocks| && m_blocks[..|before|] == before
      && forall i :: |before| <= i < |m_blocks| ==> fresh(m_blocks[i])
    }

    /** Extending twice extends. */
    twostate lemma StillExtends(before: seq<array<T>>, new between: seq<array<T>>)
      requires |before| <= |between| <= |m_blocks| && between[..|before|] == before && m_blocks[..|between|] == between
      requires forall i :: |before| <= i < |between| ==> fresh(between[i])
      requires forall i :: |between| <= i < |m_blocks| ==> fresh(m_blocks[i])
      ensures Extends(before)
    {
      assert m_blocks[..|before|] == between[..|before|];
      forall i | |before| <= i < |m_blocks|
        ensures fresh(m_blocks[i])
      {
        assert i < |between| ==> m_blocks[i] == m_blocks[..|between|][i];
      }
    }

    /** Adds block `b` when it is missing; no cell changes. */
    method GrowTo(b: nat, ghost held: seq<T>)
      requires Shape() && Holds(held) && b <= |m_blocks|
      modifies `m_blocks, `m_capacity
      ensures Shape() && Holds(held) && b < |m_blocks| && Extends(old(m_blocks))
    {
      if b >= |m_blocks| {
        var newBlock := new T[m_blockSize + 1];
        m_blocks := m_blocks + [newBlock];
        if m_capacity < |m_blocks| {
          var capacity: nat :| capacity >= |m_blocks|;
          m_capacity := capacity;
        }
      }
      forall i: nat | i < |held|
        ensures BlockOf(i) < |m_blocks| && At(i) == held[i]
      {
        assert old(BlockOf(i)) < |old(m_blocks)| && old(At(i)) == held[i];
      }
    }

    /** Writes `chunk` behind `held`, inside one existing block. */
    method WriteInBlock(chunk: seq<T>, ghost held: seq<T>, b: nat, p: nat)
      requires Shape() && Holds(held) && b == BlockOf(|held|) < |m_blocks| && p == PosOf(|held|)
        && p + |chunk| <= m_blockSize + 1
      modifies m_blocks[b]
      ensures Shape() && Holds(held + chunk)
    {
      Memcpy(m_blocks[b], p, chunk);
      ghost var all := held + chunk;
      forall i: nat | i < |all|
        ensures BlockOf(i) < |m_blocks| && At(i) == all[i]
      {
        ChunkCells(|held|, |chunk|, i, m_blockSizeEx);
        assert i < |held| ==> BlockOf(i) < |m_blocks| && old(At(i)) == held[i];
      }
    }

    /** How many of `rest` elements fit into the block of offset `o`. */
    function ChunkLength(o: nat, rest: nat): (n: nat)
      requires m_blockSize + 1 == Pow2(m_blockSizeEx)
      reads this
      ensures n <= rest && PosOf(o) + n <= m_blockSize + 1 && (rest > 0 ==> n > 0)
    {
      if m_blockSize + 1 - PosOf(o) < rest then m_blockSize + 1 - PosOf(o) else rest
    }

    /** One round of the chunk loops of `assign` and `load`, at offset `o`. */
    method WriteChunk(o: nat, chunk: seq<T>, ghost held: seq<T>)
      requires Shape() && Holds(held) && o == |held| && PosOf(o) + |chunk| <= m_blockSize + 1
      modifies `m_blocks, `m_capacity, m_blocks
      ensures Shape() && Holds(held + chunk) && Extends(old(m_blocks))
    {
      if o > 0 {
        NextBlock(o - 1, m_blockSizeEx);
        assert BlockOf(o - 1) < |m_blocks|;
      } else {
        NextBlock(0, m_blockSizeEx);
      }
      var currBlock := BlockOf(o);
      GrowTo(currBlock, held);
      WriteInBlock(chunk, held, currBlock, PosOf(o));
    }

    /**
      The chunk loop of `assign` and `load`, from element `written` on: writes `data` behind the contents, adding blocks
      as needed.
     */
    method WriteChunks(data: seq<T>)
      requires Valid()
      modifies `m_blocks, `m_capacity, m_blocks
      ensures Shape() && Holds(contents + data) && Extends(old(m_blocks))
    {
      var written := 0;
      assert contents + data[..0] == contents;
      while written < |data|
        invariant Shape() && written <= |data| && Extends(old(m_blocks)) && Holds(contents + data[..written])
      {
        ghost var blocks := m_blocks;
        written := WriteNext(data, written);
        StillExtends(old(m_blocks), blocks);
      }
      assert data[..|data|] == data;
    }

    method WriteNext(data: seq<T>, written: nat) returns (written': nat)
      requires Shape() && written < |data| && |contents| == m_size && Holds(contents + data[..written])
      modifies `m_blocks, `m_capacity, m_blocks
      ensures written < written' <= |data|
      ensures Shape() && Holds(contents + data[..written']) && Extends(old(m_blocks))
    {
      var toWrite := ChunkLength(m_size + written, |data| - written);
      written' := written + toWrite;
      JoinPrefix(contents, data, written, written');
      WriteChunk(m_size + written, data[written..written'], contents + data[..written]);
    }

    /** Counts `n` more elements, so that `all` is held. */
    method Advance(n: nat, ghost all: seq<T>)
      requires Shape() && Holds(all) && |all| == m_size + n < WORD
      modifies `m_size, `contents
      ensures Valid() && contents == all
    {
      m_size, contents := m_size + n, all;
      forall i: nat | i < |all|
        ensures BlockOf(i) < |m_blocks| && At(i) == all[i]
      {
        assert old(BlockOf(i)) < |m_blocks| && old(At(i)) == all[i];
      }
    }

    /** What `assign` and `load` do once they accept. */
    method Append(data: seq<T>)
      requires Valid() && m_size + |data| < WORD
      modifies `m_size, `contents, `m_blocks, `m_capacity, m_blocks
      ensures Valid() && contents == old(contents) + data && Extends(old(m_blocks))
    {
      ghost var all := contents + data;
      WriteChunks(data);
      Advance(|data|, all);
    }

    /** Refuses without a change, or appends. */
    method assign(data: seq<T>) returns (ok: bool)
      requires Valid() && m_size + |data| < WORD
      modifies `m_size, `contents, `m_blocks, `m_capacity, m_blocks
      ensures Valid() && Extends(old(m_blocks))
      ensures ok == Accepts(old(m_size), m_maxSize, |data|)
      ensures contents == if ok then old(contents) + data else old(contents)
    {
      if m_size > (m_maxSize - |data|) % WORD {
        return false;
      }
      Append(data);
      ok := true;
    }

    method push_back(x: T) returns (ok: bool)
      requires Valid() && m_size + 1 < WORD
      modifies `m_size, `contents, `m_blocks, `m_capacity, m_blocks
      ensures Valid() && Extends(old(m_blocks))
      ensures ok == Accepts(old(m_size), m_maxSize, 1)
      ensures contents == if ok then old(contents) + [x] else old(contents)
    {
      if m_size > (m_maxSize - 1) % WORD {
        return false;
      }
      WriteChunk(m_size, [x], contents);
      Advance(1, contents + [x]);
      ok := true;
    }

    lemma CellOf(o: nat, n: nat, i: nat)
      requires Valid() && o + n <= m_size && i < n && PosOf(o) + n <= m_blockSize + 1
      ensures BlockOf(o) < |m_blocks| && PosOf(o) + i < m_blocks[BlockOf(o)].Length
        && m_blocks[BlockOf(o)][PosOf(o) + i] == contents[o + i]
    {
      ChunkCells(o, n, o + i, m_blockSizeEx);
      assert At(o + i) == contents[o + i];
    }

    /** A run of elements inside one block is a slice of the contents. */
    lemma BlockSlice(o: nat, n: nat)
      requires Valid() && o + n <= m_size && n > 0 && PosOf(o) + n <= m_blockSize + 1
      ensures BlockOf(o) < |m_blocks| && m_blocks[BlockOf(o)][PosOf(o)..PosOf(o) + n] == contents[o..o + n]
    {
      CellOf(o, n, 0);
      var found, wanted := m_blocks[BlockOf(o)][PosOf(o)..PosOf(o) + n], contents[o..o + n];
      forall i | 0 <= i < n
        ensures found[i] == wanted[i]
      {
        CellOf(o, n, i);
      }
    }

    function Chunk(o: nat, n: nat): (s: seq<T>)
      requires Valid() && o + n <= m_size && n > 0 && PosOf(o) + n <= m_blockSize + 1
      reads this, m_blocks
      ensures s == contents[o..o + n]
    {
      BlockSlice(o, n);
      m_blocks[BlockOf(o)][PosOf(o)..PosOf(o) + n]
    }

    /** The exact slice, gathered across block boundaries. */
    method copy(offset: nat, length: nat) returns (b: seq<T>)
      requires Valid() && offset + length <= m_size
      ensures b == contents[offset..offset + length]
    {
      b := [];
      var copied := 0;
      while copied < length
        invariant copied <= length && b == contents[offset..offset + copied]
        decreases length - copied
      {
        var toCopy;
        b, toCopy := CopyChunk(b, offset, offset + copied, length - copied);
        copied := copied + toCopy;
      }
    }

    /** One turn of the loop of `copy`, at offset `o`. */
    method CopyChunk(b: seq<T>, ghost offset: nat, o: nat, rest: nat) returns (b': seq<T>, toCopy: nat)
      requires Valid() && offset <= o && o + rest <= m_size && rest > 0 && b == contents[offset..o]
      ensures 0 < toCopy <= rest && b' == contents[offset..o + toCopy]
    {
      toCopy := ChunkLength(o, rest);
      JoinSlices(contents, offset, o, o + toCopy);
      b' := b + Chunk(o, toCopy);
    }

    /** The first `n` elements of block `i` are the elements from `i` whole blocks on. */
    lemma BlockStart(i: nat, n: nat)
      requires Valid() && 0 < n <= m_blockSize + 1 && i * Pow2(m_blockSizeEx) + n <= m_size
      ensures i < |m_blocks|
      ensures m_blocks[i][..n] == contents[i * Pow2(m_blockSizeEx)..i * Pow2(m_blockSizeEx) + n]
    {
      SplitIsUnique(i, 0, m_blockSizeEx);
      BlockSlice(i * Pow2(m_blockSizeEx), n);
    }

    lemma WholeBlock(i: nat, B: nat)
      requires Valid() && B == Pow2(m_blockSizeEx) && i * B + B <= m_size
      ensures i < |m_blocks| && m_blocks[i][..] == contents[i * B..i * B + B]
    {
      BlockStart(i, B);
      assert m_blocks[i][..B] == m_blocks[i][..];
    }

    method SaveWholeBlocks(out: seq<T>) returns (out': seq<T>)
      requires Valid()
      ensures BlockOf(m_size) * Pow2(m_blockSizeEx) <= m_size
      ensures out' == out + contents[..BlockOf(m_size) * Pow2(m_blockSizeEx)]
    {
      out' := out;
      var blockNum := BlockOf(m_size);
      ghost var B := Pow2(m_blockSizeEx);
      ShiftMask(m_size, m_blockSizeEx);
      for i := 0 to blockNum
        invariant i * B <= m_size && out' == out + contents[..i * B]
      {
        MulLe(i + 1, blockNum, B);
        assert (i + 1) * B == i * B + B;
        WholeBlock(i, B);
        JoinPrefix(out, contents, i * B, i * B + B);
        out' := out' + m_blocks[i][..];
      }
    }

    /** Whole blocks first, then the rest: the stream grows by exactly the contents. */
    method save(out: seq<T>) returns (out': seq<T>)
      requires Valid()
      ensures out' == out + contents
    {
      out' := SaveWholeBlocks(out);
      var blockNum, remainNum := BlockOf(m_size), PosOf(m_size);
      ShiftMask(m_size, m_blockSizeEx);
      ghost var whole := blockNum * Pow2(m_blockSizeEx);
      assert whole + remainNum == m_size && contents[..m_size] == contents;
      if remainNum > 0 {
        BlockStart(blockNum, remainNum);
        JoinPrefix(out, contents, whole, m_size);
        out' := out' + m_blocks[blockNum][..remainNum];
      }
    }

    /** Reads `length` elements from a stream; a short stream or too little reserved room leaves the contents alone. */
    method load(input: seq<T>, length: nat) returns (ok: bool)
      requires Valid() && m_size + length < WORD
      modifies `m_size, `contents, `m_blocks, `m_capacity, m_blocks
      ensures Valid() && Extends(old(m_blocks))
      ensures ok <==> old(m_size + length <= (m_blockSize + 1) * m_capacity) && length <= |input|
      ensures contents == if ok then old(contents) + input[..length] else old(contents)
    {
      if m_size + length > (m_blockSize + 1) * m_capacity {
        return false;
      }
      if length > |input| {
        WriteChunks(input);
        assert forall i: nat :: i < |contents| ==> (contents + input)[i] == contents[i];
        return false;
      }
      Append(input[..length]);
      ok := true;
    }
  }

  /** The capacity test of `assign` and `push_back`, in 64-bit unsigned arithmetic. */
  predicate Accepts(size: nat, maxSize: nat, length: nat) {
    size <= (maxSize - length) % WORD
  }

  /**
    What fits is accepted, what does not is refused, except that more than the bound at once makes the test wrap and
    pass.
   */
  lemma AcceptsKeepsBound(size: nat, maxSize: nat, length: nat)
    requires size <= maxSize < WORD && size + length < WORD
    ensures Accepts(size, maxSize, length) <==> size + length <= maxSize || length > maxSize
    ensures Accepts(size, maxSize, length) && size + length > maxSize <==> length > maxSize
  {
    if length <= maxSize {
      assert (maxSize - length) % WORD == maxSize - length;
    } else {
      assert (maxSize - length) % WORD == maxSize - length + WORD;
    }
  }

  /** An empty vector bounded by two elements takes three at once. */
  lemma AcceptsTooMuch()
    ensures Accepts(0, 2, 3)
  {
    assert (2 - 3) % WORD == WORD - 1;
  }

  /** The elements fit into the blocks there is room for. */
  lemma FitsCapacity<T(0)>(v: LockFreeVector<T>)
    requires v.Valid()
    ensures v.m_size <= (v.m_blockSize + 1) * v.m_capacity
  {
    if v.m_size > 0 {
      var last, e := v.m_size - 1, v.m_blockSizeEx;
      assert v.BlockOf(last) < |v.m_blocks|;
      ShiftMask(last, e);
      InBlocks(last, Shift(last, e), Mask(last, e), Pow2(e), v.m_capacity);
    }
  }

  lemma InBlocks(last: nat, shift: nat, mask: nat, p: nat, capacity: nat)
    requires last == shift * p + mask && mask < p && shift < capacity
    ensures last + 1 <= p * capacity
  {
    MulLe(shift + 1, capacity, p);
  }

  /** Load after save gives the elements back, also into blocks left over from before a `clear`. */
  method Reload<T(0)>(v: LockFreeVector<T>) returns (ok: bool)
    requires v.Valid()
    modifies v, v.m_blocks
    ensures v.Valid() && ok && v.contents == old(v.contents)
  {
    FitsCapacity(v);
    var stream := v.save([]);
    var n := v.size();
    v.clear();
    ok := v.load(stream, n);
  }
}
