/** The layout of a compressed file and of the index that locates its records, as values. */
module CompressedRecords {
  import opened Sizes
  import opened FlatFiles
  import opened Nonces
  import opened Packing
  import opened Framing

  /** An abstract compressor: what it makes of a block is never empty, fits its bound, and can be undone. */
  datatype Codec = Codec(compress: Bytes -> Bytes, decompress: Bytes -> Bytes, bound: nat -> nat) {
    ghost predicate Sound(blockSize: nat) {
      && blockSize >= 1 && bound(blockSize) < 0x1_0000_0000
      && (forall block :: 1 <= |block| <= blockSize ==>
            && 1 <= |compress(block)| <= bound(blockSize)
            && decompress(compress(block)) == block)
    }

    /** A stored record: the compressed block with its size in front. */
    function Record(block: Bytes): Bytes {
      Framed(compress(block))
    }
  }

  /** The records of the blocks, one after the other. */
  function DataOf(c: Codec, blocks: seq<Bytes>): Bytes {
    if blocks == [] then [] else DataOf(c, blocks[..|blocks| - 1]) + c.Record(blocks[|blocks| - 1])
  }

  /** Where record `i` starts. */
  function Offset(c: Codec, blocks: seq<Bytes>, i: nat): nat
    requires i <= |blocks|
  {
    |DataOf(c, blocks[..i])|
  }

  /** The first `n` index entries: entry `i` is where record `i` starts. */
  function Entries(c: Codec, blocks: seq<Bytes>, n: nat): (entries: Bytes)
    requires n <= |blocks| + 1
    ensures |entries| == 8 * n
  {
    if n == 0 then [] else Entries(c, blocks, n - 1) + BigEndian(Offset(c, blocks, n - 1), 8)
  }

  /** Every block is full, except that the last may be short; none is empty. */
  ghost predicate Blocks(blocks: seq<Bytes>, blockSize: nat) {
    && (forall i :: 0 <= i < |blocks| ==> 1 <= |blocks[i]| <= blockSize)
    && (forall i :: 0 <= i < |blocks| - 1 ==> |blocks[i]| == blockSize)
  }

  /** The number of full blocks. */
  function FullCount(blocks: seq<Bytes>, blockSize: nat): nat {
    if blocks != [] && |blocks[|blocks| - 1]| < blockSize then |blocks| - 1 else |blocks|
  }

  /** All the blocks up to that number are full, and there is at most one behind them. */
  lemma FullAreFull(blocks: seq<Bytes>, blockSize: nat)
    requires Blocks(blocks, blockSize)
    ensures FullCount(blocks, blockSize) <= |blocks| <= FullCount(blocks, blockSize) + 1
    ensures forall i: nat :: i < |blocks| ==> (i < FullCount(blocks, blockSize) <==> |blocks[i]| == blockSize)
  {
  }

  /** The file that the blocks make up. */
  function Joined(blocks: seq<Bytes>): Bytes {
    if blocks == [] then [] else Joined(blocks[..|blocks| - 1]) + blocks[|blocks| - 1]
  }

  lemma {:induction false} JoinedFull(blocks: seq<Bytes>, blockSize: nat)
    requires forall i: nat :: i < |blocks| ==> |blocks[i]| == blockSize
    ensures |Joined(blocks)| == |blocks| * blockSize
  {
    if blocks != [] {
      JoinedFull(blocks[..|blocks| - 1], blockSize);
      assert |blocks| * blockSize == (|blocks| - 1) * blockSize + blockSize;
    }
  }

  /** The length of the file is that of the full blocks and of the short one. */
  lemma JoinedLength(blocks: seq<Bytes>, blockSize: nat)
    requires Blocks(blocks, blockSize)
    ensures
      var full := FullCount(blocks, blockSize);
      |Joined(blocks)| == full * blockSize + if |blocks| > full then |blocks[full]| else 0
  {
    FullAreFull(blocks, blockSize);
    if |blocks| > FullCount(blocks, blockSize) {
      JoinedFull(blocks[..|blocks| - 1], blockSize);
    } else {
      JoinedFull(blocks, blockSize);
    }
  }

  /** Block `i` is what the file has at `i` times the block size. */
  lemma {:induction false} BlockAt(blocks: seq<Bytes>, blockSize: nat, i: nat)
    requires Blocks(blocks, blockSize) && i < |blocks|
    ensures i * blockSize + |blocks[i]| <= |Joined(blocks)|
    ensures Joined(blocks)[i * blockSize..i * blockSize + |blocks[i]|] == blocks[i]
    decreases |blocks|
  {
    var init, last := blocks[..|blocks| - 1], blocks[|blocks| - 1];
    if i == |init| {
      JoinedFull(init, blockSize);
    } else {
      BlockAt(init, blockSize, i);
      var p := i * blockSize;
      assert (Joined(init) + last)[p..p + |init[i]|] == Joined(init)[p..p + |init[i]|];
    }
  }

  /** A block over the short one, or behind the full ones. */
  lemma JoinedAppend(blocks: seq<Bytes>, blockSize: nat, block: Bytes)
    requires Blocks(blocks, blockSize) && blockSize >= 1
    ensures
      var k := FullCount(blocks, blockSize);
      && k <= |blocks| && k * blockSize <= |Joined(blocks)| < k * blockSize + blockSize
      && Joined(blocks[..k] + [block]) == Joined(blocks)[..k * blockSize] + block
  {
    var k := FullCount(blocks, blockSize);
    FullAreFull(blocks, blockSize);
    JoinedLength(blocks, blockSize);
    JoinedFull(blocks[..k], blockSize);
    assert (blocks[..k] + [block])[..k] == blocks[..k];
    assert blocks[..|blocks|] == blocks;
  }

  lemma JoinedCounts(blocks: seq<Bytes>, blockSize: nat)
    requires Blocks(blocks, blockSize) && blockSize >= 1
    ensures |Joined(blocks)| / blockSize == FullCount(blocks, blockSize)
  {
    var k := FullCount(blocks, blockSize);
    FullAreFull(blocks, blockSize);
    JoinedLength(blocks, blockSize);
    DivModUnique(k, blockSize, |Joined(blocks)| - k * blockSize);
  }

  /** The index: one entry for each full record and one for what follows, once anything is written. */
  function IndexOf(c: Codec, blocks: seq<Bytes>, blockSize: nat): Bytes {
    if blocks == [] then [] else Entries(c, blocks, FullCount(blocks, blockSize) + 1)
  }

  lemma {:induction false} OffsetsGrow(c: Codec, blocks: seq<Bytes>, i: nat, j: nat)
    requires i <= j <= |blocks|
    ensures Offset(c, blocks, i) <= Offset(c, blocks, j)
    ensures DataOf(c, blocks[..i]) == DataOf(c, blocks[..j])[..Offset(c, blocks, i)]
    decreases j
  {
    if i < j {
      OffsetsGrow(c, blocks, i, j - 1);
      assert blocks[..j][..j - 1] == blocks[..j - 1];
    }
  }

  /** Record `i` stands at its offset and ends at the next one. */
  lemma RecordAt(c: Codec, blocks: seq<Bytes>, i: nat)
    requires i < |blocks|
    ensures Offset(c, blocks, i) + |c.Record(blocks[i])| == Offset(c, blocks, i + 1) <= |DataOf(c, blocks)|
    ensures DataOf(c, blocks)[Offset(c, blocks, i)..Offset(c, blocks, i + 1)] == c.Record(blocks[i])
  {
    assert blocks[..i + 1][..i] == blocks[..i];
    assert blocks[..|blocks|] == blocks;
    OffsetsGrow(c, blocks, i + 1, |blocks|);
  }

  /** Entry `i` of the index, as it stands there. */
  lemma {:induction false} EntryAt(c: Codec, blocks: seq<Bytes>, n: nat, i: nat)
    requires i < n <= |blocks| + 1
    ensures Entries(c, blocks, n)[8 * i..8 * i + 8] == BigEndian(Offset(c, blocks, i), 8)
  {
    if i < n - 1 {
      EntryAt(c, blocks, n - 1, i);
      assert Entries(c, blocks, n)[8 * i..8 * i + 8] == Entries(c, blocks, n - 1)[8 * i..8 * i + 8];
    }
  }

  /** The entries up to a record do not depend on that record or on those after it. */
  lemma {:induction false} EntriesAgree(c: Codec, a: seq<Bytes>, b: seq<Bytes>, n: nat)
    requires 1 <= n <= |a| + 1 && n <= |b| + 1
    requires a[..n - 1] == b[..n - 1]
    ensures Entries(c, a, n) == Entries(c, b, n)
  {
    assert Entries(c, a, 0) == Entries(c, b, 0);
    if n > 1 {
      assert a[..n - 2] == a[..n - 1][..n - 2] == b[..n - 2];
      EntriesAgree(c, a, b, n - 1);
    }
  }

  /** Replacing or adding the last record, once all records before it are full. */
  lemma AppendRecord(c: Codec, blocks: seq<Bytes>, k: nat, block: Bytes)
    requires k <= |blocks| <= k + 1
    requires |blocks| == k + 1 ==> |c.Record(block)| >= |c.Record(blocks[k])|
    ensures Offset(c, blocks, k) <= |DataOf(c, blocks)|
    ensures DataOf(c, blocks[..k] + [block]) == Overwrite(DataOf(c, blocks), Offset(c, blocks, k), c.Record(block))
    ensures Offset(c, blocks[..k] + [block], k) == Offset(c, blocks, k)
    ensures Offset(c, blocks[..k] + [block], k + 1) == Offset(c, blocks, k) + |c.Record(block)|
  {
    hide Codec.Record;
    var after := blocks[..k] + [block];
    assert after[..k] == blocks[..k] && after[..k + 1] == after;
    var before := DataOf(c, blocks[..k]);
    assert DataOf(c, after) == before + c.Record(block);
    if |blocks| == k + 1 {
      assert DataOf(c, blocks) == before + c.Record(blocks[k]);
      OverwriteTail(before, c.Record(blocks[k]), c.Record(block));
    } else {
      assert blocks[..k] == blocks;
      OverwriteTail(before, [], c.Record(block));
    }
  }

  /** The index after a record is written at its end, with a new entry if the record is full. */
  lemma AppendEntry(c: Codec, blocks: seq<Bytes>, k: nat, block: Bytes, blockSize: nat)
    requires Blocks(blocks, blockSize) && k == FullCount(blocks, blockSize)
    requires 1 <= |block| <= blockSize
    ensures
      var after := blocks[..k] + [block];
      && Blocks(after, blockSize)
      && FullCount(after, blockSize) == k + (if |block| == blockSize then 1 else 0)
      && IndexOf(c, after, blockSize)
         == Entries(c, blocks, k + 1)
            + (if |block| == blockSize then BigEndian(Offset(c, after, k + 1), 8) else [])
  {
    var after := blocks[..k] + [block];
    assert after[..k] == blocks[..k];
    EntriesAgree(c, after, blocks, k + 1);
  }

  /** The state of the compression filter: its two files and where they stand. */
  datatype FilterState = FilterState(
    codec: Codec, blockSize: nat, blocks: seq<Bytes>,
    data: Bytes, dataPos: nat, index: Bytes, indexPos: nat,
    compressedPosition: nat, previousRead: bool, current: nat)

  /** The index agrees with the data. */
  ghost predicate Agrees(s: FilterState) {
    && s.codec.Sound(s.blockSize) && Blocks(s.blocks, s.blockSize)
    && s.data == DataOf(s.codec, s.blocks) && |s.data| < TWO_TO_THE_64
    && s.index == IndexOf(s.codec, s.blocks, s.blockSize)
    && (s.blocks == [] ==> s.previousRead && s.compressedPosition == 0)
  }

  /** At record `current`; the index is one entry ahead unless the last operation was a read. */
  ghost predicate InSync(s: FilterState) {
    && Agrees(s) && s.current <= FullCount(s.blocks, s.blockSize)
    && s.dataPos == s.compressedPosition == Offset(s.codec, s.blocks, s.current)
    && s.indexPos == 8 * (s.current + if s.previousRead then 0 else 1)
  }

  /** Both files stand at their end: only a seek leads on. */
  ghost predicate AtEnd(s: FilterState) {
    Agrees(s) && s.dataPos == |s.data| && s.indexPos == |s.index|
  }

  /** What a read finds in the index. */
  lemma ReadFindsIndex(s: FilterState)
    requires InSync(s)
    ensures s.previousRead && s.blocks == [] ==> s.indexPos == |s.index|
    ensures s.previousRead && s.blocks != [] ==> s.indexPos + 8 <= |s.index|
    ensures s.indexPos <= |s.index|
  {
    hide Codec.Sound, DataOf, Offset;
  }

  /** What a read finds in the data. */
  lemma ReadFindsData(s: FilterState)
    requires InSync(s)
    ensures s.current <= |s.blocks| && (s.current == |s.blocks| ==> s.dataPos == |s.data|)
    ensures s.current < |s.blocks| ==>
      var compressed := s.codec.compress(s.blocks[s.current]);
      var p := s.dataPos + 4;
      && 1 <= |s.blocks[s.current]| <= s.blockSize && 1 <= |compressed| <= s.codec.bound(s.blockSize)
      && p + |compressed| <= |s.data|
      && FromBigEndian(s.data[s.dataPos..p]) == |compressed|
      && s.data[p..p + |compressed|] == compressed
      && s.codec.decompress(compressed) == s.blocks[s.current]
  {
    hide DataOf, IndexOf, Codec.Sound;
    if s.current < |s.blocks| {
      SoundAt(s.codec, s.blocks[s.current], s.blockSize);
      RecordFound(s.codec, s.blocks, s.current, s.blockSize);
    } else {
      assert s.blocks[..s.current] == s.blocks;
    }
  }

  lemma SoundAt(c: Codec, block: Bytes, blockSize: nat)
    requires c.Sound(blockSize) && 1 <= |block| <= blockSize
    ensures 1 <= |c.compress(block)| <= c.bound(blockSize) < 0x1_0000_0000
    ensures c.decompress(c.compress(block)) == block
    ensures c.Record(block) == Framed(c.compress(block))
  {
  }

  /** Record `i`, taken apart where it stands. */
  lemma RecordFound(c: Codec, blocks: seq<Bytes>, i: nat, blockSize: nat)
    requires c.Sound(blockSize) && i < |blocks| && 1 <= |blocks[i]| <= blockSize
    ensures
      var compressed, p := c.compress(blocks[i]), Offset(c, blocks, i);
      && p + 4 + |compressed| <= |DataOf(c, blocks)|
      && FromBigEndian(DataOf(c, blocks)[p..p + 4]) == |compressed|
      && DataOf(c, blocks)[p + 4..p + 4 + |compressed|] == compressed
  {
    hide Codec.Sound, Codec.Record, DataOf, Framed, Offset, FromBigEndian;
    SoundAt(c, blocks[i], blockSize);
    RecordAt(c, blocks, i);
    TakeApart(DataOf(c, blocks), Offset(c, blocks, i), c.compress(blocks[i]));
  }

  /** The state after record `current` has been read. */
  function AfterRecord(s: FilterState): FilterState
    requires s.current < |s.blocks|
  {
    var size := 4 + |s.codec.compress(s.blocks[s.current])|;
    s.(previousRead := true, current := s.current + 1,
       compressedPosition := s.compressedPosition + size, dataPos := s.dataPos + size,
       indexPos := if s.previousRead then s.indexPos + 8 else s.indexPos)
  }

  lemma ReadKeeps(s: FilterState)
    requires InSync(s) && s.current < |s.blocks|
    ensures s.current < FullCount(s.blocks, s.blockSize) ==> InSync(AfterRecord(s))
    ensures s.current == FullCount(s.blocks, s.blockSize) ==> AtEnd(AfterRecord(s))
  {
    RecordAt(s.codec, s.blocks, s.current);
    assert s.blocks[..|s.blocks|] == s.blocks;
  }

  /** The state in which two files that agree are opened. */
  function Opened(c: Codec, blocks: seq<Bytes>, blockSize: nat): FilterState {
    FilterState(c, blockSize, blocks, DataOf(c, blocks), 0, IndexOf(c, blocks, blockSize), 0, 0, true, 0)
  }

  lemma StartsInSync(c: Codec, blocks: seq<Bytes>, blockSize: nat)
    requires c.Sound(blockSize) && Blocks(blocks, blockSize) && |DataOf(c, blocks)| < TWO_TO_THE_64
    ensures InSync(Opened(c, blocks, blockSize)) && Agrees(Opened(c, blocks, blockSize))
  {
    assert blocks[..0] == [];
  }

  lemma InSyncInRange(s: FilterState)
    ensures InSync(s) ==> s.current <= |s.blocks| && s.compressedPosition == s.dataPos
    ensures InSync(s) || AtEnd(s) ==> Agrees(s)
  {
  }

  /** The state after a read that found the end. */
  function AfterEnd(s: FilterState): FilterState {
    s.(previousRead := true, indexPos := if s.previousRead then Min(s.indexPos + 8, |s.index|) else s.indexPos)
  }

  /** A read that finds no record leaves both files at their end. */
  lemma ReadEnds(s: FilterState)
    requires AtEnd(s) || (InSync(s) && s.current == |s.blocks|)
    ensures s.dataPos == |s.data| && s.indexPos <= |s.index|
    ensures s.indexPos == |s.index| || s.indexPos + 8 <= |s.index|
    ensures AtEnd(AfterEnd(s))
  {
    if InSync(s) && s.current == |s.blocks| {
      assert s.blocks[..s.current] == s.blocks;
    }
  }

  lemma NothingStored(c: Codec)
    ensures DataOf(c, []) == []
  {
  }

  /** Before a record is written the index has the entry for it, and is positioned behind that. */
  lemma IndexSynchronized(s: FilterState)
    requires InSync(s) && s.current == FullCount(s.blocks, s.blockSize)
    ensures s.indexPos <= |s.index| && s.current <= |s.blocks|
    ensures s.previousRead ==>
      Overwrite(s.index, s.indexPos, BigEndian(s.compressedPosition, 8)) == Entries(s.codec, s.blocks, s.current + 1)
    ensures !s.previousRead ==> s.index == Entries(s.codec, s.blocks, s.current + 1)
    ensures s.indexPos + (if s.previousRead then 8 else 0) == 8 * (s.current + 1)
  {
    hide Codec.Sound, DataOf, BigEndian;
    var k := s.current;
    if s.blocks == [] {
      NothingStored(s.codec);
      assert s.blocks[..0] == [];
      assert Entries(s.codec, s.blocks, 1) == Entries(s.codec, s.blocks, 0) + BigEndian(0, 8);
    } else if s.previousRead {
      EntryAt(s.codec, s.blocks, k + 1, k);
      OverwriteSame(s.index, s.indexPos, BigEndian(s.compressedPosition, 8));
    }
  }

  /** The state after `block` has been written as record `current`. */
  function AfterWrite(s: FilterState, block: Bytes): FilterState
    requires s.current <= |s.blocks|
  {
    var after := s.blocks[..s.current] + [block];
    var size := |s.codec.Record(block)|;
    s.(blocks := after, current := s.current + 1, previousRead := false,
       data := DataOf(s.codec, after), index := IndexOf(s.codec, after, s.blockSize),
       compressedPosition := s.compressedPosition + size, dataPos := s.dataPos + size,
       indexPos := 8 * (s.current + 1) + if |block| == s.blockSize then 8 else 0)
  }

  /** What the two files become when a record is written at the end, and the index with it. */
  lemma WriteKeeps(s: FilterState, block: Bytes)
    requires InSync(s) && s.current == FullCount(s.blocks, s.blockSize)
    requires 1 <= |block| <= s.blockSize
    requires |s.blocks| > s.current ==> |s.codec.Record(block)| >= |s.codec.Record(s.blocks[s.current])|
    requires s.compressedPosition + |s.codec.Record(block)| < TWO_TO_THE_64
    ensures s.current <= |s.blocks| && s.dataPos <= |s.data|
    ensures
      var t := AfterWrite(s, block);
      && t.data == Overwrite(s.data, s.dataPos, s.codec.Record(block))
      && t.index == Entries(s.codec, s.blocks, s.current + 1)
                    + (if |block| == s.blockSize then BigEndian(t.compressedPosition, 8) else [])
      && (if |block| == s.blockSize then InSync(t) else AtEnd(t))
  {
    hide Codec.Record, DataOf, Entries, BigEndian, Codec.Sound;
    AppendRecord(s.codec, s.blocks, s.current, block);
    AppendEntry(s.codec, s.blocks, s.current, block, s.blockSize);
    var t := AfterWrite(s, block);
    assert t.blocks[..s.current + 1] == t.blocks;
  }

  /** The state after a seek to record `i`. */
  function AfterSeek(s: FilterState, i: nat): FilterState
    requires i <= |s.blocks|
  {
    var offset := Offset(s.codec, s.blocks, i);
    s.(current := i, compressedPosition := offset, dataPos := offset,
       previousRead := s.blocks == [], indexPos := if s.blocks == [] then 0 else 8 * (i + 1))
  }

  /** A seek finds in the index where the record starts; in a new file it finds the end of the index. */
  lemma SeekKeeps(s: FilterState, i: nat)
    requires Agrees(s) && i <= FullCount(s.blocks, s.blockSize)
    ensures i <= |s.blocks| && InSync(AfterSeek(s, i))
    ensures s.blocks == [] ==> s.index == [] && i == 0 && Offset(s.codec, s.blocks, 0) == 0
    ensures s.blocks != [] ==>
      && 8 * i + 8 <= |s.index|
      && FromBigEndian(s.index[8 * i..8 * i + 8]) == Offset(s.codec, s.blocks, i) <= |s.data|
  {
    hide Codec.Sound, DataOf, BigEndian, FromBigEndian, Power;
    OffsetsGrow(s.codec, s.blocks, i, |s.blocks|);
    assert s.blocks[..|s.blocks|] == s.blocks;
    if s.blocks == [] {
      NothingStored(s.codec);
      assert s.blocks[..0] == [];
    } else {
      EntryAt(s.codec, s.blocks, FullCount(s.blocks, s.blockSize) + 1, i);
      PowersOf256();
      BigEndianRoundTrip(Offset(s.codec, s.blocks, i), 8);
    }
  }

  lemma BlockSizePositive(s: FilterState)
    requires InSync(s) || Agrees(s)
    ensures s.blockSize >= 1
  {
  }

  lemma CompressesToSomething(s: FilterState, block: Bytes)
    requires InSync(s) && 1 <= |block| <= s.blockSize
    ensures 1 <= |s.codec.compress(block)|
    ensures s.codec.Record(block) == Framed(s.codec.compress(block))
  {
  }

  lemma FullAfterWrite(s: FilterState, block: Bytes)
    requires InSync(s) && s.current == FullCount(s.blocks, s.blockSize)
    ensures s.current <= |s.blocks|
    ensures |block| == s.blockSize ==> FullCount(AfterWrite(s, block).blocks, s.blockSize) == s.current + 1
  {
  }

  /** Behind the last, short record there is no record to stand at. */
  lemma NotPastShort(s: FilterState)
    ensures s.current > FullCount(s.blocks, s.blockSize) ==> !InSync(s)
  {
  }

  /** Where the files stand does not matter to whether they agree. */
  lemma AgreesAnywhere(s: FilterState, indexPos: nat)
    requires Agrees(s)
    ensures Agrees(s.(indexPos := indexPos))
  {
  }

  lemma BoundaryInRange(position: nat, full: nat, blockSize: nat)
    requires blockSize >= 1 && position <= full * blockSize
    ensures position / blockSize <= full
  {
    if position / blockSize > full {
      MulGap(full, position / blockSize, blockSize);
    }
  }

  /** The index has an entry for each full record and one more, unless nothing was ever written. */
  lemma IndexCounts(s: FilterState)
    requires Agrees(s)
    ensures |s.index| / 8 == if s.blocks == [] then 0 else FullCount(s.blocks, s.blockSize) + 1
    ensures s.blocks == [] ==> s.index == [] && s.data == [] && FullCount(s.blocks, s.blockSize) == 0
    ensures s.blocks == [] ==> s.previousRead && s.compressedPosition == 0 && Offset(s.codec, s.blocks, 0) == 0
    ensures FullCount(s.blocks, s.blockSize) < |s.blocks| ==>
      1 <= |s.blocks[FullCount(s.blocks, s.blockSize)]| < s.blockSize
    ensures FullCount(s.blocks, s.blockSize) <= |s.blocks| <= FullCount(s.blocks, s.blockSize) + 1
    ensures s.blockSize >= 1
  {
    if s.blocks == [] {
      assert s.blocks[..0] == [];
    }
  }
}
