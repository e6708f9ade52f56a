/**
 Where the compression filter does not do what it is for, and exactly when it does. Beside each condition there is a
 concrete input on which it, and the filter, fail.
 */
module CompressedLimits {
  import opened Sizes
  import opened FlatFiles
  import opened Nonces
  import opened Framing
  import opened CompressedRecords
  import opened Files
  import opened Pipelines
  import opened Lz4Files
  import Lifecycles

  /**
   Rewriting the last record of a compressed file makes the data of the new blocks exactly if the new record is
   not smaller than the old one: nothing cuts off what a smaller one leaves behind.
   */
  lemma RewriteExact(c: Codec, blocks: seq<Bytes>, block: Bytes)
    requires blocks != []
    ensures
      var k := |blocks| - 1;
      && Offset(c, blocks, k) <= |DataOf(c, blocks)|
      && (Overwrite(DataOf(c, blocks), Offset(c, blocks, k), c.Record(block)) == DataOf(c, blocks[..k] + [block])
          <==> |c.Record(block)| >= |c.Record(blocks[k])|)
  {
    hide Codec.Record;
    var k := |blocks| - 1;
    var after := blocks[..k] + [block];
    assert after[..k] == blocks[..k] && after[k] == block;
    if |c.Record(block)| >= |c.Record(blocks[k])| {
      AppendRecord(c, blocks, k, block);
    }
  }

  /** A compressor that knows one block by heart. */
  function ToyCodec(): Codec {
    Codec((block: Bytes) => if block == [0, 0] then [0] else [1] + block,
          (compressed: Bytes) => if compressed == [] || compressed == [0] then [0, 0] else compressed[1..],
          (size: nat) => size + 1)
  }

  lemma ToyCodecIsSound()
    ensures ToyCodec().Sound(4)
  {
    var c := ToyCodec();
    forall block: Bytes | 1 <= |block| <= 4
      ensures 1 <= |c.compress(block)| <= c.bound(4) && c.decompress(c.compress(block)) == block
    {
      assert ([1] + block)[1..] == block;
    }
  }

  /** Two zeros, rewritten over two other bytes, leave two bytes behind. */
  lemma RewriteFails()
    ensures ToyCodec().Sound(4) && Blocks([[5, 6]], 4) && Blocks([[0, 0]], 4)
    ensures
      Overwrite(DataOf(ToyCodec(), [[5, 6]]), 0, ToyCodec().Record([0, 0])) != DataOf(ToyCodec(), [[0, 0]])
  {
    hide Codec.Sound, Framed;
    ToyCodecIsSound();
    var c := ToyCodec();
    RecordSizes(c, [5, 6]);
    RecordSizes(c, [0, 0]);
    OneRecord(c, [5, 6]);
    OneRecord(c, [0, 0]);
  }

  lemma RecordSizes(c: Codec, block: Bytes)
    ensures |c.Record(block)| == 4 + |c.compress(block)|
  {
  }

  lemma OneRecord(c: Codec, block: Bytes)
    ensures DataOf(c, [block]) == c.Record(block)
  {
    assert [block][..0] == [];
  }

  /** Some list of blocks is kept in these two files. */
  ghost predicate IsCompressed(c: Codec, blockSize: nat, data: Bytes, index: Bytes) {
    exists blocks: seq<Bytes> ::
      Blocks(blocks, blockSize) && data == DataOf(c, blocks) && index == IndexOf(c, blocks, blockSize)
  }

  /** The data with one more record behind them. */
  function MoreData(c: Codec, blocks: seq<Bytes>, block: Bytes): Bytes {
    DataOf(c, blocks) + c.Record(block)
  }

  /** The index, if the end was met before: an entry for the record to be written, and one for what follows it. */
  function MoreIndex(c: Codec, blocks: seq<Bytes>, block: Bytes, blockSize: nat): Bytes {
    IndexOf(c, blocks, blockSize) + BigEndian(|DataOf(c, blocks)|, 8)
    + if |block| == blockSize then BigEndian(|MoreData(c, blocks, block)|, 8) else []
  }

  /**
   A block appended where a read met the end, without a seek, brings a second entry for its place into the index:
   the two files stand for a list of blocks exactly if nothing was stored before.
   */
  lemma AppendExact(c: Codec, blocks: seq<Bytes>, block: Bytes, blockSize: nat)
    requires c.Sound(blockSize) && Blocks(blocks, blockSize) && 1 <= |block| <= blockSize
    ensures IsCompressed(c, blockSize, MoreData(c, blocks, block), MoreIndex(c, blocks, block, blockSize))
       <==> blocks == []
  {
    hide Codec.Sound, MoreData, MoreIndex;
    if blocks == [] {
      FirstBlock(c, block, blockSize);
    } else {
      forall after: seq<Bytes> | Blocks(after, blockSize) && MoreData(c, blocks, block) == DataOf(c, after)
        ensures MoreIndex(c, blocks, block, blockSize) != IndexOf(c, after, blockSize)
      {
        MoreBlocks(c, blocks, block, after, blockSize);
      }
    }
  }

  lemma FirstBlock(c: Codec, block: Bytes, blockSize: nat)
    requires 1 <= |block| <= blockSize
    ensures Blocks([block], blockSize) && MoreData(c, [], block) == DataOf(c, [block])
    ensures MoreIndex(c, [], block, blockSize) == IndexOf(c, [block], blockSize)
  {
    hide BigEndian, Codec.Record;
    assert [block][..0] == [] && [block][..1] == [block];
    OneRecord(c, block);
    NothingStored(c);
    assert Entries(c, [block], 0) == [];
    assert Entries(c, [block], 1) == BigEndian(0, 8);
    assert Entries(c, [block], 2) == BigEndian(0, 8) + BigEndian(|DataOf(c, [block])|, 8);
  }

  /** The data tell which blocks there would be, and the index has an entry too many for them. */
  lemma MoreBlocks(c: Codec, blocks: seq<Bytes>, block: Bytes, after: seq<Bytes>, blockSize: nat)
    requires c.Sound(blockSize) && Blocks(blocks, blockSize) && 1 <= |block| <= blockSize && blocks != []
    requires Blocks(after, blockSize) && MoreData(c, blocks, block) == DataOf(c, after)
    ensures |MoreIndex(c, blocks, block, blockSize)| == |IndexOf(c, after, blockSize)| + 8
  {
    hide Codec.Sound, DataOf, Codec.Record, BigEndian, Entries;
    var more := blocks + [block];
    LastRecord(c, blocks, block);
    DataInjective(c, more, after, blockSize);
    assert forall i :: 0 <= i < |blocks| ==> |more[i]| == blockSize by {
      assert after == more;
    }
    assert blocks[|blocks| - 1] == more[|blocks| - 1];
  }

  lemma LastRecord(c: Codec, blocks: seq<Bytes>, block: Bytes)
    ensures DataOf(c, blocks + [block]) == MoreData(c, blocks, block)
  {
    assert (blocks + [block])[..|blocks|] == blocks;
  }

  /** The data start with the first record. */
  lemma {:induction false} FirstRecord(c: Codec, blocks: seq<Bytes>)
    requires blocks != []
    ensures DataOf(c, blocks) == c.Record(blocks[0]) + DataOf(c, blocks[1..])
  {
    hide Codec.Record;
    var n := |blocks| - 1;
    if n == 0 {
      OneRecord(c, blocks[0]);
      NothingStored(c);
      assert blocks == [blocks[0]] && blocks[1..] == [];
    } else {
      FirstRecord(c, blocks[..n]);
      assert blocks[..n][1..] == blocks[1..][..n - 1];
      assert DataOf(c, blocks[1..]) == DataOf(c, blocks[1..][..n - 1]) + c.Record(blocks[n]);
    }
  }

  /** The data tell the blocks. */
  lemma {:induction false} DataInjective(c: Codec, a: seq<Bytes>, b: seq<Bytes>, blockSize: nat)
    requires c.Sound(blockSize) && DataOf(c, a) == DataOf(c, b)
    requires forall i :: 0 <= i < |a| ==> 1 <= |a[i]| <= blockSize
    requires forall i :: 0 <= i < |b| ==> 1 <= |b[i]| <= blockSize
    ensures a == b
    decreases |a|
  {
    hide Codec.Sound, DataOf, Codec.Record;
    NothingStored(c);
    if a != [] {
      FirstRecord(c, a);
      RecordSizes(c, a[0]);
    }
    if b != [] {
      FirstRecord(c, b);
      RecordSizes(c, b[0]);
    }
    if a != [] && b != [] {
      RecordTells(c, a[0], DataOf(c, a[1..]), b[0], DataOf(c, b[1..]), blockSize);
      DataInjective(c, a[1..], b[1..], blockSize);
      assert a == [a[0]] + a[1..] && b == [b[0]] + b[1..];
    }
  }

  lemma RecordTells(c: Codec, x: Bytes, more: Bytes, y: Bytes, other: Bytes, blockSize: nat)
    requires c.Sound(blockSize) && 1 <= |x| <= blockSize && 1 <= |y| <= blockSize
    requires c.Record(x) + more == c.Record(y) + other
    ensures x == y && more == other
  {
    hide Codec.Sound, Framed;
    SoundAt(c, x, blockSize);
    SoundAt(c, y, blockSize);
    var stored := c.Record(x) + more;
    assert stored[0..|c.Record(x)|] == Framed(c.compress(x)) && stored[|c.Record(x)|..] == more;
    assert stored[0..|c.Record(y)|] == Framed(c.compress(y)) && stored[|c.Record(y)|..] == other;
    TakeApart(stored, 0, c.compress(x));
    TakeApart(stored, 0, c.compress(y));
  }

  /** The same of the filter: it reads at the end of the data, and takes the steps of a write from there. */
  method AppendAfterEnd(z: Lz4Compress, block: Bytes)
    requires z.AtRecord() && z.current >= z.FullBlocks() && 1 <= |block| <= z.blockSize
    modifies z.Repr()
    ensures z.Apart()
    ensures IsCompressed(z.codec, z.blockSize, z.data.Contents(), z.indexFile.Contents()) <==> old(z.blocks) == []
  {
    hide Codec.Sound, IsCompressed, DataOf, IndexOf, BigEndian, Overwrite, Codec.Record, Framed, Blocks;
    AppendAtHand(z, block);
    var _, _ := z.Read(z.blockSize);
    WriteSteps(z, block);
  }

  lemma AppendAtHand(z: Lz4Compress, block: Bytes)
    requires z.AtRecord() && 1 <= |block| <= z.blockSize
    ensures |z.codec.compress(block)| >= 1
    ensures
      var data, index := MoreData(z.codec, z.blocks, block), MoreIndex(z.codec, z.blocks, block, z.blockSize);
      IsCompressed(z.codec, z.blockSize, data, index) <==> z.blocks == []
  {
    hide Codec.Sound, IsCompressed, DataOf, IndexOf;
    SoundAt(z.codec, block, z.blockSize);
    AppendExact(z.codec, z.blocks, block, z.blockSize);
  }

  /** The steps that a write takes, wherever the filter stands. */
  method WriteSteps(z: Lz4Compress, block: Bytes)
    requires z.Spent() && z.previousRead && z.compressedPosition == z.data.Pos()
    requires |z.codec.compress(block)| >= 1
    modifies z.Repr()
    ensures z.Apart() && z.blocks == old(z.blocks)
    ensures z.data.Contents() == MoreData(z.codec, z.blocks, block)
    ensures z.indexFile.Contents() == MoreIndex(z.codec, z.blocks, block, z.blockSize)
  {
    hide Next.Valid, Next.Contents, Next.Files, Next.Clean, Next.Whole, Next.Elsewhere, Next.Pos, Next.Heads;
    hide Next.Repr, Next.Requests, Next.Cached, Next.EndedAfter, Next.EndExact, Next.Robust, Buffered.Valid;
    hide Agrees, InSync, AtEnd, DataOf, IndexOf, BigEndian, Overwrite, Codec.Record, Framed;
    assert allocated(z.data.Repr()) && allocated(z.data.Heads());
    assert allocated(z.indexFile.Repr()) && allocated(z.indexFile.Heads());
    StandsAtEnd(z, block);
    ghost var data, index := z.data.Contents(), z.indexFile.Contents();
    if z.previousRead {
      OverwriteTail(index, [], BigEndian(z.compressedPosition, 8));
      z.PutPosition();
    }
    z.previousRead := false;
    OverwriteTail(data, [], Framed(z.codec.compress(block)));
    z.PutData(z.codec.compress(block));
    if |block| == z.blockSize {
      OverwriteTail(z.indexFile.Contents(), [], BigEndian(z.compressedPosition, 8));
      z.PutPosition();
    }
  }

  lemma StandsAtEnd(z: Lz4Compress, block: Bytes)
    requires z.Spent()
    ensures z.Apart() && z.data.Contents() == DataOf(z.codec, z.blocks) && z.data.Pos() == |z.data.Contents()|
    ensures z.indexFile.Contents() == IndexOf(z.codec, z.blocks, z.blockSize)
    ensures z.indexFile.Pos() == |z.indexFile.Contents()|
    ensures z.codec.Record(block) == Framed(z.codec.compress(block))
  {
  }

  /** Reading to the end of a file of one full block, and appending to it, leaves two files that do not agree. */
  method AppendFails() returns (data: Bytes, index: Bytes)
    ensures !IsCompressed(ToyCodec(), 4, data, index)
  {
    hide IsCompressed, Codec.Sound, ToyCodec, Lz4Compress.AtRecord, Lz4Compress.Repr;
    var z := FullBlock();
    AppendAfterEnd(z, [5]);
    data := z.data.l.f.store.files[z.data.l.f.idx];
    index := z.indexFile.l.f.store.files[z.indexFile.l.f.idx];
  }

  /** A compressed file of one full block, as it is left when it has just been written. */
  method FullBlock() returns (z: Lz4Compress)
    ensures z.codec == ToyCodec() && z.blockSize == 4 && z.AtRecord() && z.current == z.FullBlocks() && z.blocks != []
    ensures z.data.Low? && z.data.l.Bottom? && z.indexFile.Low? && z.indexFile.l.Bottom?
    ensures forall o :: o in z.Repr() ==> fresh(o)
  {
    hide Codec.Sound, Codec.Record, ToyCodec, Lz4Compress.AtRecord, Lz4Compress.Spent, Lz4Compress.Valid;
    ToyCodecIsSound();
    ToyRecord();
    NothingStored(ToyCodec());
    z := EmptyFile();
    AtStart(z);
    assert [1, 2, 3, 4][..4] == [1, 2, 3, 4];
    var _ := z.Write([1, 2, 3, 4]);
  }

  method EmptyFile() returns (z: Lz4Compress)
    ensures z.codec == ToyCodec() && z.blockSize == 4 && z.AtRecord() && z.blocks == [] && z.current == 0
    ensures z.data.Low? && z.data.l.Bottom? && z.indexFile.Low? && z.indexFile.l.Bottom?
    ensures forall o :: o in z.Repr() ==> fresh(o)
  {
    hide Codec.Sound, ToyCodec, Lz4Compress.AtRecord, Lifecycles.Keeps, DataOf, IndexOf, InSync, Agrees;
    ToyCodecIsSound();
    var dataStore := new Storage();
    var indexStore := new Storage();
    z := Lifecycles.OpenCompressed(dataStore, indexStore, ToyCodec(), 4, []);
  }

  lemma ToyRecord()
    ensures |ToyCodec().Record([1, 2, 3, 4])| == 9
  {
    assert ToyCodec().compress([1, 2, 3, 4]) == [1] + [1, 2, 3, 4];
    RecordSizes(ToyCodec(), [1, 2, 3, 4]);
  }

  lemma AtStart(z: Lz4Compress)
    requires z.AtRecord() && z.blocks == [] && z.current == 0
    ensures z.compressedPosition == 0 && z.FullBlocks() == 0
  {
  }
}
