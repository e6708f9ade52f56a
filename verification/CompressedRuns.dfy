/** Runs of requests on a compressed file: it answers as a list of blocks does. */
module CompressedRuns {
  import opened Sizes
  import opened CompressedRecords
  import opened Files
  import opened Pipelines
  import opened Lz4Files

  datatype BlockRequest = ReadBlock | AppendBlock(data: Bytes) | SeekBlock(recordNr: nat) | SeekLastBlock

  datatype BlockAnswer = Block(block: Bytes, e: Error) | Taken(n: nat) | Reached(position: nat)

  /** A list of blocks, and the block at hand. At the end, once it has been met or made, only a seek leads on. */
  datatype BlockFile = BlockFile(blocks: seq<Bytes>, current: nat, spent: bool)

  function Length(blocks: seq<Bytes>, blockSize: nat): nat {
    var full := FullCount(blocks, blockSize);
    full * blockSize + if |blocks| > full then |blocks[full]| else 0
  }

  /** What one request does to the list of blocks, and its answer. */
  function ServeBlock(f: BlockFile, r: BlockRequest, blockSize: nat): (BlockFile, BlockAnswer) {
    match r
    case ReadBlock =>
      if f.spent || f.current >= |f.blocks| then (f.(spent := true), Block([], EOF))
      else (f.(current := f.current + 1, spent := f.current >= FullCount(f.blocks, blockSize)),
            Block(f.blocks[f.current], OK))
    case AppendBlock(data) =>
      if f.current > |f.blocks| then (f, Taken(0))
      else
        var n := Min(|data|, blockSize);
        (BlockFile(f.blocks[..f.current] + [data[..n]], f.current + 1, n < blockSize), Taken(n))
    case SeekBlock(recordNr) => (f.(current := recordNr, spent := false), Reached(recordNr * blockSize))
    case SeekLastBlock =>
      (f.(current := FullCount(f.blocks, blockSize), spent := false), Reached(Length(f.blocks, blockSize)))
  }

  /**
   Whether a request can be made. Blocks are appended behind the full ones, where the filter stands, and the last,
   short one may be written over by one that is not stored in fewer bytes. Sizes have 64 bits.
   */
  ghost predicate LegalBlock(f: BlockFile, r: BlockRequest, c: Codec, blockSize: nat) {
    match r
    case ReadBlock => true
    case AppendBlock(data) =>
      && !f.spent && f.current == FullCount(f.blocks, blockSize) <= |f.blocks| && |data| > 0
      && var record := c.Record(data[..Min(|data|, blockSize)]);
      && (|f.blocks| > f.current ==> |record| >= |c.Record(f.blocks[f.current])|)
      && Offset(c, f.blocks, f.current) + |record| < TWO_TO_THE_64
    case SeekBlock(recordNr) => recordNr <= FullCount(f.blocks, blockSize)
    case SeekLastBlock => true
  }

  ghost predicate LegalBlocks(f: BlockFile, rs: seq<BlockRequest>, c: Codec, blockSize: nat)
    decreases |rs|
  {
    rs == [] || (LegalBlock(f, rs[0], c, blockSize)
                 && LegalBlocks(ServeBlock(f, rs[0], blockSize).0, rs[1..], c, blockSize))
  }

  /** The list of blocks after all the requests, and their answers. */
  ghost function BlockRun(f: BlockFile, rs: seq<BlockRequest>, blockSize: nat): (BlockFile, seq<BlockAnswer>)
    decreases |rs|
  {
    if rs == [] then (f, [])
    else
      var (g, a) := ServeBlock(f, rs[0], blockSize);
      var (h, more) := BlockRun(g, rs[1..], blockSize);
      (h, [a] + more)
  }

  lemma Regroup(a: seq<BlockAnswer>, b: seq<BlockAnswer>, c: seq<BlockAnswer>)
    ensures a + (b + c) == (a + b) + c
  {
  }

  lemma {:induction false} RunSplits(f: BlockFile, rs: seq<BlockRequest>, blockSize: nat, i: nat)
    requires i <= |rs|
    ensures
      var (g, first) := BlockRun(f, rs[..i], blockSize);
      && |first| == i
      && BlockRun(f, rs, blockSize) == var (h, more) := BlockRun(g, rs[i..], blockSize); (h, first + more)
    decreases i
  {
    hide ServeBlock;
    if i == 0 {
      assert rs[..0] == [] && rs[0..] == rs && [] + BlockRun(f, rs, blockSize).1 == BlockRun(f, rs, blockSize).1;
    } else {
      assert rs[..i][0] == rs[0] && rs[..i][1..] == rs[1..][..i - 1] && rs[1..][i - 1..] == rs[i..];
      var (g, a) := ServeBlock(f, rs[0], blockSize);
      RunSplits(g, rs[1..], blockSize, i - 1);
      Regroup([a], BlockRun(g, rs[1..][..i - 1], blockSize).1,
              BlockRun(BlockRun(f, rs[..i], blockSize).0, rs[i..], blockSize).1);
    }
  }

  /** The list of blocks before request `i` of a run. */
  ghost function FileAt(f: BlockFile, rs: seq<BlockRequest>, blockSize: nat, i: nat): BlockFile
    requires i <= |rs|
  {
    BlockRun(f, rs[..i], blockSize).0
  }

  lemma FileSteps(f: BlockFile, rs: seq<BlockRequest>, blockSize: nat, i: nat)
    requires i < |rs|
    ensures FileAt(f, rs, blockSize, 0) == f && FileAt(f, rs, blockSize, |rs|) == BlockRun(f, rs, blockSize).0
    ensures |BlockRun(f, rs, blockSize).1| == |rs|
    ensures (FileAt(f, rs, blockSize, i + 1), BlockRun(f, rs, blockSize).1[i])
         == ServeBlock(FileAt(f, rs, blockSize, i), rs[i], blockSize)
  {
    hide ServeBlock;
    RunSplits(f, rs, blockSize, |rs|);
    assert rs[..|rs|] == rs && rs[..0] == [];
    RunSplits(f, rs, blockSize, i + 1);
    RunSplits(f, rs[..i + 1], blockSize, i);
    assert rs[..i + 1][..i] == rs[..i] && rs[..i + 1][i..] == [rs[i]] && [rs[i]][1..] == [];
  }

  /** Whatever legal requests come, there is a list of blocks, none but the last short, and the filter is inside it. */
  lemma {:induction false} StaysBlocks(f: BlockFile, rs: seq<BlockRequest>, c: Codec, blockSize: nat, i: nat)
    requires i <= |rs| && Blocks(f.blocks, blockSize) && f.current <= |f.blocks| && LegalBlocks(f, rs, c, blockSize)
    requires blockSize >= 1
    ensures
      var g := FileAt(f, rs, blockSize, i);
      && Blocks(g.blocks, blockSize) && g.current <= |g.blocks|
      && (i < |rs| ==> LegalBlock(g, rs[i], c, blockSize))
    decreases i
  {
    hide Codec.Record, Offset;
    if i > 0 {
      var g := ServeBlock(f, rs[0], blockSize).0;
      FullAreFull(f.blocks, blockSize);
      if rs[0].AppendBlock? {
        AppendEntry(c, f.blocks, f.current, rs[0].data[..Min(|rs[0].data|, blockSize)], blockSize);
      }
      StaysBlocks(g, rs[1..], c, blockSize, i - 1);
      assert rs[..i][0] == rs[0] && rs[..i][1..] == rs[1..][..i - 1];
    }
  }

  /** Where block `i` starts in the file that the blocks make up. */
  function Start(i: nat, blockSize: nat): nat {
    i * blockSize
  }

  /** Block `i` is what the file has there: a full block, or a shorter one at its end. */
  lemma BlockStands(blocks: seq<Bytes>, blockSize: nat, i: nat)
    requires Blocks(blocks, blockSize) && i < |blocks|
    ensures
      var p, file, block := Start(i, blockSize), Joined(blocks), blocks[i];
      && 1 <= |block| <= blockSize && p + |block| <= |file| && block == file[p..p + |block|]
      && (|block| < blockSize <==> i >= FullCount(blocks, blockSize))
      && (|block| < blockSize ==> p + |block| == |file|)
  {
    FullAreFull(blocks, blockSize);
    BlockAt(blocks, blockSize, i);
    JoinedLength(blocks, blockSize);
  }

  /** A read in a run: the block of the file where the filter stands, or the end of the file. */
  lemma ReadAnswer(f: BlockFile, rs: seq<BlockRequest>, c: Codec, blockSize: nat, i: nat)
    requires i < |rs| && Blocks(f.blocks, blockSize) && f.current <= |f.blocks| && LegalBlocks(f, rs, c, blockSize)
    requires blockSize >= 1 && rs[i].ReadBlock?
    ensures i < |BlockRun(f, rs, blockSize).1|
    ensures
      var now, next, a := FileAt(f, rs, blockSize, i), FileAt(f, rs, blockSize, i + 1), BlockRun(f, rs, blockSize).1[i];
      var p, file := Start(now.current, blockSize), Joined(now.blocks);
      && next.blocks == now.blocks
      && if now.spent || now.current == |now.blocks| then
           a == Block([], EOF) && next.current == now.current && next.spent
         else
           && a.Block? && a.e == OK && p + |a.block| <= |file| && a.block == file[p..p + |a.block|]
           && 1 <= |a.block| <= blockSize && (|a.block| < blockSize ==> p + |a.block| == |file|)
           && next.current == now.current + 1 && (next.spent <==> |a.block| < blockSize)
  {
    hide BlockRun, FileAt, Start;
    FileSteps(f, rs, blockSize, i);
    StaysBlocks(f, rs, c, blockSize, i);
    var now := FileAt(f, rs, blockSize, i);
    if now.current < |now.blocks| {
      BlockStands(now.blocks, blockSize, now.current);
    }
  }

  /** An append in a run: as much as one block holds goes where the full blocks end, over what is there. */
  lemma AppendAnswer(f: BlockFile, rs: seq<BlockRequest>, c: Codec, blockSize: nat, i: nat)
    requires i < |rs| && Blocks(f.blocks, blockSize) && f.current <= |f.blocks| && LegalBlocks(f, rs, c, blockSize)
    requires blockSize >= 1 && rs[i].AppendBlock?
    ensures i < |BlockRun(f, rs, blockSize).1|
    ensures
      var now, next, a := FileAt(f, rs, blockSize, i), FileAt(f, rs, blockSize, i + 1), BlockRun(f, rs, blockSize).1[i];
      var p, file, n := Start(now.current, blockSize), Joined(now.blocks), Min(|rs[i].data|, blockSize);
      && a == Taken(n) && p <= |file| < p + blockSize && Joined(next.blocks) == file[..p] + rs[i].data[..n]
      && next.current == now.current + 1 && (next.spent <==> n < blockSize)
  {
    hide BlockRun, FileAt, Joined;
    FileSteps(f, rs, blockSize, i);
    StaysBlocks(f, rs, c, blockSize, i);
    var now := FileAt(f, rs, blockSize, i);
    JoinedAppend(now.blocks, blockSize, rs[i].data[..Min(|rs[i].data|, blockSize)]);
  }

  /** A seek in a run: to the start of a block, or to the last one that is not full, with the length of the file. */
  lemma SeekAnswer(f: BlockFile, rs: seq<BlockRequest>, c: Codec, blockSize: nat, i: nat)
    requires i < |rs| && Blocks(f.blocks, blockSize) && f.current <= |f.blocks| && LegalBlocks(f, rs, c, blockSize)
    requires blockSize >= 1 && (rs[i].SeekBlock? || rs[i].SeekLastBlock?)
    ensures i < |BlockRun(f, rs, blockSize).1|
    ensures
      var now, next, a := FileAt(f, rs, blockSize, i), FileAt(f, rs, blockSize, i + 1), BlockRun(f, rs, blockSize).1[i];
      var file := Joined(now.blocks);
      && next.blocks == now.blocks && !next.spent && Start(next.current, blockSize) <= |file|
      && (rs[i].SeekBlock? ==> next.current == rs[i].recordNr && a == Reached(Start(next.current, blockSize)))
      && (rs[i].SeekLastBlock? ==> |file| < Start(next.current, blockSize) + blockSize && a == Reached(|file|))
  {
    hide BlockRun, FileAt, Joined;
    FileSteps(f, rs, blockSize, i);
    StaysBlocks(f, rs, c, blockSize, i);
    var now := FileAt(f, rs, blockSize, i);
    FullAreFull(now.blocks, blockSize);
    JoinedLength(now.blocks, blockSize);
    if rs[i].SeekBlock? {
      ProductGrows(rs[i].recordNr, FullCount(now.blocks, blockSize), blockSize);
    }
  }

  /** The filter stands where the list of blocks says. */
  ghost predicate Stands(z: Lz4Compress, f: BlockFile)
    reads z, z.data.Heads(), z.data.Repr(), z.indexFile.Heads(), z.indexFile.Repr()
  {
    && z.Valid() && z.blocks == f.blocks && z.current == f.current
    && if f.spent then z.Spent() && f.current == |f.blocks| else z.AtRecord()
  }

  /** What standing there means for the list of blocks. */
  lemma StandsInside(z: Lz4Compress, f: BlockFile)
    requires Stands(z, f)
    ensures z.blockSize >= 1 && f.current <= |f.blocks| && z.FullBlocks() <= |f.blocks| <= z.FullBlocks() + 1
    ensures !f.spent ==> f.current <= z.FullBlocks()
    ensures
      |Joined(z.blocks)|
      == z.FullBlocks() * z.blockSize + if |z.blocks| > z.FullBlocks() then |z.blocks[z.FullBlocks()]| else 0
    ensures z.AtRecord() ==> z.compressedPosition == Offset(z.codec, z.blocks, z.current)
  {
    z.BlockCounts();
    JoinedLength(z.blocks, z.blockSize);
  }

  /** One request. */
  method SubmitBlock(z: Lz4Compress, r: BlockRequest, ghost f: BlockFile) returns (a: BlockAnswer)
    requires Stands(z, f) && LegalBlock(f, r, z.codec, z.blockSize)
    modifies z.Repr()
    ensures forall o :: o in z.Repr() ==> o in old(z.Repr()) || fresh(o)
    ensures Stands(z, ServeBlock(f, r, z.blockSize).0) && a == ServeBlock(f, r, z.blockSize).1
    ensures !r.AppendBlock? ==> z.blocks == old(z.blocks)
    ensures r.ReadBlock? ==>
      if old(z.current) < |z.blocks| then a == Block(z.blocks[old(z.current)], OK) && z.current == old(z.current) + 1
      else a == Block([], EOF) && z.current == old(z.current)
    ensures r.AppendBlock? ==>
      && z.current == old(z.current) + 1 && |z.blocks| == z.current <= |old(z.blocks)| + 1
      && z.blocks[..old(z.current)] == old(z.blocks)[..old(z.current)]
      && z.blocks[old(z.current)] == r.data[..Min(|r.data|, z.blockSize)]
      && a == Taken(|z.blocks[old(z.current)]|)
    ensures r.SeekBlock? ==> a == Reached(r.recordNr * z.blockSize) && z.current == r.recordNr
    ensures r.SeekLastBlock? ==> a == Reached(|Joined(z.blocks)|) && z.current == z.FullBlocks()
  {
    hide Lz4Compress.Valid, Lz4Compress.AtRecord, Lz4Compress.Spent, Lz4Compress.Repr, Codec.Record, Offset;
    hide Joined, FullCount;
    StandsInside(z, f);
    match r
    case ReadBlock =>
      var block, e := z.Read(z.blockSize);
      a := Block(block, e);
    case AppendBlock(data) =>
      var n := z.Write(data);
      a := Taken(n);
    case SeekBlock(recordNr) =>
      MultipleMod(recordNr, z.blockSize);
      ProductGrows(recordNr, z.FullBlocks(), z.blockSize);
      var position, _ := z.Seek(recordNr * z.blockSize);
      a := Reached(position);
    case SeekLastBlock =>
      var position, _ := z.Seek(FILE_END_POSITION);
      a := Reached(position);
  }

  /**
   Any legal run of reads, seeks to blocks and to the end, and appends gives the answers of the list of blocks,
   and leaves the two files standing for it.
   */
  method RunBlocks(z: Lz4Compress, rs: seq<BlockRequest>, ghost f: BlockFile) returns (answers: seq<BlockAnswer>)
    requires Stands(z, f) && LegalBlocks(f, rs, z.codec, z.blockSize)
    modifies z.Repr()
    ensures forall o :: o in z.Repr() ==> o in old(z.Repr()) || fresh(o)
    ensures Stands(z, BlockRun(f, rs, z.blockSize).0) && answers == BlockRun(f, rs, z.blockSize).1
  {
    hide Stands, LegalBlock, ServeBlock, Lz4Compress.Repr;
    answers := [];
    ghost var g := f;
    assert rs[0..] == rs && answers + BlockRun(f, rs, z.blockSize).1 == BlockRun(f, rs, z.blockSize).1;
    for i := 0 to |rs|
      invariant Stands(z, g) && LegalBlocks(g, rs[i..], z.codec, z.blockSize)
      invariant forall o :: o in z.Repr() ==> o in old(z.Repr()) || fresh(o)
      invariant BlockRun(f, rs, z.blockSize) == var (h, more) := BlockRun(g, rs[i..], z.blockSize); (h, answers + more)
    {
      assert rs[i..][0] == rs[i] && rs[i..][1..] == rs[i + 1..];
      var a := SubmitBlock(z, rs[i], g);
      g := ServeBlock(g, rs[i], z.blockSize).0;
      Regroup(answers, [a], BlockRun(g, rs[i + 1..], z.blockSize).1);
      answers := answers + [a];
    }
    assert rs[|rs|..] == [] && answers + [] == answers;
  }
}
