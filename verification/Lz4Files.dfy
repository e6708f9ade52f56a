/** The compression filter: variable-size records, and an index written on the fly to find them again. */
module Lz4Files {
  import opened Sizes
  import opened FlatFiles
  import opened Nonces
  import opened Files
  import opened Pipelines
  import opened Framing
  import opened CompressedRecords

  class Lz4Compress {
    const data: Next
    const indexFile: Next
    const codec: Codec
    const blockSize: nat
    const compressedSize: nat
    var compressedPosition: nat
    var previousRead: bool
    /** The blocks that the records stand for, and the number of the record where the filter stands. */
    ghost var blocks: seq<Bytes>
    ghost var current: nat

    ghost function Repr(): set<object>
      reads data.Heads(), indexFile.Heads()
    {
      {this} + data.Repr() + indexFile.Repr()
    }

    /** The two files are byte streams that share nothing. */
    ghost predicate Apart()
      reads data.Heads(), data.Repr(), indexFile.Heads(), indexFile.Repr()
    {
      && data.Robust() && indexFile.Robust() && data.Valid() && indexFile.Valid()
      && data.Repr() !! indexFile.Repr() && this !in data.Repr() && this !in indexFile.Repr()
      && compressedSize == codec.bound(blockSize)
    }

    ghost function State(): FilterState
      requires Apart()
      reads this, data.Heads(), data.Repr(), indexFile.Heads(), indexFile.Repr()
    {
      FilterState(codec, blockSize, blocks, data.Contents(), data.Pos(), indexFile.Contents(), indexFile.Pos(),
                  compressedPosition, previousRead, current)
    }

    ghost predicate Valid()
      reads this, data.Heads(), data.Repr(), indexFile.Heads(), indexFile.Repr()
    {
      Apart() && Agrees(State())
    }

    /** At record `current`, ready to read it, or to write it if it is the last. */
    ghost predicate AtRecord()
      reads this, data.Heads(), data.Repr(), indexFile.Heads(), indexFile.Repr()
      ensures AtRecord() ==> Valid()
    {
      Apart() && InSync(State())
    }

    /** At the end: only a seek leads on. */
    ghost predicate Spent()
      reads this, data.Heads(), data.Repr(), indexFile.Heads(), indexFile.Repr()
      ensures Spent() ==> Valid()
    {
      Apart() && AtEnd(State())
    }

    ghost function FullBlocks(): nat
      reads this
    {
      FullCount(blocks, blockSize)
    }

    lemma BlockCounts()
      requires Valid()
      ensures blockSize >= 1 && FullBlocks() <= |blocks| <= FullBlocks() + 1
    {
      IndexCounts(State());
    }

    /** On a new pair of files, or on one that was written before. */
    constructor Open(data: Next, indexFile: Next, codec: Codec, blockSize: nat, ghost blocks: seq<Bytes>)
      requires data.Robust() && indexFile.Robust() && data.Valid() && indexFile.Valid()
      requires data.Repr() !! indexFile.Repr()
      requires codec.Sound(blockSize) && Blocks(blocks, blockSize)
      requires data.Contents() == DataOf(codec, blocks) && |DataOf(codec, blocks)| < TWO_TO_THE_64
      requires indexFile.Contents() == IndexOf(codec, blocks, blockSize)
      requires data.Pos() == 0 && indexFile.Pos() == 0
      ensures AtRecord() && current == 0 && previousRead && this.blocks == blocks
      ensures this.data == data && this.indexFile == indexFile && this.codec == codec && this.blockSize == blockSize
      ensures fresh(this)
    {
      hide Next.Valid, Next.Contents, Next.Files, Next.Clean, Next.Whole, Next.Elsewhere, Next.Pos, Next.Heads;
      hide Next.Repr, Next.Requests, Next.Cached, Next.EndedAfter, Next.EndExact, Buffered.Valid;
      hide InSync, Agrees, IndexOf, DataOf, Blocks, Codec.Sound, Next.Robust;
      assert allocated(data.Repr()) && allocated(data.Heads());
      assert allocated(indexFile.Repr()) && allocated(indexFile.Heads());
      StartsInSync(codec, blocks, blockSize);
      this.data, this.indexFile, this.codec, this.blockSize := data, indexFile, codec, blockSize;
      compressedSize := codec.bound(blockSize);
      compressedPosition, previousRead := 0, true;
      this.blocks, current := blocks, 0;
    }

    /** The index entry of the record to be read, if the index lags behind the data. */
    method SkipIndexEntry() returns (e: Error)
      requires Apart() && indexFile.Pos() <= |indexFile.Contents()|
      modifies indexFile.Repr()
      ensures Apart()
      ensures forall o :: o in indexFile.Repr() ==> o in old(indexFile.Repr()) || fresh(o)
      ensures State() == old(State()).(indexPos := indexFile.Pos())
      ensures if previousRead then indexFile.Pos() == Min(old(indexFile.Pos()) + 8, |indexFile.Contents()|)
              else indexFile.Pos() == old(indexFile.Pos())
      ensures !previousRead ==> e == OK
      ensures previousRead && indexFile.Pos() == old(indexFile.Pos()) + 8 ==> e == OK
      ensures previousRead && indexFile.Pos() == old(indexFile.Pos()) ==> e == EOF
    {
      hide Next.Valid, Next.Contents, Next.Files, Next.Clean, Next.Whole, Next.Elsewhere, Next.Pos, Next.Heads;
      hide Next.Repr, Next.Requests, Next.Cached, Next.EndedAfter, Next.EndExact, Buffered.Valid;
      hide Agrees, InSync, AtEnd;
      assert allocated(data.Repr()) && allocated(data.Heads());
      assert allocated(indexFile.Repr()) && allocated(indexFile.Heads());
      e := OK;
      if previousRead {
        var _, e1 := FileGet(indexFile, 8, OK);
        e := e1;
      }
    }

    /** Reads one record. */
    method Read(size: nat) returns (block: Bytes, e: Error)
      requires (AtRecord() || Spent()) && size >= blockSize
      modifies Repr()
      ensures Valid() && blocks == old(blocks) && previousRead
      ensures data.Contents() == old(data.Contents()) && indexFile.Contents() == old(indexFile.Contents())
      ensures forall o :: o in Repr() ==> o in old(Repr()) || fresh(o)
      ensures old(AtRecord()) && old(current) < |blocks| ==>
        e == OK && block == blocks[old(current)] && current == old(current) + 1
      ensures old(AtRecord()) && old(current) < FullBlocks() ==> AtRecord()
      ensures old(AtRecord()) && old(current) >= FullBlocks() ==> Spent()
      ensures old(AtRecord()) && FullBlocks() <= old(current) < |blocks| ==> !AtRecord()
      ensures old(AtRecord()) && old(current) == |blocks| ==> e == EOF && block == []
      ensures !old(AtRecord()) ==> e == EOF && block == [] && Spent()
      ensures e == EOF ==> current == old(current)
      ensures old(AtRecord()) ==> compressedPosition == data.Pos()
    {
      hide Next.Valid, Next.Contents, Next.Files, Next.Clean, Next.Whole, Next.Elsewhere, Next.Pos, Next.Heads;
      hide Next.Repr, Next.Requests, Next.Cached, Next.EndedAfter, Next.EndExact, Buffered.Valid;
      hide Agrees, InSync, AtEnd, DataOf, Entries, IndexOf, FromBigEndian, Codec.Sound;
      assert allocated(data.Repr()) && allocated(data.Heads());
      assert allocated(indexFile.Repr()) && allocated(indexFile.Heads());
      ghost var s := State();
      InSyncInRange(s);
      if InSync(s) && current < |blocks| {
        ReadFindsData(s);
        ReadKeeps(s);
      } else {
        ReadEnds(s);
      }
      var compressed;
      compressed, e := FetchRecord();
      if e != OK {
        return [], e;
      }
      compressedPosition := compressedPosition + |compressed| + 4;
      current := current + 1;
      assert State() == AfterRecord(s);
      NotPastShort(State());
      block := codec.decompress(compressed);
      if |block| > Min(size, blockSize) {
        return [], Failure("lz4 unable to decompress a buffer");
      }
    }

    /** Reads a record as it is stored, after its index entry if the index lags behind. */
    method FetchRecord() returns (compressed: Bytes, e: Error)
      requires AtRecord() || Spent()
      modifies data.Repr(), indexFile.Repr(), this`previousRead
      ensures Apart()
      ensures forall o :: o in Repr() ==> o in old(Repr()) || fresh(o)
      ensures
        if old(AtRecord()) && current < |blocks| then
          && e == OK && compressed == codec.compress(blocks[current])
          && State() == AfterRecord(old(State())).(compressedPosition := compressedPosition, current := current)
        else
          e == EOF && compressed == [] && State() == AfterEnd(old(State()))
    {
      hide Next.Valid, Next.Contents, Next.Files, Next.Clean, Next.Whole, Next.Elsewhere, Next.Pos, Next.Heads;
      hide Next.Repr, Next.Requests, Next.Cached, Next.EndedAfter, Next.EndExact, Buffered.Valid;
      hide Agrees, InSync, AtEnd, DataOf, Entries, IndexOf, FromBigEndian, Codec.Sound, FullCount;
      assert allocated(data.Repr()) && allocated(data.Heads());
      assert allocated(indexFile.Repr()) && allocated(indexFile.Heads());
      ghost var s := State();
      ghost var found := InSync(s) && current < |blocks|;
      InSyncInRange(s);
      if found {
        ReadFindsIndex(s);
        ReadFindsData(s);
      } else {
        ReadEnds(s);
      }
      e := SkipIndexEntry();
      previousRead := true;
      assert allocated(data.Repr()) && allocated(data.Heads());
      assert allocated(indexFile.Repr()) && allocated(indexFile.Heads());
      compressed, e := ReadSized(data, compressedSize, e);
      assert found ==> e == OK && compressed == codec.compress(blocks[current]);
      assert !found ==> e == EOF && State() == AfterEnd(s);
    }

    /** Brings the index up to the record to be written, if it lags behind the data. */
    method PutIndexEntry()
      requires AtRecord() && current == FullBlocks()
      modifies indexFile.Repr(), this`previousRead
      ensures Apart() && !previousRead
      ensures forall o :: o in indexFile.Repr() ==> o in old(indexFile.Repr()) || fresh(o)
      ensures State() == old(State()).(previousRead := false,
        index := Entries(codec, blocks, current + 1), indexPos := 8 * (current + 1))
    {
      hide Next.Valid, Next.Contents, Next.Files, Next.Clean, Next.Whole, Next.Elsewhere, Next.Pos, Next.Heads;
      hide Next.Repr, Next.Requests, Next.Cached, Next.EndedAfter, Next.EndExact, Buffered.Valid;
      hide Agrees, InSync, AtEnd, DataOf, Entries, IndexOf, BigEndian, Codec.Sound, FullCount, Overwrite;
      assert allocated(data.Repr()) && allocated(data.Heads());
      assert allocated(indexFile.Repr()) && allocated(indexFile.Heads());
      IndexSynchronized(State());
      if previousRead {
        PutPosition();
      }
      previousRead := false;
    }

    /**
     Writes one record at the end of the file, over the last short record if there is one. The new record
     must not be smaller than the one it replaces.
     */
    method Write(buf: Bytes) returns (n: nat)
      requires AtRecord() && current == FullBlocks() && |buf| > 0
      requires
        var record := codec.Record(buf[..Min(|buf|, blockSize)]);
        && (|blocks| > current ==> |record| >= |codec.Record(blocks[current])|)
        && compressedPosition + |record| < TWO_TO_THE_64
      modifies Repr()
      ensures n == Min(|buf|, blockSize)
      ensures Valid() && blocks == old(blocks[..current]) + [buf[..n]] && current == old(current) + 1
      ensures forall o :: o in Repr() ==> o in old(Repr()) || fresh(o)
      ensures if n == blockSize then AtRecord() && current == FullBlocks() else Spent()
    {
      hide Next.Valid, Next.Contents, Next.Files, Next.Clean, Next.Whole, Next.Elsewhere, Next.Pos, Next.Heads;
      hide Next.Repr, Next.Requests, Next.Cached, Next.EndedAfter, Next.EndExact, Buffered.Valid;
      hide Agrees, InSync, AtEnd;
      hide Codec.Record, DataOf, Entries;
      assert allocated(data.Repr()) && allocated(data.Heads());
      assert allocated(indexFile.Repr()) && allocated(indexFile.Heads());
      ghost var s, block := State(), buf[..Min(|buf|, blockSize)];
      BlockSizePositive(s);
      WriteKeeps(s, block);
      n := Min(|buf|, blockSize);
      PutIndexEntry();
      PutRecord(buf[..n], s);
    }

    /** The record itself, and the index entry of the next one if this one is full. */
    method PutRecord(block: Bytes, ghost s: FilterState)
      requires InSync(s) && s.current == FullCount(s.blocks, s.blockSize)
      requires 1 <= |block| <= s.blockSize
      requires |s.blocks| > s.current ==> |s.codec.Record(block)| >= |s.codec.Record(s.blocks[s.current])|
      requires s.compressedPosition + |s.codec.Record(block)| < TWO_TO_THE_64
      requires Apart()
      requires s.current <= |s.blocks| && State() == s.(previousRead := false,
        index := Entries(s.codec, s.blocks, s.current + 1), indexPos := 8 * (s.current + 1))
      modifies Repr()
      ensures Valid() && State() == AfterWrite(s, block)
      ensures forall o :: o in Repr() ==> o in old(Repr()) || fresh(o)
      ensures if |block| == blockSize then AtRecord() && current == FullBlocks() else Spent()
    {
      hide Next.Valid, Next.Contents, Next.Files, Next.Clean, Next.Whole, Next.Elsewhere, Next.Pos, Next.Heads;
      hide Next.Repr, Next.Requests, Next.Cached, Next.EndedAfter, Next.EndExact, Buffered.Valid;
      hide Agrees, InSync, AtEnd;
      hide DataOf, Entries, BigEndian, Overwrite, Framed, Codec.Sound, FullCount, IndexOf, Codec.Record;
      assert allocated(data.Repr()) && allocated(data.Heads());
      assert allocated(indexFile.Repr()) && allocated(indexFile.Heads());
      WriteKeeps(s, block);
      CompressesToSomething(s, block);
      PutData(codec.compress(block));
      PutNextEntry(|block| == blockSize);
      blocks, current := blocks[..current] + [block], current + 1;
      assert State() == AfterWrite(s, block);
      FullAfterWrite(s, block);
      InSyncInRange(State());
    }

    /** The index entry of the next record, at the end of the index, if there is to be one. */
    method PutNextEntry(full: bool)
      requires Apart() && indexFile.Pos() == |indexFile.Contents()|
      modifies indexFile.Repr()
      ensures Apart()
      ensures forall o :: o in indexFile.Repr() ==> o in old(indexFile.Repr()) || fresh(o)
      ensures State() == old(State()).(indexPos := old(indexFile.Pos()) + (if full then 8 else 0),
        index := old(indexFile.Contents()) + if full then BigEndian(compressedPosition, 8) else [])
    {
      hide Next.Valid, Next.Contents, Next.Files, Next.Clean, Next.Whole, Next.Elsewhere, Next.Pos, Next.Heads;
      hide Next.Repr, Next.Requests, Next.Cached, Next.EndedAfter, Next.EndExact, Buffered.Valid;
      hide BigEndian, Overwrite;
      assert allocated(data.Repr()) && allocated(data.Heads());
      assert allocated(indexFile.Repr()) && allocated(indexFile.Heads());
      OverwriteTail(indexFile.Contents(), [], BigEndian(compressedPosition, 8));
      if full {
        PutPosition();
      }
    }

    /** The position of a record, where the index stands. */
    method PutPosition()
      requires Apart() && indexFile.Pos() <= |indexFile.Contents()|
      modifies indexFile.Repr()
      ensures Apart()
      ensures forall o :: o in indexFile.Repr() ==> o in old(indexFile.Repr()) || fresh(o)
      ensures State() == old(State()).(indexPos := old(indexFile.Pos()) + 8,
        index := Overwrite(old(indexFile.Contents()), old(indexFile.Pos()), BigEndian(compressedPosition, 8)))
    {
      hide Next.Valid, Next.Contents, Next.Files, Next.Clean, Next.Whole, Next.Elsewhere, Next.Pos, Next.Heads;
      hide Next.Repr, Next.Requests, Next.Cached, Next.EndedAfter, Next.EndExact, Buffered.Valid;
      hide BigEndian, Overwrite;
      assert allocated(data.Repr()) && allocated(data.Heads());
      assert allocated(indexFile.Repr()) && allocated(indexFile.Heads());
      var _ := FilePut(indexFile, compressedPosition, 8, OK);
    }

    /** The compressed block with its size in front. */
    method PutData(compressed: Bytes)
      requires Apart() && data.Pos() <= |data.Contents()| && |compressed| > 0
      modifies data.Repr(), this`compressedPosition
      ensures Apart()
      ensures forall o :: o in Repr() ==> o in old(Repr()) || fresh(o)
      ensures data.Pos() == old(data.Pos()) + 4 + |compressed|
      ensures compressedPosition == old(compressedPosition) + |compressed| + 4
      ensures State() == old(State()).(compressedPosition := compressedPosition, dataPos := data.Pos(),
        data := Overwrite(old(data.Contents()), old(data.Pos()), Framed(compressed)))
    {
      hide Next.Valid, Next.Contents, Next.Files, Next.Clean, Next.Whole, Next.Elsewhere, Next.Pos, Next.Heads;
      hide Next.Repr, Next.Requests, Next.Cached, Next.EndedAfter, Next.EndExact, Buffered.Valid;
      hide Agrees, InSync, AtEnd, DataOf, Entries, BigEndian, Overwrite, Framed;
      assert allocated(data.Repr()) && allocated(data.Heads());
      assert allocated(indexFile.Repr()) && allocated(indexFile.Heads());
      var _ := WriteSized(data, compressed, OK);
      compressedPosition := compressedPosition + |compressed| + 4;
    }

    /** Seeks to a record boundary through the index, or finds the length of the file. */
    method Seek(position: int) returns (result: nat, e: Error)
      requires Valid()
      requires position == FILE_END_POSITION || 0 <= position <= FullBlocks() * blockSize
      modifies Repr()
      ensures Valid() && blocks == old(blocks)
      ensures data.Contents() == old(data.Contents()) && indexFile.Contents() == old(indexFile.Contents())
      ensures forall o :: o in Repr() ==> o in old(Repr()) || fresh(o)
      ensures position >= 0 ==> (e == OK <==> position % blockSize == 0)
      ensures position >= 0 && e == OK ==> AtRecord() && current == position / blockSize && result == position
      ensures position == FILE_END_POSITION ==>
        && e == OK && AtRecord() && current == FullBlocks()
        && result == FullBlocks() * blockSize + if |blocks| > FullBlocks() then |blocks[FullBlocks()]| else 0
    {
      hide Lz4Compress.Valid, Lz4Compress.AtRecord, Lz4Compress.Spent, Lz4Compress.Repr;
      BlockCounts();
      if position == FILE_END_POSITION {
        result, e := SeekLast();
      } else if position % blockSize != 0 {
        result, e := 0, Failure("l14 Compression - must seek to a block boundary");
      } else {
        BoundaryInRange(position, FullBlocks(), blockSize);
        SeekRecord(position / blockSize);
        result, e := position, OK;
      }
    }

    /** Takes the record's offset from the index and goes there. */
    method SeekRecord(recordNr: nat)
      requires Valid() && recordNr <= FullBlocks()
      modifies Repr()
      ensures AtRecord() && Valid() && current == recordNr && blocks == old(blocks)
      ensures data.Contents() == old(data.Contents()) && indexFile.Contents() == old(indexFile.Contents())
      ensures forall o :: o in Repr() ==> o in old(Repr()) || fresh(o)
    {
      hide Next.Valid, Next.Contents, Next.Files, Next.Clean, Next.Whole, Next.Elsewhere, Next.Pos, Next.Heads;
      hide Next.Repr, Next.Requests, Next.Cached, Next.EndedAfter, Next.EndExact, Buffered.Valid;
      hide Agrees, InSync, AtEnd;
      assert allocated(data.Repr()) && allocated(data.Heads());
      assert allocated(indexFile.Repr()) && allocated(indexFile.Heads());
      ghost var s := State();
      SeekKeeps(s, recordNr);
      FindRecord(recordNr);
      SeekData();
      current := recordNr;
      assert State() == AfterSeek(s, recordNr);
      InSyncInRange(State());
    }

    /** Positions the data where the record starts. */
    method SeekData()
      requires Apart() && compressedPosition <= |data.Contents()|
      modifies data.Repr()
      ensures Apart()
      ensures forall o :: o in Repr() ==> o in old(Repr()) || fresh(o)
      ensures State() == old(State()).(dataPos := compressedPosition)
    {
      hide Next.Valid, Next.Contents, Next.Files, Next.Clean, Next.Whole, Next.Elsewhere, Next.Pos, Next.Heads;
      hide Next.Repr, Next.Requests, Next.Cached, Next.EndedAfter, Next.EndExact, Buffered.Valid;
      assert allocated(data.Repr()) && allocated(data.Heads());
      assert allocated(indexFile.Repr()) && allocated(indexFile.Heads());
      data.RobustReady(0);
      data.Seek(compressedPosition);
    }

    /** The index part of a seek. */
    method FindRecord(recordNr: nat)
      requires Valid() && recordNr <= FullBlocks()
      modifies indexFile.Repr(), this`compressedPosition, this`previousRead
      ensures Apart() && recordNr <= |blocks|
      ensures forall o :: o in indexFile.Repr() ==> o in old(indexFile.Repr()) || fresh(o)
      ensures State() == AfterSeek(old(State()), recordNr).(current := current, dataPos := old(State()).dataPos)
    {
      hide Next.Valid, Next.Contents, Next.Files, Next.Clean, Next.Whole, Next.Elsewhere, Next.Pos, Next.Heads;
      hide Next.Repr, Next.Requests, Next.Cached, Next.EndedAfter, Next.EndExact, Buffered.Valid;
      hide Agrees, InSync, AtEnd, DataOf, Entries, IndexOf, FromBigEndian, Codec.Sound, FullCount;
      assert allocated(data.Repr()) && allocated(data.Heads());
      assert allocated(indexFile.Repr()) && allocated(indexFile.Heads());
      ghost var s := State();
      SeekKeeps(s, recordNr);
      var e;
      compressedPosition, e := GetPosition(recordNr);
      previousRead := false;
      if e == EOF && recordNr == 0 {
        // A new file: there is no index entry yet.
        previousRead := true;
        compressedPosition := 0;
      }
    }

    /** The position of a record, from the index; the end of the file in a new one. */
    method GetPosition(recordNr: nat) returns (position: nat, e: Error)
      requires Apart() && recordNr * 8 <= |indexFile.Contents()|
      modifies indexFile.Repr()
      ensures Apart()
      ensures forall o :: o in indexFile.Repr() ==> o in old(indexFile.Repr()) || fresh(o)
      ensures State() == old(State()).(indexPos := Min(recordNr * 8 + 8, |indexFile.Contents()|))
      ensures recordNr * 8 == |indexFile.Contents()| ==> e == EOF
      ensures recordNr * 8 + 8 <= |indexFile.Contents()| ==>
        e == OK && position == FromBigEndian(indexFile.Contents()[recordNr * 8..recordNr * 8 + 8])
    {
      hide Next.Valid, Next.Contents, Next.Files, Next.Clean, Next.Whole, Next.Elsewhere, Next.Pos, Next.Heads;
      hide Next.Repr, Next.Requests, Next.Cached, Next.EndedAfter, Next.EndExact, Buffered.Valid;
      hide FromBigEndian;
      assert allocated(data.Repr()) && allocated(data.Heads());
      assert allocated(indexFile.Repr()) && allocated(indexFile.Heads());
      indexFile.RobustReady(0);
      indexFile.Seek(recordNr * 8);
      assert allocated(data.Repr()) && allocated(data.Heads());
      assert allocated(indexFile.Repr()) && allocated(indexFile.Heads());
      position, e := FileGet(indexFile, 8, OK);
    }

    /** The number of index entries, from the size of the index. */
    method CountRecords() returns (nrRecords: nat)
      requires Valid()
      modifies Repr()
      ensures Valid() && blocks == old(blocks) && (blocks == [] ==> AtRecord() && current == 0)
      ensures forall o :: o in Repr() ==> o in old(Repr()) || fresh(o)
      ensures data.Contents() == old(data.Contents()) && indexFile.Contents() == old(indexFile.Contents())
      ensures nrRecords == if blocks == [] then 0 else FullBlocks() + 1
      ensures blockSize >= 1 && FullBlocks() <= |blocks| <= FullBlocks() + 1
      ensures FullBlocks() < |blocks| ==> 1 <= |blocks[FullBlocks()]| < blockSize
    {
      hide Next.Valid, Next.Contents, Next.Files, Next.Clean, Next.Whole, Next.Elsewhere, Next.Pos, Next.Heads;
      hide Next.Repr, Next.Requests, Next.Cached, Next.EndedAfter, Next.EndExact, Buffered.Valid;
      hide Agrees, InSync, AtEnd;
      assert allocated(data.Repr()) && allocated(data.Heads());
      assert allocated(indexFile.Repr()) && allocated(indexFile.Heads());
      ghost var s := State();
      IndexCounts(s);
      indexFile.RobustReady(0);
      var indexSize := indexFile.SeekEnd();
      AgreesAnywhere(s, indexFile.Pos());
      assert State() == s.(indexPos := indexFile.Pos());
      nrRecords := indexSize / 8;
      if nrRecords == 0 {
        current := 0;
        data.RobustReady(0);
        SeekKeeps(s, 0);
        assert State() == AfterSeek(s, 0);
        InSyncInRange(State());
      }
    }

    /** Reads the last, short record to find its size, and goes back to it. */
    method SeekLast() returns (result: nat, e: Error)
      requires Valid()
      modifies Repr()
      ensures Valid() && blocks == old(blocks)
      ensures data.Contents() == old(data.Contents()) && indexFile.Contents() == old(indexFile.Contents())
      ensures forall o :: o in Repr() ==> o in old(Repr()) || fresh(o)
      ensures e == OK && AtRecord() && current == FullBlocks()
      ensures result == FullBlocks() * blockSize + if |blocks| > FullBlocks() then |blocks[FullBlocks()]| else 0
    {
      hide Next.Valid, Next.Contents, Next.Files, Next.Clean, Next.Whole, Next.Elsewhere, Next.Pos, Next.Heads;
      hide Next.Repr, Next.Requests, Next.Cached, Next.EndedAfter, Next.EndExact, Buffered.Valid;
      hide Agrees, InSync, AtEnd, Lz4Compress.Valid, Lz4Compress.AtRecord, Lz4Compress.Spent, Lz4Compress.Repr;
      assert allocated(data.Repr()) && allocated(data.Heads());
      assert allocated(indexFile.Repr()) && allocated(indexFile.Heads());
      var nrRecords := CountRecords();
      if nrRecords == 0 {
        return 0, OK;
      }
      var lastPosition := (nrRecords - 1) * blockSize;
      SeekRecord(nrRecords - 1);
      var last;
      last, e := Read(blockSize);
      if e == EOF {
        e := OK;
      }
      if e == OK && |last| < blockSize {
        SeekRecord(nrRecords - 1);
      }
      result := lastPosition + |last|;
    }
  }

  /** Writes the blocks to a new file, one record each. */
  method WriteBlocks(z: Lz4Compress, bs: seq<Bytes>)
    requires z.AtRecord() && z.blocks == [] && z.current == 0
    requires Blocks(bs, z.blockSize) && |DataOf(z.codec, bs)| < TWO_TO_THE_64
    modifies z.Repr()
    ensures z.Valid() && z.blocks == bs
    ensures forall o :: o in z.Repr() ==> o in old(z.Repr()) || fresh(o)
  {
    hide Lz4Compress.Valid, Lz4Compress.AtRecord, Lz4Compress.Spent, Lz4Compress.Repr;
    for j := 0 to |bs|
      invariant z.Valid() && z.blocks == bs[..j]
      invariant j < |bs| ==> z.AtRecord() && z.current == j
      invariant forall o :: o in z.Repr() ==> o in old(z.Repr()) || fresh(o)
    {
      NextFits(z, bs, j);
      var n := z.Write(bs[j]);
      assert bs[..j + 1] == bs[..j] + [bs[j]];
    }
  }

  /** The next block of a list goes behind the full records that are there already. */
  lemma NextFits(z: Lz4Compress, bs: seq<Bytes>, j: nat)
    requires z.AtRecord() && j < |bs| && z.blocks == bs[..j] && z.current == j
    requires Blocks(bs, z.blockSize) && |DataOf(z.codec, bs)| < TWO_TO_THE_64
    ensures z.FullBlocks() == j && bs[j][..Min(|bs[j]|, z.blockSize)] == bs[j] && 0 < |bs[j]| <= z.blockSize
    ensures z.compressedPosition + |z.codec.Record(bs[j])| < TWO_TO_THE_64
  {
    RecordAt(z.codec, bs, j);
    assert bs[..j][..j] == bs[..j];
  }

  /** Seeks to record `i` and reads on until the end of the file. */
  method ReadFrom(z: Lz4Compress, i: nat) returns (read: seq<Bytes>)
    requires z.Valid() && i <= z.FullBlocks()
    modifies z.Repr()
    ensures z.Valid() && z.blocks == old(z.blocks)
    ensures forall o :: o in z.Repr() ==> o in old(z.Repr()) || fresh(o)
    ensures i <= |z.blocks| && read == z.blocks[i..]
  {
    hide Lz4Compress.Valid, Lz4Compress.AtRecord, Lz4Compress.Spent, Lz4Compress.Repr, FullCount;
    z.BlockCounts();
    MultipleMod(i, z.blockSize);
    ProductGrows(i, z.FullBlocks(), z.blockSize);
    var _, e := z.Seek(i * z.blockSize);
    read := [];
    ghost var done := i;
    while e == OK
      invariant z.Valid() && z.blocks == old(z.blocks) && i <= done <= |z.blocks|
      invariant forall o :: o in z.Repr() ==> o in old(z.Repr()) || fresh(o)
      invariant read == z.blocks[i..done]
      invariant e == OK && done <= z.FullBlocks() ==> z.AtRecord() && z.current == done
      invariant e == OK && done > z.FullBlocks() ==> z.Spent() && !z.AtRecord()
      invariant e == OK || (e == EOF && done == |z.blocks|)
      decreases |z.blocks| - done, e == OK
    {
      var block;
      block, e := z.Read(z.blockSize);
      if e == OK {
        read := read + [block];
        done := done + 1;
      }
    }
  }

  lemma ProductGrows(a: nat, b: nat, size: nat)
    requires a <= b
    ensures a * size <= b * size
  {
    if a < b {
      MulGap(a, b, size);
    }
  }
}
