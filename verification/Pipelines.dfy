/**
 The filters of a pipeline, from the file system up, and the dispatch between them.
 Every filter presents a flat file of bytes with a position; each one stores it differently.
 */
module Pipelines {
  import opened Sizes
  import opened FlatFiles
  import opened Segments
  import opened Records
  import opened Requests
  import opened Buffering
  import opened Files

  /** Reads from an open file until the size is reached or the file ends. */
  method ReadBelow(file: FileSystemBottom, size: nat) returns (data: Bytes, e: Error)
    requires file.Valid()
    modifies file, file.store, file.log
    ensures file.store.files == old(file.store.files)
    ensures file.Valid() && file.pos == Min(old(file.pos) + size, |file.Contents()|)
    ensures data == file.Contents()[old(file.pos)..file.pos]
    ensures e == if size > 0 && data == [] then EOF else OK
    decreases 0, 5, size
  {
    hide FileSplit.Valid, FileSplit.Positioned, FileSplit.Contents, AeadFilter.Valid, AeadFilter.AtRecord;
    hide AeadFilter.AtEnd;
    hide Buffered.Valid, Buffered.Contents, Buffered.CanWrite, Buffered.CanTake;
    data, e := ReadAll(Low(Bottom(file)), size, OK);
  }

  /** Writes all of the data to an open file. */
  method WriteBelow(file: FileSystemBottom, data: Bytes)
    requires file.Valid() && |data| > 0
    modifies file, file.store, file.log
    ensures file.Valid() && file.pos == old(file.pos) + |data|
    ensures file.store.files
         == old(file.store.files)[file.idx := Overwrite(old(file.Contents()), old(file.pos), data)]
    decreases 0, 5, |data|
  {
    hide FileSplit.Valid, FileSplit.Positioned, FileSplit.Contents, AeadFilter.Valid, AeadFilter.AtRecord;
    hide AeadFilter.AtEnd;
    hide Buffered.Valid, Buffered.Contents, Buffered.CanWrite, Buffered.CanTake;
    var _, _ := WriteAll(Low(Bottom(file)), data, OK);
    assert data[..|data|] == data;
    OneKeyChanged(old(file.store.files), file.store.files, file.idx);
  }

  /** A group of segment files treated as one file, always ending in a partial segment. */
  class FileSplit {
    const store: Storage
    const segmentSize: nat
    const log: RequestLog
    var position: nat
    var file: FileSystemBottom
    ghost var count: nat

    ghost function Repr(): set<object>
      reads this
    {
      {this, store, log, file, file.log}
    }

    /** The group is well formed and the open handle is the segment that `position` falls in. */
    ghost predicate Valid()
      reads this, store
    {
      && Group(store.files, count, segmentSize)
      && file.store == store && file.idx == position / segmentSize && file.idx < count
      && file.log != log
    }

    ghost function Contents(): Bytes
      requires Valid()
      reads this, store
    {
      Flatten(store.files, count)
    }

    /** The open handle stands at `position` too: so after every call but a seek to the end. */
    ghost predicate Positioned()
      reads this, store, file
      ensures Positioned() ==> Valid() && position <= |Contents()|
    {
      Valid() && StandsAt(store.files, count, segmentSize, position, file.idx, file.pos)
    }

    /**
     Opens a new or an existing group. The segment size is the suggested one rounded up to whole
     blocks of the stage above.
     */
    constructor Open(store: Storage, suggestedSize: nat, blockSize: nat, ghost n: nat)
      requires suggestedSize >= 1 && blockSize >= 1
      requires store.files == map[] || Group(store.files, n, RoundUp(suggestedSize, blockSize))
      modifies store
      ensures Positioned() && position == 0 && fresh(Repr() - {store}) && this.store == store
      ensures log.requests == []
      ensures segmentSize == RoundUp(suggestedSize, blockSize)
      ensures segmentSize % blockSize == 0 && suggestedSize <= segmentSize < suggestedSize + blockSize
      ensures old(store.files) == map[] ==> Contents() == []
      ensures old(store.files) != map[] ==>
        store.files == old(store.files) && count == n && Contents() == Flatten(old(store.files), n)
    {
      var size := RoundUp(suggestedSize, blockSize);
      OpensAtStart(store.files, n, size);
      this.store := store;
      segmentSize := size;
      position := 0;
      count := if store.files == map[] then 1 else n;
      log := new RequestLog();
      var first := new FileSystemBottom.Open(store, 0, true, false);
      file := first;
    }

    /** Opens the segment corresponding to `position`, creating it if it does not exist. */
    method OpenCurrentSegment()
      requires segmentSize >= 1
      modifies this`file, store
      ensures fresh(file) && fresh(file.log) && file.store == store
      ensures file.idx == position / segmentSize && file.pos == 0
      ensures store.files == if file.idx in old(store.files) then old(store.files)
                             else old(store.files)[file.idx := []]
    {
      file := new FileSystemBottom.Open(store, position / segmentSize, true, false);
    }

    method Read(size: nat) returns (data: Bytes, e: Error)
      requires Positioned() && size > 0
      modifies Repr()
      ensures Positioned() && fresh(Repr() - old(Repr())) && log.requests == old(log.requests)
      ensures store.files == old(store.files) && count == old(count) && Contents() == old(Contents())
      ensures position == old(position) + |data| && |data| <= size && position <= |Contents()|
      ensures data == Contents()[old(position)..position]
      ensures e == if data == [] then EOF else OK
      ensures data == [] <==> old(position) == |Contents()|
      decreases 1, 0, 0
    {
      StandsInside(store.files, count, segmentSize, position, file.idx, file.pos);
      var start := position % segmentSize;
      var truncSize := Min(segmentSize - start, size);
      ghost var k := Min(start + truncSize, |file.Contents()|) - start;
      ReadStep(store.files, count, segmentSize, position, file.idx, start, size, k);
      data, e := ReadBelow(file, truncSize);
      position := position + |data|;
      if start + |data| == segmentSize {
        OpenCurrentSegment();
      }
    }

    method Write(data: Bytes) returns (n: nat)
      requires Positioned() && |data| > 0
      modifies Repr()
      ensures Positioned() && fresh(Repr() - old(Repr())) && log.requests == old(log.requests)
      ensures n == Min(segmentSize - old(position) % segmentSize, |data|) && 0 < n
      ensures position == old(position) + n
      ensures Contents() == Overwrite(old(Contents()), old(position), data[..n])
      decreases 1, 0, 1
    {
      hide Group, Flatten, Overwrite;
      StandsInside(store.files, count, segmentSize, position, file.idx, file.pos);
      ghost var files, idx, offset := store.files, file.idx, position % segmentSize;
      ghost var d := data[..Min(segmentSize - offset, |data|)];
      WriteStep(files, count, segmentSize, position, idx, offset, d);
      StepInBlock(position, segmentSize, |d|);
      n := PutSegment(data);
      count := if offset + n == segmentSize && idx + 1 == count then count + 1 else count;
    }

    /**
     Writes where the handle stands, up to the end of the segment if the data start at `position`; then goes on
     to the next segment.
     */
    method PutSegment(data: Bytes) returns (n: nat)
      requires segmentSize >= 1 && file.store == store && file.log != log && file.Valid() && |data| > 0
      requires file.idx == position / segmentSize
      modifies Repr()
      ensures fresh(Repr() - old(Repr())) && log.requests == old(log.requests) && count == old(count)
      ensures n == Min(segmentSize - old(position) % segmentSize, |data|) && 0 < n
      ensures position == old(position) + n && file.store == store && file.log != log
      ensures store.files == Written(old(store.files), segmentSize, old(file.idx), old(position) % segmentSize,
                                     old(file.pos), data[..n])
      ensures if old(position) % segmentSize + n == segmentSize then file.idx == old(file.idx) + 1 && file.pos == 0
              else file.idx == old(file.idx) && file.pos == old(file.pos) + n
      decreases 1, 0, 0
    {
      hide Overwrite;
      var offset := position % segmentSize;
      var truncSize := Min(segmentSize - offset, |data|);
      StepInBlock(position, segmentSize, truncSize);
      WriteBelow(file, data[..truncSize]);
      n := truncSize;
      position := position + n;
      if offset + n == segmentSize {
        OpenCurrentSegment();
      }
    }

    method Seek(newPosition: nat)
      requires Valid() && newPosition <= |Contents()|
      modifies Repr()
      ensures Positioned() && fresh(Repr() - old(Repr())) && log.requests == old(log.requests)
      ensures store.files == old(store.files) && count == old(count) && Contents() == old(Contents())
      ensures position == newPosition
    {
      var oldPosition := position;
      Locate(store.files, count, segmentSize, newPosition);
      SameBlock(newPosition, oldPosition, segmentSize);
      position := newPosition;
      if RoundDown(newPosition, segmentSize) != RoundDown(oldPosition, segmentSize) {
        OpenCurrentSegment();
      }
      file.Seek(newPosition % segmentSize);
    }

    /** The scan for the partial segment: finds the total length, but loses the position. */
    method SeekEnd() returns (size: nat)
      requires Valid()
      modifies Repr()
      ensures Valid() && fresh(Repr() - old(Repr())) && log.requests == old(log.requests)
      ensures store.files == old(store.files) && count == old(count) && Contents() == old(Contents())
      ensures size == |Contents()|
      ensures file.idx == count - 1 && file.pos == |store.files[file.idx]| && position == file.idx * segmentSize
    {
      var segmentCount := 0;
      var lastSize := segmentSize;
      while true
        invariant 0 <= segmentCount < count && Group(store.files, count, segmentSize)
        invariant store.files == old(store.files) && count == old(count)
        invariant fresh(Repr() - old(Repr())) && log.requests == old(log.requests) && file.log != log
        decreases count - segmentCount
      {
        position := segmentCount * segmentSize;
        MultipleMod(segmentCount, segmentSize);
        OpenCurrentSegment();
        lastSize := file.SeekEnd();
        if lastSize != segmentSize {
          break;
        }
        segmentCount := segmentCount + 1;
      }
      GroupLength(store.files, count, segmentSize);
      size := segmentCount * segmentSize + lastSize;
    }
  }

  /** The encryption filter: fixed-size records behind a header, each sealed under its own number. */
  class AeadFilter {
    const next: FileSystemBottom
    const key: Sealing
    const headerSize: nat
    const log: RequestLog
    ghost const header: Bytes
    var blockNr: nat
    var position: nat
    var maxReadPosition: nat
    var maxWritePosition: nat
    var fileSize: int
    /** The plaintext that the stored records stand for, and whether a short record ends them. */
    ghost var plain: Bytes
    ghost var ended: bool

    ghost function Repr(): set<object> {
      {this, log, next, next.store, next.log}
    }

    ghost predicate Valid()
      reads this, next, next.store
    {
      && key.Sound() && headerSize == |header| && next.log != log
      && next.Valid() && next.Contents() == header + Body(key, plain, ended)
      && (|plain| % key.plainSize != 0 ==> ended) && position <= |plain|
      // The bookkeeping that decides at close whether a last record is missing.
      && maxReadPosition <= |plain| && maxWritePosition <= |plain| && fileSize <= |plain|
      && (!ended ==> |plain| == maxWritePosition)
    }

    /** Both files stand at the start of record `blockNr`. */
    ghost predicate AtRecord()
      reads this, next, next.store
      ensures AtRecord() ==> Valid() && position == Times(blockNr, key.plainSize)
    {
      && Valid()
      && position == Times(blockNr, key.plainSize) <= |plain|
      && next.pos == headerSize + Times(blockNr, key.EncryptSize())
    }

    /** Both files stand at their end, behind the last record. */
    ghost predicate AtEnd()
      reads this, next, next.store
      ensures AtEnd() ==> Valid()
    {
      Valid() && position == |plain| && next.pos == |next.Contents()| && ClosesWell()
    }

    /** The last record is there, or its number is at hand to add it. */
    ghost predicate ClosesWell()
      requires key.Sound()
      reads this
    {
      ended || blockNr == |plain| / key.plainSize
    }

    /** On a file whose header has been read or written: a new file, or one closed with its last record. */
    constructor Open(next: FileSystemBottom, key: Sealing, headerSize: nat, truncated: bool,
                     ghost header: Bytes, ghost plain: Bytes, ghost ended: bool)
      requires key.Sound() && next.Valid() && headerSize == |header| && next.pos == headerSize
      requires next.Contents() == header + Body(key, plain, ended)
      requires |plain| % key.plainSize != 0 ==> ended
      requires !ended ==> plain == []
      ensures AtRecord() && position == 0 && fresh(this)
      ensures this.next == next && this.key == key && this.headerSize == headerSize && this.header == header
      ensures this.plain == plain && this.ended == ended
      ensures blockNr == maxReadPosition == maxWritePosition == 0 && fileSize == if truncated then 0 else -1
      ensures fresh(log) && log.requests == []
    {
      this.next, this.key, this.headerSize, this.header := next, key, headerSize, header;
      log := new RequestLog();
      blockNr, position, maxReadPosition, maxWritePosition := 0, 0, 0, 0;
      fileSize := if truncated then 0 else FILE_END_POSITION;
      this.plain, this.ended := plain, ended;
    }

    method Read(size: nat) returns (data: Bytes, e: Error)
      requires AtRecord() || AtEnd()
      requires position == |plain| || size >= key.plainSize
      modifies Repr()
      ensures log.requests == old(log.requests)
      ensures AtRecord() || AtEnd()
      ensures next.store.files == old(next.store.files) && plain == old(plain) && ended == old(ended)
      ensures position == old(position) + |data| <= |plain| && data == plain[old(position)..position]
      ensures |data| == Min(key.plainSize, |plain| - old(position))
      ensures e == if data == [] then EOF else OK
      ensures |data| == key.plainSize ==> AtRecord() && blockNr == old(blockNr) + 1
      ensures |data| < key.plainSize ==> AtEnd() && blockNr == old(blockNr)
      ensures e == OK ==> maxReadPosition == Max(old(maxReadPosition), position)
      ensures e == OK && |data| < key.plainSize ==> fileSize == |plain|
      ensures maxWritePosition == old(maxWritePosition)
      decreases 1, 0, 1
    {
      hide Body, Sealing.Sound, Times;
      data, e := Fetch();
      if e == OK {
        e := Advance(|data|);
        if e != OK {
          data := [];
        }
      }
    }

    /** Moves over a block that was read. A short one must be the last: anything behind it is an error. */
    method Advance(size: nat) returns (e: Error)
      requires Valid() && key.plainSize >= 1 && position == Times(blockNr, key.plainSize)
      requires size == Min(key.plainSize, |plain| - position)
      requires size == key.plainSize ==> position + size == Times(blockNr + 1, key.plainSize)
      requires size == key.plainSize ==> next.pos == headerSize + Times(blockNr + 1, key.EncryptSize())
      modifies this`position, this`maxReadPosition, this`fileSize, this`blockNr, next
      ensures position == old(position) + size && maxReadPosition == Max(old(maxReadPosition), position)
      ensures e.Failure? <==> size < key.plainSize && old(next.pos) < |next.Contents()|
      ensures !e.Failure? ==> e == if size == 0 then EOF else OK
      ensures size == key.plainSize ==> AtRecord() && blockNr == old(blockNr) + 1
      ensures size < key.plainSize ==> blockNr == old(blockNr) && fileSize == |plain|
      ensures size < key.plainSize && !e.Failure? && old(ClosesWell()) ==> AtEnd()
      decreases 1, 0, 0
    {
      hide Body, Sealing.Sound, Times;
      position := position + size;
      maxReadPosition := Max(maxReadPosition, position);
      if size < key.plainSize {
        fileSize := position;
        var _, extra := next.Read(1);
        if extra != EOF {
          return Failure("Encrypted file has extra data appended.");
        }
      }
      if size == 0 {
        return EOF;
      }
      TimesIsProduct(blockNr, key.plainSize);
      maxReadPosition := Max(maxReadPosition, blockNr * key.plainSize + size);
      if size == key.plainSize {
        blockNr := blockNr + 1;
      }
      e := OK;
    }

    /** Reads and opens the record at hand, if there is one. */
    method Fetch() returns (block: Bytes, e: Error)
      requires AtRecord() || AtEnd()
      modifies next, next.store, next.log
      ensures next.store.files == old(next.store.files) && next.Valid()
      ensures key.plainSize >= 1 && (e == OK || (e == EOF && block == [] && AtEnd()))
      ensures e == OK ==>
        && position == Times(blockNr, key.plainSize) <= |plain|
        && block == plain[position..Min(position + key.plainSize, |plain|)]
        && (|block| == key.plainSize ==>
              && position + |block| == Times(blockNr + 1, key.plainSize)
              && next.pos == headerSize + Times(blockNr + 1, key.EncryptSize()))
        && (|block| < key.plainSize ==> next.pos == |next.Contents()| && ClosesWell())
      decreases 1, 0, 0
    {
      if AtRecord() {
        RecordAtHand();
      }
      var cipher;
      cipher, e := ReadBelow(next, key.EncryptSize());
      if e == OK {
        block := key.open(blockNr, cipher);
      } else {
        block := [];
      }
    }

    /** What a read at record `blockNr` finds there. */
    lemma RecordAtHand()
      requires AtRecord()
      ensures
        var n := Min(key.EncryptSize(), |next.Contents()| - next.pos);
        var record := next.Contents()[next.pos..next.pos + n];
        && (n == 0 ==> position == |plain|)
        && (n > 0 ==> key.open(blockNr, record) == plain[position..Min(position + key.plainSize, |plain|)])
        && (position + key.plainSize <= |plain| ==> n == key.EncryptSize() > 0)
        && (position + key.plainSize > |plain| ==> next.pos + n == |next.Contents()| && ClosesWell())
    {
      var body := Body(key, plain, ended);
      var o := Times(blockNr, key.EncryptSize());
      var n := Min(key.EncryptSize(), |body| - o);
      ReadRecord(key, plain, ended, blockNr, n);
      if |plain| - position < key.plainSize {
        TimesDivides(blockNr, key.plainSize, |plain| - position);
      }
      SliceBehind(header, body, o, o + n);
    }

    /** Seals up to one record of `data` under `blockNr` and writes it where the file below stands. */
    method PutRecord(data: Bytes) returns (n: nat)
      requires key.Sound() && next.Valid()
      modifies this`position, this`maxWritePosition, this`blockNr, next, next.store, next.log
      ensures n == Min(|data|, key.plainSize)
      ensures next.Valid() && next.pos == old(next.pos) + |key.seal(old(blockNr), data[..n])|
      ensures next.Contents()
           == Overwrite(old(next.Contents()), old(next.pos), key.seal(old(blockNr), data[..n]))
      ensures position == old(position) + n && maxWritePosition == Max(old(maxWritePosition), position)
      ensures blockNr == old(blockNr) + 1
      decreases 1, 0, 0
    {
      n := Min(|data|, key.plainSize);
      var sealed := key.seal(blockNr, data[..n]);
      assert |sealed| >= key.recordSize(0);
      WriteBelow(next, sealed);
      position := position + n;
      maxWritePosition := Max(maxWritePosition, position);
      blockNr := blockNr + 1;
    }

    method Write(data: Bytes) returns (n: nat)
      requires AtRecord()
      requires |data| >= key.plainSize || |plain| <= position + |data|
      modifies Repr()
      ensures log.requests == old(log.requests)
      ensures n == Min(|data|, key.plainSize)
      ensures plain == Overwrite(old(plain), old(position), data[..n]) && position == old(position) + n
      ensures ended == (n < key.plainSize || (old(ended) && position <= |old(plain)|))
      ensures if n == key.plainSize then AtRecord() else AtEnd()
      ensures blockNr == old(blockNr) + 1
      decreases 1, 1, 0
    {
      hide Body, Sealing.Sound, Overwrite;
      ghost var d := data[..Min(|data|, key.plainSize)];
      RecordWritten(d);
      plain, ended := Overwrite(plain, position, d), EndedBy(|d|);
      n := PutRecord(data);
      assert Valid();
    }

    /** Whether a short record ends the file after a record of this many bytes is written here. */
    ghost predicate EndedBy(size: nat)
      reads this
    {
      size < key.plainSize || (ended && position + size <= |plain|)
    }

    /** The sizes tell whether a record that is written here leaves the last record in place. */
    lemma EndedTells(size: nat)
      requires AtRecord() && 1 <= size <= key.plainSize
      requires size == key.plainSize || |plain| <= position + size
      ensures
        var after := Max(|plain|, position + size);
        EndedBy(size) <==> after % key.plainSize != 0 || (ended && after == |plain|)
    {
      EndedTold(key.plainSize, blockNr, |plain|, size, ended);
    }

    /** The sealed block, written where the file below stands, is the block written at the position. */
    lemma RecordWritten(d: Bytes)
      requires AtRecord() && |d| <= key.plainSize
      requires |d| == key.plainSize || |plain| <= position + |d|
      ensures
        var sealed, after := key.seal(blockNr, d), Overwrite(plain, position, d);
        && header + Body(key, after, EndedBy(|d|)) == Overwrite(next.Contents(), next.pos, sealed)
        && (|after| % key.plainSize != 0 ==> EndedBy(|d|))
        && (|d| < key.plainSize ==> |header + Body(key, after, EndedBy(|d|))| == next.pos + |sealed|)
        && (|d| == key.plainSize ==> next.pos + |sealed| == headerSize + Times(blockNr + 1, key.EncryptSize()))
    {
      if |d| == key.plainSize {
        WriteFullRecord(key, plain, ended, blockNr, d);
      } else {
        WriteShortRecord(key, plain, ended, blockNr, d);
      }
      OverwriteRight(header, Body(key, plain, ended), Times(blockNr, key.EncryptSize()), key.seal(blockNr, d));
    }

    /** Only block boundaries can be sought. */
    method Seek(plainPosition: nat) returns (e: Error)
      requires Valid() && plainPosition <= |plain|
      modifies Repr()
      ensures log.requests == old(log.requests)
      ensures next.store.files == old(next.store.files) && plain == old(plain) && ended == old(ended)
      ensures e == OK <==> plainPosition % key.plainSize == 0
      ensures e == OK ==> AtRecord() && position == plainPosition && blockNr == plainPosition / key.plainSize
      ensures e != OK ==> e.Failure? && Valid() && position == old(position) && next.pos == old(next.pos)
    {
      if plainPosition % key.plainSize != 0 {
        return Failure("Must seek to a block boundary");
      }
      blockNr := plainPosition / key.plainSize;
      position := plainPosition;
      Divide(plainPosition, key.plainSize);
      BoundaryInside(key, plain, ended, blockNr);
      TimesIsProduct(blockNr, key.EncryptSize());
      next.Seek(headerSize + blockNr * key.EncryptSize());
      e := OK;
    }

    ghost function DataSize(): nat
      requires Valid()
      reads this, next, next.store
    {
      |Body(key, plain, ended)|
    }

    /** The guard of the seek to the end takes the branch that finds the last record. */
    ghost predicate EndExact()
      requires Valid()
      reads this, next, next.store
    {
      !LooksFull(DataSize(), key.plainSize)
    }

    /**
     Seeks to the last record and reads it, to find the length of the plaintext. The guard compares the
     stored size with the plaintext record size: the answer is right exactly when that does not divide.
     */
    method SeekEnd() returns (size: nat, e: Error)
      requires Valid()
      requires DataSize() < TWO_TO_THE_64 && 2 * key.EncryptSize() <= TWO_TO_THE_64
      requires DataSize() == 0 || LooksInside(DataSize(), key.plainSize, key.EncryptSize())
      modifies Repr()
      ensures log.requests == old(log.requests)
      ensures next.store.files == old(next.store.files) && plain == old(plain) && ended == old(ended)
      ensures Valid()
      ensures e == if DataSize() == 0 then Failure("Encrypted file truncated - missing final record") else OK
      ensures e == OK ==> (size == |plain| <==> DataSize() % key.plainSize != 0)
      ensures e == OK ==> (DataSize() % key.plainSize != 0 <==> EndExact())
      ensures e == OK ==> AtRecord() && blockNr == |plain| / key.plainSize
      ensures e != OK ==> size == 0
      decreases 1, 1, 0
    {
      hide AeadFilter.AtRecord, AeadFilter.AtEnd;
      ghost var m := |plain| / key.plainSize;
      Divide(|plain|, key.plainSize);
      var cipherSize := next.SeekEnd();
      var dataSize := cipherSize - headerSize;
      if dataSize == 0 {
        return 0, Failure("Encrypted file truncated - missing final record");
      }
      SeekLast(dataSize);
      var last;
      last, e := Read(key.plainSize);
      if e == EOF {
        e := OK;
      }
      assert blockNr == m;
      TimesIsProduct(blockNr, key.plainSize);
      MultipleMod(blockNr, key.plainSize);
      var plainPosition := blockNr * key.plainSize;
      e := Seek(plainPosition);
      size := plainPosition + |last|;
    }

    /** Where the guard takes the right branch, the last record is looked for inside the file. */
    lemma EndInside()
      requires Valid() && key.plainSize >= 1 && EndFound(key, |plain|, ended)
      ensures EndExact() && 0 < DataSize() < TWO_TO_THE_64 && 2 * key.EncryptSize() <= TWO_TO_THE_64
      ensures LooksInside(DataSize(), key.plainSize, key.EncryptSize())
    {
      StoredSizeIs(key, plain, ended);
      MultipleMod(0, key.plainSize);
    }

    /** Positions both files where the last record is looked for. */
    method SeekLast(cipherDataSize: nat)
      requires Valid() && cipherDataSize == DataSize() > 0
      requires DataSize() < TWO_TO_THE_64 && 2 * key.EncryptSize() <= TWO_TO_THE_64
      requires LooksInside(DataSize(), key.plainSize, key.EncryptSize())
      modifies this`blockNr, this`position, next
      ensures AtRecord()
      ensures blockNr == |plain| / key.plainSize - if EndExact() then 0 else 1
    {
      hide Body, Sealing.Sound, Sealing.EncryptSize, LastRecordStart, LooksFull, RecordNr, Times;
      LastAtHand();
      var start := LastRecordStart(cipherDataSize, key.plainSize, key.EncryptSize());
      next.Seek(headerSize + start);
      blockNr := RecordNr(start, key.EncryptSize());
      TimesIsProduct(blockNr, key.plainSize);
      position := blockNr * key.plainSize;
    }

    /** Where the last record is looked for, in both files. */
    lemma LastAtHand()
      requires Valid()
      requires 0 < DataSize() < TWO_TO_THE_64 && 2 * key.EncryptSize() <= TWO_TO_THE_64
      requires LooksInside(DataSize(), key.plainSize, key.EncryptSize())
      ensures key.plainSize >= 1 && key.EncryptSize() >= 1
      ensures
        var start := LastRecordStart(DataSize(), key.plainSize, key.EncryptSize());
        var nr := RecordNr(start, key.EncryptSize());
        && nr == |plain| / key.plainSize - (if EndExact() then 0 else 1)
        && headerSize + start == headerSize + Times(nr, key.EncryptSize()) <= |next.Contents()|
        && Times(nr, key.plainSize) <= |plain|
    {
      hide Body, Times, LastRecordStart, LooksFull, RecordNr, Sealing.Sound, Sealing.EncryptSize;
      SoundSizes(key);
      var m := |plain| / key.plainSize;
      DataSizeCounts(key, plain, ended);
      LastRecordPlace(key, m, DataSize(), |plain|);
    }

    /**
     Adds the short last record if it is missing. It is sealed under the current block number, so the
     file is closed well exactly when that is the number of the last record.
     */
    method Close()
      requires Valid()
      modifies Repr()
      ensures log.requests == old(log.requests)
      ensures plain == old(plain) && next.Valid()
      ensures next.Contents() == if old(ended) then old(next.Contents())
                                 else old(next.Contents()) + key.seal(old(blockNr), [])
      ensures old(ended) ==> next.store.files == old(next.store.files)
      // The size of the file is asked for only if it is not known already that its last record is there.
      ensures
        var known := old(maxReadPosition) > old(maxWritePosition) || old(maxWritePosition) % key.plainSize != 0
                     || (old(fileSize) >= 0 && old(fileSize) > old(maxWritePosition));
        known ==> next.pos == old(next.pos)
      ensures ApartIn(key, |old(plain)|) && old(NumberInside()) ==>
        (next.Contents() == header + Body(key, old(plain), true) <==> old(ClosesWell()))
      ensures old(ClosesWell()) ==>
        Valid() && ended && next.Contents() == header + Body(key, plain, true)
      decreases 1, 1, 0
    {
      hide Body, Stored, Sealing.Sound, ApartIn;
      CloseCounts();
      if maxReadPosition > maxWritePosition {
      } else if maxWritePosition % key.plainSize != 0 {
      } else if fileSize != FILE_END_POSITION && fileSize > maxWritePosition {
      } else {
        var actualSize := next.SeekEnd();
        var expectedSize := maxWritePosition / key.plainSize * key.EncryptSize() + headerSize;
        if actualSize > expectedSize {
        } else {
          Terminate();
        }
      }
    }

    /** The block number is not beyond the last record. */
    ghost predicate NumberInside()
      requires key.Sound()
      reads this
    {
      ended || blockNr <= |plain| / key.plainSize
    }

    /** Wherever the filter can be read the number is inside. */
    lemma StandsInside()
      requires AtRecord() || AtEnd()
      ensures NumberInside()
    {
      var m := |plain| / key.plainSize;
      Divide(|plain|, key.plainSize);
      if AtRecord() && blockNr > m {
        TimesGrows(m + 1, blockNr, key.plainSize);
      }
    }

    /** What is known at close: how large the file must be if its last record is there. */
    lemma CloseCounts()
      requires Valid()
      ensures key.plainSize >= 1 && (!ended ==> |plain| % key.plainSize == 0 && |plain| == maxWritePosition)
      ensures maxWritePosition % key.plainSize == 0 ==>
        (|next.Contents()| > maxWritePosition / key.plainSize * key.EncryptSize() + headerSize <==> ended)
    {
      if maxWritePosition % key.plainSize == 0 {
        ExpectedSize(key, plain, ended, maxWritePosition);
      }
    }

    /** Adds an empty record at the end of the file, under the current block number. */
    method Terminate()
      requires Valid() && !ended && next.pos == |next.Contents()|
      modifies Repr()
      ensures log.requests == old(log.requests)
      ensures plain == old(plain) && next.Valid()
      ensures next.Contents() == old(next.Contents()) + key.seal(old(blockNr), [])
      ensures old(ClosesWell()) ==> Valid() && ended && next.Contents() == header + Body(key, plain, true)
      ensures ApartIn(key, |plain|) && old(NumberInside()) ==>
        (next.Contents() == header + Body(key, plain, true) <==> old(ClosesWell()))
      decreases 1, 0, 1
    {
      hide Body, Stored, Sealing.Sound, ApartIn;
      TerminatorAtHand();
      ghost var number, file, m := blockNr, next.Contents(), |plain| / key.plainSize;
      var _ := PutRecord([]);
      OverwriteTail(file, [], key.seal(number, []));
      ended := number == m;
    }

    /** What the record that is added at close does, depending on its number. */
    lemma TerminatorAtHand()
      requires Valid() && !ended
      ensures key.plainSize >= 1
      ensures
        var after := next.Contents() + key.seal(blockNr, []);
        && (ClosesWell() ==> after == header + Body(key, plain, true))
        && (ApartIn(key, |plain|) && NumberInside() ==> (after == header + Body(key, plain, true) <==> ClosesWell()))
    {
      var file := next.Contents();
      EndedByTerminator(key, plain);
      assert file + key.seal(|plain| / key.plainSize, []) == header + Body(key, plain, true);
      if ApartIn(key, |plain|) && NumberInside() {
        TerminatorTells(key, header, plain, blockNr);
      }
    }
  }

  /** A filter that Buffered can stand on. */
  datatype Lower = Bottom(f: FileSystemBottom) | Split(s: FileSplit) | Aead(a: AeadFilter) {
    ghost function Heads(): set<object> {
      match this
      case Bottom(f) => {f}
      case Split(s) => {s}
      case Aead(a) => {a}
    }

    ghost function Repr(): set<object>
      reads Heads()
      ensures Heads() <= Repr()
    {
      match this
      case Bottom(f) => {f, f.store, f.log}
      case Split(s) => s.Repr()
      case Aead(a) => a.Repr()
    }

    ghost predicate Valid()
      reads Heads(), Repr()
    {
      match this
      case Bottom(f) => f.Valid()
      case Split(s) => s.Valid()
      case Aead(a) => a.Valid()
    }

    ghost function Contents(): Bytes
      requires Valid()
      reads Heads(), Repr()
    {
      match this
      case Bottom(f) => f.Contents()
      case Split(s) => s.Contents()
      case Aead(a) => a.plain
    }

    ghost function Pos(): nat
      reads Heads()
    {
      match this
      case Bottom(f) => f.pos
      case Split(s) => s.position
      case Aead(a) => a.position
    }

    ghost function Log(): RequestLog
      reads Heads()
      ensures Log() in Repr()
    {
      match this
      case Bottom(f) => f.log
      case Split(s) => s.log
      case Aead(a) => a.log
    }

    /** What has been asked of this filter. */
    ghost function Requests(): seq<Io>
      reads Heads(), Repr()
    {
      Log().requests
    }

    ghost predicate CanRead()
      reads Heads(), Repr()
      ensures CanRead() ==> Valid() && Pos() <= |Contents()|
    {
      match this
      case Bottom(f) => f.Valid()
      case Split(s) => s.Positioned()
      case Aead(a) => a.AtRecord() || a.AtEnd()
    }

    ghost predicate CanWrite()
      reads Heads(), Repr()
    {
      match this
      case Bottom(f) => f.Valid()
      case Split(s) => s.Positioned()
      case Aead(a) => a.AtRecord()
    }

    /** The block size this filter asks of the stage above. */
    function Unit(): nat {
      match this
      case Bottom(f) => 1
      case Split(s) => 1
      case Aead(a) => a.key.plainSize
    }

    /** The files that are stored below. */
    ghost function Files(): map<nat, Bytes>
      reads Heads(), Repr()
    {
      match this
      case Bottom(f) => f.store.files
      case Split(s) => s.store.files
      case Aead(a) => a.next.store.files
    }

    /** The files of the same store that this filter does not touch. */
    ghost function Elsewhere(): map<nat, Bytes>
      reads Heads(), Repr()
    {
      match this
      case Bottom(f) => f.store.files - {f.idx}
      case Split(s) => map[]
      case Aead(a) => map[]
    }

    function Level(): nat {
      if Bottom? then 0 else 1
    }

    /** What the files that are stored below have to do with the flat file. */
    lemma StoredBelow()
      requires Valid()
      ensures match this
        case Bottom(f) =>
          Files() == f.store.files && f.idx in f.store.files && f.store.files[f.idx] == Contents()
        case Split(s) =>
          && Files() == s.store.files && (forall i: nat :: i in s.store.files <==> i < s.count)
          && Flatten(s.store.files, s.count) == Contents()
          && s.segmentSize >= 1 && s.count == |Contents()| / s.segmentSize + 1
        case Aead(a) =>
          && Files() == a.next.store.files && a.next.idx in a.next.store.files && a.key.plainSize >= 1
          && a.next.store.files[a.next.idx] == a.header + Body(a.key, Contents(), a.ended)
    {
      hide Body;
      if Split? {
        GroupLength(s.store.files, s.count, s.segmentSize);
        DivModUnique(s.count - 1, s.segmentSize, |s.store.files[s.count - 1]|);
      }
    }

    /** A read is of whole blocks, or at the end of the file. */
    ghost predicate ReadAligned(size: nat)
      requires Valid()
      reads Heads(), Repr()
    {
      Unit() > 0 && (Pos() == |Contents()| || (Pos() % Unit() == 0 && size % Unit() == 0))
    }

    /** A write is of whole blocks, or reaches the end of the file. */
    ghost predicate WriteAligned(size: nat)
      requires Valid()
      reads Heads(), Repr()
    {
      Unit() > 0 && (size % Unit() != 0 ==> Pos() + size >= |Contents()|)
    }

    /** The position is at the start of a block of this filter. */
    ghost predicate AtBlock()
      reads Heads()
    {
      Unit() > 0 && Pos() % Unit() == 0
    }

    method Read(size: nat) returns (data: Bytes, e: Error)
      requires Valid() && CanRead() && size > 0 && ReadAligned(size)
      modifies Repr()
      ensures Valid() && CanRead()
      ensures forall o :: o in Repr() ==> o in old(Repr()) || fresh(o)
      ensures Contents() == old(Contents()) && Files() == old(Files())
      ensures |data| <= size && Pos() == old(Pos()) + |data| && Pos() <= |Contents()|
      ensures data == Contents()[old(Pos())..Pos()]
      ensures e == if data == [] then EOF else OK
      ensures data == [] <==> old(Pos()) == |Contents()|
      ensures ReadAligned(size - |data|)
      ensures |data| == size ==> CanWrite()
      ensures Ended() == old(Ended())
      ensures Requests() == old(Requests()) + [ReadIo(old(Pos()), size)]
      decreases Level(), 2, 0
    {
      hide Lower.ReadAligned;
      hide FileSplit.Valid, FileSplit.Positioned, FileSplit.Contents, AeadFilter.Valid, AeadFilter.AtRecord;
      hide AeadFilter.AtEnd;
      match this
      case Bottom(f) =>
        f.log.requests := f.log.requests + [ReadIo(Pos(), size)];
        data, e := f.Read(size);
        BytesAligned(size - |data|);
      case Split(s) =>
        s.log.requests := s.log.requests + [ReadIo(Pos(), size)];
        data, e := s.Read(size);
        BytesAligned(size - |data|);
      case Aead(a) =>
        RecordsAsked(size);
        a.log.requests := a.log.requests + [ReadIo(Pos(), size)];
        ghost var p := a.position;
        data, e := a.Read(size);
        RestAligned(p, size, |data|);
    }

    lemma BytesAligned(size: nat)
      requires Valid() && !Aead?
      ensures ReadAligned(size)
    {
    }

    /** An aligned read of records has room for one, unless the file ends here. */
    lemma RecordsAsked(size: nat)
      requires Valid() && Aead? && size > 0 && ReadAligned(size)
      ensures Unit() > 0 && (Pos() == |Contents()| || size >= a.key.plainSize)
      ensures Pos() == |Contents()| || (Pos() % a.key.plainSize == 0 && size % a.key.plainSize == 0)
    {
      SmallRemainder(size, Unit());
    }

    /** After one record, or at the end of the file, the rest of an aligned read is aligned. */
    lemma RestAligned(p: nat, size: nat, n: nat)
      requires Valid() && n <= size && Unit() > 0
      requires p == |Contents()| || (p % Unit() == 0 && size % Unit() == 0)
      requires Pos() == p + n && (n == Unit() || Pos() == |Contents()|)
      ensures ReadAligned(size - n)
    {
      if n == Unit() && p < |Contents()| {
        MultipleMod(1, n);
        AddMultiple(p, n, n);
        SubMultiple(size, n, n);
      }
    }

    method Write(data: Bytes) returns (n: nat)
      requires CanWrite() && |data| > 0 && WriteAligned(|data|)
      modifies Repr()
      ensures Valid() && CanRead()
      ensures forall o :: o in Repr() ==> o in old(Repr()) || fresh(o)
      ensures 0 < n <= |data| && Pos() == old(Pos()) + n
      ensures Contents() == Overwrite(old(Contents()), old(Pos()), data[..n])
      ensures Elsewhere() == old(Elsewhere())
      ensures n < |data| ==> CanWrite() && WriteAligned(|data| - n)
      ensures AtBlock() ==> CanWrite()
      ensures Ended() == EndedAfter(old(Ended()), |old(Contents())|, |Contents()|)
      ensures Requests() == old(Requests()) + [WriteIo(old(Pos()), |data|, |old(Contents())|)]
      decreases Level(), 2, 0
    {
      hide Lower.WriteAligned, Lower.AtBlock, Lower.EndedAfter;
      hide FileSplit.Valid, FileSplit.Positioned, FileSplit.Contents, AeadFilter.Valid, AeadFilter.AtRecord;
      hide AeadFilter.AtEnd;
      match this
      case Bottom(f) =>
        f.log.requests := f.log.requests + [WriteIo(Pos(), |data|, |Contents()|)];
        n := f.Write(data);
        BytesGiven(|data| - n);
      case Split(s) =>
        s.log.requests := s.log.requests + [WriteIo(Pos(), |data|, |Contents()|)];
        n := s.Write(data);
        BytesGiven(|data| - n);
      case Aead(a) =>
        n := WriteRecord(data);
    }

    /** Through the encryption filter: one record. */
    method WriteRecord(data: Bytes) returns (n: nat)
      requires Aead? && CanWrite() && |data| > 0 && WriteAligned(|data|)
      modifies Repr()
      ensures Valid() && CanRead()
      ensures forall o :: o in Repr() ==> o in old(Repr()) || fresh(o)
      ensures 0 < n <= |data| && Pos() == old(Pos()) + n
      ensures Contents() == Overwrite(old(Contents()), old(Pos()), data[..n])
      ensures Elsewhere() == old(Elsewhere())
      ensures n < |data| ==> CanWrite() && WriteAligned(|data| - n)
      ensures AtBlock() ==> CanWrite()
      ensures Ended() == EndedAfter(old(Ended()), |old(Contents())|, |Contents()|)
      ensures Requests() == old(Requests()) + [WriteIo(old(Pos()), |data|, |old(Contents())|)]
      decreases Level(), 1, 2
    {
      hide Lower.WriteAligned, Lower.AtBlock, Lower.EndedAfter;
      hide AeadFilter.Valid, AeadFilter.AtRecord, AeadFilter.AtEnd;
      RecordsGiven(|data|);
      a.log.requests := a.log.requests + [WriteIo(Pos(), |data|, |Contents()|)];
      ghost var i, before := a.blockNr, |a.plain|;
      RecordEnds(Min(|data|, a.key.plainSize));
      n := a.Write(data);
      RestGiven(i, |data|, n, before);
    }

    lemma BytesGiven(size: nat)
      requires Valid() && !Aead?
      ensures WriteAligned(size) && Ended()
      ensures forall before: nat, after: nat :: EndedAfter(true, before, after)
    {
    }

    /** The sizes tell whether a record that is written here leaves the last record in place. */
    lemma RecordEnds(size: nat)
      requires Aead? && a.AtRecord() && 1 <= size <= a.key.plainSize
      requires size == a.key.plainSize || |a.plain| <= a.position + size
      ensures a.EndedBy(size) == EndedAfter(a.ended, |a.plain|, Max(|a.plain|, a.position + size))
    {
      a.EndedTells(size);
    }

    /** An aligned write of records fills one, or reaches the end of the file. */
    lemma RecordsGiven(size: nat)
      requires Valid() && Aead? && WriteAligned(size) && size > 0
      ensures Unit() > 0 && (size >= a.key.plainSize || |Contents()| <= Pos() + size)
      ensures size % Unit() != 0 ==> |Contents()| <= Pos() + size
    {
      SmallRemainder(size, Unit());
    }

    /** After a full record the rest of an aligned write is aligned; after a short one nothing more can be written. */
    lemma RestGiven(i: nat, size: nat, n: nat, before: nat)
      requires Valid() && Aead? && Unit() > 0 && n == Min(size, Unit()) > 0
      requires Pos() == Times(i, Unit()) + n && |Contents()| == Max(before, Pos())
      requires size % Unit() != 0 ==> before <= Pos() - n + size
      ensures n == Unit() ==> WriteAligned(size - n)
      ensures n < Unit() ==> !AtBlock()
    {
      if n == Unit() {
        RemainderOfRest(size, n);
      } else {
        EndsUnaligned(Unit(), i, n);
      }
    }

    method Seek(position: nat)
      requires Valid() && position <= |Contents()| && Unit() > 0 && position % Unit() == 0
      modifies Repr()
      ensures Valid() && CanRead() && CanWrite()
      ensures forall o :: o in Repr() ==> o in old(Repr()) || fresh(o)
      ensures Contents() == old(Contents()) && Files() == old(Files()) && Pos() == position
      ensures Ended() == old(Ended())
      ensures Requests() == old(Requests()) + [SeekIo(position)]
      decreases Level(), 2, 0
    {
      match this
      case Bottom(f) =>
        f.log.requests := f.log.requests + [SeekIo(position)];
        f.Seek(position);
      case Split(s) =>
        s.log.requests := s.log.requests + [SeekIo(position)];
        s.Seek(position);
      case Aead(a) =>
        a.log.requests := a.log.requests + [SeekIo(position)];
        var _ := a.Seek(position);
    }

    /** The end of a file of this length can be found, with its last record or without. */
    ghost predicate EndFoundAt(size: nat, ended: bool) {
      Aead? ==> a.key.plainSize >= 1 && EndFound(a.key, size, ended)
    }

    /** The end of the file can be found. */
    ghost predicate EndExact()
      requires Valid()
      reads Heads(), Repr()
    {
      EndFoundAt(|Contents()|, Ended())
    }

    /** Closing leaves a well-formed file. */
    ghost predicate ClosesWell()
      requires Valid()
      reads Heads(), Repr()
    {
      Aead? ==> a.ClosesWell()
    }

    /** The last record of an encrypted file is there. */
    ghost predicate Ended()
      reads Heads()
    {
      Aead? ==> a.ended
    }

    /** A file of this length has a short last record that is not empty. */
    ghost predicate EndsShort(size: nat) {
      Aead? ==> a.key.plainSize >= 1 && size % a.key.plainSize != 0
    }

    /** A record that is not empty and not full can only be the last. */
    lemma ShortIsEnded()
      requires Valid()
      ensures Ended() == EndedAfter(Ended(), |Contents()|, |Contents()|)
    {
    }

    /** Whether the last record is there after the file became this long, or was written inside. */
    ghost predicate EndedAfter(ended: bool, before: nat, after: nat) {
      EndsShort(after) || (ended && after == before)
    }

    lemma EndedTwice(ended: bool, first: nat, second: nat, third: nat)
      requires first <= second <= third
      ensures EndedAfter(EndedAfter(ended, first, second), second, third) == EndedAfter(ended, first, third)
    {
    }

    /** The last record is there, or its number is at hand, exactly if it is there or the file ends here. */
    lemma ClosesAtEnd()
      requires Valid() && CanRead()
      ensures ClosesWell() <==> Ended() || Pos() == |Contents()|
      ensures Aead? ==> a.plain == Contents()
    {
      if Aead? && a.AtRecord() {
        TimesDivides(a.blockNr, a.key.plainSize, 0);
        Divide(|a.plain|, a.key.plainSize);
      }
    }

    /** Only behind a last record that was read is there no room for another. */
    lemma NotEndedCanWrite()
      requires Valid() && CanRead()
      ensures CanWrite() || (Aead? && Ended() && Pos() == |Contents()|)
    {
      if Aead? && !a.ended && a.AtEnd() {
        Divide(|a.plain|, a.key.plainSize);
        StoredLength(a.key, a.plain, 0, false, a.blockNr);
      }
    }

    method Close()
      requires Valid()
      modifies Repr()
      ensures old(ClosesWell()) || !Aead? ==> Valid() && Contents() == old(Contents()) && ClosesWell()
      ensures old(ClosesWell()) && Aead? ==> a.ended
      ensures Aead? ==> a.next.Valid() && a.key.plainSize >= 1
      ensures Aead? && old(CanRead()) && ApartIn(a.key, |old(a.plain)|) ==>
        (a.next.Contents() == a.header + Body(a.key, old(a.plain), true) <==> old(ClosesWell()))
      ensures old(Ended()) ==> Files() == old(Files())
      decreases Level(), 2, 0
    {
      if Aead? {
        if CanRead() {
          a.StandsInside();
        }
        a.Close();
      }
    }

    /** Finds the length of the file. The position is not to be relied on afterwards. */
    method SeekEnd() returns (size: nat)
      requires Valid() && EndExact()
      modifies Repr()
      ensures Valid()
      ensures forall o :: o in Repr() ==> o in old(Repr()) || fresh(o)
      ensures Contents() == old(Contents()) && Files() == old(Files())
      ensures size == |Contents()|
      ensures Bottom? ==> CanRead() && Pos() == size
      ensures Ended() == old(Ended())
      ensures Requests() == old(Requests()) + [EndIo]
      decreases Level(), 2, 0
    {
      hide FileSplit.Valid, FileSplit.Positioned, FileSplit.Contents, AeadFilter.AtRecord, AeadFilter.AtEnd;
      match this
      case Bottom(f) =>
        f.log.requests := f.log.requests + [EndIo];
        size := f.SeekEnd();
      case Split(s) =>
        s.log.requests := s.log.requests + [EndIo];
        size := s.SeekEnd();
      case Aead(a) =>
        a.log.requests := a.log.requests + [EndIo];
        a.EndInside();
        var e;
        size, e := a.SeekEnd();
    }
  }

  /** Copies data into an array. */
  method CopyBytes(a: array<Byte>, offset: nat, data: Bytes)
    requires offset + |data| <= a.Length
    modifies a
    ensures a[..] == Overwrite(old(a[..]), offset, data)
  {
    forall i | 0 <= i < |data| {
      a[offset + i] := data[i];
    }
  }

  lemma EndsUnaligned(size: nat, i: nat, n: nat)
    requires 0 < n < size
    ensures (Times(i, size) + n) % size != 0
  {
    TimesDivides(i, size, n);
  }

  /** A one-block write-back cache: turns a byte stream into transfers of whole blocks. */
  class Buffered {
    const next: Lower
    const blockSize: Positive
    const readable: bool
    const buf: array<Byte>
    var dirty: bool
    var position: nat
    var bufPosition: int
    var bufActual: nat

    ghost function Repr(): set<object>
      reads next.Heads()
    {
      next.Repr() + {this, buf}
    }

    ghost function State(): BufState
      requires next.Valid()
      reads this, buf, next.Heads(), next.Repr()
    {
      BufState(blockSize, next.Unit(), next.Contents(), next.Pos(), next.CanWrite(),
               buf[..], dirty, position, bufPosition, bufActual)
    }

    /** Apart from what the cache holds and where it stands. */
    ghost predicate Framed()
      reads this, buf, next.Heads(), next.Repr()
    {
      && this !in next.Repr() && buf !in next.Repr()
      && next.Valid() && next.CanRead()
      && readable && AllAligned(next.Requests(), blockSize)
    }

    ghost predicate Valid()
      reads this, buf, next.Heads(), next.Repr()
    {
      Framed() && Inv(State())
    }

    /** The file that the caller sees. */
    ghost function Contents(): Bytes
      requires Valid()
      reads this, buf, next.Heads(), next.Repr()
      ensures position <= |Contents()|
    {
      Flat(State())
    }

    /** The next stage can be written where it stands, should the buffer be passed by. */
    ghost predicate CanWrite()
      reads this, buf, next.Heads(), next.Repr()
      ensures CanWrite() ==> Valid()
    {
      Valid() && (bufActual == 0 ==> next.CanWrite())
    }

    ghost predicate CanTake(size: nat)
      reads this, buf, next.Heads(), next.Repr()
      ensures CanTake(size) ==> Valid()
    {
      Valid() && (bufActual == 0 && size >= blockSize ==> next.CanWrite())
    }

    /** An encrypted file below has its last record once the buffer is flushed. */
    ghost predicate Whole()
      requires Valid()
      reads this, buf, next.Heads(), next.Repr()
    {
      next.EndedAfter(next.Ended(), |next.Contents()|, |Contents()|)
    }

    ghost function Cached(): Cache
      reads this
    {
      Cache(bufPosition, bufActual > 0)
    }

    /** The next read must fetch another block: only such a read may yield nothing before the end. */
    ghost predicate Drained()
      reads this
    {
      UsedUp(Cached(), position, blockSize)
    }

    /** Negotiates the block size: a multiple of what the next stage asks for. */
    constructor Open(next: Lower, suggestedSize: nat, prevSize: nat)
      requires next.Valid() && next.CanRead() && next.CanWrite() && next.Pos() == 0 && next.Unit() >= 1
      requires suggestedSize >= 1 && next.Requests() == []
      ensures Valid() && CanWrite() && position == 0 && Contents() == next.Contents()
      ensures Cached() == Cache(0, false) && !dirty && Whole() == next.Ended()
      ensures this.next == next && fresh(Repr() - next.Repr())
      ensures blockSize == RoundUp(Max(suggestedSize, prevSize), next.Unit())
      ensures blockSize % next.Unit() == 0 && blockSize >= suggestedSize && blockSize >= prevSize
      ensures next.Requests() == []
    {
      hide Lower.Valid, Lower.Contents, Lower.CanRead, Lower.CanWrite, Lower.Pos, Lower.Requests, Lower.EndedAfter;
      hide Lower.Heads, Lower.Repr, Inv, RoundUp;
      assert allocated(next.Repr()) && allocated(next.Heads());
      var size := RoundUp(Max(suggestedSize, prevSize), next.Unit());
      this.next := next;
      readable := true;
      blockSize := size;
      buf := new Byte[size];
      dirty, position, bufPosition, bufActual := false, 0, 0, 0;
      new;
      OpensEmpty(State());
      next.ShortIsEnded();
      assert Framed();
    }

    /** Writes the buffer downstream if it is dirty. Does not change what the buffer holds. */
    method FlushBuffer()
      requires Valid()
      modifies next.Repr(), this`dirty
      ensures Valid()
      ensures forall o :: o in next.Repr() ==> o in old(next.Repr()) || fresh(o)
      ensures State() == if old(dirty) then Flushed(old(State()), next.CanWrite()) else old(State())
      ensures Contents() == old(Contents()) == next.Contents()
      ensures !old(dirty) ==> next.Files() == old(next.Files())
      ensures next.Ended() == old(Whole())
      ensures SeekCount(next.Requests()) == SeekCount(old(next.Requests()))
      ensures Whole() == old(Whole())
      decreases 2, 0, 1
    {
      hide Lower.Valid, Lower.Contents, Lower.CanRead, Lower.CanWrite, Lower.Files, Lower.Pos, Lower.Heads;
      hide Lower.Repr, Lower.Requests;
      hide Transfer, SeekCount;
      hide Lower.EndsShort;
      hide Inv, Shape, Placed, AllAligned, Io.Aligned, Overwrite;
      ghost var s := State();
      Ranges(s);
      next.ShortIsEnded();
      if dirty && bufActual > 0 {
        WriteBuffer();
        FlushKeeps(s, next.CanWrite());
      }
      dirty := false;
      assert State() == if old(dirty) then Flushed(s, next.CanWrite()) else s;
    }

    /** Writes what the buffer holds to the next stage. */
    method WriteBuffer()
      requires Valid() && dirty
      modifies next.Repr()
      ensures Framed()
      ensures forall o :: o in next.Repr() ==> o in old(next.Repr()) || fresh(o)
      ensures State() == old(State()).(disk := old(Contents()), diskPos := bufPosition + bufActual,
                                       canWrite := next.CanWrite())
      ensures next.Unit() > 0 && ((bufPosition + bufActual) % next.Unit() == 0 ==> next.CanWrite())
      ensures next.Ended() == old(Whole())
      ensures SeekCount(next.Requests()) == SeekCount(old(next.Requests()))
      decreases 2, 0, 0
    {
      hide Lower.Valid, Lower.Contents, Lower.CanRead, Lower.CanWrite, Lower.Files, Lower.Pos, Lower.Heads;
      hide Lower.Repr, Lower.Requests;
      hide Transfer, SeekCount;
      hide Lower.EndsShort;
      hide Inv, Shape, Placed, AllAligned, Io.Aligned, Overwrite;
      ghost var s, before := State(), next.Requests();
      Ranges(s);
      FlushAligned(s);
      var held := buf[..bufActual];
      assert held[..bufActual] == held;
      var _, _ := WriteAll(Low(next), held, OK);
      assert Low(next).Repr() == next.Repr();
      TransferKeeps(before, next.Requests(), WriteIo(bufPosition, bufActual, |s.disk|), blockSize);
    }

    /** Reads whole blocks from the next stage, as far as the file goes. */
    method Fetch(size: nat) returns (all: Bytes, e: Error)
      requires Valid() && !dirty && bufActual == 0 && size > 0 && size % blockSize == 0
      modifies next.Repr()
      ensures Framed()
      ensures forall o :: o in next.Repr() ==> o in old(next.Repr()) || fresh(o)
      ensures next.Files() == old(next.Files()) && next.Ended() == old(next.Ended())
      ensures State() == old(State()).(diskPos := bufPosition + |all|, canWrite := next.CanWrite())
      ensures 0 <= bufPosition && |all| == Min(size, |old(Contents())| - bufPosition)
      ensures bufPosition + |all| <= |old(Contents())|
      ensures all == old(Contents())[bufPosition..bufPosition + |all|]
      ensures e == if all == [] then EOF else OK
      ensures |all| == size ==> next.CanWrite()
      ensures SeekCount(next.Requests()) == SeekCount(old(next.Requests()))
      decreases 2, 0, 0
    {
      hide Lower.Valid, Lower.Contents, Lower.CanRead, Lower.CanWrite, Lower.Files, Lower.Pos, Lower.Heads;
      hide Lower.Repr, Lower.Requests;
      hide Transfer, SeekCount;
      hide Lower.EndsShort;
      hide Inv, Shape, Placed, AllAligned, Io.Aligned, Overwrite;
      ghost var s, before := State(), next.Requests();
      Ranges(s);
      MultipleTransitive(size, blockSize, next.Unit());
      BlocksAligned(s, size);
      all, e := ReadAll(Low(next), size, OK);
      assert Low(next).Repr() == next.Repr();
      TransferKeeps(before, next.Requests(), ReadIo(bufPosition, size), blockSize);
    }

    /** Reads a block into the empty buffer. */
    method FillBuffer() returns (e: Error)
      requires Valid() && !dirty && bufActual == 0
      modifies next.Repr(), buf, this`bufActual
      ensures Valid()
      ensures forall o :: o in next.Repr() ==> o in old(next.Repr()) || fresh(o)
      ensures Contents() == old(Contents())
      ensures next.Files() == old(next.Files())
      ensures bufActual == Min(blockSize, |Contents()| - bufPosition)
      ensures e == if bufActual == 0 then EOF else OK
      ensures Whole() == old(Whole())
      ensures SeekCount(next.Requests()) == SeekCount(old(next.Requests()))
      decreases 2, 0, 1
    {
      hide Lower.Valid, Lower.Contents, Lower.CanRead, Lower.CanWrite, Lower.Files, Lower.Pos, Lower.Heads;
      hide Lower.Repr, Lower.Requests;
      hide Transfer, SeekCount;
      hide Lower.EndsShort;
      hide Inv, Shape, Placed, AllAligned, Io.Aligned, Overwrite;
      ghost var s := State();
      Ranges(s);
      MultipleMod(1, blockSize);
      var data;
      data, e := Fetch(blockSize);
      assert allocated(next.Repr()) && allocated(next.Heads());
      CopyBytes(buf, 0, data);
      OverwriteRead(s.buf, 0, data);
      bufActual := |data|;
      FillKeeps(s, State());
    }

    /** Copies data into the buffer at the position, up to the end of the buffer. */
    method CopyIn(data: Bytes) returns (actual: nat)
      requires Framed() && buf.Length == blockSize && bufPosition <= position <= bufPosition + blockSize
      modifies buf, this`bufActual
      ensures Framed() && next.Repr() == old(next.Repr()) && next.Files() == old(next.Files())
      ensures State() == old(State()).(buf := buf[..], bufActual := bufActual)
      ensures actual == Min(blockSize - (position - bufPosition), |data|)
      ensures buf[..] == Overwrite(old(buf[..]), position - bufPosition, data[..actual])
      ensures bufActual == Max(old(bufActual), position - bufPosition + actual)
      ensures next.Ended() == old(next.Ended())
      ensures next.Requests() == old(next.Requests())
    {
      hide Lower.Valid, Lower.Contents, Lower.CanRead, Lower.CanWrite, Lower.Files, Lower.Pos, Lower.Heads;
      hide Lower.Repr, Lower.Requests;
      hide Transfer, SeekCount;
      hide AllAligned, Overwrite;
      var offset := position - bufPosition;
      actual := Min(blockSize - offset, |data|);
      assert allocated(next.Repr()) && allocated(next.Heads());
      CopyBytes(buf, offset, data[..actual]);
      if offset + actual > bufActual {
        bufActual := offset + actual;
      }
    }

    /** Leaves a used-up block for an empty buffer at the next one. */
    method NextBlock()
      requires Valid() && bufActual == blockSize && position == bufPosition + blockSize
      modifies next.Repr(), this`dirty, this`bufPosition, this`bufActual
      ensures Valid()
      ensures forall o :: o in next.Repr() ==> o in old(next.Repr()) || fresh(o)
      ensures !dirty && bufActual == 0 && bufPosition == position == old(position)
      ensures !old(dirty) ==> next.Files() == old(next.Files())
      ensures Contents() == old(Contents()) && CanWrite()
      ensures Whole() == old(Whole())
      ensures SeekCount(next.Requests()) == SeekCount(old(next.Requests()))
      decreases 2, 1, 0
    {
      hide Lower.Valid, Lower.Contents, Lower.CanRead, Lower.CanWrite, Lower.Files, Lower.Pos, Lower.Heads;
      hide Lower.Repr, Lower.Requests;
      hide Transfer, SeekCount;
      hide Lower.EndsShort;
      hide Inv, Shape, Placed, AllAligned, Io.Aligned, Overwrite;
      FlushBuffer();
      AdvanceKeeps(State());
      bufPosition := bufPosition + blockSize;
      bufActual := 0;
    }

    /** Moves over the whole blocks that were read; the bytes of a partial block go into the buffer. */
    method ClawBack(all: Bytes) returns (actualBlock: nat)
      requires Framed() && bufActual == 0 && position == bufPosition && blockSize == buf.Length >= 1
      modifies buf, this`bufActual, this`position, this`bufPosition
      ensures Framed() && next.Repr() == old(next.Repr()) && next.Files() == old(next.Files())
      ensures actualBlock == RoundDown(|all|, blockSize) && bufActual == |all| - actualBlock < blockSize
      ensures State() == old(State()).(buf := buf[..], bufActual := bufActual,
        position := old(position) + actualBlock, bufPosition := old(position) + actualBlock)
      ensures buf[..bufActual] == all[actualBlock..]
      ensures next.Ended() == old(next.Ended())
      ensures next.Requests() == old(next.Requests())
    {
      hide Lower.Valid, Lower.Contents, Lower.CanRead, Lower.CanWrite, Lower.Files, Lower.Pos, Lower.Heads;
      hide Lower.Repr, Lower.Requests;
      hide Transfer, SeekCount;
      hide AllAligned, RoundDown;
      Remainder(|all|, blockSize);
      var actualPartial := |all| % blockSize;
      actualBlock := |all| - actualPartial;
      if actualPartial > 0 {
        var _ := CopyIn(all[actualBlock..]);
      }
      position := position + actualBlock;
      bufPosition := bufPosition + actualBlock;
    }

    /** Reads whole blocks past the empty buffer; a partial block is clawed back from the caller. */
    method DirectRead(size: nat) returns (data: Bytes, e: Error)
      requires Valid() && !dirty && bufActual == 0 && position == bufPosition && size > blockSize
      modifies next.Repr(), buf, this`bufPosition, this`bufActual, this`position
      ensures Valid()
      ensures forall o :: o in next.Repr() ==> o in old(next.Repr()) || fresh(o)
      ensures next.Files() == old(next.Files())
      ensures Contents() == old(Contents())
      ensures |data| == RoundDown(Min(RoundDown(size, blockSize), |Contents()| - old(position)), blockSize)
      ensures position == old(position) + |data| <= |Contents()|
      ensures data == Contents()[old(position)..position]
      ensures bufActual == Min(RoundDown(size, blockSize), |Contents()| - old(position)) - |data|
      ensures e == if old(position) == |Contents()| then EOF else OK
      ensures data == [] && e == OK ==> !Drained()
      ensures |data| == size ==> CanWrite()
      ensures position == bufPosition
      ensures Whole() == old(Whole())
      ensures SeekCount(next.Requests()) == SeekCount(old(next.Requests()))
      decreases 2, 0, 1
    {
      hide Lower.Valid, Lower.Contents, Lower.CanRead, Lower.CanWrite, Lower.Files, Lower.Pos, Lower.Heads;
      hide Lower.Repr, Lower.Requests;
      hide Transfer, SeekCount;
      hide Lower.EndsShort;
      hide Inv, Shape, Placed, AllAligned, Io.Aligned, Overwrite, RoundDown, Flat;
      ghost var s := State();
      Ranges(s);
      var alignedSize := RoundDown(size, blockSize);
      RoundsUpToBlock(size, blockSize);
      var all;
      all, e := Fetch(alignedSize);
      var actualBlock := ClawBack(all);
      data := all[..actualBlock];
      ghost var t := State();
      assert IsReadDirect(s, all, actualBlock, t);
      ReadDirectKeeps(s, alignedSize, all, actualBlock, t);
      assert Valid() && Contents() == old(Contents());
    }

    /** Writes whole blocks past the empty buffer. */
    method DirectWrite(data: Bytes) returns (n: nat)
      requires Valid() && !dirty && bufActual == 0 && position == bufPosition && |data| >= blockSize
      requires next.CanWrite()
      modifies next.Repr(), this`bufPosition, this`position
      ensures CanWrite()
      ensures forall o :: o in next.Repr() ==> o in old(next.Repr()) || fresh(o)
      ensures n == RoundDown(|data|, blockSize) && bufActual == 0 && n > 0
      ensures !dirty
      ensures position == bufPosition == old(position) + n
      ensures Contents() == Overwrite(old(Contents()), old(position), data[..n])
      ensures Whole() == next.EndedAfter(old(Whole()), |old(Contents())|, |Contents()|)
      ensures SeekCount(next.Requests()) == SeekCount(old(next.Requests()))
      decreases 2, 0, 0
    {
      hide Lower.Valid, Lower.Contents, Lower.CanRead, Lower.CanWrite, Lower.Files, Lower.Pos, Lower.Heads;
      hide Lower.Repr, Lower.Requests;
      hide Transfer, SeekCount;
      hide Lower.EndsShort;
      hide Inv, Shape, Placed, AllAligned, Io.Aligned, Overwrite, RoundDown;
      ghost var s, before := State(), next.Requests();
      Ranges(s);
      var alignedSize := RoundDown(|data|, blockSize);
      DirectStaysAligned(s, |data|);
      var blocks := data[..alignedSize];
      assert blocks[..alignedSize] == blocks;
      var e;
      n, e := WriteAll(Low(next), blocks, OK);
      TransferKeeps(before, next.Requests(), WriteIo(position, n, |s.disk|), blockSize);
      position := position + n;
      WriteDirectKeeps(s, blocks);
      bufPosition := RoundDown(position, blockSize);
      assert State() == WrittenDirect(s, blocks).(canWrite := next.CanWrite());
    }

    /** Gives to the caller what the buffer holds at the position, and moves over it. */
    method CopyOut(size: nat) returns (data: Bytes)
      requires Valid() && bufActual > 0 && position < bufPosition + blockSize
      modifies this`position
      ensures Valid() && Contents() == old(Contents()) && next.Repr() == old(next.Repr())
      ensures next.Files() == old(next.Files())
      ensures |data| == Min(bufActual - (old(position) - bufPosition), size)
      ensures position == old(position) + |data| <= |Contents()|
      ensures data == Contents()[old(position)..position]
      ensures data == [] && size > 0 ==> old(position) == |Contents()|
      ensures |data| < size ==> position == |Contents()| || position == bufPosition + blockSize
      ensures Whole() == old(Whole())
      ensures next.Requests() == old(next.Requests())
    {
      hide Lower.Valid, Lower.Contents, Lower.CanRead, Lower.CanWrite, Lower.Files, Lower.Pos, Lower.Heads;
      hide Lower.Repr, Lower.Requests;
      hide Transfer, SeekCount;
      hide Lower.EndsShort;
      hide Inv, Shape, Placed, AllAligned, Io.Aligned, Overwrite;
      ghost var s := State();
      Ranges(s);
      var offset := position - bufPosition;
      var actual := Min(bufActual - offset, size);
      CopyOutReads(s, size, actual);
      ConsumeKeeps(s, actual);
      data := buf[offset..offset + actual];
      position := position + actual;
      assert State() == s.(position := position);
    }

    /** Positions the next stage at the start of the buffer's block, where the buffer will be written. */
    method Rewind()
      requires Valid() && !dirty
      modifies next.Repr()
      ensures Framed() && SeekCount(next.Requests()) == SeekCount(old(next.Requests())) + 1
      ensures forall o :: o in next.Repr() ==> o in old(next.Repr()) || fresh(o)
      ensures State() == old(State()).(diskPos := bufPosition, canWrite := true)
      ensures next.Ended() == old(next.Ended()) && next.Files() == old(next.Files())
      decreases 2, 0, 0
    {
      hide Lower.Valid, Lower.Contents, Lower.CanRead, Lower.CanWrite, Lower.Files, Lower.Pos, Lower.Heads;
      hide Lower.Repr, Lower.Requests;
      hide Transfer, SeekCount;
      hide Lower.EndsShort;
      hide Inv, Shape, Placed, AllAligned, Io.Aligned, Overwrite;
      Ranges(State());
      ghost var before := next.Requests();
      next.Seek(bufPosition);
      SeekMore(before, bufPosition, blockSize);
    }

    /** Copies in and moves the position, after seeking back if the buffer was clean. */
    method PutInBuffer(data: Bytes) returns (n: nat)
      requires Valid() && |data| > 0 && position < bufPosition + blockSize
      requires bufActual == 0 ==> bufPosition == |Contents()|
      modifies Repr()
      ensures CanWrite()
      ensures forall o :: o in Repr() ==> o in old(Repr()) || fresh(o)
      ensures n == Min(blockSize - (old(position) - bufPosition), |data|)
      ensures position == old(position) + n && dirty && bufActual > 0 && bufPosition == old(bufPosition)
      ensures next.Files() == old(next.Files())
      ensures Contents() == Overwrite(old(Contents()), old(position), data[..n])
      ensures SeekCount(next.Requests()) == SeekCount(old(next.Requests())) + if old(dirty) then 0 else 1
      ensures Whole() == next.EndedAfter(old(Whole()), |old(Contents())|, |Contents()|)
      decreases 2, 1, 0
    {
      hide Lower.Valid, Lower.Contents, Lower.CanRead, Lower.CanWrite, Lower.Files, Lower.Pos, Lower.Heads;
      hide Lower.Repr, Lower.Requests;
      hide Transfer, SeekCount;
      hide Lower.EndsShort, Lower.EndedAfter;
      hide Inv, Shape, Placed, AllAligned, Io.Aligned, Overwrite, Flat;
      Ranges(State());
      RewindReady(State());
      if !dirty {
        Rewind();
      }
      ghost var s, before := State(), |old(Contents())|;
      n := CopyIn(data);
      CopyInReady(s, data[..n]);
      next.EndedTwice(next.Ended(), |s.disk|, before, |Overwrite(old(Contents()), position, data[..n])|);
      position := position + n;
      dirty := true;
      assert State() == CopiedIn(s, data[..n]);
    }

    /** Reads from the buffer, which is filled first if it is empty. */
    method ReadBuffered(size: nat) returns (data: Bytes, e: Error)
      requires Valid() && size > 0 && position < bufPosition + blockSize
      requires bufActual == 0 ==> !(position == bufPosition && size > blockSize) && !dirty
      requires bufActual > 0 ==> position < bufPosition + bufActual
      modifies Repr()
      ensures Valid()
      ensures forall o :: o in Repr() ==> o in old(Repr()) || fresh(o)
      ensures Contents() == old(Contents())
      ensures dirty == old(dirty) && next.Files() == old(next.Files())
      ensures |data| <= size && position == old(position) + |data| <= |Contents()|
      ensures data == Contents()[old(position)..position]
      ensures e == OK || (e == EOF && data == [] && old(position) == |Contents()|)
      ensures data == [] ==> (e == OK <==> old(bufActual) == 0 && !Drained())
      ensures (Cached(), |data|) == CacheRead(old(Cached()), old(position), size, |Contents()|, blockSize)
      ensures |data| == size ==> CanWrite()
      ensures SeekCount(next.Requests()) == SeekCount(old(next.Requests()))
      ensures Whole() == old(Whole())
      decreases 2, 1, 0
    {
      hide Lower.Valid, Lower.Contents, Lower.CanRead, Lower.CanWrite, Lower.Files, Lower.Pos, Lower.Heads;
      hide Lower.Repr, Lower.Requests;
      hide Transfer, SeekCount;
      hide Lower.EndsShort;
      hide CacheRead, CacheWrite, RoundDown;
      hide Inv, Shape, Placed, AllAligned, Io.Aligned, Overwrite;
      Ranges(State());
      if bufActual == 0 {
        ReadsFill(bufPosition, position, size, |Contents()|, blockSize);
        e := FillBuffer();
        if e != OK {
          return [], e;
        }
      } else {
        ReadsOut(bufPosition, position, size, |Contents()|, blockSize);
      }
      data := CopyOut(size);
      e := OK;
    }

    method Read(size: nat) returns (data: Bytes, e: Error)
      requires Valid() && size > 0
      modifies Repr()
      ensures Valid()
      ensures forall o :: o in Repr() ==> o in old(Repr()) || fresh(o)
      ensures Contents() == old(Contents())
      ensures !old(dirty) ==> !dirty && next.Files() == old(next.Files())
      ensures old(position) < old(bufPosition) + blockSize ==> dirty == old(dirty) && next.Files() == old(next.Files())
      ensures |data| <= size && position == old(position) + |data| <= |Contents()|
      ensures data == Contents()[old(position)..position]
      ensures e == OK || e == EOF
      ensures e == EOF ==> data == [] && old(position) == |Contents()|
      ensures data == [] ==> (e == OK <==> old(Drained()) && !Drained())
      ensures (Cached(), |data|) == CacheRead(old(Cached()), old(position), size, |Contents()|, blockSize)
      // Whole blocks are read past an empty buffer, and all else out of it, up to the end of its block or of the file.
      ensures
        var atNext := old(position) == old(bufPosition) + blockSize;
        var past := size > blockSize && (atNext || (old(position) == old(bufPosition) && old(bufActual) == 0));
        var rest := |Contents()| - old(position);
        |data| == if past then RoundDown(Min(RoundDown(size, blockSize), rest), blockSize)
                  else Min(Min(size, rest), if atNext then blockSize else old(bufPosition) + blockSize - old(position))
      ensures |data| == size ==> CanWrite()
      ensures SeekCount(next.Requests()) == SeekCount(old(next.Requests()))
      ensures Whole() == old(Whole())
      decreases 2, 2, 0
    {
      hide Lower.Valid, Lower.Contents, Lower.CanRead, Lower.CanWrite, Lower.Files, Lower.Pos, Lower.Heads;
      hide Lower.Repr, Lower.Requests;
      hide Transfer, SeekCount;
      hide Lower.EndsShort;
      hide CacheRead, CacheWrite, RoundDown;
      hide Inv, Shape, Placed, AllAligned, Io.Aligned, Overwrite;
      Ranges(State());
      ReadYields(Cached(), position, size, |Contents()|, blockSize);
      if position == bufPosition + bufActual && bufActual > 0 {
        if bufActual < blockSize {
          ReadsOut(bufPosition, position, size, |Contents()|, blockSize);
          return [], EOF;
        }
        ReadsOn(Cached(), position, size, |Contents()|, blockSize);
        NextBlock();
      }
      if position == bufPosition && size > blockSize && bufActual == 0 {
        ReadsPast(position, size, |Contents()|, blockSize);
        data, e := DirectRead(size);
        return;
      }
      data, e := ReadBuffered(size);
    }

    method Write(data: Bytes) returns (n: nat)
      requires CanTake(|data|) && |data| > 0
      modifies Repr()
      ensures Valid() && CanWrite()
      ensures forall o :: o in Repr() ==> o in old(Repr()) || fresh(o)
      ensures n < |data| ==> CanTake(|data| - n)
      ensures n < |data| ==> position == bufPosition || position == bufPosition + blockSize
      ensures (Cached(), n) == CacheWrite(old(Cached()), old(position), |data|, blockSize)
      // Whole blocks that start where the buffer is empty go past it. All else goes into the buffer, and no further.
      ensures
        var atNext := old(position) == old(bufPosition) + blockSize;
        var past := |data| >= blockSize && (atNext || (old(position) == old(bufPosition) && old(bufActual) == 0));
        && (past ==> n == RoundDown(|data|, blockSize) && !dirty)
        && (!past ==> n == Min(|data|, if atNext then blockSize else old(bufPosition) + blockSize - old(position)))
        && (!past ==> dirty && (!(atNext && old(dirty)) ==> next.Files() == old(next.Files())))
        && SeekCount(next.Requests())
           == SeekCount(old(next.Requests())) + if !past && (atNext || !old(dirty)) then 1 else 0
      ensures 0 < n <= |data| && position == old(position) + n
      ensures Contents() == Overwrite(old(Contents()), old(position), data[..n])
      ensures Whole() == next.EndedAfter(old(Whole()), |old(Contents())|, |Contents()|)
      decreases 2, 2, 0
    {
      hide Lower.Valid, Lower.Contents, Lower.CanRead, Lower.CanWrite, Lower.Files, Lower.Pos, Lower.Heads;
      hide Lower.Repr, Lower.Requests;
      hide Transfer, SeekCount;
      hide Lower.EndsShort;
      hide CacheRead, CacheWrite, RoundDown;
      hide Inv, Shape, Placed, AllAligned, Io.Aligned, Overwrite;
      Ranges(State());
      if position == bufPosition + blockSize {
        WritesOn(Cached(), position, |data|, blockSize);
        NextBlock();
      }
      if bufActual == 0 && position == bufPosition && |data| >= blockSize {
        WritesPast(position, |data|, blockSize);
        n := DirectWrite(data);
        return;
      }
      WritesInto(Cached(), position, |data|, blockSize);
      if bufActual == 0 && readable {
        // The end of the file is not an error here.
        var _ := FillBuffer();
      }
      n := PutInBuffer(data);
    }

    /** The end of the file can be found, once the buffer has been flushed. */
    ghost predicate EndExact()
      requires Valid()
      reads this, buf, next.Heads(), next.Repr()
    {
      next.EndFoundAt(|Contents()|, Whole())
    }

    /** Positions the next stage at the start of another block and drops the clean buffer. */
    method MoveTo(newBlock: nat, newPosition: nat)
      requires this !in next.Repr() && buf !in next.Repr() && next.Valid()
      requires readable && AllAligned(next.Requests(), blockSize) && buf.Length == blockSize && !dirty
      requires next.Unit() >= 1 && blockSize % next.Unit() == 0
      requires newPosition <= |next.Contents()| && newBlock == RoundDown(newPosition, blockSize)
      modifies next.Repr(), this`bufPosition, this`bufActual, this`position
      ensures Valid() && CanWrite() && position == newPosition && bufPosition == newBlock && bufActual == 0
      ensures forall o :: o in next.Repr() ==> o in old(next.Repr()) || fresh(o)
      ensures next.Files() == old(next.Files())
      ensures Contents() == old(next.Contents())
      ensures Whole() == next.EndedAfter(old(next.Ended()), |old(next.Contents())|, |old(next.Contents())|)
      ensures SeekCount(next.Requests()) == SeekCount(old(next.Requests())) + 1
      decreases 2, 0, 0
    {
      hide Lower.Valid, Lower.Contents, Lower.CanRead, Lower.CanWrite, Lower.Files, Lower.Pos, Lower.Heads;
      hide Lower.Repr, Lower.Requests;
      hide Transfer, SeekCount;
      hide Lower.EndsShort;
      hide Inv, Shape, Placed, AllAligned, Io.Aligned, Overwrite;
      MultipleTransitive(newBlock, blockSize, next.Unit());
      ghost var before := next.Requests();
      next.Seek(newBlock);
      SeekMore(before, newBlock, blockSize);
      bufPosition := newBlock;
      bufActual := 0;
      position := newPosition;
      assert next.Valid() && next.CanRead() && next.CanWrite();
      ghost var s := State();
      MoveKeeps(s.(bufActual := 0), newPosition);
      assert s == Moved(s, newPosition);
    }

    /**
     Seeks to a position in the file, or to its end. Within the buffer's block only the position moves;
     otherwise the next stage is positioned at the start of the new block.
     */
    method Seek(newPosition: int) returns (size: nat)
      requires Valid()
      requires newPosition == FILE_END_POSITION || 0 <= newPosition <= |Contents()|
      requires newPosition == FILE_END_POSITION ==> EndExact()
      modifies Repr()
      ensures Valid()
      ensures forall o :: o in Repr() ==> o in old(Repr()) || fresh(o)
      ensures Contents() == old(Contents())
      ensures !old(dirty) ==> !dirty && next.Files() == old(next.Files())
      ensures newPosition >= 0 && RoundDown(newPosition, blockSize) == old(bufPosition) ==>
        dirty == old(dirty) && next.Files() == old(next.Files())
      ensures newPosition < 0 || RoundDown(newPosition, blockSize) != old(bufPosition) ==> !dirty
      ensures position == size == if newPosition == FILE_END_POSITION then |Contents()| else newPosition
      ensures newPosition == FILE_END_POSITION || newPosition < |Contents()| || old(CanWrite()) ==> CanWrite()
      ensures Whole() == old(Whole())
      ensures SeekCount(next.Requests()) == SeekCount(old(next.Requests()))
        + if newPosition == FILE_END_POSITION then 2
          else if RoundDown(newPosition, blockSize) == old(bufPosition) then 0 else 1
      ensures Cached() == if newPosition == FILE_END_POSITION then Cache(RoundDown(|Contents()|, blockSize), false)
                          else CacheSeek(old(Cached()), newPosition, blockSize)
      decreases 2, 2, 0
    {
      hide Lower.Valid, Lower.Contents, Lower.CanRead, Lower.CanWrite, Lower.Files, Lower.Pos, Lower.Heads;
      hide Lower.Repr, Lower.Requests;
      hide Transfer, SeekCount;
      hide Lower.EndsShort;
      hide Inv, Shape, Placed, AllAligned, Io.Aligned, Overwrite;
      hide Lower.EndFoundAt, Flat;
      var target := newPosition;
      Ranges(State());
      if newPosition == FILE_END_POSITION {
        FlushBuffer();
        // An invalid position, so that the next stage is always positioned anew.
        bufPosition := FILE_END_POSITION;
        ghost var before := next.Requests();
        target := next.SeekEnd();
        OneMore(before, EndIo, blockSize);
      }
      size := target;
      var newBlock := RoundDown(size, blockSize);
      if newBlock != bufPosition {
        if dirty {
          FlushBuffer();
        }
        MoveTo(newBlock, size);
      } else {
        SeekStays(State(), size);
        position := size;
      }
    }

    /** Puts what is dirty downstream. */
    method Sync()
      requires Valid()
      modifies next.Repr(), this`dirty
      ensures Valid() && !dirty && position == old(position)
      ensures forall o :: o in next.Repr() ==> o in old(next.Repr()) || fresh(o)
      ensures !old(dirty) ==> next.Files() == old(next.Files())
      ensures next.Contents() == Contents() == old(Contents())
      ensures old(CanWrite()) ==> CanWrite()
      ensures Whole() == old(Whole())
      ensures SeekCount(next.Requests()) == SeekCount(old(next.Requests()))
      ensures Cached() == old(Cached())
      decreases 2, 1, 0
    {
      hide Lower.Valid, Lower.Contents, Lower.CanRead, Lower.CanWrite, Lower.Files, Lower.Pos, Lower.Heads;
      hide Lower.Repr, Lower.Requests;
      hide Transfer, SeekCount;
      hide Lower.EndsShort;
      hide Inv, Shape, Placed, AllAligned, Io.Aligned, Overwrite;
      Ranges(State());
      FlushBuffer();
      Ranges(State());
    }

    /** The last record is there, or what the buffer holds reaches to the end, so that its number is at hand. */
    ghost predicate ClosesWell()
      requires Valid()
      reads this, buf, next.Heads(), next.Repr()
    {
      Whole() || Reaches(Cached(), |Contents()|, blockSize)
    }

    /** Closes the file below. An encrypted file gets its last record, unless it is there. */
    method Close()
      requires Valid()
      modifies Repr()
      ensures old(ClosesWell()) || !next.Aead? ==> next.Valid() && next.Contents() == old(Contents())
      ensures old(ClosesWell()) && next.Aead? ==> next.a.ended
      ensures next.Aead? ==> next.a.next.Valid() && next.a.key.plainSize >= 1
      ensures next.Aead? && ApartIn(next.a.key, |old(Contents())|) ==>
        (next.a.next.Contents() == next.a.header + Body(next.a.key, old(Contents()), true) <==> old(ClosesWell()))
      ensures !old(dirty) && old(Whole()) ==> next.Files() == old(next.Files())
      decreases 2, 1, 0
    {
      hide Lower.Valid, Lower.Contents, Lower.CanRead, Lower.CanWrite, Lower.Files, Lower.Pos, Lower.Heads;
      hide Lower.Repr, Lower.Requests;
      hide Transfer, SeekCount;
      hide Lower.EndsShort, ApartIn;
      hide Inv, Shape, Placed, AllAligned, Io.Aligned, Overwrite;
      Ranges(State());
      FlushBuffer();
      Ranges(State());
      next.ClosesAtEnd();
      assert next.ClosesWell() <==> old(ClosesWell());
      next.Close();
    }
  }

  /** A stage that a transfer loop drives. */
  datatype Next = Low(l: Lower) | Buf(b: Buffered) {
    ghost function Heads(): set<object> {
      match this
      case Low(l) => l.Heads()
      case Buf(b) => {b, b.buf} + b.next.Heads()
    }

    ghost function Repr(): set<object>
      reads Heads()
      ensures Heads() <= Repr()
    {
      match this
      case Low(l) => l.Repr()
      case Buf(b) => b.Repr()
    }

    ghost predicate Valid()
      reads Heads(), Repr()
    {
      match this
      case Low(l) => l.Valid()
      case Buf(b) => b.Valid()
    }

    ghost function Contents(): Bytes
      requires Valid()
      reads Heads(), Repr()
    {
      match this
      case Low(l) => l.Contents()
      case Buf(b) => b.Contents()
    }

    ghost function Pos(): nat
      reads Heads()
    {
      match this
      case Low(l) => l.Pos()
      case Buf(b) => b.position
    }

    ghost predicate CanRead()
      reads Heads(), Repr()
      ensures CanRead() ==> Valid() && Pos() <= |Contents()|
    {
      match this
      case Low(l) => l.CanRead()
      case Buf(b) => b.Valid()
    }

    ghost predicate CanWrite()
      reads Heads(), Repr()
    {
      match this
      case Low(l) => l.CanWrite()
      case Buf(b) => b.CanWrite()
    }

    /** A write of this many bytes can be taken. */
    ghost predicate CanTake(size: nat)
      reads Heads(), Repr()
      ensures CanTake(size) ==> Valid() && Pos() <= |Contents()|
    {
      match this
      case Low(l) => l.CanWrite()
      case Buf(b) => b.CanTake(size)
    }

    function Unit(): nat {
      match this
      case Low(l) => l.Unit()
      case Buf(b) => 1
    }

    ghost function Files(): map<nat, Bytes>
      reads Heads(), Repr()
    {
      match this
      case Low(l) => l.Files()
      case Buf(b) => b.next.Files()
    }

    /** Nothing waits to be written. */
    ghost predicate Clean()
      reads Heads()
    {
      Buf? ==> !b.dirty
    }

    ghost function Elsewhere(): map<nat, Bytes>
      reads Heads(), Repr()
    {
      match this
      case Low(l) => l.Elsewhere()
      case Buf(b) => map[]
    }

    /** What has been asked of a filter; of Buffered itself nothing is noted. */
    ghost function Requests(): seq<Io>
      reads Heads(), Repr()
    {
      match this
      case Low(l) => l.Requests()
      case Buf(b) => []
    }

    function Level(): nat {
      match this
      case Low(l) => l.Level()
      case Buf(b) => 2
    }

    /** An encrypted file below has its last record, or will have it once it is flushed. */
    ghost predicate Whole()
      requires Valid()
      reads Heads(), Repr()
    {
      match this
      case Low(l) => l.Ended()
      case Buf(b) => b.Whole()
    }

    /** Whether the last record is there after the file became this long, or was written inside. */
    ghost predicate EndedAfter(ended: bool, before: nat, after: nat) {
      match this
      case Low(l) => l.EndedAfter(ended, before, after)
      case Buf(b) => b.next.EndedAfter(ended, before, after)
    }

    /** Where the buffer is, if there is one. */
    ghost function Cached(): Cache
      reads Heads()
    {
      match this
      case Low(l) => Cache(0, false)
      case Buf(b) => b.Cached()
    }

    ghost function BlockSize(): Positive {
      match this
      case Low(l) => 1
      case Buf(b) => b.blockSize
    }

    /** How many reads in a row may yield nothing before the end of the file. */
    ghost function Slack(): nat
      reads Heads()
    {
      if Buf? && UsedUp(Cached(), Pos(), BlockSize()) then 1 else 0
    }

    ghost predicate ReadAligned(size: nat)
      requires Valid()
      reads Heads(), Repr()
    {
      Unit() > 0 && (Pos() == |Contents()| || (Pos() % Unit() == 0 && size % Unit() == 0))
    }

    ghost predicate WriteAligned(size: nat)
      requires Valid()
      reads Heads(), Repr()
    {
      Unit() > 0 && (size % Unit() != 0 ==> Pos() + size >= |Contents()|)
    }

    /** The position is at the start of a block of this stage. */
    ghost predicate AtBlock()
      reads Heads()
    {
      match this
      case Low(l) => l.AtBlock()
      case Buf(b) => true
    }

    method Read(size: nat) returns (data: Bytes, e: Error)
      requires Valid() && CanRead() && size > 0 && ReadAligned(size)
      modifies Repr()
      ensures Valid() && CanRead()
      ensures forall o :: o in Repr() ==> o in old(Repr()) || fresh(o)
      ensures Contents() == old(Contents()) && (old(Clean()) ==> Clean() && Files() == old(Files()))
      ensures |data| <= size && Pos() == old(Pos()) + |data|
      ensures data == Contents()[old(Pos())..Pos()]
      ensures e == OK || e == EOF
      ensures e == EOF ==> data == [] && old(Pos()) == |Contents()|
      ensures data == [] && e == OK ==> Slack() < old(Slack())
      ensures ReadAligned(size - |data|)
      ensures |data| == size ==> CanWrite()
      ensures Whole() == old(Whole())
      ensures Low? ==> Requests() == old(Requests()) + [ReadIo(old(Pos()), size)]
      ensures Buf? && data == [] ==> (e == OK <==> Slack() < old(Slack()))
      ensures Buf? ==>
        (Cached(), |data|) == CacheRead(old(Cached()), old(Pos()), size, |Contents()|, BlockSize())
      decreases Level(), 3, 0
    {
      hide Lower.Valid, Lower.Contents, Lower.CanRead, Lower.CanWrite, Lower.Files, Lower.Elsewhere, Lower.Pos;
      hide Buffered.Valid, Buffered.Contents, Buffered.CanWrite, Buffered.CanTake;
      match this
      case Low(l) =>
        data, e := l.Read(size);
      case Buf(b) =>
        data, e := b.Read(size);
    }

    method Write(data: Bytes) returns (n: nat)
      requires Valid() && CanTake(|data|) && |data| > 0 && WriteAligned(|data|)
      modifies Repr()
      ensures Valid() && CanRead()
      ensures forall o :: o in Repr() ==> o in old(Repr()) || fresh(o)
      ensures 0 < n <= |data| && Pos() == old(Pos()) + n
      ensures Contents() == Overwrite(old(Contents()), old(Pos()), data[..n])
      ensures Elsewhere() == old(Elsewhere())
      ensures n < |data| ==> CanTake(|data| - n) && WriteAligned(|data| - n)
      ensures AtBlock() ==> CanWrite()
      ensures Whole() == EndedAfter(old(Whole()), |old(Contents())|, |Contents()|)
      ensures Low? ==> Requests() == old(Requests()) + [WriteIo(old(Pos()), |data|, |old(Contents())|)]
      ensures Buf? ==> (Cached(), n) == CacheWrite(old(Cached()), old(Pos()), |data|, BlockSize())
      decreases Level(), 3, 0
    {
      hide Lower.Valid, Lower.Contents, Lower.CanRead, Lower.CanWrite, Lower.Files, Lower.Elsewhere, Lower.Pos;
      hide Buffered.Valid, Buffered.Contents, Buffered.CanWrite, Buffered.CanTake;
      match this
      case Low(l) =>
        n := l.Write(data);
      case Buf(b) =>
        n := b.Write(data);
    }

    /** The end of the file can be found. */
    ghost predicate EndExact()
      requires Valid()
      reads Heads(), Repr()
    {
      match this
      case Low(l) => l.EndExact()
      case Buf(b) => b.EndExact()
    }

    method Seek(position: nat)
      requires Valid() && position <= |Contents()| && Unit() > 0 && position % Unit() == 0
      modifies Repr()
      ensures Valid() && CanRead()
      ensures forall o :: o in Repr() ==> o in old(Repr()) || fresh(o)
      ensures Contents() == old(Contents()) && Pos() == position
      ensures old(Clean()) ==> Clean() && Files() == old(Files())
      ensures Low? || position < |Contents()| || old(CanWrite()) ==> CanWrite()
      ensures Whole() == old(Whole())
      decreases Level(), 3, 0
    {
      hide Lower.Valid, Lower.Contents, Lower.CanRead, Lower.CanWrite, Lower.Files, Lower.Pos;
      hide Buffered.Valid, Buffered.Contents, Buffered.CanWrite;
      match this
      case Low(l) =>
        l.Seek(position);
      case Buf(b) =>
        var _ := b.Seek(position);
    }

    /** Finds the length of the file. Only some stages can be relied on to stand at its end afterwards. */
    method SeekEnd() returns (size: nat)
      requires Valid() && EndExact()
      modifies Repr()
      ensures Valid()
      ensures forall o :: o in Repr() ==> o in old(Repr()) || fresh(o)
      ensures Contents() == old(Contents()) && size == |Contents()|
      ensures old(Clean()) ==> Clean() && Files() == old(Files())
      ensures Buf? || l.Bottom? ==> CanRead() && CanWrite() && Pos() == size
      ensures Whole() == old(Whole())
      decreases Level(), 3, 0
    {
      match this
      case Low(l) =>
        size := l.SeekEnd();
      case Buf(b) =>
        size := b.Seek(FILE_END_POSITION);
    }

    /** A byte stream that is ready for anything whenever it is valid: no encryption filter directly below. */
    ghost predicate Robust() {
      match this
      case Low(l) => l.Bottom?
      case Buf(b) => !b.next.Aead?
    }

    lemma RobustReady(size: nat)
      requires Robust() && Valid()
      ensures CanRead() && CanWrite() && CanTake(size) && EndExact() && Unit() == 1
    {
    }
  }

  /** Reads until the size is reached or the file ends. An end after some data is reported next time. */
  method ReadAll(next: Next, size: nat, e: Error) returns (data: Bytes, e': Error)
    requires next.CanRead() && next.ReadAligned(size)
    modifies next.Repr()
    ensures next.CanRead()
    ensures forall o :: o in next.Repr() ==> o in old(next.Repr()) || fresh(o)
    ensures next.Contents() == old(next.Contents())
    ensures old(next.Clean()) ==> next.Clean() && next.Files() == old(next.Files())
    ensures next.Pos() == old(next.Pos()) + |data|
    ensures data == next.Contents()[old(next.Pos())..next.Pos()]
    ensures e == OK ==> |data| == Min(size, |next.Contents()| - old(next.Pos()))
    ensures e == OK ==> e' == if size > 0 && data == [] then EOF else OK
    ensures e == OK && size > 0 && |data| == size ==> next.CanWrite()
    ensures e != OK ==> data == [] && e' == e
    ensures next.Whole() == old(next.Whole())
    ensures next.Low? && e == OK && size > 0 ==>
      Transfer(old(next.Requests()), next.Requests(), ReadIo(old(next.Pos()), size))
    ensures next.Buf? && e == OK ==>
      next.Cached() == CacheReads(old(next.Cached()), old(next.Pos()), size, |next.Contents()|, next.BlockSize())
    decreases next.Level(), 4, size
  {
    hide Next.Valid, Next.Contents, Next.CanRead, Next.CanWrite, Next.Files, Next.Clean, Next.Whole, Next.Pos;
    hide CacheRead, CacheReads, UsedUp, Next.Cached, Next.BlockSize, Next.ReadAligned, Next.Heads, Next.Repr;
    hide Next.Requests, Transfer, Asking;
    assert allocated(next.Repr()) && allocated(next.Heads());
    var rest := size;
    data, e' := [], e;
    var chunk;
    ghost var start, file, before, started := next.Pos(), next.Contents(), next.Requests(), false;
    if next.Low? {
      AskFirst(before, ReadIo(start, size));
    }
    ghost var goal := CacheReads(next.Cached(), start, size, |file|, next.BlockSize());
    while rest > 0 && e' == OK
      invariant 0 <= rest && rest + |data| == size
      invariant next.CanRead()
      invariant forall o :: o in next.Repr() ==> o in old(next.Repr()) || fresh(o)
      invariant next.Contents() == file
      invariant old(next.Clean()) ==> next.Clean() && next.Files() == old(next.Files())
      invariant next.Pos() == start + |data|
      invariant data == file[start..start + |data|]
      invariant next.ReadAligned(rest)
      invariant next.Low? ==> Asking(before, next.Requests(), ReadIo(start, size), next.Pos(), rest, started)
      invariant size > 0 && e == OK && !started ==> rest > 0 && e' == OK
      invariant size > 0 && rest == 0 ==> next.CanWrite()
      invariant e != OK ==> data == [] && e' == e
      invariant e == OK ==> e' == OK || (e' == EOF && size > 0 && next.Pos() == |file|)
      invariant next.Whole() == old(next.Whole())
      invariant next.Buf? && e == OK ==>
        goal == if e' == OK then CacheReads(next.Cached(), next.Pos(), rest, |file|, next.BlockSize())
                else next.Cached()
      decreases rest, e' == OK, next.Slack()
    {
      if next.Low? {
        AskMore(before, next.Requests(), ReadIo(start, size), ReadIo(next.Pos(), rest), started);
      }
      started := true;
      ghost var c := next.Cached();
      assert allocated(next.Repr()) && allocated(next.Heads());
      chunk, e' := next.Read(rest);
      if next.Low? {
        AskedSome(before, next.Requests(), ReadIo(start, size), start + |data|, rest, |chunk|);
      }
      if next.Buf? {
        OneRead(c, start + |data|, rest, |file|, next.BlockSize());
      }
      SliceConcat(file, start, start + |data|, start + |data| + |chunk|);
      data := data + chunk;
      rest := rest - |chunk|;
    }
    if next.Low? {
      AskedAll(before, next.Requests(), ReadIo(start, size), next.Pos(), rest, started);
    }
    NothingToRead(next.Cached(), next.Pos(), |file|, next.BlockSize());
    if e' == EOF && |data| > 0 {
      e' := OK;
    }
  }

  /** Writes until all of the data is written. */
  method WriteAll(next: Next, data: Bytes, e: Error) returns (n: nat, e': Error)
    requires |data| > 0 && next.CanTake(|data|) && next.WriteAligned(|data|)
    modifies next.Repr()
    ensures next.Valid()
    ensures forall o :: o in next.Repr() ==> o in old(next.Repr()) || fresh(o)
    ensures e' == e && n == if e == OK then |data| else 0
    ensures next.Contents() == Overwrite(old(next.Contents()), old(next.Pos()), data[..n])
    ensures next.Pos() == old(next.Pos()) + n
    ensures next.Elsewhere() == old(next.Elsewhere())
    ensures e == OK ==> next.CanRead()
    ensures e == OK && next.AtBlock() ==> next.CanWrite()
    ensures e == OK ==> next.Whole() == next.EndedAfter(old(next.Whole()), |old(next.Contents())|, |next.Contents()|)
    ensures e != OK ==> next.Whole() == old(next.Whole())
    ensures next.Low? && e == OK ==>
      Transfer(old(next.Requests()), next.Requests(), WriteIo(old(next.Pos()), |data|, |old(next.Contents())|))
    ensures next.Buf? && e == OK ==>
      next.Cached() == CacheWrites(old(next.Cached()), old(next.Pos()), |data|, next.BlockSize())
    ensures e != OK ==> next.Cached() == old(next.Cached())
    decreases next.Level(), 4, |data|
  {
    hide Next.Valid, Next.Contents, Next.CanRead, Next.CanWrite, Next.CanTake, Next.Elsewhere, Next.Pos;
    hide CacheWrite, CacheWrites, Next.Cached, Next.BlockSize, Next.Requests, Transfer, Asking;
    hide Next.Whole, Next.WriteAligned, Next.AtBlock, Next.Unit, Next.Heads, Next.Repr, Overwrite;
    assert allocated(next.Repr()) && allocated(next.Heads());
    var rest := |data|;
    n, e' := 0, e;
    var k;
    ghost var start, file, before, started := next.Pos(), next.Contents(), next.Requests(), false;
    OverwriteNothing(file, start);
    assert data[..0] == [];
    if next.Low? {
      AskFirst(before, WriteIo(start, |data|, |file|));
    }
    ghost var goal := CacheWrites(next.Cached(), start, rest, next.BlockSize());
    while rest > 0 && e' == OK
      invariant 0 <= rest && rest + n == |data|
      invariant next.Valid()
      invariant forall o :: o in next.Repr() ==> o in old(next.Repr()) || fresh(o)
      invariant next.Contents() == Overwrite(file, start, data[..n])
      invariant next.Pos() == start + n
      invariant next.Elsewhere() == old(next.Elsewhere())
      invariant rest > 0 ==> next.CanTake(rest) && next.WriteAligned(rest)
      invariant n > 0 ==> e == OK && next.CanRead() && (next.AtBlock() ==> next.CanWrite())
      invariant e' == e
      invariant next.Low? ==> Asking(before, next.Requests(), WriteIo(start, |data|, |file|), next.Pos(), rest, started)
      invariant !started ==> n == 0
      invariant n == 0 ==> next.Whole() == old(next.Whole())
      invariant n > 0 ==> next.Whole() == next.EndedAfter(old(next.Whole()), |file|, |next.Contents()|)
      invariant next.Buf? && e == OK ==> CacheWrites(next.Cached(), next.Pos(), rest, next.BlockSize()) == goal
      invariant e != OK ==> next.Cached() == old(next.Cached())
      decreases rest
    {
      assert allocated(next.Repr()) && allocated(next.Heads());
      var more := data[n..];
      assert |more| == rest;
      if next.Low? {
        AskMore(before, next.Requests(), WriteIo(start, |data|, |file|),
                WriteIo(next.Pos(), rest, |next.Contents()|), started);
      }
      started := true;
      if next.Buf? {
        OneWrite(next.Cached(), start + n, rest, next.BlockSize());
      }
      k := next.Write(more);
      if next.Low? {
        AskedSome(before, next.Requests(), WriteIo(start, |data|, |file|), start + n, rest, k);
      }
      assert k < rest ==> next.CanTake(rest - k) && next.WriteAligned(rest - k);
      OverwriteMore(file, start, data, n, k);
      n := n + k;
      rest := rest - k;
    }
    if next.Low? {
      AskedAll(before, next.Requests(), WriteIo(start, |data|, |file|), next.Pos(), rest, started);
    }
    NothingToWrite(next.Cached(), next.Pos(), next.BlockSize());
  }
}
