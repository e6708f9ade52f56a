/** Files from creation to reading them back, through all the stages of a pipeline. */
module Lifecycles {
  import opened Sizes
  import opened FlatFiles
  import opened Segments
  import opened Records
  import opened Buffering
  import opened Files
  import opened Pipelines
  import opened Framing
  import opened Headers
  import opened Stacks
  import opened CompressedRecords
  import opened Lz4Files
  import CompressedRuns

  /** Reads a file from its start until it ends. */
  method ReadToEnd(b: Buffered) returns (data: Bytes)
    requires b.Valid() && b.position == 0
    modifies b.Repr()
    ensures data == old(b.Contents())
  {
    hide Buffered.Valid, Buffered.Contents, Buffered.CanWrite;
    data := [];
    ghost var file := b.Contents();
    var e := OK;
    HasBlocks(b);
    while e == OK
      invariant b.Valid() && b.Contents() == file && b.blockSize >= 1
      invariant forall o :: o in b.Repr() ==> o in old(b.Repr()) || fresh(o)
      invariant b.position == |data| <= |file| && data == file[..|data|]
      invariant e == OK || |data| == |file|
      decreases |file| - |data|, e == OK
    {
      var chunk;
      chunk, e := FileRead(b, b.blockSize, OK);
      SliceConcat(file, 0, |data|, |data| + |chunk|);
      data := data + chunk;
    }
  }

  lemma HasBlocks(b: Buffered)
    requires b.Valid()
    ensures b.blockSize >= 1 && b.position <= |b.Contents()|
  {
    Ranges(b.State());
  }

  /** Every run in turn stays inside the file that the runs before it left. */
  ghost predicate InBoundsAll(file: Bytes, runs: seq<seq<Request>>)
    decreases |runs|
  {
    runs == [] || (InBounds(FlatFile(file, 0), runs[0])
                   && InBoundsAll(FlatRun(FlatFile(file, 0), runs[0]).0.contents, runs[1..]))
  }

  /** A flat file after several runs, each from its start, and the answers to each. */
  ghost function FlatRuns(file: Bytes, runs: seq<seq<Request>>): (Bytes, seq<seq<Answer>>)
    requires InBoundsAll(file, runs)
    decreases |runs|
  {
    if runs == [] then (file, [])
    else
      var (f, a) := FlatRun(FlatFile(file, 0), runs[0]);
      var (g, more) := FlatRuns(f.contents, runs[1..]);
      (g, [a] + more)
  }

  /** A group of segments stands for a file. */
  ghost predicate Holds(store: Storage, segmentSize: nat, blockSize: nat, count: nat, file: Bytes)
    requires blockSize >= 1
    reads store
  {
    && Group(store.files, count, RoundUp(segmentSize, blockSize))
    && Flatten(store.files, count) == file
  }

  /** Opens a group, new or existing, makes any run of requests inside the file, and closes it. */
  method RunSplit(store: Storage, segmentSize: nat, blockSize: nat, rs: seq<Request>,
                  ghost before: nat, ghost file: Bytes)
    returns (answers: seq<Answer>, ghost count: nat)
    requires segmentSize >= 1 && blockSize >= 1
    requires (store.files == map[] && file == []) || Holds(store, segmentSize, blockSize, before, file)
    requires InBounds(FlatFile(file, 0), rs)
    modifies store
    ensures
      var (f, expected) := FlatRun(FlatFile(file, 0), rs);
      answers == expected && Holds(store, segmentSize, blockSize, count, f.contents)
  {
    hide StandsAt, InBounds, Buffered.Valid, Buffered.Contents, Buffered.CanWrite, Buffered.Whole, RoundUp;
    var s := OpenSplit(store, segmentSize, blockSize, before, file);
    var b := new Buffered.Open(Split(s), blockSize, 1);
    assert View(b) == FlatFile(file, 0);
    answers := RunAndClose(b, rs);
    count := s.count;
  }

  /** Opens a group, new or existing. */
  method OpenSplit(store: Storage, segmentSize: nat, blockSize: nat, ghost before: nat, ghost file: Bytes)
    returns (s: FileSplit)
    requires segmentSize >= 1 && blockSize >= 1
    requires (store.files == map[] && file == []) || Holds(store, segmentSize, blockSize, before, file)
    modifies store
    ensures s.Positioned() && s.position == 0 && s.Contents() == file && s.store == store && s.log.requests == []
    ensures fresh(s.Repr() - {store}) && s.segmentSize == RoundUp(segmentSize, blockSize)
  {
    hide StandsAt, RoundUp;
    if store.files == map[] {
      s := new FileSplit.Open(store, segmentSize, blockSize, 0);
    } else {
      assert Holds(store, segmentSize, blockSize, before, file);
      s := new FileSplit.Open(store, segmentSize, blockSize, before);
    }
  }

  /** Opens an existing group and reads it. */
  method ReadSplit(store: Storage, segmentSize: nat, blockSize: nat, ghost count: nat, ghost file: Bytes)
    returns (data: Bytes)
    requires segmentSize >= 1 && blockSize >= 1 && Holds(store, segmentSize, blockSize, count, file)
    modifies store
    ensures data == file
  {
    hide StandsAt, Buffered.Valid, Buffered.Contents, Buffered.CanWrite, RoundUp;
    var s := OpenSplit(store, segmentSize, blockSize, count, file);
    var b := new Buffered.Open(Split(s), blockSize, 1);
    data := ReadToEnd(b);
  }

  /**
   A group of segments over any number of sessions: each opens it, makes any run of requests inside the file
   and closes it. Whatever the sizes of segments, blocks and transfers, it is one flat file.
   */
  method SplitLife(store: Storage, segmentSize: nat, blockSize: nat, runs: seq<seq<Request>>)
    returns (answers: seq<seq<Answer>>, data: Bytes)
    requires segmentSize >= 1 && blockSize >= 1 && store.files == map[]
    requires runs != [] && InBoundsAll([], runs)
    modifies store
    ensures (data, answers) == FlatRuns([], runs)
  {
    ghost var count, file := 0, [];
    answers := [];
    assert runs[0..] == runs && answers + FlatRuns([], runs).1 == FlatRuns([], runs).1;
    for i := 0 to |runs|
      invariant if i == 0 then store.files == map[] && file == []
                else Holds(store, segmentSize, blockSize, count, file)
      invariant InBoundsAll(file, runs[i..])
      invariant FlatRuns([], runs) == var (g, more) := FlatRuns(file, runs[i..]); (g, answers + more)
    {
      assert runs[i..][0] == runs[i] && runs[i..][1..] == runs[i + 1..];
      var a;
      a, count := RunSplit(store, segmentSize, blockSize, runs[i], count, file);
      file := FlatRun(FlatFile(file, 0), runs[i]).0.contents;
      RegroupAll(answers, a, FlatRuns(file, runs[i + 1..]).1);
      answers := answers + [a];
    }
    assert runs[|runs|..] == [] && answers + [] == answers;
    data := ReadSplit(store, segmentSize, blockSize, count, file);
  }

  lemma RegroupAll(answers: seq<seq<Answer>>, a: seq<Answer>, more: seq<seq<Answer>>)
    ensures answers + ([a] + more) == (answers + [a]) + more
  {
  }

  /** The settings of an encrypted file make a sealing that the filter can rely on. */
  ghost predicate Usable(h: Header, keyed: Header -> Sealing) {
    h.Acceptable() && keyed(h).Sound()
  }

  /** A file is encrypted, closed, and stands for this plaintext. */
  ghost predicate Closed(store: Storage, h: Header, keyed: Header -> Sealing, plain: Bytes)
    reads store
  {
    && Usable(h, keyed) && 0 in store.files
    && store.files[0] == Framed(HeaderBytes(h)) + Body(keyed(h), plain, true)
  }

  /** A newly opened stack: nothing has been met, and the buffer is empty at the start of the file. */
  function Opened(whole: bool): Track {
    Track(false, whole, Cache(0, false))
  }

  /** A run that an encrypted file can take from its opening on. */
  ghost predicate LegalOn(k: Sealing, blockSize: Positive, plain: Bytes, rs: seq<Request>, whole: bool)
    requires k.plainSize >= 1
  {
    LegalRun(FlatFile(plain, 0), rs, Opened(whole), InRecords(k), RoundUp(blockSize, k.plainSize))
  }

  /** A run that an encrypted file can take from its opening to its close. */
  ghost predicate Complete(k: Sealing, blockSize: Positive, plain: Bytes, rs: seq<Request>, whole: bool)
    requires k.plainSize >= 1
  {
    && LegalOn(k, blockSize, plain, rs, whole) && InBounds(FlatFile(plain, 0), rs)
    && EndsWell(FlatFile(plain, 0), rs, Opened(whole), k, RoundUp(blockSize, k.plainSize))
  }

  ghost predicate CompleteAll(k: Sealing, blockSize: Positive, plain: Bytes, runs: seq<seq<Request>>, whole: bool)
    requires k.plainSize >= 1
    decreases |runs|
  {
    runs == [] || (Complete(k, blockSize, plain, runs[0], whole)
                   && CompleteAll(k, blockSize, FlatRun(FlatFile(plain, 0), runs[0]).0.contents, runs[1..], true))
  }

  lemma {:induction false} CompleteIsInBounds(k: Sealing, blockSize: Positive, plain: Bytes,
                                              runs: seq<seq<Request>>, whole: bool)
    requires k.plainSize >= 1 && CompleteAll(k, blockSize, plain, runs, whole)
    ensures InBoundsAll(plain, runs)
    decreases |runs|
  {
    if runs != [] {
      CompleteIsInBounds(k, blockSize, FlatRun(FlatFile(plain, 0), runs[0]).0.contents, runs[1..], true);
    }
  }

  /**
   Opens an encrypted file, new or closed before, makes a legal run, and closes it. The file stands for the flat
   file if the run ends well, and only then. The settings that it is opened with matter only to a new file.
   */
  method RunEncrypted(store: Storage, settings: Header, keyed: Header -> Sealing, blockSize: Positive, rs: seq<Request>,
                      ghost h: Header, ghost plain: Bytes)
    returns (answers: seq<Answer>)
    requires Usable(settings, keyed) && Usable(h, keyed)
    requires (store.files == map[] && plain == [] && h == settings) || Closed(store, h, keyed, plain)
    requires LegalOn(keyed(h), blockSize, plain, rs, store.files != map[])
    modifies store
    ensures InBounds(FlatFile(plain, 0), rs) && answers == FlatRun(FlatFile(plain, 0), rs).1
    ensures
      var after := FlatRun(FlatFile(plain, 0), rs).0.contents;
      var closed := Closed(store, h, keyed, after);
      var complete := Complete(keyed(h), blockSize, plain, rs, old(store.files) != map[]);
      (complete ==> closed) && (ApartIn(keyed(h), |after|) && closed ==> complete)
  {
    hide Framed, HeaderBytes, Body, InBounds, LegalRun, RoundUp, EndsWell, ApartIn;
    hide Buffered.Valid, Buffered.Contents, Buffered.CanWrite, Buffered.Whole;
    var file := new FileSystemBottom.Open(store, 0, true, false);
    var a, _ := OpenEncrypted(file, settings, keyed, true, false, h, plain);
    var b := new Buffered.Open(Aead(a), blockSize, 1);
    assert View(b) == FlatFile(plain, 0) && TrackOf(b) == Opened(a.ended);
    answers := RunAndCloseEncrypted(b, rs);
  }

  /** Opens a closed encrypted file, whatever settings it is opened with, and reads it. */
  method ReadEncrypted(store: Storage, settings: Header, keyed: Header -> Sealing, blockSize: Positive,
                       ghost h: Header, ghost plain: Bytes) returns (data: Bytes)
    requires Usable(settings, keyed) && Closed(store, h, keyed, plain)
    modifies store
    ensures data == plain
  {
    hide Framed, HeaderBytes, Body, Buffered.Valid, Buffered.Contents, Buffered.CanWrite, RoundUp;
    var file := new FileSystemBottom.Open(store, 0, false, false);
    var a, _ := OpenEncrypted(file, settings, keyed, false, false, h, plain);
    var b := new Buffered.Open(Aead(a), blockSize, 1);
    data := ReadToEnd(b);
  }

  /** An encrypted file over any number of sessions: each opens it, makes a complete run, and closes it. */
  method EncryptedLife(store: Storage, h: Header, other: Header, keyed: Header -> Sealing,
                       blockSize: Positive, runs: seq<seq<Request>>)
    returns (answers: seq<seq<Answer>>, data: Bytes)
    requires store.files == map[] && Usable(h, keyed) && Usable(other, keyed)
    requires runs != [] && CompleteAll(keyed(h), blockSize, [], runs, false)
    modifies store
    ensures InBoundsAll([], runs) && (data, answers) == FlatRuns([], runs)
  {
    CompleteIsInBounds(keyed(h), blockSize, [], runs, false);
    ghost var plain := [];
    answers := [];
    assert runs[0..] == runs && answers + FlatRuns([], runs).1 == FlatRuns([], runs).1;
    for i := 0 to |runs|
      invariant if i == 0 then store.files == map[] && plain == [] else Closed(store, h, keyed, plain)
      invariant CompleteAll(keyed(h), blockSize, plain, runs[i..], i > 0) && InBoundsAll(plain, runs[i..])
      invariant FlatRuns([], runs) == var (g, more) := FlatRuns(plain, runs[i..]); (g, answers + more)
    {
      assert runs[i..][0] == runs[i] && runs[i..][1..] == runs[i + 1..];
      var a := RunEncrypted(store, if i == 0 then h else other, keyed, blockSize, runs[i], h, plain);
      plain := FlatRun(FlatFile(plain, 0), runs[i]).0.contents;
      RegroupAll(answers, a, FlatRuns(plain, runs[i + 1..]).1);
      answers := answers + [a];
    }
    assert runs[|runs|..] == [] && answers + [] == answers;
    data := ReadEncrypted(store, other, keyed, blockSize, h, plain);
  }

  /** Writing anything at all in one request is a complete run on a new file. */
  lemma WriteOnceIsComplete(k: Sealing, blockSize: Positive, data: Bytes)
    requires k.plainSize >= 1 && |data| > 0
    ensures Complete(k, blockSize, [], [WriteBytes(data)], false)
    ensures FlatRun(FlatFile([], 0), [WriteBytes(data)]).0.contents == data
  {
    var rs := [WriteBytes(data)];
    assert rs[1..] == [];
    assert Overwrite([], 0, data) == data;
    assert FlatRun(FlatFile([], 0), rs).0 == Serve(FlatFile([], 0), rs[0]).0;
    WritingAtEndEndsWell(FlatFile([], 0), rs, Opened(false), k, RoundUp(blockSize, k.plainSize));
  }

  /** Opening and closing a new file is a complete run too, and so is a seek to the end of a closed empty one. */
  lemma NothingIsComplete(k: Sealing, blockSize: Positive)
    requires k.plainSize >= 1
    ensures Complete(k, blockSize, [], [], false)
    ensures EndFound(k, 0, true) ==> Complete(k, blockSize, [], [SeekToEnd], true)
  {
    var rs := [SeekToEnd];
    assert rs[1..] == [];
  }

  lemma NoBlocks(blockSize: nat)
    ensures Blocks([], blockSize) && FullCount([], blockSize) == 0
  {
  }

  /** A data file and its index stand for a list of blocks. */
  ghost predicate Keeps(dataStore: Storage, indexStore: Storage, codec: Codec, blockSize: nat, blocks: seq<Bytes>)
    reads dataStore, indexStore
  {
    && Blocks(blocks, blockSize) && |DataOf(codec, blocks)| < TWO_TO_THE_64
    && 0 in dataStore.files && dataStore.files[0] == DataOf(codec, blocks)
    && 0 in indexStore.files && indexStore.files[0] == IndexOf(codec, blocks, blockSize)
  }

  /** Opens a compressed file and its index, new or existing. */
  method OpenCompressed(dataStore: Storage, indexStore: Storage, codec: Codec, blockSize: nat, ghost blocks: seq<Bytes>)
    returns (z: Lz4Compress)
    requires dataStore != indexStore && codec.Sound(blockSize)
    requires (dataStore.files == map[] && indexStore.files == map[] && blocks == [])
      || Keeps(dataStore, indexStore, codec, blockSize, blocks)
    modifies dataStore, indexStore
    ensures z.AtRecord() && z.current == 0 && z.blocks == blocks && z.codec == codec && z.blockSize == blockSize
    ensures fresh(z.Repr() - {dataStore, indexStore})
    ensures z.data.Low? && z.data.l.Bottom? && z.data.l.f.store == dataStore && z.data.l.f.idx == 0
    ensures z.indexFile.Low? && z.indexFile.l.Bottom? && z.indexFile.l.f.store == indexStore && z.indexFile.l.f.idx == 0
  {
    hide Blocks, Codec.Sound;
    var data := new FileSystemBottom.Open(dataStore, 0, true, false);
    var index := new FileSystemBottom.Open(indexStore, 0, true, false);
    NothingStored(codec);
    NoBlocks(blockSize);
    z := new Lz4Compress.Open(Low(Bottom(data)), Low(Bottom(index)), codec, blockSize, blocks);
  }

  /** One session on a compressed file: opens it, makes any legal run, and leaves it. */
  method RunCompressed(dataStore: Storage, indexStore: Storage, codec: Codec, blockSize: nat,
                       rs: seq<CompressedRuns.BlockRequest>, ghost blocks: seq<Bytes>)
    returns (answers: seq<CompressedRuns.BlockAnswer>)
    requires dataStore != indexStore && codec.Sound(blockSize)
    requires (dataStore.files == map[] && indexStore.files == map[] && blocks == [])
      || Keeps(dataStore, indexStore, codec, blockSize, blocks)
    requires CompressedRuns.LegalBlocks(CompressedRuns.BlockFile(blocks, 0, false), rs, codec, blockSize)
    modifies dataStore, indexStore
    ensures
      var (f, expected) := CompressedRuns.BlockRun(CompressedRuns.BlockFile(blocks, 0, false), rs, blockSize);
      answers == expected && Keeps(dataStore, indexStore, codec, blockSize, f.blocks)
  {
    hide Codec.Sound, CompressedRuns.LegalBlocks;
    var z := OpenCompressed(dataStore, indexStore, codec, blockSize, blocks);
    answers := CompressedRuns.RunBlocks(z, rs, CompressedRuns.BlockFile(blocks, 0, false));
  }

  /** Opens a compressed file and reads from record `i` on. */
  method ReadCompressed(dataStore: Storage, indexStore: Storage, codec: Codec, blockSize: nat,
                        ghost blocks: seq<Bytes>, i: nat) returns (read: seq<Bytes>)
    requires dataStore != indexStore && codec.Sound(blockSize)
    requires Keeps(dataStore, indexStore, codec, blockSize, blocks) && i <= FullCount(blocks, blockSize)
    modifies dataStore, indexStore
    ensures i <= |blocks| && read == blocks[i..]
  {
    hide Blocks, Codec.Sound;
    var z := OpenCompressed(dataStore, indexStore, codec, blockSize, blocks);
    read := ReadFrom(z, i);
  }

  ghost predicate LegalRuns(blocks: seq<Bytes>, runs: seq<seq<CompressedRuns.BlockRequest>>, codec: Codec,
                            blockSize: nat)
    decreases |runs|
  {
    runs == [] || (
      var f := CompressedRuns.BlockFile(blocks, 0, false);
      && CompressedRuns.LegalBlocks(f, runs[0], codec, blockSize)
      && LegalRuns(CompressedRuns.BlockRun(f, runs[0], blockSize).0.blocks, runs[1..], codec, blockSize))
  }

  /** The list of blocks after several runs, each from its start, and the answers to each. */
  ghost function BlockRuns(blocks: seq<Bytes>, runs: seq<seq<CompressedRuns.BlockRequest>>, blockSize: nat)
    : (seq<Bytes>, seq<seq<CompressedRuns.BlockAnswer>>)
    decreases |runs|
  {
    if runs == [] then (blocks, [])
    else
      var (f, a) := CompressedRuns.BlockRun(CompressedRuns.BlockFile(blocks, 0, false), runs[0], blockSize);
      var (g, more) := BlockRuns(f.blocks, runs[1..], blockSize);
      (g, [a] + more)
  }

  /**
   A compressed file over any number of sessions of legal runs answers as a list of blocks, and that list is read
   back from any record boundary.
   */
  method CompressedLife(dataStore: Storage, indexStore: Storage, codec: Codec, blockSize: nat,
                        runs: seq<seq<CompressedRuns.BlockRequest>>, i: nat)
    returns (answers: seq<seq<CompressedRuns.BlockAnswer>>, read: seq<Bytes>)
    requires dataStore != indexStore && dataStore.files == map[] && indexStore.files == map[]
    requires codec.Sound(blockSize) && runs != [] && LegalRuns([], runs, codec, blockSize)
    requires i <= FullCount(BlockRuns([], runs, blockSize).0, blockSize)
    modifies dataStore, indexStore
    ensures
      var (blocks, expected) := BlockRuns([], runs, blockSize);
      answers == expected && i <= |blocks| && read == blocks[i..]
  {
    hide Blocks, Codec.Sound, CompressedRuns.LegalBlocks, CompressedRuns.BlockRun;
    answers := [];
    ghost var blocks := [];
    assert runs[0..] == runs && answers + BlockRuns([], runs, blockSize).1 == BlockRuns([], runs, blockSize).1;
    for j := 0 to |runs|
      invariant if j == 0 then dataStore.files == map[] && indexStore.files == map[] && blocks == []
                else Keeps(dataStore, indexStore, codec, blockSize, blocks)
      invariant LegalRuns(blocks, runs[j..], codec, blockSize)
      invariant BlockRuns([], runs, blockSize)
             == var (g, more) := BlockRuns(blocks, runs[j..], blockSize); (g, answers + more)
    {
      assert runs[j..][0] == runs[j] && runs[j..][1..] == runs[j + 1..];
      var a := RunCompressed(dataStore, indexStore, codec, blockSize, runs[j], blocks);
      blocks := CompressedRuns.BlockRun(CompressedRuns.BlockFile(blocks, 0, false), runs[j], blockSize).0.blocks;
      RegroupBlocks(answers, a, BlockRuns(blocks, runs[j + 1..], blockSize).1);
      answers := answers + [a];
    }
    assert runs[|runs|..] == [] && answers + [] == answers;
    read := ReadCompressed(dataStore, indexStore, codec, blockSize, blocks, i);
  }

  lemma RegroupBlocks(answers: seq<seq<CompressedRuns.BlockAnswer>>, a: seq<CompressedRuns.BlockAnswer>,
                      more: seq<seq<CompressedRuns.BlockAnswer>>)
    ensures answers + ([a] + more) == (answers + [a]) + more
  {
  }
}
