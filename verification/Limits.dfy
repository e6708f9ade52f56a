/**
 Where the filters do not do what they are for, and exactly when they do. Beside each lemma or method that states
 such a condition there is a concrete input on which the condition, and the filter, fail.
 */
module Limits {
  import opened Sizes
  import opened FlatFiles
  import opened Segments
  import opened Nonces
  import opened Records
  import opened Buffering
  import opened Files
  import opened Pipelines
  import opened Stacks

  /** A sealing of two-byte blocks that appends the record's number. It is sound. */
  function Toy(): Sealing {
    Sealing((n: nat, plain: Bytes) => plain + [n % 256],
            (n: nat, sealed: Bytes) => if sealed == [] then [] else sealed[..|sealed| - 1],
            (size: nat) => size + 1, 2)
  }

  lemma ToyIsSound()
    ensures Toy().Sound()
  {
    forall n: nat, plain: Bytes
      ensures |Toy().seal(n, plain)| == Toy().recordSize(|plain|) && Toy().open(n, Toy().seal(n, plain)) == plain
    {
      assert (plain + [n % 256])[..|plain|] == plain;
    }
  }

  /** The empty records of its first 256 numbers differ. */
  lemma ToyIsApart(size: nat)
    requires size < 512
    ensures ApartIn(Toy(), size)
  {
    forall i: nat | i < size / 2 ensures Toy().seal(i, []) != Toy().seal(size / 2, []) {
      assert Toy().seal(i, [])[0] == i && Toy().seal(size / 2, [])[0] == size / 2;
    }
  }

  /** A sealing that appends sixteen bytes of the record's number. */
  function Numbering(plainSize: Positive): Sealing {
    Sealing((n: nat, plain: Bytes) => plain + BigEndian(n, 16),
            (n: nat, sealed: Bytes) => if |sealed| < 16 then [] else sealed[..|sealed| - 16],
            (size: nat) => size + 16, plainSize)
  }

  /** There are sound sealings that tell the empty records apart for all the numbers that a file can have. */
  lemma NumberingIsApart(plainSize: Positive, size: nat)
    requires size / plainSize < Power(256, 16)
    ensures Numbering(plainSize).Sound() && ApartIn(Numbering(plainSize), size)
  {
    hide BigEndian, Power, Sealing.Sound;
    NumberingIsSound(plainSize);
    var k, m := Numbering(plainSize), size / plainSize;
    forall i: nat | i < m ensures k.seal(i, []) != k.seal(m, []) {
      NumbersApart(i, m);
      SealedNumber(plainSize, i);
      SealedNumber(plainSize, m);
    }
  }

  lemma SealedNumber(plainSize: Positive, n: nat)
    ensures Numbering(plainSize).seal(n, []) == [] + BigEndian(n, 16)
  {
  }

  lemma NumberingIsSound(plainSize: Positive)
    ensures Numbering(plainSize).Sound()
  {
    hide BigEndian;
    var k := Numbering(plainSize);
    forall n: nat, plain: Bytes
      ensures |k.seal(n, plain)| == k.recordSize(|plain|) && k.open(n, k.seal(n, plain)) == plain
    {
      assert (plain + BigEndian(n, 16))[..|plain|] == plain;
    }
  }

  lemma NumbersApart(i: nat, j: nat)
    requires i < j < Power(256, 16)
    ensures [] + BigEndian(i, 16) != [] + BigEndian(j, 16)
  {
    BigEndianRoundTrip(i, 16);
    BigEndianRoundTrip(j, 16);
    assert [] + BigEndian(i, 16) == BigEndian(i, 16) && [] + BigEndian(j, 16) == BigEndian(j, 16);
  }

  /** The twelve bytes that stand for a nonce. */
  function Mark(nonce: Bytes): (mark: Bytes)
    ensures |mark| == 12 && (|nonce| == 12 ==> mark == nonce)
  {
    if |nonce| == 12 then nonce else seq(12, i => 0)
  }

  /** A cipher that puts the nonce behind the text as its tag, and opens nothing with another. */
  function Marking(): Cipher {
    Cipher((nonce: Bytes, plain: Bytes) => plain + Mark(nonce),
           (nonce: Bytes, sealed: Bytes) =>
             if |sealed| >= 12 && sealed[|sealed| - 12..] == Mark(nonce) then sealed[..|sealed| - 12] else sealed,
           1, 12)
  }

  /** There are sound ciphers that tell their nonces apart. */
  lemma MarkingTellsNonces(plain: Bytes)
    ensures Marking().Sound() && TellsNonces(Marking(), 12, plain)
  {
    var c := Marking();
    forall a: Bytes, b: Bytes, text: Bytes
      ensures c.seal(a, text) == text + Mark(a)
      ensures c.open(b, c.seal(a, text)) == if Mark(a) == Mark(b) then text else text + Mark(a)
    {
      assert (text + Mark(a))[|text|..] == Mark(a) && (text + Mark(a))[..|text|] == text;
    }
  }

  /** Some plaintext is stored in these bytes, with its last record or, at a whole number of records, without. */
  ghost predicate IsStored(k: Sealing, stored: Bytes)
    requires k.plainSize >= 1
  {
    exists q: Bytes, ended: bool :: (|q| % k.plainSize != 0 ==> ended) && Body(k, q, ended) == stored
  }

  /** Where the seek to the end looks for the last record of a file with these stored data. */
  function LooksAt(k: Sealing, stored: Bytes): nat
    requires k.plainSize >= 1 && k.EncryptSize() >= 1
  {
    LastRecordStart(|stored|, k.plainSize, k.EncryptSize())
  }

  /** Looking for the end of an encrypted file finds its last record exactly when the guard does not divide. */
  lemma SeekEndExact(k: Sealing, plain: Bytes, ended: bool)
    requires k.Sound() && 0 < |Body(k, plain, ended)| < TWO_TO_THE_64 && 2 * k.EncryptSize() <= TWO_TO_THE_64
    ensures LooksAt(k, Body(k, plain, ended)) == Times(|plain| / k.plainSize, k.EncryptSize())
       <==> |Body(k, plain, ended)| % k.plainSize != 0
  {
    hide LastRecordStart, Body, Sealing.Sound, Sealing.EncryptSize;
    SoundSizes(k);
    var size, m := |Body(k, plain, ended)|, |plain| / k.plainSize;
    DataSizeCounts(k, plain, ended);
    LastRecordFound(k, m, size);
    if !LooksInside(size, k.plainSize, k.EncryptSize()) {
      LastRecordWraps(size, k.plainSize, k.EncryptSize(), 0);
    }
  }

  /** Without padding the stored size is the size of the plaintext, and a tag for each record. */
  lemma UnpaddedSize(k: Sealing, tagSize: nat, size: nat, ended: bool)
    requires k.plainSize >= 1 && forall s: nat :: k.recordSize(s) == s + tagSize
    ensures StoredSize(k, size, ended)
         == (if ended then size else size - size % k.plainSize)
            + (size / k.plainSize + if ended then 1 else 0) * tagSize
  {
    var m := size / k.plainSize;
    Divide(size, k.plainSize);
    UnpaddedRecords(m, k.plainSize, tagSize);
  }

  lemma {:induction false} UnpaddedRecords(m: nat, plainSize: nat, tagSize: nat)
    ensures Times(m, plainSize + tagSize) == Times(m, plainSize) + m * tagSize
    ensures (m + 1) * tagSize == m * tagSize + tagSize
  {
    if m > 0 {
      UnpaddedRecords(m - 1, plainSize, tagSize);
    }
  }

  /**
   With 1024-byte blocks and 16-byte tags the end is found of a closed file that is empty, or a megabyte long.
   It is not found of one of 1008 bytes, which is stored in 1024: the seek goes to the last 16 bytes of the header.
   */
  lemma SeekEndFails(k: Sealing, headerSize: nat)
    requires k.plainSize == 1024 && forall s: nat :: k.recordSize(s) == s + 16
    requires 16 <= headerSize < TWO_TO_THE_64
    ensures EndFound(k, 0, true) && EndFound(k, 1024 * 1024, true) && !EndFound(k, 1008, true)
    ensures
      var stored := StoredSize(k, 1008, true);
      && stored == 1024 && !LooksInside(stored, 1024, 1024 + 16)
      && (headerSize + LastRecordStart(stored, 1024, 1024 + 16)) % TWO_TO_THE_64 == headerSize - 16
  {
    UnpaddedSize(k, 16, 0, true);
    UnpaddedSize(k, 16, 1024 * 1024, true);
    UnpaddedSize(k, 16, 1008, true);
    Wraps(1024, 1040);
    assert RoundDown(TWO_TO_THE_64 - 16, 1040) == TWO_TO_THE_64 - 16;
  }

  /** The filter looks for the end of a file of one two-byte block, and finds that it has four bytes. */
  method SeekEndMisses() returns (size: nat)
    ensures size != 2
  {
    hide Stored, Body, Sealing.Sound, IsStored;
    ToyIsSound();
    ToyFile();
    var store := new Storage();
    store.files := map[0 := [7, 8, 0, 1]];
    var file := new FileSystemBottom.Open(store, 0, false, false);
    var a := new AeadFilter.Open(file, Toy(), 0, false, [], [7, 8], true);
    var e;
    size, e := a.SeekEnd();
  }

  /** One full block, as it is stored with its last record and without. */
  lemma ToyFile()
    ensures Body(Toy(), [7, 8], true) == [7, 8, 0, 1] && Body(Toy(), [7, 8], false) == [7, 8, 0]
  {
    assert [7, 8][2..] == [] && [7, 8][..2] == [7, 8];
  }

  /** Writing one block, seeking back to the start and closing leaves a file that is no encrypted file at all. */
  method CloseFails() returns (stored: Bytes)
    ensures !IsStored(Toy(), stored)
  {
    hide Stored, Body;
    ToyIsSound();
    var store := new Storage();
    var file := new FileSystemBottom.Open(store, 0, true, true);
    NothingStoredYet();
    var a := new AeadFilter.Open(file, Toy(), 0, true, [], [], false);
    var _ := a.Write([7, 8]);
    WrittenOver([], [7, 8]);
    var _ := a.Seek(0);
    ToyFile();
    a.Close();
    stored := store.files[0];
    forall q, ended | |q| % 2 != 0 ==> ended ensures Body(Toy(), q, ended) != stored {
      NoZeroRecord(q, ended);
    }
  }

  lemma NothingStoredYet()
    ensures Body(Toy(), [], false) == []
  {
  }

  lemma WrittenOver(a: Bytes, d: Bytes)
    ensures Overwrite(a, |a|, d) == a + d && d[..|d|] == d
    ensures Overwrite([], 0, d) == d
  {
  }

  lemma NoZeroRecord(q: Bytes, ended: bool)
    requires |q| % 2 != 0 ==> ended
    ensures Body(Toy(), q, ended) != [7, 8, 0, 0]
  {
    hide Stored, Sealing.Sound;
    ToyIsSound();
    FirstRecord(Toy(), q, 0, ended);
    assert [7, 8, 0, 0][3..] == [0];
    if Body(Toy(), q, ended) == [7, 8, 0, 0] {
      NoZeroLast(q[2..], ended);
    }
  }

  lemma NoZeroLast(q: Bytes, ended: bool)
    ensures Stored(Toy(), q, 1, ended) != [0]
  {
    var stored := Stored(Toy(), q, 1, ended);
    if |q| >= 2 {
      assert stored[2] == 1;
    } else if ended {
      assert stored[|q|] == 1;
    }
  }

  /** A run that is served, and ends badly: it seeks away from a last block that is full. */
  lemma SeekAwayEndsBadly()
    ensures
      var f, rs, t := FlatFile([], 0), [WriteBytes([7, 8]), SeekTo(0)], Track(false, false, Cache(0, false));
      && LegalRun(f, rs, t, InRecords(Toy()), 2) && InBounds(f, rs)
      && !EndsWell(f, rs, t, Toy(), 2)
  {
    hide CacheWrites, CacheSeek, RoundDown, WholeAfter, LegalRun, InBounds, TrackRun, FlatRun, EndFound;
    TwoRequests(WriteBytes([7, 8]), SeekTo(0), Track(false, false, Cache(0, false)), InRecords(Toy()), 2);
    BlockWritten();
    NotWhole();
    SeekBack();
  }

  /** Another: it seeks to the end of a full record, in a buffer whose block is two records. */
  lemma SeekToEndEndsBadly()
    ensures
      var f, rs, t := FlatFile([], 0), [WriteBytes([7, 8]), SeekToEnd], Track(false, false, Cache(0, false));
      && LegalRun(f, rs, t, InRecords(Toy()), 4) && InBounds(f, rs)
      && !EndsWell(f, rs, t, Toy(), 4)
  {
    hide CacheWrites, CacheSeek, RoundDown, WholeAfter, LegalRun, InBounds, TrackRun, FlatRun, EndFound;
    TwoRequests(WriteBytes([7, 8]), SeekToEnd, Track(false, false, Cache(0, false)), InRecords(Toy()), 4);
    BlockWritten();
    NotWhole();
    ToyEndFound();
  }

  /** A run of two requests on a new file. */
  lemma TwoRequests(r: Request, r': Request, t: Track, below: Below, blockSize: Positive)
    requires r.WriteBytes? && |r.data| > 0
    ensures
      var f, g := FlatFile([], 0), FlatFile(r.data, |r.data|);
      var u := After(f, r, t, below, blockSize);
      Legal(f, r, t, below, blockSize) && Legal(g, r', u, below, blockSize) ==>
        && LegalRun(f, [r, r'], t, below, blockSize) && InBounds(f, [r, r'])
        && TrackRun(f, [r, r'], t, below, blockSize) == After(g, r', u, below, blockSize)
        && FlatRun(f, [r, r']).0 == Serve(g, r').0
  {
    hide Legal, After;
    var f, g := FlatFile([], 0), FlatFile(r.data, |r.data|);
    WrittenOver([], r.data);
    assert Serve(f, r).0 == g;
    assert [r, r'][1..] == [r'] && [r'][1..] == [];
    if Legal(f, r, t, below, blockSize) && Legal(g, r', After(f, r, t, below, blockSize), below, blockSize) {
      LegalRunOfOne(g, r', After(f, r, t, below, blockSize), below, blockSize);
    }
  }

  lemma LegalRunOfOne(g: FlatFile, r: Request, u: Track, below: Below, blockSize: Positive)
    requires Legal(g, r, u, below, blockSize)
    ensures LegalRun(g, [r], u, below, blockSize) && InBounds(g, [r])
    ensures TrackRun(g, [r], u, below, blockSize) == After(g, r, u, below, blockSize)
    ensures FlatRun(g, [r]).0 == Serve(g, r).0
  {
    assert [r][1..] == [];
  }

  /** One block of two bytes goes past a buffer of two bytes, and stays in one of four. */
  lemma BlockWritten()
    ensures CacheWrites(Cache(0, false), 0, 2, 2) == Cache(2, false)
    ensures CacheWrites(Cache(0, false), 0, 2, 4) == Cache(0, true)
  {
    hide CacheWrite, CacheWrites;
    StepPast();
    StepInto();
    OneWrite(Cache(0, false), 0, 2, 2);
    NothingToWrite(Cache(2, false), 2, 2);
    OneWrite(Cache(0, false), 0, 2, 4);
    NothingToWrite(Cache(0, true), 2, 4);
  }

  lemma StepPast()
    ensures CacheWrite(Cache(0, false), 0, 2, 2) == (Cache(2, false), 2)
  {
    assert RoundDown(2, 2) == 2;
  }

  lemma StepInto()
    ensures CacheWrite(Cache(0, false), 0, 2, 4) == (Cache(0, true), 2)
  {
  }

  /** A full last block leaves no record behind it, and a seek to its start goes to another block. */
  lemma NotWhole()
    ensures !WholeAfter(InRecords(Toy()), false, 0, 2) && !WholeAfter(InRecords(Toy()), false, 2, 2)
  {
  }

  lemma SeekBack()
    ensures CacheSeek(Cache(2, false), 0, 2) == Cache(0, false)
  {
    assert RoundDown(0, 2) == 0;
  }

  lemma ToyEndFound()
    ensures EndFound(Toy(), 2, false) && RoundDown(2, 4) == 0
  {
    assert Toy().EncryptSize() == 3 && Times(1, 3) == Times(0, 3) + 3;
    assert StoredSize(Toy(), 2, false) == 3;
  }

  /**
   What stands behind the full records of a closed file, once more is appended to it, does not begin with a full
   record of that number: a reader of the file does not take the last record and what follows it for one.
   */
  ghost predicate TellsEnd(k: Sealing, n: nat, tail: Bytes, more: Bytes) {
    forall x: Bytes, y: Bytes :: |x| == k.plainSize ==> k.seal(n, x) + y != k.seal(n, tail) + more
  }

  /** The part of a plaintext that does not fill a record. */
  function Tail(plain: Bytes, plainSize: nat): Bytes
    requires plainSize >= 1
  {
    plain[|plain| - |plain| % plainSize..]
  }

  /**
   Full blocks appended where a read met the end, without a seek, go behind the last record if there is one:
   what is then stored is an encrypted file exactly if there was none.
   */
  lemma StaleAppendExact(k: Sealing, plain: Bytes, ended: bool, d: Bytes)
    requires k.Sound() && |d| > 0 && |d| % k.plainSize == 0 && (|plain| % k.plainSize != 0 ==> ended)
    requires
      var m := |plain| / k.plainSize;
      ended ==> TellsEnd(k, m, Tail(plain, k.plainSize), Stored(k, d, m, false))
    ensures
      var appended := Stored(k, d, |plain| / k.plainSize, false);
      && (IsStored(k, Body(k, plain, ended) + appended) <==> !ended)
      && (!ended ==> Body(k, plain, false) + appended == Body(k, plain + d, false))
  {
    hide Stored, Sealing.Sound, Sealing.EncryptSize, TellsEnd, Tail, Times;
    SoundSizes(k);
    var m := |plain| / k.plainSize;
    var stored := Body(k, plain, ended) + Stored(k, d, m, false);
    if ended {
      TailStarts(plain, k.plainSize);
      BlocksAreLong(k, d, m);
      forall q, e | |q| % k.plainSize != 0 ==> e ensures Body(k, q, e) != stored {
        NothingBehindLast(k, plain, 0, m, Stored(k, d, m, false), q, e);
      }
    } else {
      AppendsBlocks(k, plain, d);
      AddMultiple(|plain|, |d|, k.plainSize);
      assert |plain + d| % k.plainSize == 0 && Body(k, plain + d, false) == stored;
    }
  }

  lemma AppendsBlocks(k: Sealing, plain: Bytes, d: Bytes)
    requires k.Sound() && |plain| % k.plainSize == 0
    ensures Body(k, plain, false) + Stored(k, d, |plain| / k.plainSize, false) == Body(k, plain + d, false)
  {
    hide Stored;
    Divide(|plain|, k.plainSize);
    StoredConcat(k, plain, 0, |plain| / k.plainSize, d);
  }

  /** The stored data of full blocks and of what follows them. */
  lemma {:induction false} StoredConcat(k: Sealing, plain: Bytes, n: nat, m: nat, d: Bytes)
    requires k.Sound() && |plain| == Times(m, k.plainSize)
    ensures Stored(k, plain + d, n, false) == Stored(k, plain, n, false) + Stored(k, d, n + m, false)
    decreases m
  {
    hide Stored, Sealing.Sound;
    var p := k.plainSize;
    StoredParts(k, plain, n, false);
    if m == 0 {
      assert plain + d == d;
    } else {
      StoredParts(k, plain + d, n, false);
      assert (plain + d)[..p] == plain[..p] && (plain + d)[p..] == plain[p..] + d;
      StoredConcat(k, plain[p..], n + 1, m - 1, d);
      Regrouped(k.seal(n, plain[..p]), Stored(k, plain[p..], n + 1, false), Stored(k, d, n + m, false));
    }
  }

  lemma TailStarts(plain: Bytes, plainSize: nat)
    requires plainSize >= 1
    ensures
      var start := Times(|plain| / plainSize, plainSize);
      start <= |plain| < start + plainSize && Tail(plain, plainSize) == plain[start..]
  {
    Divide(|plain|, plainSize);
  }

  lemma BlocksAreLong(k: Sealing, d: Bytes, n: nat)
    requires k.Sound() && |d| > 0 && |d| % k.plainSize == 0
    ensures |Stored(k, d, n, false)| >= k.EncryptSize()
  {
    hide Stored, Sealing.Sound;
    SoundSizes(k);
    SmallRemainder(|d|, k.plainSize);
    StoredParts(k, d, n, false);
  }

  /** No plaintext is stored in records that go on behind a last one. */
  lemma {:induction false} NothingBehindLast(k: Sealing, plain: Bytes, n: nat, m: nat, more: Bytes, q: Bytes, e: bool)
    requires k.Sound() && |more| >= k.EncryptSize() && (|q| % k.plainSize != 0 ==> e)
    requires Times(m, k.plainSize) <= |plain| < Times(m, k.plainSize) + k.plainSize
    requires TellsEnd(k, n + m, plain[Times(m, k.plainSize)..], more)
    ensures Stored(k, q, n, e) != Stored(k, plain, n, true) + more
    decreases m
  {
    hide Stored, Sealing.Sound, TellsEnd;
    var p := k.plainSize;
    StoredParts(k, plain, n, true);
    if Stored(k, q, n, e) == Stored(k, plain, n, true) + more {
      if m == 0 {
        assert plain[0..] == plain;
        ShortFirst(k, plain, more, n, q, e);
      } else {
        var first, rest := k.seal(n, plain[..p]), Stored(k, plain[p..], n + 1, true);
        Regrouped(first, rest, more);
        FullFirst(k, q, n, e, first, rest + more);
        assert plain[p..][Times(m - 1, p)..] == plain[Times(m, p)..];
        RemainderOfRest(|q|, p);
        NothingBehindLast(k, plain[p..], n + 1, m - 1, more, q[p..], e);
      }
    }
  }

  lemma Regrouped(a: Bytes, b: Bytes, c: Bytes)
    ensures (a + b) + c == a + (b + c)
  {
  }

  /** Stored data that start with as many bytes as a full record has start with a full record. */
  lemma FullFirst(k: Sealing, q: Bytes, n: nat, e: bool, first: Bytes, rest: Bytes)
    requires k.Sound() && (|q| % k.plainSize != 0 ==> e)
    requires |first| == k.EncryptSize() && Stored(k, q, n, e) == first + rest
    ensures |q| >= k.plainSize && k.seal(n, q[..k.plainSize]) == first && Stored(k, q[k.plainSize..], n + 1, e) == rest
  {
    FirstRecord(k, q, n, e);
    var sealed, more := k.seal(n, q[..k.plainSize]), Stored(k, q[k.plainSize..], n + 1, e);
    assert (sealed + more)[..k.EncryptSize()] == sealed && (first + rest)[..k.EncryptSize()] == first;
    assert (first + rest)[k.EncryptSize()..] == rest;
  }

  lemma ShortFirst(k: Sealing, tail: Bytes, more: Bytes, n: nat, q: Bytes, e: bool)
    requires k.Sound() && |more| >= k.EncryptSize() && (|q| % k.plainSize != 0 ==> e)
    requires TellsEnd(k, n, tail, more)
    ensures Stored(k, q, n, e) != k.seal(n, tail) + more
  {
    hide Stored, Sealing.Sound, TellsEnd;
    FirstRecord(k, q, n, e);
    StoredParts(k, q, n, e);
    if |q| >= k.plainSize {
      EndTold(k, n, tail, more, q[..k.plainSize], Stored(k, q[k.plainSize..], n + 1, e));
    }
  }

  lemma EndTold(k: Sealing, n: nat, tail: Bytes, more: Bytes, x: Bytes, y: Bytes)
    requires TellsEnd(k, n, tail, more) && |x| == k.plainSize
    ensures k.seal(n, x) + y != k.seal(n, tail) + more
  {
  }

  /** The same of the filter: it reads the last record, or finds none, and seals blocks where it then stands. */
  method AppendAfterEnd(a: AeadFilter, d: Bytes)
    requires a.AtRecord() && a.blockNr == |a.plain| / a.key.plainSize && |d| > 0 && |d| % a.key.plainSize == 0
    requires a.ended ==>
      TellsEnd(a.key, a.blockNr, Tail(a.plain, a.key.plainSize), Stored(a.key, d, a.blockNr, false))
    modifies a.Repr()
    ensures a.next.Valid() && a.key.plainSize >= 1
    ensures a.next.Contents() == old(a.next.Contents()) + Stored(a.key, d, old(a.blockNr), false)
    ensures a.headerSize <= |a.next.Contents()|
    ensures IsStored(a.key, a.next.Contents()[a.headerSize..]) <==> !old(a.ended)
  {
    hide Stored, Body, Sealing.Sound, TellsEnd, IsStored, Overwrite;
    AppendAtHand(a, d);
    ghost var body, file, m := Body(a.key, a.plain, a.ended), a.next.Contents(), a.blockNr;
    var _, _ := a.Read(a.key.plainSize);
    SealBlocks(a, d);
    assert (a.header + body + Stored(a.key, d, m, false))[a.headerSize..] == body + Stored(a.key, d, m, false);
  }

  /** Seals whole blocks at the end of the file below, one after the other. */
  method SealBlocks(a: AeadFilter, d: Bytes)
    requires a.key.Sound() && a.next.Valid() && a.next.pos == |a.next.Contents()|
    requires a.key.plainSize >= 1 && Multiple(|d|, a.key.plainSize)
    modifies a.Repr()
    ensures a.next.Valid()
    ensures a.next.Contents() == old(a.next.Contents()) + Stored(a.key, d, old(a.blockNr), false)
  {
    hide Stored, Sealing.Sound, Overwrite, Multiple;
    var rest := d;
    ghost var j, file, m := 0, a.next.Contents(), a.blockNr;
    NothingSealed(a.key, m);
    assert d[..0] == [] && file + [] == file;
    while |rest| > 0
      invariant Times(j, a.key.plainSize) <= |d| && rest == d[Times(j, a.key.plainSize)..]
      invariant Multiple(|rest|, a.key.plainSize) && a.blockNr == m + j
      invariant a.next.Valid() && a.next.pos == |a.next.Contents()|
      invariant a.next.Contents() == file + Stored(a.key, d[..Times(j, a.key.plainSize)], m, false)
      decreases |rest|
    {
      RestOfBlocks(|rest|, a.key.plainSize);
      BlockSealed(a.key, d, m, j);
      var before := a.next.Contents();
      ghost var block := rest[..a.key.plainSize];
      var n := a.PutRecord(rest);
      WrittenOver(before, a.key.seal(m + j, block));
      Regrouped(file, Stored(a.key, d[..Times(j, a.key.plainSize)], m, false), a.key.seal(m + j, block));
      rest := rest[n..];
      j := j + 1;
    }
    assert d[..|d|] == d;
  }

  lemma RestOfBlocks(size: nat, plainSize: nat)
    requires size > 0 && Multiple(size, plainSize)
    ensures size >= plainSize && Multiple(size - plainSize, plainSize)
  {
    SmallRemainder(size, plainSize);
    RemainderOfRest(size, plainSize);
  }

  lemma NothingSealed(k: Sealing, n: nat)
    requires k.plainSize >= 1
    ensures Stored(k, [], n, false) == []
  {
  }

  /** The stored data grow by one sealed block. */
  lemma BlockSealed(k: Sealing, d: Bytes, n: nat, j: nat)
    requires k.Sound() && Times(j + 1, k.plainSize) <= |d|
    ensures
      var from, to := Times(j, k.plainSize), Times(j + 1, k.plainSize);
      && to == from + k.plainSize
      && d[from..][..k.plainSize] == d[from..to] && d[from..][k.plainSize..] == d[to..]
      && Stored(k, d[..to], n, false) == Stored(k, d[..from], n, false) + k.seal(n + j, d[from..to])
  {
    hide Stored, Sealing.Sound;
    var from, to := Times(j, k.plainSize), Times(j + 1, k.plainSize);
    var block := d[from..to];
    assert d[..to] == d[..from] + block;
    StoredConcat(k, d[..from], n, j, block);
    StoredParts(k, block, n + j, false);
    NothingSealed(k, n + j + 1);
    assert block[..k.plainSize] == block && block[k.plainSize..] == [];
    assert k.seal(n + j, block) + [] == k.seal(n + j, block);
  }

  lemma AppendAtHand(a: AeadFilter, d: Bytes)
    requires a.AtRecord() && a.blockNr == |a.plain| / a.key.plainSize && |d| > 0 && |d| % a.key.plainSize == 0
    requires a.ended ==>
      TellsEnd(a.key, a.blockNr, Tail(a.plain, a.key.plainSize), Stored(a.key, d, a.blockNr, false))
    ensures a.key.plainSize >= 1 && a.position + a.key.plainSize > |a.plain|
    ensures IsStored(a.key, Body(a.key, a.plain, a.ended) + Stored(a.key, d, a.blockNr, false)) <==> !a.ended
  {
    hide Stored, Body, Sealing.Sound, TellsEnd, IsStored;
    SoundSizes(a.key);
    Divide(|a.plain|, a.key.plainSize);
    StaleAppendExact(a.key, a.plain, a.ended, d);
  }

  /** Reading to the end of a closed file and appending a block leaves a file that is no encrypted file any more. */
  method StaleAppendFails() returns (stored: Bytes)
    ensures stored == [7, 8, 0, 1, 3, 4, 1] && !IsStored(Toy(), stored)
  {
    hide Stored, Body, TellsEnd, IsStored;
    ToyIsSound();
    ToyFile();
    ToyTellsEnd();
    var store := new Storage();
    store.files := map[0 := [7, 8, 0, 1]];
    var file := new FileSystemBottom.Open(store, 0, false, false);
    var a := new AeadFilter.Open(file, Toy(), 0, false, [], [7, 8], true);
    var _, _ := a.Read(2);
    AppendAfterEnd(a, [3, 4]);
    stored := store.files[0];
    assert stored[0..] == stored;
  }

  lemma ToyTellsEnd()
    ensures Stored(Toy(), [3, 4], 1, false) == [3, 4, 1] && Tail([7, 8], 2) == []
    ensures TellsEnd(Toy(), 1, [], [3, 4, 1])
  {
    assert [3, 4][2..] == [] && [3, 4][..2] == [3, 4];
    forall x: Bytes, y: Bytes | |x| == 2 ensures Toy().seal(1, x) + y != [1] + [3, 4, 1] {
      assert (Toy().seal(1, x) + y)[2] == 1 && ([1] + [3, 4, 1])[2] == 4;
    }
  }

  /** These files are a well-formed group. */
  ghost predicate IsGroup(files: map<nat, Bytes>, segmentSize: nat) {
    exists m: nat :: Group(files, m, segmentSize)
  }

  /** What fits behind the end of the last segment, if it is cut as if it started at the beginning of it. */
  predicate FitsBehind(last: Bytes, size: nat, segmentSize: nat) {
    |last| + size < segmentSize || (last == [] && size == segmentSize)
  }

  /**
   A write straight after FileSplit's seek to the end starts at the end of the last segment, but is cut, and goes
   on to the next segment, as if it started at the beginning of it: the group stays well formed exactly if the
   data leave room there, or are a whole segment and the last one is empty.
   */
  lemma UnpositionedExact(files: map<nat, Bytes>, n: nat, segmentSize: nat, d: Bytes)
    requires Group(files, n, segmentSize) && 0 < |d| <= segmentSize
    ensures
      var after := Written(files, segmentSize, n - 1, 0, |files[n - 1]|, d);
      && (IsGroup(after, segmentSize) <==> FitsBehind(files[n - 1], |d|, segmentSize))
      && (IsGroup(after, segmentSize) ==>
            var m := if |d| == segmentSize then n + 1 else n;
            Group(after, m, segmentSize) && Flatten(after, m) == Flatten(files, n) + d)
  {
    hide Flatten, IsGroup, Group, Written, IsBehind;
    assert 1 <= n && n - 1 in files by {
      GroupHasLast(files, n, segmentSize);
    }
    var after := Written(files, segmentSize, n - 1, 0, |files[n - 1]|, d);
    var m := if |d| == segmentSize then n + 1 else n;
    WritesBehind(files, n, segmentSize, d);
    if FitsBehind(files[n - 1], |d|, segmentSize) {
      LeavesGroup(files, after, n, m, segmentSize, d);
    } else {
      LeavesNoGroup(files, after, n, m, segmentSize, d);
    }
  }

  lemma GroupHasLast(files: map<nat, Bytes>, n: nat, segmentSize: nat)
    requires Group(files, n, segmentSize)
    ensures 1 <= n && n - 1 in files
  {
  }

  /** The segments after a write behind the last one. */
  ghost predicate IsBehind(files: map<nat, Bytes>, after: map<nat, Bytes>, n: nat, m: nat, d: Bytes)
    requires n >= 1
  {
    && (forall i: nat :: i < n ==> i in files) && (forall i: nat :: i in after <==> i < m) && n <= m <= n + 1
    && (forall i: nat :: i + 1 < n ==> after[i] == files[i]) && after[n - 1] == files[n - 1] + d
    && (m == n + 1 ==> after[n] == [])
  }

  lemma WritesBehind(files: map<nat, Bytes>, n: nat, segmentSize: nat, d: Bytes)
    requires Group(files, n, segmentSize) && 0 < |d| <= segmentSize
    ensures
      var after := Written(files, segmentSize, n - 1, 0, |files[n - 1]|, d);
      IsBehind(files, after, n, if |d| == segmentSize then n + 1 else n, d)
  {
    hide Overwrite;
    WrittenOver(files[n - 1], d);
  }

  lemma LeavesGroup(files: map<nat, Bytes>, after: map<nat, Bytes>, n: nat, m: nat, segmentSize: nat, d: Bytes)
    requires Group(files, n, segmentSize) && IsBehind(files, after, n, m, d)
    requires m == (if |d| == segmentSize then n + 1 else n) && FitsBehind(files[n - 1], |d|, segmentSize)
    ensures Group(after, m, segmentSize) && IsGroup(after, segmentSize)
    ensures Flatten(after, m) == Flatten(files, n) + d
  {
    hide Flatten;
    assert Group(after, m, segmentSize);
    FlattenBehind(files, after, n, d);
    if m == n + 1 {
      FlattenOneMore(after, n);
    }
  }

  lemma FlattenOneMore(files: map<nat, Bytes>, n: nat)
    requires (forall i: nat :: i <= n ==> i in files) && files[n] == []
    ensures Flatten(files, n + 1) == Flatten(files, n)
  {
  }

  lemma FlattenBehind(files: map<nat, Bytes>, after: map<nat, Bytes>, n: nat, d: Bytes)
    requires n >= 1 && forall i: nat :: i < n ==> i in files && i in after
    requires (forall i: nat :: i + 1 < n ==> after[i] == files[i]) && after[n - 1] == files[n - 1] + d
    ensures Flatten(after, n) == Flatten(files, n) + d
  {
    FlattenAgrees(files, after, n - 1);
    Regrouped(Flatten(files, n - 1), files[n - 1], d);
  }

  lemma LeavesNoGroup(files: map<nat, Bytes>, after: map<nat, Bytes>, n: nat, m: nat, segmentSize: nat, d: Bytes)
    requires Group(files, n, segmentSize) && IsBehind(files, after, n, m, d) && 0 < |d|
    requires m == (if |d| == segmentSize then n + 1 else n) && !FitsBehind(files[n - 1], |d|, segmentSize)
    ensures !IsGroup(after, segmentSize)
  {
    forall l: nat ensures !Group(after, l, segmentSize) {
      if Group(after, l, segmentSize) {
        SameCount(after, l, m);
      }
    }
  }

  lemma SameCount(files: map<nat, Bytes>, l: nat, m: nat)
    requires (forall i: nat :: i in files <==> i < l) && (forall i: nat :: i in files <==> i < m)
    ensures l == m
  {
    assert l !in files && m !in files;
  }

  /** The same of the filter: a seek to the end, and a write where it leaves the handle. */
  method WriteAfterSeekEnd(s: FileSplit, data: Bytes) returns (n: nat)
    requires s.Valid() && |data| > 0
    modifies s.Repr()
    ensures n == Min(s.segmentSize, |data|)
    ensures IsGroup(s.store.files, s.segmentSize)
       <==> FitsBehind(old(s.store.files)[old(s.count) - 1], n, s.segmentSize)
    ensures IsGroup(s.store.files, s.segmentSize) ==>
      var m := old(s.count) + if n == s.segmentSize then 1 else 0;
      Group(s.store.files, m, s.segmentSize) && Flatten(s.store.files, m) == old(s.Contents()) + data[..n]
  {
    hide IsGroup, Flatten;
    ghost var files, count := s.store.files, s.count;
    var _ := s.SeekEnd();
    MultipleMod(s.file.idx, s.segmentSize);
    n := s.PutSegment(data);
    UnpositionedExact(files, count, s.segmentSize, data[..n]);
  }

  /** Two more bytes behind a half-full segment of two bytes make a segment that is too long. */
  lemma UnpositionedFails()
    ensures Group(map[0 := [1]], 1, 2)
    ensures !IsGroup(Written(map[0 := [1]], 2, 0, 0, 1, [2, 3]), 2)
  {
    UnpositionedExact(map[0 := [1]], 1, 2, [2, 3]);
  }

  /**
   Closing the encryption filter on a group writes its last record right after the seek to the end: the group stays
   well formed exactly if that record fits behind its end.
   */
  method TerminateOnSplit(s: FileSplit, k: Sealing, number: nat)
    requires s.Valid() && k.Sound() && k.recordSize(0) <= s.segmentSize
    modifies s.Repr()
    ensures IsGroup(s.store.files, s.segmentSize)
       <==> FitsBehind(old(s.store.files)[old(s.count) - 1], k.recordSize(0), s.segmentSize)
    ensures IsGroup(s.store.files, s.segmentSize) ==>
      exists m: nat :: Group(s.store.files, m, s.segmentSize)
                       && Flatten(s.store.files, m) == old(s.Contents()) + k.seal(number, [])
  {
    hide IsGroup, Flatten;
    var sealed := k.seal(number, []);
    assert sealed[..|sealed|] == sealed && |sealed| == k.recordSize(0) > 0;
    var _ := WriteAfterSeekEnd(s, sealed);
  }
}
