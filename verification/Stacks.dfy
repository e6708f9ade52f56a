/**
 The stack an application uses: reads, writes and seeks through Buffered on whatever is below it.
 Any run of requests gives the answers of one flat file.
 */
module Stacks {
  import opened Sizes
  import opened FlatFiles
  import opened Records
  import opened Buffering
  import opened Files
  import opened Pipelines

  datatype Request = ReadBytes(size: nat) | WriteBytes(data: Bytes) | SeekTo(position: nat) | SeekToEnd | Synchronize

  datatype Answer = Bytes(data: Bytes, e: Error) | Count(n: nat) | At(position: nat) | Done

  /** A flat file and the position in it. */
  datatype FlatFile = FlatFile(contents: Bytes, position: nat)

  /** What one request does to a flat file, and its answer. */
  function Serve(f: FlatFile, r: Request): (FlatFile, Answer)
    requires f.position <= |f.contents|
    requires r.SeekTo? ==> r.position <= |f.contents|
  {
    match r
    case ReadBytes(size) =>
      var end := Min(f.position + size, |f.contents|);
      var data := f.contents[f.position..end];
      (f.(position := end), Bytes(data, if size > 0 && data == [] then EOF else OK))
    case WriteBytes(data) =>
      (FlatFile(Overwrite(f.contents, f.position, data), f.position + |data|), Count(|data|))
    case SeekTo(position) => (f.(position := position), At(position))
    case SeekToEnd => (f.(position := |f.contents|), At(|f.contents|))
    case Synchronize => (f, Done)
  }

  /** What is below Buffered, as far as requests are concerned. */
  datatype Below = InBytes | InRecords(k: Sealing)

  function BelowOf(l: Lower): Below {
    if l.Aead? then InRecords(l.a.key) else InBytes
  }

  /**
   What a run leaves behind besides the file: whether a read met the end and nothing has undone that since,
   whether the last record is there once the buffer is flushed, and where the buffer is.
   */
  datatype Track = Track(stale: bool, whole: bool, cache: Cache)

  /**
   Whether a request can be made. Seeks stay inside the file. Over encryption, a whole block cannot be written
   straight behind a last record that a read has met, and the end must be one that the seek to it finds.
   */
  ghost predicate Legal(f: FlatFile, r: Request, t: Track, below: Below, blockSize: Positive) {
    && f.position <= |f.contents|
    && (r.SeekTo? ==> r.position <= |f.contents|)
    && (r.WriteBytes? ==> |r.data| > 0)
    && (r.WriteBytes? && below.InRecords? && t.stale && t.whole && f.position % blockSize == 0 ==>
          |r.data| < blockSize)
    && (r.SeekToEnd? && below.InRecords? ==> below.k.plainSize >= 1 && EndFound(below.k, |f.contents|, t.whole))
  }

  /** Whether the end of the file has been met by reading, without a request that undoes it. */
  function Stale(f: FlatFile, r: Request, stale: bool): bool {
    match r
    case ReadBytes(size) => if size == 0 then stale else f.position + size > |f.contents|
    case WriteBytes(_) => false
    case SeekTo(position) => stale && position >= |f.contents|
    case SeekToEnd => false
    case Synchronize => stale
  }

  /** Whether the last record is there after the file became this long, or was written inside. */
  predicate WholeAfter(below: Below, whole: bool, before: nat, after: nat) {
    match below
    case InBytes => true
    case InRecords(k) => (k.plainSize >= 1 && after % k.plainSize != 0) || (whole && after == before)
  }

  function CacheAfter(f: FlatFile, r: Request, c: Cache, blockSize: Positive): Cache {
    match r
    case ReadBytes(size) => CacheReads(c, f.position, size, |f.contents|, blockSize)
    case WriteBytes(data) => CacheWrites(c, f.position, |data|, blockSize)
    case SeekTo(position) => CacheSeek(c, position, blockSize)
    case SeekToEnd => Cache(RoundDown(|f.contents|, blockSize), false)
    case Synchronize => c
  }

  function After(f: FlatFile, r: Request, t: Track, below: Below, blockSize: Positive): Track
    requires f.position <= |f.contents|
    requires r.SeekTo? ==> r.position <= |f.contents|
  {
    Track(Stale(f, r, t.stale), WholeAfter(below, t.whole, |f.contents|, |Serve(f, r).0.contents|),
          CacheAfter(f, r, t.cache, blockSize))
  }

  /**
   Any write is legal behind a write, behind a seek that leaves the end, and behind a read that did not meet it; and so
   is anywhere one that is shorter than a block, or does not start on one.
   */
  lemma WritesStayLegal(f: FlatFile, r: Request, data: Bytes, t: Track, below: Below, blockSize: Positive)
    requires Legal(f, r, t, below, blockSize) && |data| > 0
    requires r.WriteBytes? || r.SeekToEnd? || (r.SeekTo? && r.position < |f.contents|)
      || (r.ReadBytes? && 0 < r.size <= |f.contents| - f.position)
      || |data| < blockSize || Serve(f, r).0.position % blockSize != 0
    ensures Legal(Serve(f, r).0, WriteBytes(data), After(f, r, t, below, blockSize), below, blockSize)
  {
    hide WholeAfter, CacheAfter;
    NeverShorter(f, r);
  }

  ghost predicate LegalRun(f: FlatFile, rs: seq<Request>, t: Track, below: Below, blockSize: Positive)
    decreases |rs|
  {
    rs == [] || (Legal(f, rs[0], t, below, blockSize)
                 && LegalRun(Serve(f, rs[0]).0, rs[1..], After(f, rs[0], t, below, blockSize), below, blockSize))
  }

  /** Every seek stays inside the file, and no write is empty. */
  ghost predicate InBounds(f: FlatFile, rs: seq<Request>)
    requires f.position <= |f.contents|
    decreases |rs|
  {
    rs == [] || ((rs[0].SeekTo? ==> rs[0].position <= |f.contents|)
                 && (rs[0].WriteBytes? ==> |rs[0].data| > 0)
                 && InBounds(Serve(f, rs[0]).0, rs[1..]))
  }

  /** The flat file after all the requests, and their answers. */
  ghost function FlatRun(f: FlatFile, rs: seq<Request>): (FlatFile, seq<Answer>)
    requires f.position <= |f.contents| && InBounds(f, rs)
    decreases |rs|
  {
    if rs == [] then (f, [])
    else
      var (g, a) := Serve(f, rs[0]);
      var (h, more) := FlatRun(g, rs[1..]);
      (h, [a] + more)
  }

  lemma Regroup(a: seq<Answer>, b: seq<Answer>, c: seq<Answer>)
    ensures a + (b + c) == (a + b) + c
  {
  }

  lemma {:induction false} RunSplits(f: FlatFile, rs: seq<Request>, i: nat)
    requires f.position <= |f.contents| && InBounds(f, rs) && i <= |rs|
    ensures InBounds(f, rs[..i])
    ensures
      var (g, first) := FlatRun(f, rs[..i]);
      && |first| == i && g.position <= |g.contents| && InBounds(g, rs[i..])
      && FlatRun(f, rs) == var (h, more) := FlatRun(g, rs[i..]); (h, first + more)
    decreases i
  {
    hide Serve;
    if i == 0 {
      assert rs[..0] == [] && rs[0..] == rs && [] + FlatRun(f, rs).1 == FlatRun(f, rs).1;
    } else {
      assert rs[..i][0] == rs[0] && rs[..i][1..] == rs[1..][..i - 1] && rs[1..][i - 1..] == rs[i..];
      NeverShorter(f, rs[0]);
      RunSplits(Serve(f, rs[0]).0, rs[1..], i - 1);
      var a, first := Serve(f, rs[0]).1, FlatRun(Serve(f, rs[0]).0, rs[1..][..i - 1]).1;
      Regroup([a], first, FlatRun(FlatRun(f, rs[..i]).0, rs[i..]).1);
    }
  }

  /** A run that stays inside the file goes on with anything but a seek past the end or an empty write. */
  lemma {:induction false} InBoundsOn(f: FlatFile, rs: seq<Request>, r: Request)
    requires f.position <= |f.contents| && InBounds(f, rs)
    ensures InBounds(f, rs + [r]) <==>
      match r
      case SeekTo(position) => position <= |FlatRun(f, rs).0.contents|
      case WriteBytes(data) => data != []
      case _ => true
    decreases |rs|
  {
    if rs == [] {
      assert rs + [r] == [r] && [r][1..] == [];
    } else {
      assert (rs + [r])[0] == rs[0] && (rs + [r])[1..] == rs[1..] + [r];
      InBoundsOn(Serve(f, rs[0]).0, rs[1..], r);
    }
  }

  /** The flat file before request `i` of a run. */
  ghost function FileAt(f: FlatFile, rs: seq<Request>, i: nat): (g: FlatFile)
    requires f.position <= |f.contents| && InBounds(f, rs) && i <= |rs|
    ensures g.position <= |g.contents|
  {
    RunSplits(f, rs, i);
    FlatRun(f, rs[..i]).0
  }

  lemma FileSteps(f: FlatFile, rs: seq<Request>, i: nat)
    requires f.position <= |f.contents| && InBounds(f, rs) && i < |rs|
    ensures FileAt(f, rs, 0) == f && FileAt(f, rs, |rs|) == FlatRun(f, rs).0 && |FlatRun(f, rs).1| == |rs|
    ensures rs[i].SeekTo? ==> rs[i].position <= |FileAt(f, rs, i).contents|
    ensures (FileAt(f, rs, i + 1), FlatRun(f, rs).1[i]) == Serve(FileAt(f, rs, i), rs[i])
  {
    hide Serve;
    RunSplits(f, rs, |rs|);
    assert rs[..|rs|] == rs && rs[..0] == [];
    RunSplits(f, rs, i + 1);
    RunSplits(f, rs[..i + 1], i);
    assert rs[..i + 1][..i] == rs[..i] && rs[..i + 1][i..] == [rs[i]] && [rs[i]][1..] == [];
  }

  /** How the file before one request of a run leads to the file before the next, and to the answer. */
  lemma AnswerAt(f: FlatFile, rs: seq<Request>, i: nat)
    requires f.position <= |f.contents| && InBounds(f, rs) && i < |rs|
    ensures FileAt(f, rs, 0) == f && FileAt(f, rs, |rs|) == FlatRun(f, rs).0 && |FlatRun(f, rs).1| == |rs|
    ensures
      var now, next, a := FileAt(f, rs, i), FileAt(f, rs, i + 1), FlatRun(f, rs).1[i];
      match rs[i]
      case ReadBytes(size) =>
        && next.contents == now.contents && next.position == Min(now.position + size, |now.contents|)
        && a == Bytes(now.contents[now.position..next.position],
                      if size > 0 && now.position == |now.contents| then EOF else OK)
      case WriteBytes(data) =>
        && a == Count(|data|) && next.position == now.position + |data|
        && |next.contents| == Max(|now.contents|, next.position)
        && next.contents[now.position..next.position] == data
        && next.contents[..now.position] == now.contents[..now.position]
        && (next.position < |now.contents| ==> next.contents[next.position..] == now.contents[next.position..])
      case SeekTo(position) => a == At(position) && next == FlatFile(now.contents, position)
      case SeekToEnd => a == At(|now.contents|) && next == FlatFile(now.contents, |now.contents|)
      case Synchronize => a == Done && next == now
  {
    FileSteps(f, rs, i);
  }

  /** Request `i` writes byte `k` of the file. */
  ghost predicate WritesByte(f: FlatFile, rs: seq<Request>, i: nat, k: nat)
    requires f.position <= |f.contents| && InBounds(f, rs) && i < |rs|
  {
    rs[i].WriteBytes? && FileAt(f, rs, i).position <= k < FileAt(f, rs, i).position + |rs[i].data|
  }

  /** A byte that is not written in between stays what it is. */
  lemma {:induction false} ByteStays(f: FlatFile, rs: seq<Request>, i: nat, j: nat, k: nat)
    requires f.position <= |f.contents| && InBounds(f, rs) && i <= j <= |rs| && k < |FileAt(f, rs, i).contents|
    requires forall m :: i <= m < j ==> !WritesByte(f, rs, m, k)
    ensures k < |FileAt(f, rs, j).contents| && FileAt(f, rs, j).contents[k] == FileAt(f, rs, i).contents[k]
    decreases j
  {
    hide FlatRun, Serve, InBounds, FileAt;
    if i < j {
      ByteStays(f, rs, i, j - 1, k);
      assert !WritesByte(f, rs, j - 1, k);
      AnswerAt(f, rs, j - 1);
      var now, next := FileAt(f, rs, j - 1), FileAt(f, rs, j);
      if rs[j - 1].WriteBytes? {
        if k < now.position {
          assert next.contents[..now.position][k] == now.contents[..now.position][k];
        } else {
          assert next.contents[next.position..][k - next.position] == now.contents[next.position..][k - next.position];
        }
      }
    }
  }

  /** The byte after the request that writes it. */
  lemma ByteWritten(f: FlatFile, rs: seq<Request>, i: nat, k: nat)
    requires f.position <= |f.contents| && InBounds(f, rs) && i < |rs| && WritesByte(f, rs, i, k)
    ensures k < |FileAt(f, rs, i + 1).contents|
    ensures FileAt(f, rs, i + 1).contents[k] == rs[i].data[k - FileAt(f, rs, i).position]
  {
    hide FlatRun, Serve, InBounds, FileAt;
    AnswerAt(f, rs, i);
    var now, next := FileAt(f, rs, i), FileAt(f, rs, i + 1);
    assert next.contents[now.position..next.position][k - now.position] == next.contents[k];
  }

  /** A read in a run yields for each byte what was last written there. */
  lemma ReadsLastWritten(f: FlatFile, rs: seq<Request>, w: nat, i: nat, k: nat)
    requires f.position <= |f.contents| && InBounds(f, rs) && w < i < |rs| && rs[i].ReadBytes?
    requires FileAt(f, rs, i).position <= k < Min(FileAt(f, rs, i).position + rs[i].size, |FileAt(f, rs, i).contents|)
    requires WritesByte(f, rs, w, k) && forall m :: w < m < i ==> !WritesByte(f, rs, m, k)
    ensures
      var n := k - FileAt(f, rs, i).position;
      && i < |FlatRun(f, rs).1| && FlatRun(f, rs).1[i].Bytes? && n < |FlatRun(f, rs).1[i].data|
      && FlatRun(f, rs).1[i].data[n] == rs[w].data[k - FileAt(f, rs, w).position]
  {
    hide FlatRun, Serve, InBounds, FileAt;
    AnswerAt(f, rs, i);
    ByteWritten(f, rs, w, k);
    ByteStays(f, rs, w + 1, i, k);
  }

  /** Where nothing was written it yields what was there before the run. */
  lemma ReadsUnwritten(f: FlatFile, rs: seq<Request>, i: nat, k: nat)
    requires f.position <= |f.contents| && InBounds(f, rs) && i < |rs| && rs[i].ReadBytes?
    requires FileAt(f, rs, i).position <= k < Min(FileAt(f, rs, i).position + rs[i].size, |f.contents|)
    requires forall m :: 0 <= m < i ==> !WritesByte(f, rs, m, k)
    ensures
      var n := k - FileAt(f, rs, i).position;
      && i < |FlatRun(f, rs).1| && FlatRun(f, rs).1[i].Bytes? && n < |FlatRun(f, rs).1[i].data|
      && FlatRun(f, rs).1[i].data[n] == f.contents[k]
  {
    hide FlatRun, Serve, InBounds, FileAt;
    AnswerAt(f, rs, i);
    ByteStays(f, rs, 0, i, k);
  }

  /** What all the requests leave behind. */
  ghost function TrackRun(f: FlatFile, rs: seq<Request>, t: Track, below: Below, blockSize: Positive): Track
    requires f.position <= |f.contents| && InBounds(f, rs)
    decreases |rs|
  {
    if rs == [] then t
    else TrackRun(Serve(f, rs[0]).0, rs[1..], After(f, rs[0], t, below, blockSize), below, blockSize)
  }

  lemma {:induction false} LegalIsInBounds(f: FlatFile, rs: seq<Request>, t: Track, below: Below, blockSize: Positive)
    requires f.position <= |f.contents| && LegalRun(f, rs, t, below, blockSize)
    ensures InBounds(f, rs)
    decreases |rs|
  {
    if rs != [] {
      LegalIsInBounds(Serve(f, rs[0]).0, rs[1..], After(f, rs[0], t, below, blockSize), below, blockSize);
    }
  }

  /** On a file or a group of segments staying inside the file is all that a run has to do. */
  lemma {:induction false} LegalOnBytes(f: FlatFile, rs: seq<Request>, t: Track, below: Below, blockSize: Positive)
    requires below.InBytes? && f.position <= |f.contents|
    ensures LegalRun(f, rs, t, below, blockSize) <==> InBounds(f, rs)
    decreases |rs|
  {
    if rs != [] && (rs[0].SeekTo? ==> rs[0].position <= |f.contents|) {
      LegalOnBytes(Serve(f, rs[0]).0, rs[1..], After(f, rs[0], t, below, blockSize), below, blockSize);
    }
  }

  /**
   A run on an encrypted file ends well: the last record is there, or what the buffer holds reaches to the end
   of the file, so that the number of the last record is at hand.
   */
  ghost predicate EndsWell(f: FlatFile, rs: seq<Request>, t: Track, k: Sealing, blockSize: Positive)
    requires f.position <= |f.contents| && InBounds(f, rs)
  {
    var u := TrackRun(f, rs, t, InRecords(k), blockSize);
    u.whole || Reaches(u.cache, |FlatRun(f, rs).0.contents|, blockSize)
  }

  /** The sizes alone tell whether the last record is there. */
  lemma {:induction false} WholeTold(f: FlatFile, rs: seq<Request>, t: Track, k: Sealing, blockSize: Positive)
    requires f.position <= |f.contents| && InBounds(f, rs)
    requires k.plainSize >= 1 && (|f.contents| % k.plainSize != 0 ==> t.whole)
    ensures |FlatRun(f, rs).0.contents| >= |f.contents|
    ensures TrackRun(f, rs, t, InRecords(k), blockSize).whole
       <==> WholeAfter(InRecords(k), t.whole, |f.contents|, |FlatRun(f, rs).0.contents|)
    decreases |rs|
  {
    if rs != [] {
      NeverShorter(f, rs[0]);
      WholeTold(Serve(f, rs[0]).0, rs[1..], After(f, rs[0], t, InRecords(k), blockSize), k, blockSize);
    }
  }

  /** The position is in the buffer's block, or at its end if it has been used up. */
  predicate Around(c: Cache, position: nat, blockSize: Positive) {
    0 <= c.start <= position <= c.start + blockSize && (!c.held ==> position < c.start + blockSize)
  }

  /** After all of the data is written the buffer holds its last bytes, or waits behind them. */
  lemma {:induction false} WritesReach(c: Cache, position: nat, size: nat, blockSize: Positive)
    requires Around(c, position, blockSize)
    ensures Around(CacheWrites(c, position, size, blockSize), position + size, blockSize)
    ensures size > 0 ==> Reaches(CacheWrites(c, position, size, blockSize), position + size, blockSize)
    decreases size
  {
    if size > 0 {
      var (d, n) := CacheWrite(c, position, size, blockSize);
      WriteStays(c, position, size, blockSize);
      WritesReach(d, position + n, size - n, blockSize);
    }
  }

  lemma WriteStays(c: Cache, position: nat, size: nat, blockSize: Positive)
    requires Around(c, position, blockSize) && size > 0
    ensures
      var (d, n) := CacheWrite(c, position, size, blockSize);
      0 < n <= size && Around(d, position + n, blockSize) && Reaches(d, position + n, blockSize)
  {
    if size >= blockSize {
      RoundsUpToBlock(size, blockSize);
    }
  }

  lemma ReadStays(c: Cache, position: nat, size: nat, length: nat, blockSize: Positive)
    requires Around(c, position, blockSize) && position <= length && size > 0
    ensures
      var (d, n) := CacheRead(c, position, size, length, blockSize);
      && 0 <= n <= size && position + n <= length && Around(d, position + n, blockSize)
      && (n == 0 && !(UsedUp(c, position, blockSize) && !UsedUp(d, position, blockSize)) ==> position == length)
  {
    if size > blockSize {
      RoundsUpToBlock(size, blockSize);
    }
  }

  lemma {:induction false} ReadsStay(c: Cache, position: nat, size: nat, length: nat, blockSize: Positive)
    requires Around(c, position, blockSize) && position <= length
    ensures Around(CacheReads(c, position, size, length, blockSize), Min(position + size, length), blockSize)
    decreases size, UsedUp(c, position, blockSize)
  {
    if size > 0 {
      var (d, n) := CacheRead(c, position, size, length, blockSize);
      ReadStays(c, position, size, length, blockSize);
      OneRead(c, position, size, length, blockSize);
      if n > 0 {
        ReadsStay(d, position + n, size - n, length, blockSize);
      } else if UsedUp(c, position, blockSize) && !UsedUp(d, position, blockSize) {
        ReadsStay(d, position, size, length, blockSize);
      }
    }
  }

  lemma RequestStays(f: FlatFile, r: Request, t: Track, below: Below, blockSize: Positive)
    requires f.position <= |f.contents| && (r.SeekTo? ==> r.position <= |f.contents|)
    requires Around(t.cache, f.position, blockSize)
    ensures Around(After(f, r, t, below, blockSize).cache, Serve(f, r).0.position, blockSize)
  {
    match r
    case ReadBytes(size) => ReadsStay(t.cache, f.position, size, |f.contents|, blockSize);
    case WriteBytes(data) => WritesReach(t.cache, f.position, |data|, blockSize);
    case SeekTo(position) =>
    case SeekToEnd =>
    case Synchronize =>
  }

  /** A run that ends by writing at the end of the file ends well. */
  lemma {:induction false} WritingAtEndEndsWell(f: FlatFile, rs: seq<Request>, t: Track, k: Sealing,
                                                blockSize: Positive)
    requires f.position <= |f.contents| && InBounds(f, rs) && Around(t.cache, f.position, blockSize)
    requires rs != [] && rs[|rs| - 1].WriteBytes?
    requires var g := FlatRun(f, rs).0; g.position == |g.contents|
    ensures EndsWell(f, rs, t, k, blockSize)
    decreases |rs|
  {
    if |rs| == 1 {
      assert rs[1..] == [];
      WritesReach(t.cache, f.position, |rs[0].data|, blockSize);
    } else {
      RequestStays(f, rs[0], t, InRecords(k), blockSize);
      WritingAtEndEndsWell(Serve(f, rs[0]).0, rs[1..], After(f, rs[0], t, InRecords(k), blockSize), k, blockSize);
    }
  }

  predicate ReadOnly(rs: seq<Request>) {
    forall i :: 0 <= i < |rs| ==> !rs[i].WriteBytes?
  }

  ghost function TrackOf(b: Buffered): Track
    requires b.Valid()
    reads b, b.buf, b.next.Heads(), b.next.Repr()
  {
    Track(false, b.Whole(), b.Cached())
  }

  ghost function View(b: Buffered): FlatFile
    requires b.Valid()
    reads b, b.buf, b.next.Heads(), b.next.Repr()
  {
    FlatFile(b.Contents(), b.position)
  }

  /** Reads as much as was asked for, unless the file ends. */
  method FileRead(b: Buffered, size: nat, e: Error) returns (data: Bytes, e': Error)
    requires b.Valid()
    modifies b.Repr()
    ensures b.Valid()
    ensures forall o :: o in b.Repr() ==> o in old(b.Repr()) || fresh(o)
    ensures b.Contents() == old(b.Contents()) && b.position == old(b.position) + |data| <= |b.Contents()|
    ensures data == b.Contents()[old(b.position)..b.position]
    ensures e == OK ==> |data| == Min(size, |b.Contents()| - old(b.position))
    ensures e == OK ==> e' == if size > 0 && data == [] then EOF else OK
    ensures e != OK ==> data == [] && e' == e
    ensures e == OK && size > 0 && |data| == size ==> b.CanWrite()
    ensures size == 0 && old(b.CanWrite()) ==> b.CanWrite()
    ensures e == OK ==>
      b.Cached() == CacheReads(old(b.Cached()), old(b.position), size, |b.Contents()|, b.blockSize)
    ensures !old(b.dirty) ==> !b.dirty && b.next.Files() == old(b.next.Files())
    ensures b.Whole() == old(b.Whole())
  {
    hide Buffered.Valid, Buffered.Contents, Buffered.CanWrite, Buffered.CanTake, Buffered.Whole;
    if size == 0 {
      return [], e;
    }
    data, e' := ReadAll(Buf(b), size, e);
  }

  /** Writes all of the data. */
  method FileWrite(b: Buffered, data: Bytes, e: Error) returns (n: nat, e': Error)
    requires |data| > 0 && b.CanTake(|data|)
    modifies b.Repr()
    ensures b.Valid()
    ensures forall o :: o in b.Repr() ==> o in old(b.Repr()) || fresh(o)
    ensures e' == e && n == if e == OK then |data| else 0
    ensures b.Contents() == Overwrite(old(b.Contents()), old(b.position), data[..n])
    ensures b.position == old(b.position) + n
    ensures e == OK ==> b.CanWrite()
    ensures e == OK ==> b.Cached() == CacheWrites(old(b.Cached()), old(b.position), |data|, b.blockSize)
    ensures e == OK ==> b.Whole() == b.next.EndedAfter(old(b.Whole()), |old(b.Contents())|, |b.Contents()|)
  {
    hide Buffered.Valid, Buffered.Contents, Buffered.CanWrite, Buffered.CanTake, Buffered.Whole;
    n, e' := WriteAll(Buf(b), data, e);
  }

  /** The stack has come this far: what is tracked of it is so. */
  ghost predicate Follows(b: Buffered, t: Track)
    reads b, b.buf, b.next.Heads(), b.next.Repr()
  {
    b.Valid() && (!t.stale ==> b.CanWrite()) && t.whole == b.Whole() && t.cache == b.Cached()
  }

  /** One request, through the transfer loops. */
  method Submit(b: Buffered, r: Request, ghost t: Track) returns (a: Answer)
    requires Follows(b, t) && Legal(View(b), r, t, BelowOf(b.next), b.blockSize)
    modifies b.Repr()
    ensures b.Valid()
    ensures forall o :: o in b.Repr() ==> o in old(b.Repr()) || fresh(o)
    ensures (View(b), a) == Serve(old(View(b)), r)
    ensures r.ReadBytes? ==>
      && b.Contents() == old(b.Contents()) && b.position == Min(old(b.position) + r.size, |b.Contents()|)
      && a == Bytes(b.Contents()[old(b.position)..b.position],
                    if r.size > 0 && old(b.position) == |b.Contents()| then EOF else OK)
    ensures r.WriteBytes? ==>
      && a == Count(|r.data|) && b.position == old(b.position) + |r.data|
      && b.Contents() == Overwrite(old(b.Contents()), old(b.position), r.data)
    ensures r.SeekTo? ==> a == At(r.position) && b.position == r.position && b.Contents() == old(b.Contents())
    ensures r.SeekToEnd? ==>
      a == At(|b.Contents()|) && b.position == |b.Contents()| && b.Contents() == old(b.Contents())
    ensures r.Synchronize? ==>
      && a == Done && b.position == old(b.position) && b.Contents() == old(b.Contents())
      && !b.dirty && b.next.Contents() == b.Contents()
    ensures !r.WriteBytes? && !old(b.dirty) ==> !b.dirty
    ensures Follows(b, After(old(View(b)), r, t, BelowOf(b.next), b.blockSize))
    ensures !r.WriteBytes? && !old(b.dirty) ==> !b.dirty && b.next.Files() == old(b.next.Files())
  {
    hide Buffered.Valid, Buffered.Contents, Buffered.CanWrite, Buffered.CanTake, Buffered.Whole;
    hide Lower.EndedAfter, WholeAfter, CacheReads, CacheWrites, CacheSeek, RoundDown, Overwrite;
    SameWhole(b);
    match r
    case ReadBytes(size) =>
      var data, e := FileRead(b, size, OK);
      a := Bytes(data, e);
    case WriteBytes(data) =>
      TakesLegal(b, data, t);
      ghost var before := |b.Contents()|;
      var n, _ := FileWrite(b, data, OK);
      assert data[..n] == data;
      WholeIsTracked(b.next, t.whole, before, |b.Contents()|);
      a := Count(n);
    case SeekTo(position) =>
      var reached := b.Seek(position);
      a := At(reached);
    case SeekToEnd =>
      FindsLegal(b, t);
      var reached := b.Seek(FILE_END_POSITION);
      a := At(reached);
    case Synchronize =>
      b.Sync();
      a := Done;
  }

  /** Nothing is dirty: what is below is the file. */
  lemma CleanBelow(b: Buffered)
    requires b.Valid() && !b.dirty
    ensures b.next.Contents() == b.Contents()
  {
  }

  /** A request that does not change the length of the file does not change whether the last record is there. */
  lemma SameWhole(b: Buffered)
    requires b.Valid()
    ensures WholeAfter(BelowOf(b.next), b.Whole(), |b.Contents()|, |b.Contents()|) == b.Whole()
  {
  }

  lemma WholeIsTracked(next: Lower, whole: bool, before: nat, after: nat)
    ensures WholeAfter(BelowOf(next), whole, before, after) == next.EndedAfter(whole, before, after)
  {
  }

  lemma FindsLegal(b: Buffered, t: Track)
    requires Follows(b, t) && Legal(View(b), SeekToEnd, t, BelowOf(b.next), b.blockSize)
    ensures b.EndExact()
  {
  }

  /** A write that is legal can be taken: only behind a last record that was met is there no room. */
  lemma TakesLegal(b: Buffered, data: Bytes, t: Track)
    requires Follows(b, t) && Legal(View(b), WriteBytes(data), t, BelowOf(b.next), b.blockSize)
    ensures b.CanTake(|data|)
  {
    if t.stale && b.bufActual == 0 && |data| >= b.blockSize {
      Ranges(b.State());
      if b.position % b.blockSize == 0 {
        b.next.NotEndedCanWrite();
      }
    }
  }

  /**
   Buffered on a file, on a group of segments, or on an encrypted file answers every legal run of
   requests as one flat file does, and stands for that file afterwards.
   */
  method Run(b: Buffered, rs: seq<Request>) returns (answers: seq<Answer>)
    requires b.CanWrite() && LegalRun(View(b), rs, TrackOf(b), BelowOf(b.next), b.blockSize)
    modifies b.Repr()
    ensures b.Valid()
    ensures forall o :: o in b.Repr() ==> o in old(b.Repr()) || fresh(o)
    ensures InBounds(old(View(b)), rs)
    ensures (View(b), answers) == FlatRun(old(View(b)), rs)
    ensures Follows(b, TrackRun(old(View(b)), rs, old(TrackOf(b)), BelowOf(b.next), b.blockSize))
    ensures ReadOnly(rs) && !old(b.dirty) ==> !b.dirty && b.next.Files() == old(b.next.Files())
    // Nothing that was written before the last sync is still to be stored.
    ensures forall i :: 0 <= i < |rs| && rs[i] == Synchronize && (forall j :: i < j < |rs| ==> !rs[j].WriteBytes?) ==>
      b.next.Contents() == FlatRun(old(View(b)), rs).0.contents
  {
    hide Buffered.Valid, Buffered.Contents, Buffered.CanWrite, Buffered.Whole, Lower.Files, Legal, Serve, After;
    answers := [];
    ghost var t := TrackOf(b);
    ghost var file, track, below, size := View(b), t, BelowOf(b.next), b.blockSize;
    LegalIsInBounds(file, rs, t, below, size);
    assert rs[0..] == rs && answers + FlatRun(file, rs).1 == FlatRun(file, rs).1;
    for i := 0 to |rs|
      invariant Follows(b, t)
      invariant forall o :: o in b.Repr() ==> o in old(b.Repr()) || fresh(o)
      invariant LegalRun(View(b), rs[i..], t, below, size) && InBounds(View(b), rs[i..])
      invariant ReadOnly(rs) && !old(b.dirty) ==> !b.dirty && b.next.Files() == old(b.next.Files())
      invariant forall m :: 0 <= m < i && rs[m] == Synchronize && (forall j :: m < j < i ==> !rs[j].WriteBytes?) ==>
        !b.dirty
      invariant FlatRun(file, rs) == var (f, more) := FlatRun(View(b), rs[i..]); (f, answers + more)
      invariant TrackRun(file, rs, track, below, size) == TrackRun(View(b), rs[i..], t, below, size)
    {
      ghost var before := View(b);
      assert rs[i..][0] == rs[i] && rs[i..][1..] == rs[i + 1..];
      var a := Submit(b, rs[i], t);
      t := After(before, rs[i], t, below, size);
      Regroup(answers, [a], FlatRun(View(b), rs[i + 1..]).1);
      answers := answers + [a];
    }
    assert rs[|rs|..] == [] && answers + [] == answers;
    if !b.dirty {
      CleanBelow(b);
    }
  }

  lemma NeverShorter(f: FlatFile, r: Request)
    requires f.position <= |f.contents| && (r.SeekTo? ==> r.position <= |f.contents|)
    ensures |Serve(f, r).0.contents| >= |f.contents| && Serve(f, r).0.position <= |Serve(f, r).0.contents|
  {
  }

  /**
   The whole life of a stack on a file or on a group of segments: any run inside the file, then close.
   What is stored at the end is the flat file.
   */
  method RunAndClose(b: Buffered, rs: seq<Request>) returns (answers: seq<Answer>)
    requires b.CanWrite() && !b.next.Aead? && InBounds(View(b), rs)
    modifies b.Repr()
    ensures b.next.Valid()
    ensures
      var (f, expected) := FlatRun(old(View(b)), rs);
      answers == expected && b.next.Contents() == f.contents
  {
    hide Buffered.Valid, Buffered.Contents, Buffered.CanWrite, Buffered.Whole, InBounds, Buffered.ClosesWell;
    LegalOnBytes(View(b), rs, TrackOf(b), BelowOf(b.next), b.blockSize);
    answers := Run(b, rs);
    b.Close();
  }

  /**
   The whole life of a stack on an encrypted file: any legal run, then close. What is stored is the flat file,
   in records with exactly one short record at its end, if the run ends well; and only then, if the empty record
   that belongs there differs from those with smaller numbers.
   */
  method RunAndCloseEncrypted(b: Buffered, rs: seq<Request>) returns (answers: seq<Answer>)
    requires b.CanWrite() && b.next.Aead? && LegalRun(View(b), rs, TrackOf(b), BelowOf(b.next), b.blockSize)
    modifies b.Repr()
    ensures InBounds(old(View(b)), rs)
    ensures answers == FlatRun(old(View(b)), rs).1
    ensures b.next.a.next.Valid() && b.next.a.key.plainSize >= 1
    ensures
      var k, a := b.next.a.key, b.next.a;
      var well := old(EndsWell(View(b), rs, TrackOf(b), k, b.blockSize));
      var stored := a.next.Contents() == a.header + Body(k, FlatRun(old(View(b)), rs).0.contents, true);
      && (well ==> stored && b.next.Valid())
      && (ApartIn(k, |FlatRun(old(View(b)), rs).0.contents|) && stored ==> well)
  {
    hide Buffered.Valid, Buffered.Contents, Buffered.CanWrite, Buffered.Whole, InBounds, ApartIn;
    LegalIsInBounds(View(b), rs, TrackOf(b), BelowOf(b.next), b.blockSize);
    answers := Run(b, rs);
    b.Close();
  }

  /** Reading and seeking, then closing, leaves every stored file as it was, byte for byte. */
  method RunReadOnly(b: Buffered, rs: seq<Request>) returns (answers: seq<Answer>)
    requires b.CanWrite() && !b.dirty && b.Whole() && ReadOnly(rs)
    requires LegalRun(View(b), rs, TrackOf(b), BelowOf(b.next), b.blockSize)
    modifies b.Repr()
    ensures InBounds(old(View(b)), rs) && answers == FlatRun(old(View(b)), rs).1
    ensures b.next.Files() == old(b.next.Files())
  {
    hide Buffered.Valid, Buffered.Contents, Buffered.CanWrite, Buffered.Whole, InBounds, Buffered.ClosesWell;
    LegalIsInBounds(View(b), rs, TrackOf(b), BelowOf(b.next), b.blockSize);
    ReadOnlyStaysWhole(View(b), rs, TrackOf(b), BelowOf(b.next), b.blockSize);
    answers := Run(b, rs);
    b.Close();
  }

  lemma {:induction false} ReadOnlyStaysWhole(f: FlatFile, rs: seq<Request>, t: Track, below: Below,
                                              blockSize: Positive)
    requires f.position <= |f.contents| && InBounds(f, rs) && ReadOnly(rs) && t.whole
    ensures TrackRun(f, rs, t, below, blockSize).whole
    decreases |rs|
  {
    if rs != [] {
      assert forall i :: 0 <= i < |rs[1..]| ==> rs[1..][i] == rs[i + 1];
      ReadOnlyStaysWhole(Serve(f, rs[0]).0, rs[1..], After(f, rs[0], t, below, blockSize), below, blockSize);
    }
  }
}
