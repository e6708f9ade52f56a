/**
 The state of a Buffered filter as a value, the invariant it keeps, and what each step does to the
 flat file it stands for. Class Buffered (module Pipelines) takes these steps in place.
 */
module Buffering {
  import opened Sizes
  import opened FlatFiles
  import opened Requests

  /**
   A one-block write-back cache in front of a downstream file.
   `unit` is the block size the next stage asked for; `canWrite` says that the next stage accepts a
   write where it is positioned, without a seek first.
   */
  datatype BufState = BufState(
    blockSize: nat, unit: nat,
    disk: Bytes, diskPos: nat, canWrite: bool,
    buf: Bytes, dirty: bool, position: nat, bufPosition: int, bufActual: nat)

  /** The flat file the cache stands for: the downstream file, with a dirty buffer laid over it. */
  function Flat(s: BufState): Bytes
    requires 0 <= s.bufPosition <= |s.disk| && s.bufActual <= |s.buf|
  {
    if s.dirty then Overwrite(s.disk, s.bufPosition, s.buf[..s.bufActual]) else s.disk
  }

  /** What the buffer holds: a prefix of one block, clean or dirty, never with a gap. */
  ghost predicate Shape(s: BufState) {
    && s.blockSize >= 1 && s.unit >= 1 && Multiple(s.blockSize, s.unit)
    && |s.buf| == s.blockSize && s.bufActual <= s.blockSize
    && 0 <= s.bufPosition <= |s.disk| && Multiple(s.bufPosition, s.blockSize)
    && (s.dirty ==> s.bufActual > 0)
    // A clean buffer is a copy of the file.
    && (!s.dirty ==> s.bufPosition + s.bufActual <= |s.disk|)
    && (!s.dirty ==> s.disk[s.bufPosition..s.bufPosition + s.bufActual] == s.buf[..s.bufActual])
    // A non-empty buffer holds the whole of that block of the file.
    && (s.bufActual == 0 || s.bufActual == s.blockSize || s.bufPosition + s.bufActual >= |s.disk|)
    // The file position stays in the buffer's block, and inside the file.
    && s.bufPosition <= s.position <= s.bufPosition + s.blockSize
    && (s.bufActual == 0 ==> s.position < s.bufPosition + s.blockSize)
    && s.position <= |Flat(s)|
  }

  /** The downstream file is positioned for the next transfer. */
  ghost predicate Placed(s: BufState) {
    && (s.dirty || s.bufActual == 0 ==> s.diskPos == s.bufPosition)
    && (!s.dirty && s.bufActual > 0 ==> s.diskPos == s.bufPosition + s.bufActual)
    && (s.dirty || s.bufActual == s.blockSize ==> s.canWrite)
    && (s.bufActual == 0 && s.bufPosition < |s.disk| ==> s.canWrite)
  }

  ghost predicate Inv(s: BufState) {
    Shape(s) && Placed(s)
  }

  /** The ranges that the invariant gives, without its arithmetic of blocks. */
  lemma Ranges(s: BufState)
    requires Inv(s)
    ensures s.blockSize >= 1 && s.unit >= 1 && s.bufActual <= s.blockSize == |s.buf|
    ensures 0 <= s.bufPosition <= |s.disk| && s.bufPosition <= s.position <= s.bufPosition + s.blockSize
    ensures s.dirty || s.bufActual == 0 ==> s.diskPos == s.bufPosition
    ensures !s.dirty && s.bufActual > 0 ==> s.diskPos == s.bufPosition + s.bufActual
    ensures s.dirty ==> s.bufActual > 0 && s.canWrite
    ensures s.bufPosition % s.unit == 0 && s.blockSize % s.unit == 0
    ensures SeekIo(s.bufPosition).Aligned(s.blockSize)
    ensures ReadIo(s.bufPosition, s.blockSize).Aligned(s.blockSize)
    ensures s.position <= |Flat(s)| && |s.disk| <= |Flat(s)|
    ensures s.position == s.bufPosition + s.blockSize ==> s.bufActual == s.blockSize
    ensures s.bufActual > 0 ==> s.position <= s.bufPosition + s.bufActual
    ensures 0 < s.bufActual < s.blockSize ==> s.bufPosition + s.bufActual == |Flat(s)|
    ensures !s.dirty ==> Flat(s) == s.disk
  {
    BufferIsFlat(s);
    BlockIsUnits(s);
    MultipleMod(1, s.blockSize);
  }

  /** An empty buffer at the start of a file. */
  lemma OpensEmpty(s: BufState)
    requires s.blockSize >= 1 && s.unit >= 1 && s.blockSize % s.unit == 0 && |s.buf| == s.blockSize
    requires !s.dirty && s.position == s.bufPosition == s.bufActual == s.diskPos == 0 && s.canWrite
    ensures Inv(s) && Flat(s) == s.disk
  {
    MultipleMod(0, s.blockSize);
  }

  /** The state after the dirty buffer is written downstream. */
  function Flushed(s: BufState, canWrite: bool): BufState
    requires 0 <= s.bufPosition <= |s.disk| && s.bufActual <= |s.buf|
  {
    s.(dirty := false, disk := Flat(s), diskPos := s.bufPosition + s.bufActual, canWrite := canWrite)
  }

  lemma BlocksAligned(s: BufState, size: nat)
    requires Inv(s) && size % s.blockSize == 0
    ensures ReadIo(s.bufPosition, size).Aligned(s.blockSize)
  {
  }

  /** A dirty buffer is whole blocks of the next stage, or reaches the end of the file. */
  lemma FlushAligned(s: BufState)
    requires Inv(s) && s.dirty
    ensures s.bufActual % s.unit != 0 ==> s.bufPosition + s.bufActual >= |s.disk|
  {
  }

  lemma FlushKeeps(s: BufState, canWrite: bool)
    requires Inv(s) && s.dirty
    requires (s.bufPosition + s.bufActual) % s.unit == 0 ==> canWrite
    ensures Inv(Flushed(s, canWrite)) && Flat(Flushed(s, canWrite)) == Flat(s)
    ensures WriteIo(s.bufPosition, s.bufActual, |s.disk|).Aligned(s.blockSize)
  {
    OverwriteRead(s.disk, s.bufPosition, s.buf[..s.bufActual]);
    BlockIsUnits(s);
    if s.bufActual == s.blockSize {
      AddMultiple(s.bufPosition, s.blockSize, s.unit);
      MultipleMod(1, s.blockSize);
    }
  }

  /** Block positions are also multiples of the size the next stage asked for. */
  lemma BlockIsUnits(s: BufState)
    requires Shape(s)
    ensures s.bufPosition % s.unit == 0
  {
    MultipleTransitive(s.bufPosition, s.blockSize, s.unit);
  }

  /** A full clean buffer that has been used up gives way to an empty one for the next block. */
  function Advanced(s: BufState): BufState {
    s.(bufPosition := s.bufPosition + s.blockSize, bufActual := 0)
  }

  lemma AdvanceKeeps(s: BufState)
    requires Inv(s) && !s.dirty && s.bufActual == s.blockSize
    requires s.position == s.bufPosition + s.blockSize
    ensures Inv(Advanced(s)) && Flat(Advanced(s)) == Flat(s)
    ensures Advanced(s).canWrite
  {
    AddMultiple(s.bufPosition, s.blockSize, s.blockSize);
  }

  /** An empty buffer is filled with what the file has of its block. */
  ghost predicate IsFilled(s: BufState, t: BufState)
    requires Shape(s)
  {
    var n := Min(s.blockSize, |s.disk| - s.bufPosition);
    && t == s.(buf := t.buf, bufActual := n, diskPos := s.bufPosition + n, canWrite := t.canWrite)
    && |t.buf| == |s.buf|
    && t.buf[..n] == s.disk[s.bufPosition..s.bufPosition + n]
    && (n == s.blockSize ==> t.canWrite)
  }

  lemma FillKeeps(s: BufState, t: BufState)
    requires Inv(s) && s.bufActual == 0 && IsFilled(s, t)
    ensures Inv(t) && Flat(t) == Flat(s)
  {
  }

  /** What the buffer gives to a reader at the current position. */
  lemma CopyOutReads(s: BufState, size: nat, n: nat)
    requires Inv(s) && s.bufActual > 0
    requires s.position < s.bufPosition + s.blockSize
    requires n == Min(s.bufActual - (s.position - s.bufPosition), size)
    ensures s.position + n <= |Flat(s)|
    ensures s.buf[s.position - s.bufPosition..s.position - s.bufPosition + n] == Flat(s)[s.position..s.position + n]
    ensures n == 0 && size > 0 <==> s.position == |Flat(s)| && size > 0
  {
    hide Inv, Shape, Placed, Flat;
    BufferIsFlat(s);
    var file, held, offset := Flat(s), s.buf[..s.bufActual], s.position - s.bufPosition;
    SliceOfSlice(file, s.bufPosition, held, offset, n);
    SliceOfPrefix(s.buf, s.bufActual, offset, offset + n);
  }

  /** What the buffer holds is what the flat file has there. */
  lemma BufferIsFlat(s: BufState)
    requires Inv(s)
    ensures 0 <= s.bufPosition <= |s.disk| && s.bufPosition <= s.position <= |Flat(s)|
    ensures s.bufActual <= |s.buf| && s.bufPosition + s.bufActual <= |Flat(s)|
    ensures Flat(s)[s.bufPosition..s.bufPosition + s.bufActual] == s.buf[..s.bufActual]
    ensures s.bufActual > 0 ==> s.position <= s.bufPosition + s.bufActual
    ensures 0 < s.bufActual < s.blockSize ==> s.bufPosition + s.bufActual == |Flat(s)|
  {
    hide Multiple;
    if s.dirty {
      OverwriteRead(s.disk, s.bufPosition, s.buf[..s.bufActual]);
    }
  }

  lemma SliceOfSlice(file: Bytes, p: nat, held: Bytes, offset: nat, n: nat)
    requires p + |held| <= |file| && file[p..p + |held|] == held && offset + n <= |held|
    ensures file[p + offset..p + offset + n] == held[offset..offset + n]
  {
    var slice := file[p + offset..p + offset + n];
    forall i | 0 <= i < n ensures slice[i] == held[offset..offset + n][i] {
      assert file[p..p + |held|][offset + i] == file[p + offset + i];
    }
  }

  /** The state after `data` is copied into the buffer at the current position. */
  function CopiedIn(s: BufState, data: Bytes): BufState
    requires s.bufPosition <= s.position <= s.bufPosition + |s.buf|
    requires s.position - s.bufPosition + |data| <= |s.buf|
  {
    var offset := s.position - s.bufPosition;
    s.(buf := Overwrite(s.buf, offset, data),
       bufActual := Max(s.bufActual, offset + |data|),
       dirty := true, position := s.position + |data|)
  }

  /**
   Copying into the buffer is a write to the flat file, provided the buffer holds what the file has
   of the block and the downstream file waits at the start of it.
   */
  lemma CopyInWrites(s: BufState, data: Bytes)
    requires Shape(s) && s.diskPos == s.bufPosition && s.canWrite
    requires s.bufActual == 0 ==> s.bufPosition == |s.disk|
    requires |data| > 0 && s.position - s.bufPosition + |data| <= s.blockSize
    ensures Inv(CopiedIn(s, data))
    ensures Flat(CopiedIn(s, data)) == Overwrite(Flat(s), s.position, data)
  {
    hide Multiple, Overwrite;
    HeldFlat(s);
    var offset := s.position - s.bufPosition;
    HeldOverwrite(s.buf, s.bufActual, offset, data);
    OverlayWrite(s.disk, s.bufPosition, s.buf[..s.bufActual], offset, data);
  }

  /** What is held after data is copied in. */
  lemma HeldOverwrite(buf: Bytes, actual: nat, offset: nat, data: Bytes)
    requires offset <= actual <= |buf| && offset + |data| <= |buf|
    ensures Overwrite(buf, offset, data)[..Max(actual, offset + |data|)] == Overwrite(buf[..actual], offset, data)
  {
  }

  /** Laying a buffer over the file, whether it is dirty or not, gives the flat file. */
  lemma HeldFlat(s: BufState)
    requires Shape(s)
    ensures Flat(s) == Overwrite(s.disk, s.bufPosition, s.buf[..s.bufActual])
    ensures s.bufActual > 0 || s.bufPosition == |s.disk| ==> s.position - s.bufPosition <= s.bufActual
  {
    if !s.dirty {
      OverwriteSame(s.disk, s.bufPosition, s.buf[..s.bufActual]);
    }
  }

  /** Writing through an overlay that reaches the end of what it covers. */
  lemma OverlayWrite(disk: Bytes, p: nat, held: Bytes, offset: nat, data: Bytes)
    requires p <= |disk| && offset <= |held|
    ensures Overwrite(disk, p, Overwrite(held, offset, data))
         == Overwrite(Overwrite(disk, p, held), p + offset, data)
  {
    var a := Overwrite(disk, p, Overwrite(held, offset, data));
    var b := Overwrite(Overwrite(disk, p, held), p + offset, data);
    assert |a| == |b|;
    forall i | 0 <= i < |a| ensures a[i] == b[i] {
      OverwriteAt(disk, p, Overwrite(held, offset, data), i);
      OverwriteAt(Overwrite(disk, p, held), p + offset, data, i);
      if i < |Overwrite(disk, p, held)| {
        OverwriteAt(disk, p, held, i);
      }
    }
  }

  /** Whole blocks written past an empty buffer. */
  function WrittenDirect(s: BufState, data: Bytes): BufState
    requires s.position <= |s.disk|
  {
    s.(disk := Overwrite(s.disk, s.position, data), diskPos := s.position + |data|,
       position := s.position + |data|, bufPosition := s.position + |data|)
  }

  lemma WriteDirectKeeps(s: BufState, data: Bytes)
    requires Inv(s) && s.bufActual == 0 && s.position == s.bufPosition && s.canWrite
    requires |data| % s.blockSize == 0
    ensures Inv(WrittenDirect(s, data))
    ensures Flat(WrittenDirect(s, data)) == Overwrite(Flat(s), s.position, data)
  {
    AddMultiple(s.position, |data|, s.blockSize);
  }

  /** The bytes `all` were read past an empty buffer: whole blocks for the caller, and a rest that is kept. */
  ghost predicate IsReadDirect(s: BufState, all: Bytes, whole: nat, t: BufState) {
    && whole <= |all| && |all| - whole <= |t.buf| == |s.buf|
    && t == s.(buf := t.buf, bufActual := |all| - whole, diskPos := s.diskPos + |all|, canWrite := t.canWrite,
               position := s.position + whole, bufPosition := s.position + whole)
    && t.buf[..|all| - whole] == all[whole..]
  }

  lemma ReadDirectKeeps(s: BufState, size: nat, all: Bytes, whole: nat, t: BufState)
    requires Inv(s) && !s.dirty && s.bufActual == 0 && s.position == s.bufPosition
    requires size > 0 && size % s.blockSize == 0 && whole == RoundDown(|all|, s.blockSize)
    requires s.position + |all| <= |s.disk| && all == s.disk[s.position..s.position + |all|]
    requires |all| == Min(size, |s.disk| - s.position)
    requires IsReadDirect(s, all, whole, t) && (|all| == size ==> t.canWrite)
    ensures Inv(t) && Flat(t) == Flat(s) == s.disk
    ensures whole <= |all| && all[..whole] == s.disk[s.position..s.position + whole]
    ensures whole == 0 && t.bufActual == 0 ==> s.position == |s.disk|
    ensures whole == size ==> t.canWrite
  {
    AddMultiple(s.bufPosition, whole, s.blockSize);
    if |all| == size {
      RoundDownWhole(size, s.blockSize);
    }
    assert all[whole..] == s.disk[s.position + whole..s.position + |all|];
  }

  /** A clean buffer is dropped and both files are positioned at the start of another block. */
  function Moved(s: BufState, position: nat): BufState
    requires s.blockSize > 0
  {
    var newBlock := RoundDown(position, s.blockSize);
    s.(bufPosition := newBlock, bufActual := 0, diskPos := newBlock, canWrite := true, position := position)
  }

  lemma MoveKeeps(s: BufState, position: nat)
    requires s.blockSize >= 1 && s.unit >= 1 && s.blockSize % s.unit == 0
    requires |s.buf| == s.blockSize && !s.dirty
    requires position <= |s.disk|
    ensures Inv(Moved(s, position)) && Flat(Moved(s, position)) == s.disk
  {
  }

  /** A seek inside the buffer's own block moves nothing but the position. */
  lemma StayKeeps(s: BufState, position: nat)
    requires Inv(s)
    requires position <= |Flat(s)| && RoundDown(position, s.blockSize) == s.bufPosition
    ensures Inv(s.(position := position)) && Flat(s.(position := position)) == Flat(s)
  {
  }

  /** The position moves over bytes that the buffer holds. */
  lemma ConsumeKeeps(s: BufState, n: nat)
    requires Inv(s) && s.bufActual > 0
    requires s.position + n <= s.bufPosition + s.bufActual
    ensures Inv(s.(position := s.position + n)) && Flat(s.(position := s.position + n)) == Flat(s)
  {
    BufferIsFlat(s);
  }

  /** Where a buffered write starts from: the block is in the buffer and the next stage stands at it. */
  ghost predicate Ready(s: BufState) {
    && Shape(s) && s.diskPos == s.bufPosition && s.canWrite
    && (s.bufActual == 0 ==> s.bufPosition == |s.disk|)
    && s.position < s.bufPosition + s.blockSize
  }

  lemma RewindReady(s: BufState)
    requires Inv(s) && (s.bufActual == 0 ==> s.bufPosition == |s.disk|)
    requires s.position < s.bufPosition + s.blockSize
    ensures 0 <= s.bufPosition <= |s.disk|
    ensures s.dirty ==> Ready(s)
    ensures !s.dirty ==>
      var t := s.(diskPos := s.bufPosition, canWrite := true);
      Ready(t) && Flat(t) == Flat(s)
  {
  }

  lemma CopyInReady(s: BufState, data: Bytes)
    requires Ready(s) && |data| > 0 && s.position - s.bufPosition + |data| <= s.blockSize
    ensures 0 <= s.bufPosition <= s.position && |s.buf| == s.blockSize
    ensures Inv(CopiedIn(s, data))
    ensures Flat(CopiedIn(s, data)) == Overwrite(Flat(s), s.position, data)
  {
    CopyInWrites(s, data);
  }

  lemma RoundsUpToBlock(size: nat, blockSize: nat)
    requires blockSize >= 1 && size >= blockSize
    ensures RoundDown(size, blockSize) >= blockSize
  {
    var q := size / blockSize;
    assert q >= 1;
    assert RoundDown(size, blockSize) == q * blockSize;
    assert q * blockSize == (q - 1) * blockSize + blockSize;
    assert (q - 1) * blockSize >= 0;
  }

  /** A direct write is of whole blocks, here and for the next stage, and ends on a block again. */
  lemma DirectStaysAligned(s: BufState, size: nat)
    requires Inv(s) && s.position == s.bufPosition && size >= s.blockSize
    ensures
      var n := RoundDown(size, s.blockSize);
      && n >= 1 && n % s.blockSize == 0 && n % s.unit == 0 && (s.position + n) % s.unit == 0
      && RoundDown(s.position + n, s.blockSize) == s.position + n
      && WriteIo(s.position, n, |s.disk|).Aligned(s.blockSize)
  {
    var n := RoundDown(size, s.blockSize);
    RoundsUpToBlock(size, s.blockSize);
    AddMultiple(s.position, n, s.blockSize);
    MultipleTransitive(n, s.blockSize, s.unit);
    MultipleTransitive(s.position + n, s.blockSize, s.unit);
  }

  lemma SeekStays(s: BufState, position: nat)
    requires Inv(s)
    requires 0 <= s.bufPosition <= |s.disk| && s.bufActual <= |s.buf| && s.blockSize >= 1
    requires position <= |Flat(s)| && RoundDown(position, s.blockSize) == s.bufPosition
    ensures Inv(s.(position := position)) && Flat(s.(position := position)) == Flat(s)
    ensures position < |Flat(s)| && s.bufActual == 0 ==> s.canWrite
  {
    StayKeeps(s, position);
  }

  /** Where the buffer is, and whether it holds anything: all that decides how a request is split up. */
  datatype Cache = Cache(start: int, held: bool)

  /** The buffer has nothing more for a reader at this position. */
  predicate UsedUp(c: Cache, position: nat, blockSize: Positive) {
    !c.held || position == c.start + blockSize
  }

  /** What the buffer holds, or where it waits empty, is the end of the file. */
  predicate Reaches(c: Cache, length: nat, blockSize: Positive) {
    if c.held then c.start + blockSize >= length else c.start == length
  }

  /** A used-up block gives way to an empty buffer at the next one. */
  function Onward(c: Cache, position: nat, blockSize: Positive): Cache {
    if c.held && position == c.start + blockSize then Cache(position, false) else c
  }

  /** The buffer after one read, and how much that read yields. */
  function CacheRead(c: Cache, position: nat, size: nat, length: nat, blockSize: Positive): (Cache, int) {
    var d := Onward(c, position, blockSize);
    if d.held then
      (d, Min(Min(d.start + blockSize, length) - position, size))
    else if position == d.start && size > blockSize then
      var all := Max(0, Min(RoundDown(size, blockSize), length - position));
      var whole := RoundDown(all, blockSize);
      (Cache(d.start + whole, all > whole), whole)
    else if d.start >= length then
      (d, 0)
    else
      (Cache(d.start, true), Min(Min(d.start + blockSize, length) - position, size))
  }

  /** How much a read yields. */
  lemma ReadYields(c: Cache, position: nat, size: nat, length: nat, blockSize: Positive)
    requires c.start <= position <= length && position <= c.start + blockSize
    requires !c.held ==> position < c.start + blockSize
    ensures
      var atNext := position == c.start + blockSize;
      CacheRead(c, position, size, length, blockSize).1
      == if size > blockSize && (atNext || (position == c.start && !c.held)) then
           RoundDown(Min(RoundDown(size, blockSize), length - position), blockSize)
         else Min(Min(size, length - position), if atNext then blockSize else c.start + blockSize - position)
  {
  }

  /** The ways a read goes: on to the next block, past the empty buffer, by filling it, or out of it. */
  lemma ReadsOn(c: Cache, position: nat, size: nat, length: nat, blockSize: Positive)
    requires c.held && position == c.start + blockSize
    ensures CacheRead(c, position, size, length, blockSize)
         == CacheRead(Cache(position, false), position, size, length, blockSize)
  {
  }

  lemma ReadsPast(position: nat, size: nat, length: nat, blockSize: Positive)
    requires size > blockSize && position <= length
    ensures
      var all := Min(RoundDown(size, blockSize), length - position);
      var whole := RoundDown(all, blockSize);
      CacheRead(Cache(position, false), position, size, length, blockSize)
      == (Cache(position + whole, all > whole), whole)
  {
  }

  lemma ReadsFill(start: nat, position: nat, size: nat, length: nat, blockSize: Positive)
    requires start <= position <= length && position < start + blockSize && !(position == start && size > blockSize)
    ensures CacheRead(Cache(start, false), position, size, length, blockSize)
         == if start == length then (Cache(start, false), 0)
            else (Cache(start, true), Min(Min(start + blockSize, length) - position, size))
  {
  }

  lemma ReadsOut(start: nat, position: nat, size: nat, length: nat, blockSize: Positive)
    requires position < start + blockSize
    ensures CacheRead(Cache(start, true), position, size, length, blockSize)
         == (Cache(start, true), Min(Min(start + blockSize, length) - position, size))
  {
  }

  lemma WritesOn(c: Cache, position: nat, size: nat, blockSize: Positive)
    requires c.held && position == c.start + blockSize
    ensures CacheWrite(c, position, size, blockSize) == CacheWrite(Cache(position, false), position, size, blockSize)
  {
  }

  lemma WritesPast(position: nat, size: nat, blockSize: Positive)
    requires size >= blockSize
    ensures CacheWrite(Cache(position, false), position, size, blockSize)
         == (Cache(position + RoundDown(size, blockSize), false), RoundDown(size, blockSize))
  {
  }

  lemma WritesInto(c: Cache, position: nat, size: nat, blockSize: Positive)
    requires position < c.start + blockSize && !(!c.held && position == c.start && size >= blockSize)
    ensures CacheWrite(c, position, size, blockSize)
         == (Cache(c.start, true), Min(c.start + blockSize - position, size))
  {
  }

  /** The buffer after as much is read as was asked for, or to the end of the file. */
  function CacheReads(c: Cache, position: nat, size: nat, length: nat, blockSize: Positive): Cache
    decreases size, UsedUp(c, position, blockSize)
  {
    if size == 0 then c
    else
      var (d, n) := CacheRead(c, position, size, length, blockSize);
      if 0 < n <= size then CacheReads(d, position + n, size - n, length, blockSize)
      else if UsedUp(c, position, blockSize) && !UsedUp(d, position, blockSize) then
        CacheReads(d, position, size, length, blockSize)
      else d
  }

  /** The buffer after one write, and how much that write takes. */
  function CacheWrite(c: Cache, position: nat, size: nat, blockSize: Positive): (Cache, int) {
    var d := Onward(c, position, blockSize);
    if !d.held && position == d.start && size >= blockSize then
      var n := RoundDown(size, blockSize);
      (Cache(d.start + n, false), n)
    else
      (Cache(d.start, true), Min(d.start + blockSize - position, size))
  }

  function CacheWrites(c: Cache, position: nat, size: nat, blockSize: Positive): Cache
    decreases size
  {
    if size == 0 then c
    else
      var (d, n) := CacheWrite(c, position, size, blockSize);
      if 0 < n <= size then CacheWrites(d, position + n, size - n, blockSize) else d
  }

  lemma OneRead(c: Cache, position: nat, size: nat, length: nat, blockSize: Positive)
    requires size > 0
    ensures
      var (d, n) := CacheRead(c, position, size, length, blockSize);
      CacheReads(c, position, size, length, blockSize) ==
        if 0 < n <= size then CacheReads(d, position + n, size - n, length, blockSize)
        else if UsedUp(c, position, blockSize) && !UsedUp(d, position, blockSize) then
          CacheReads(d, position, size, length, blockSize)
        else d
  {
  }

  lemma NothingToRead(c: Cache, position: nat, length: nat, blockSize: Positive)
    ensures CacheReads(c, position, 0, length, blockSize) == c
  {
  }

  lemma NothingToWrite(c: Cache, position: nat, blockSize: Positive)
    ensures CacheWrites(c, position, 0, blockSize) == c
  {
  }

  lemma OneWrite(c: Cache, position: nat, size: nat, blockSize: Positive)
    requires size > 0
    ensures
      var (d, n) := CacheWrite(c, position, size, blockSize);
      0 < n <= size ==>
        CacheWrites(c, position, size, blockSize) == CacheWrites(d, position + n, size - n, blockSize)
  {
  }

  /** Only a seek to another block empties the buffer. */
  function CacheSeek(c: Cache, position: nat, blockSize: Positive): Cache {
    if RoundDown(position, blockSize) == c.start then c else Cache(RoundDown(position, blockSize), false)
  }
}
