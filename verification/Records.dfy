/**
 Encrypted records: the ciphertext layout of a plaintext, as a value.
 The cipher is an abstract invertible function of (nonce, plaintext) with a known output length.
 */
module Records {
  import opened Sizes
  import opened FlatFiles
  import opened Nonces

  /**
   What encrypts the records of one file. `seal` yields record `n`: the ciphertext of a block with its
   tag appended, `recordSize` bytes for so many bytes of plaintext; `open` undoes it under the same
   number. A full block has `plainSize` bytes.
   */
  datatype Sealing = Sealing(seal: (nat, Bytes) -> Bytes, open: (nat, Bytes) -> Bytes,
                             recordSize: nat -> nat, plainSize: nat) {
    ghost predicate Sound() {
      && plainSize >= 1 && recordSize(0) >= 1
      && (forall s: nat, t: nat :: s <= t ==> recordSize(s) <= recordSize(t))
      && (forall s: nat :: s < plainSize ==> recordSize(s) < recordSize(plainSize))
      && (forall n, plain {:trigger seal(n, plain)} ::
            |seal(n, plain)| == recordSize(|plain|) && open(n, seal(n, plain)) == plain)
    }

    /** The stored size of a full record. */
    function EncryptSize(): nat {
      recordSize(plainSize)
    }
  }

  lemma SoundSizes(k: Sealing)
    requires k.Sound()
    ensures k.plainSize >= 1 && k.EncryptSize() >= 1
  {
  }

  /** A cipher under its key: `seal` and `open` take the nonce; `blockSize` is 1 when it does not pad. */
  datatype Cipher = Cipher(seal: (Bytes, Bytes) -> Bytes, open: (Bytes, Bytes) -> Bytes,
                           blockSize: Positive, tagSize: Positive) {
    ghost predicate Sound() {
      (forall nonce, plain {:trigger seal(nonce, plain)} ::
            && |seal(nonce, plain)| == PaddedRecordSize(blockSize, tagSize, |plain|)
            && open(nonce, seal(nonce, plain)) == plain)
    }

    /** Record `n` is sealed under the nonce of `n`. */
    function Numbered(iv: Bytes, plainSize: nat): Sealing
    {
      Sealing((n: nat, plain) => seal(Nonce(iv, n), plain), (n: nat, sealed) => open(Nonce(iv, n), sealed),
              (size: nat) => PaddedRecordSize(blockSize, tagSize, size), plainSize)
    }
  }

  predicate HasPadding(cipherBlockSize: Positive) {
    cipherBlockSize != 1
  }

  /** How much padding is added when a record of this size is encrypted. */
  function PaddingSize(cipherBlockSize: Positive, size: nat): nat
  {
    if HasPadding(cipherBlockSize) then cipherBlockSize - size % cipherBlockSize else 0
  }

  /** The stored size of a record, for a block cipher mode with this block size and tag size. */
  function PaddedRecordSize(cipherBlockSize: Positive, tagSize: nat, size: nat): nat
  {
    size + PaddingSize(cipherBlockSize, size) + tagSize
  }

  lemma PaddedSize(size: nat, block: Positive)
    ensures (size + (block - size % block)) % block == 0
  {
    var q := size / block;
    assert size + (block - size % block) == (q + 1) * block;
    MultipleMod(q + 1, block);
  }

  /** Padding goes on to the next multiple of the cipher's block size, and a whole block where there is one already. */
  lemma PaddedToNext(block: Positive, tagSize: nat, size: nat)
    ensures block == 1 ==> PaddedRecordSize(block, tagSize, size) == size + tagSize
    ensures block > 1 ==>
      var padded := PaddedRecordSize(block, tagSize, size) - tagSize;
      padded % block == 0 && forall n: nat :: n % block == 0 ==> (n > size <==> n >= padded)
  {
    if block > 1 {
      PaddedSize(size, block);
      var padded := size + (block - size % block);
      forall n: nat | n % block == 0 ensures n > size <==> n >= padded {
        if size < n < padded {
          NextMultiple(n, padded, block);
        }
      }
    }
  }

  /**
   A short record is stored in strictly fewer bytes than a full one exactly when the cipher does not
   pad, or its block size divides the record size.
   */
  lemma ShortRecordIsShorter(block: Positive, tagSize: nat, plainSize: nat)
    requires plainSize >= 1
    ensures (forall s: nat :: s < plainSize ==>
              PaddedRecordSize(block, tagSize, s) < PaddedRecordSize(block, tagSize, plainSize))
       <==> !HasPadding(block) || plainSize % block == 0
  {
    if !HasPadding(block) {
    } else if plainSize % block == 0 {
      forall s: nat | s < plainSize
        ensures PaddedRecordSize(block, tagSize, s) < PaddedRecordSize(block, tagSize, plainSize)
      {
        ShortPadded(s, plainSize, block);
      }
    } else {
      var s := plainSize - plainSize % block;
      RoundDownIsMultiple(plainSize, block);
      assert PaddedRecordSize(block, tagSize, s) == PaddedRecordSize(block, tagSize, plainSize);
    }
  }

  lemma ShortPadded(s: nat, plainSize: nat, block: Positive)
    requires s < plainSize && plainSize % block == 0
    ensures s + (block - s % block) <= plainSize
  {
    PaddedSize(s, block);
    if plainSize < s + (block - s % block) {
      NextMultiple(plainSize, s + (block - s % block), block);
    }
  }

  /** A longer record is never stored in fewer bytes. */
  lemma PaddedSizeGrows(block: Positive, tagSize: nat, s: nat, t: nat)
    requires s <= t
    ensures PaddedRecordSize(block, tagSize, s) <= PaddedRecordSize(block, tagSize, t)
  {
    if HasPadding(block) && s < t {
      PaddedSize(s, block);
      PaddedSize(t, block);
      var a, b := s + PaddingSize(block, s), t + PaddingSize(block, t);
      if b < a {
        NextMultiple(b, a, block);
      }
    }
  }

  /**
   A sound cipher gives the filter what it relies on exactly when it does not pad or its block size
   divides the record size.
   */
  lemma NumberedIsSound(c: Cipher, iv: Bytes, plainSize: nat)
    requires c.Sound() && plainSize >= 1
    ensures c.Numbered(iv, plainSize).Sound() <==> !HasPadding(c.blockSize) || plainSize % c.blockSize == 0
  {
    var k := c.Numbered(iv, plainSize);
    forall s: nat, t: nat | s <= t ensures k.recordSize(s) <= k.recordSize(t) {
      PaddedSizeGrows(c.blockSize, c.tagSize, s, t);
    }
    forall n: nat, plain: Bytes
      ensures |k.seal(n, plain)| == k.recordSize(|plain|) && k.open(n, k.seal(n, plain)) == plain
    {
      assert k.seal(n, plain) == c.seal(Nonce(iv, n), plain);
    }
    ShortRecordIsShorter(c.blockSize, c.tagSize, plainSize);
    forall s: nat ensures k.recordSize(s) == PaddedRecordSize(c.blockSize, c.tagSize, s) {
    }
    if k.Sound() {
      forall s: nat | s < plainSize
        ensures PaddedRecordSize(c.blockSize, c.tagSize, s) < PaddedRecordSize(c.blockSize, c.tagSize, plainSize)
      {
        assert k.recordSize(s) < k.recordSize(plainSize);
      }
    }
  }

  /** Record `n` is sealed, and opened, under the vector XOR the number. */
  lemma NumberedTells(c: Cipher, iv: Bytes, plainSize: nat, n: nat, plain: Bytes, nonce: Bytes)
    requires |nonce| == |iv|
    requires forall i :: 0 <= i < |iv| ==> nonce[i] == Xor(iv[i], n / Power(256, |iv| - 1 - i) % 256)
    ensures c.Numbered(iv, plainSize).seal(n, plain) == c.seal(nonce, plain)
    ensures c.Numbered(iv, plainSize).open(n, plain) == c.open(nonce, plain)
  {
    hide Xor, Power, BigEndian;
    var numbered := BigEndian(n, |iv|);
    forall i | 0 <= i < |iv| ensures nonce[i] == Nonce(iv, n)[i] {
      BigEndianAt(n, |iv|, i);
      XorLaws(numbered[i], iv[i], 0);
    }
    assert nonce == Nonce(iv, n);
  }

  /** What is sealed under one nonce of this size does not open as the same under another. */
  ghost predicate TellsNonces(c: Cipher, size: nat, plain: Bytes) {
    forall a: Bytes, b: Bytes {:trigger c.open(b, c.seal(a, plain))} ::
      |a| == size && |b| == size && c.open(b, c.seal(a, plain)) == plain ==> a == b
  }

  /** Where a cipher tells its nonces apart, a record opens under no other number that fits the vector. */
  lemma NumberedOpensOnly(c: Cipher, iv: Bytes, plainSize: nat, n: nat, m: nat, plain: Bytes)
    requires c.Sound() && n < Power(256, |iv|) && m < Power(256, |iv|)
    requires TellsNonces(c, |iv|, plain)
    ensures var k := c.Numbered(iv, plainSize); k.open(m, k.seal(n, plain)) == plain <==> m == n
  {
    hide Power;
    assert c.open(Nonce(iv, n), c.seal(Nonce(iv, n), plain)) == plain;
    if c.open(Nonce(iv, m), c.seal(Nonce(iv, n), plain)) == plain {
      NonceInjective(iv, n, m);
    }
  }

  /**
   The stored data of a plaintext from record number `n` on: full records, then, if the file is
   `ended`, exactly one short record, which may be empty.
   */
  function Stored(k: Sealing, plain: Bytes, n: nat, ended: bool): Bytes
    requires k.plainSize >= 1
    decreases |plain|
  {
    if |plain| < k.plainSize then
      if ended then k.seal(n, plain) else []
    else
      k.seal(n, plain[..k.plainSize]) + Stored(k, plain[k.plainSize..], n + 1, ended)
  }

  lemma {:induction false} StoredLength(k: Sealing, plain: Bytes, n: nat, ended: bool, m: nat)
    requires k.Sound()
    requires Times(m, k.plainSize) <= |plain| < Times(m, k.plainSize) + k.plainSize
    ensures |Stored(k, plain, n, ended)| == Times(m, k.EncryptSize())
         + if ended then k.recordSize(|plain| - Times(m, k.plainSize)) else 0
    decreases m
  {
    if m > 0 {
      StoredLength(k, plain[k.plainSize..], n + 1, ended, m - 1);
    }
  }

  lemma DropTwice(first: Bytes, rest: Bytes, b: nat)
    requires b <= |rest|
    ensures (first + rest)[b + |first|..] == rest[b..]
  {
  }

  /** From record `i` on, the stored data are those of the plaintext from block `i` on. */
  lemma {:induction false} StoredFrom(k: Sealing, plain: Bytes, n: nat, ended: bool, i: nat)
    requires k.Sound() && Times(i, k.plainSize) <= |plain|
    ensures Times(i, k.EncryptSize()) <= |Stored(k, plain, n, ended)|
    ensures Stored(k, plain, n, ended)[Times(i, k.EncryptSize())..]
         == Stored(k, plain[Times(i, k.plainSize)..], n + i, ended)
    decreases i
  {
    if i > 0 {
      var p := k.plainSize;
      StoredFrom(k, plain[p..], n + 1, ended, i - 1);
      assert plain[p..][Times(i - 1, p)..] == plain[Times(i, p)..];
      DropTwice(k.seal(n, plain[..p]), Stored(k, plain[p..], n + 1, ended), Times(i - 1, k.EncryptSize()));
    } else {
      assert plain[0..] == plain;
    }
  }

  /**
   Writing `sealed` at offset `b` of the stored data is what writing `d` at offset `a` of the
   plaintext asks for.
   */
  ghost predicate WritesThrough(k: Sealing, plain: Bytes, n: nat, ended: bool, ended': bool,
                                a: nat, d: Bytes, b: nat, sealed: Bytes)
    requires k.plainSize >= 1
  {
    && a <= |plain| && b <= |Stored(k, plain, n, ended)|
    && Stored(k, Overwrite(plain, a, d), n, ended') == Overwrite(Stored(k, plain, n, ended), b, sealed)
  }

  /** A sealed full block goes over record `i`; the last short record, once overwritten, is gone. */
  lemma {:induction false} StoredWriteFull(k: Sealing, plain: Bytes, n: nat, ended: bool, ended': bool,
                                           i: nat, d: Bytes)
    requires k.Sound() && |d| == k.plainSize && Times(i, k.plainSize) <= |plain|
    requires ended' <==> ended && Times(i, k.plainSize) + k.plainSize <= |plain|
    ensures WritesThrough(k, plain, n, ended, ended',
                          Times(i, k.plainSize), d, Times(i, k.EncryptSize()), k.seal(n + i, d))
    decreases i
  {
    if i == 0 {
      WriteFirst(k, plain, n, ended, ended', d);
    } else {
      StoredWriteFull(k, plain[k.plainSize..], n + 1, ended, ended', i - 1, d);
      SkipFirst(k, plain, n, ended, ended', i, d, k.seal(n + i, d));
    }
  }

  lemma WriteFirst(k: Sealing, plain: Bytes, n: nat, ended: bool, ended': bool, d: Bytes)
    requires k.Sound() && |d| == k.plainSize
    requires ended' <==> ended && k.plainSize <= |plain|
    ensures WritesThrough(k, plain, n, ended, ended', 0, d, 0, k.seal(n, d))
  {
    var p := k.plainSize;
    var after := Overwrite(plain, 0, d);
    assert after[..p] == d;
    if p <= |plain| {
      assert after[p..] == plain[p..];
      assert Stored(k, plain, n, ended)[k.EncryptSize()..] == Stored(k, plain[p..], n + 1, ended);
    } else {
      assert after[p..] == [];
    }
  }

  /** A write past the first record leaves it alone. */
  lemma SkipFirst(k: Sealing, plain: Bytes, n: nat, ended: bool, ended': bool,
                  i: nat, d: Bytes, sealed: Bytes)
    requires k.Sound() && k.plainSize <= |plain| && i >= 1
    requires WritesThrough(k, plain[k.plainSize..], n + 1, ended, ended',
                           Times(i - 1, k.plainSize), d, Times(i - 1, k.EncryptSize()), sealed)
    ensures WritesThrough(k, plain, n, ended, ended', Times(i, k.plainSize), d, Times(i, k.EncryptSize()), sealed)
  {
    hide Stored, Sealing.Sound, Overwrite;
    var p, a, b := k.plainSize, Times(i - 1, k.plainSize), Times(i - 1, k.EncryptSize());
    StoredParts(k, plain, n, ended);
    var first, rest := k.seal(n, plain[..p]), Stored(k, plain[p..], n + 1, ended);
    OverwriteRight(first, rest, b, sealed);
    OverwriteSkips(plain, p, a, d);
    StoredParts(k, Overwrite(plain, p + a, d), n, ended');
  }

  /** The stored data: a full record and the rest, or the last record alone, or nothing. */
  lemma StoredParts(k: Sealing, plain: Bytes, n: nat, ended: bool)
    requires k.Sound()
    ensures k.plainSize >= 1
    ensures
      if |plain| < k.plainSize then Stored(k, plain, n, ended) == if ended then k.seal(n, plain) else []
      else |k.seal(n, plain[..k.plainSize])| == k.EncryptSize()
           && Stored(k, plain, n, ended)
              == k.seal(n, plain[..k.plainSize]) + Stored(k, plain[k.plainSize..], n + 1, ended)
  {
  }

  /** A sealed short block goes over the last record and ends the file. */
  lemma {:induction false} StoredWriteShort(k: Sealing, plain: Bytes, n: nat, ended: bool, i: nat, d: Bytes)
    requires k.Sound() && |d| < k.plainSize
    requires Times(i, k.plainSize) <= |plain| <= Times(i, k.plainSize) + |d|
    requires |plain| > Times(i, k.plainSize) ==> ended
    ensures WritesThrough(k, plain, n, ended, true,
                          Times(i, k.plainSize), d, Times(i, k.EncryptSize()), k.seal(n + i, d))
    decreases i
  {
    hide Stored, Sealing.Sound, Overwrite;
    SoundSizes(k);
    if i == 0 {
      ShortOverShort(k, plain, n, ended, d);
    } else {
      StoredWriteShort(k, plain[k.plainSize..], n + 1, ended, i - 1, d);
      SkipFirst(k, plain, n, ended, true, i, d, k.seal(n + i, d));
    }
  }

  lemma ShortOverShort(k: Sealing, plain: Bytes, n: nat, ended: bool, d: Bytes)
    requires k.Sound() && |plain| <= |d| < k.plainSize
    ensures WritesThrough(k, plain, n, ended, true, 0, d, 0, k.seal(n, d))
  {
    assert Overwrite(plain, 0, d) == d;
    assert |k.seal(n, plain)| <= |k.seal(n, d)|;
  }

  /** The stored data determine the plaintext, and whether the file is ended. */
  lemma {:induction false} StoredInjective(k: Sealing, p: Bytes, ended: bool, q: Bytes, ended': bool, n: nat)
    requires k.Sound()
    requires |p| % k.plainSize != 0 ==> ended
    requires |q| % k.plainSize != 0 ==> ended'
    requires Stored(k, p, n, ended) == Stored(k, q, n, ended')
    ensures p == q && ended == ended'
    decreases |p|
  {
    var size := k.plainSize;
    FirstRecord(k, p, n, ended);
    FirstRecord(k, q, n, ended');
    if |p| < size && |q| < size {
    } else {
      assert |p| >= size && |q| >= size;
      assert p == p[..size] + p[size..] && q == q[..size] + q[size..];
      RemainderOfRest(|p|, size);
      RemainderOfRest(|q|, size);
      StoredInjective(k, p[size..], ended, q[size..], ended', n + 1);
    }
  }

  lemma RemainderOfRest(n: nat, size: nat)
    requires 1 <= size <= n
    ensures (n - size) % size == n % size
  {
    AddMultiple(n - size, size, size);
  }

  /** What stands at the front of the stored data. */
  lemma FirstRecord(k: Sealing, plain: Bytes, n: nat, ended: bool)
    requires k.Sound()
    requires |plain| % k.plainSize != 0 ==> ended
    ensures
      var stored := Stored(k, plain, n, ended);
      var e := k.EncryptSize();
      && (|plain| >= k.plainSize <==> |stored| >= e)
      && (stored == [] <==> |plain| == 0 && !ended)
      && (|stored| >= e ==> k.open(n, stored[..e]) == plain[..k.plainSize])
      && (|stored| >= e ==> stored[e..] == Stored(k, plain[k.plainSize..], n + 1, ended))
      && (0 < |stored| < e ==> ended && k.open(n, stored) == plain)
  {
    if |plain| >= k.plainSize {
      var first := k.seal(n, plain[..k.plainSize]);
      assert Stored(k, plain, n, ended)[..k.EncryptSize()] == first;
    }
  }

  /** The stored data of a whole plaintext, after the header. */
  function Body(k: Sealing, plain: Bytes, ended: bool): Bytes
    requires k.plainSize >= 1
  {
    Stored(k, plain, 0, ended)
  }

  /** Plaintext and record boundaries before the end of the file lie inside both. */
  lemma BoundaryInside(k: Sealing, plain: Bytes, ended: bool, i: nat)
    requires k.Sound() && Times(i, k.plainSize) <= |plain|
    ensures Times(i, k.EncryptSize()) <= |Body(k, plain, ended)|
  {
    StoredFrom(k, plain, 0, ended, i);
  }

  /** Record `i` of a file is block `i` sealed under its number; behind the full ones is the last, short one. */
  lemma RecordStands(k: Sealing, plain: Bytes, ended: bool, i: nat)
    requires k.Sound() && i <= |plain| / k.plainSize
    ensures
      var p, o := i * k.plainSize, i * k.recordSize(k.plainSize);
      && p <= |plain| && o <= |Body(k, plain, ended)|
      && if i < |plain| / k.plainSize then
           && p + k.plainSize <= |plain| && o + k.recordSize(k.plainSize) <= |Body(k, plain, ended)|
           && Body(k, plain, ended)[o..o + k.recordSize(k.plainSize)] == k.seal(i, plain[p..p + k.plainSize])
         else
           Body(k, plain, ended)[o..] == if ended then k.seal(i, plain[p..]) else []
  {
    hide Body, Sealing.Sound, Times;
    SoundSizes(k);
    var m, p, o := |plain| / k.plainSize, Times(i, k.plainSize), Times(i, k.EncryptSize());
    Divide(|plain|, k.plainSize);
    TimesIsProduct(i, k.plainSize);
    TimesIsProduct(i, k.EncryptSize());
    TimesGrows(i, m, k.plainSize);
    BodyFrom(k, plain, ended, i);
    StoredParts(k, plain[p..], i, ended);
    if i < m {
      TimesGrows(i + 1, m, k.plainSize);
      NextTimes(i, k.plainSize);
      SliceOfTail(plain, p, k.plainSize);
      SliceOfTail(Body(k, plain, ended), o, k.EncryptSize());
    }
  }

  lemma NextTimes(i: nat, size: nat)
    ensures Times(i + 1, size) == Times(i, size) + size
  {
  }

  lemma BodyFrom(k: Sealing, plain: Bytes, ended: bool, i: nat)
    requires k.Sound() && Times(i, k.plainSize) <= |plain|
    ensures Times(i, k.EncryptSize()) <= |Body(k, plain, ended)|
    ensures Body(k, plain, ended)[Times(i, k.EncryptSize())..]
         == Stored(k, plain[Times(i, k.plainSize)..], i, ended)
  {
    StoredFrom(k, plain, 0, ended, i);
  }

  /** Reading at record `i` yields that record, the short last record, or nothing. */
  lemma ReadRecord(k: Sealing, plain: Bytes, ended: bool, i: nat, n: nat)
    requires k.Sound() && (|plain| % k.plainSize != 0 ==> ended)
    requires Times(i, k.plainSize) <= |plain| && Times(i, k.EncryptSize()) <= |Body(k, plain, ended)|
    requires n == Min(k.EncryptSize(), |Body(k, plain, ended)| - Times(i, k.EncryptSize()))
    ensures
      var p, o := Times(i, k.plainSize), Times(i, k.EncryptSize());
      var record := Body(k, plain, ended)[o..o + n];
      && (n == 0 ==> p == |plain| && !ended)
      && (n > 0 ==> k.open(i, record) == plain[p..Min(p + k.plainSize, |plain|)])
      && (p + k.plainSize <= |plain| ==> n == k.EncryptSize())
      && (p + k.plainSize > |plain| ==> o + n == |Body(k, plain, ended)| && (n > 0 <==> ended))
  {
    hide Stored, Sealing.Sound, Times;
    SoundSizes(k);
    var p, o := Times(i, k.plainSize), Times(i, k.EncryptSize());
    StoredFrom(k, plain, 0, ended, i);
    RemainderOfTimes(|plain|, k.plainSize, i);
    FirstRecord(k, plain[p..], i, ended);
    SliceOfTail(Body(k, plain, ended), o, n);
    SliceOfTail(plain, p, Min(k.plainSize, |plain| - p));
    if p + k.plainSize > |plain| {
      var rest := Stored(k, plain[p..], i, ended);
      assert n == |rest| && rest[..n] == rest && plain[p..][..|plain| - p] == plain[p..];
    }
  }

  lemma SliceOfTail(s: Bytes, p: nat, n: nat)
    requires p + n <= |s|
    ensures s[p..][..n] == s[p..p + n]
  {
  }

  lemma {:induction false} RemainderOfTimes(n: nat, size: nat, i: nat)
    requires size >= 1 && Times(i, size) <= n
    ensures (n - Times(i, size)) % size == n % size
    decreases i
  {
    if i > 0 {
      RemainderOfTimes(n, size, i - 1);
      RemainderOfRest(n - Times(i - 1, size), size);
    }
  }

  /** After sealing a full block as record `i`: the last short record, if it went over that, is gone. */
  lemma WriteFullRecord(k: Sealing, plain: Bytes, ended: bool, i: nat, d: Bytes)
    requires k.Sound() && (|plain| % k.plainSize != 0 ==> ended)
    requires Times(i, k.plainSize) <= |plain| && |d| == k.plainSize
    ensures
      var p, o := Times(i, k.plainSize), Times(i, k.EncryptSize());
      var ended' := ended && p + k.plainSize <= |plain|;
      && o <= |Body(k, plain, ended)|
      && Body(k, Overwrite(plain, p, d), ended') == Overwrite(Body(k, plain, ended), o, k.seal(i, d))
      && (Max(|plain|, p + k.plainSize) % k.plainSize != 0 ==> ended')
  {
    StoredWriteFull(k, plain, 0, ended, ended && Times(i, k.plainSize) + k.plainSize <= |plain|, i, d);
    TimesDivides(i + 1, k.plainSize, 0);
  }

  /** After sealing a short block as the last record the file is ended. */
  lemma WriteShortRecord(k: Sealing, plain: Bytes, ended: bool, i: nat, d: Bytes)
    requires k.Sound() && (|plain| % k.plainSize != 0 ==> ended)
    requires |d| < k.plainSize && Times(i, k.plainSize) <= |plain| <= Times(i, k.plainSize) + |d|
    ensures
      var p, o := Times(i, k.plainSize), Times(i, k.EncryptSize());
      && o <= |Body(k, plain, ended)|
      && Body(k, Overwrite(plain, p, d), true) == Overwrite(Body(k, plain, ended), o, k.seal(i, d))
      && o + k.recordSize(|d|) == |Body(k, Overwrite(plain, p, d), true)|
  {
    var p := Times(i, k.plainSize);
    if |plain| > p {
      TimesDivides(i, k.plainSize, |plain| - p);
    }
    StoredWriteShort(k, plain, 0, ended, i, d);
    StoredLength(k, Overwrite(plain, p, d), 0, true, i);
  }

  /** The stored size: the full records, and the short one if it is there. */
  lemma DataSizeCounts(k: Sealing, plain: Bytes, ended: bool)
    requires k.Sound()
    ensures
      var m := |plain| / k.plainSize;
      && Times(m, k.plainSize) <= |plain| < Times(m, k.plainSize) + k.plainSize
      && Times(m, k.EncryptSize()) <= |Body(k, plain, ended)| < Times(m, k.EncryptSize()) + k.EncryptSize()
      && (|Body(k, plain, ended)| > Times(m, k.EncryptSize()) <==> ended)
  {
    var m := |plain| / k.plainSize;
    Divide(|plain|, k.plainSize);
    StoredLength(k, plain, 0, ended, m);
  }

  /** The guard of the seek to the end: the stored size looks like a whole number of records. */
  predicate LooksFull(dataSize: nat, plainSize: nat)
    requires plainSize >= 1
  {
    dataSize % plainSize == 0
  }

  /**
   Where the seek to the end looks for the last record: the stored size rounded down to whole records,
   one record less if the guard holds. Sizes wrap around at 64 bits.
   */
  function LastRecordStart(dataSize: nat, plainSize: nat, encryptSize: nat): nat
    requires plainSize >= 1 && encryptSize >= 1
  {
    if LooksFull(dataSize, plainSize) then RoundDown((dataSize - encryptSize) % TWO_TO_THE_64, encryptSize)
    else RoundDown(dataSize, encryptSize)
  }

  /** The number of the record at an offset of the stored data. */
  function RecordNr(offset: nat, encryptSize: nat): nat
    requires encryptSize >= 1
  {
    offset / encryptSize
  }

  lemma RoundDownTimes(i: nat, size: nat, r: nat)
    requires r < size
    ensures RoundDown(Times(i, size) + r, size) == Times(i, size)
  {
    TimesDivides(i, size, r);
  }

  /** The seek to the end looks inside the stored data: what it subtracts is there to be subtracted. */
  predicate LooksInside(dataSize: nat, plainSize: nat, encryptSize: nat)
    requires plainSize >= 1
  {
    LooksFull(dataSize, plainSize) ==> dataSize >= encryptSize
  }

  /**
   Where there is less than a full record to subtract from, the place that is sought, header and all, is in front of
   the records, or further on than any file reaches.
   */
  lemma LastRecordWraps(dataSize: nat, plainSize: nat, encryptSize: nat, headerSize: nat)
    requires plainSize >= 1 && !LooksInside(dataSize, plainSize, encryptSize)
    requires 2 * encryptSize <= TWO_TO_THE_64 && headerSize < TWO_TO_THE_64
    ensures
      var back := TWO_TO_THE_64 - LastRecordStart(dataSize, plainSize, encryptSize);
      var place := (headerSize + LastRecordStart(dataSize, plainSize, encryptSize)) % TWO_TO_THE_64;
      && encryptSize - dataSize <= back < 2 * encryptSize - dataSize
      && place == if back <= headerSize then headerSize - back else TWO_TO_THE_64 - (back - headerSize)
  {
    hide LooksFull;
    Wraps(dataSize, encryptSize);
  }

  /** With `m` full records below the stored size, the seek looks at record `m`, or one too early. */
  lemma LastRecordFound(k: Sealing, m: nat, dataSize: nat)
    requires k.Sound()
    requires Times(m, k.EncryptSize()) <= dataSize < Times(m, k.EncryptSize()) + k.EncryptSize()
    ensures
      var start := LastRecordStart(dataSize, k.plainSize, k.EncryptSize());
      && (!LooksFull(dataSize, k.plainSize) ==>
            start == Times(m, k.EncryptSize()) && RecordNr(start, k.EncryptSize()) == m)
      && (LooksFull(dataSize, k.plainSize) && k.EncryptSize() <= dataSize < TWO_TO_THE_64 ==>
            m >= 1 && start == Times(m - 1, k.EncryptSize()) && RecordNr(start, k.EncryptSize()) == m - 1)
  {
    hide LooksFull;
    var e := k.EncryptSize();
    TimesDivides(m, e, 0);
    if !LooksFull(dataSize, k.plainSize) {
      RoundDownTimes(m, e, dataSize - Times(m, e));
    } else if e <= dataSize < TWO_TO_THE_64 {
      Wraps(dataSize, e);
      RoundDownTimes(m - 1, e, dataSize - Times(m, e));
      TimesDivides(m - 1, e, 0);
    }
  }

  /** The place that is found is a record boundary inside the data, and inside the plaintext. */
  lemma LastRecordPlace(k: Sealing, m: nat, dataSize: nat, size: nat)
    requires k.Sound() && Times(m, k.plainSize) <= size && dataSize < TWO_TO_THE_64
    requires Times(m, k.EncryptSize()) <= dataSize < Times(m, k.EncryptSize()) + k.EncryptSize()
    requires LooksInside(dataSize, k.plainSize, k.EncryptSize())
    ensures
      var start := LastRecordStart(dataSize, k.plainSize, k.EncryptSize());
      var nr := RecordNr(start, k.EncryptSize());
      && nr == m - (if LooksFull(dataSize, k.plainSize) then 1 else 0)
      && start == Times(nr, k.EncryptSize()) <= dataSize && Times(nr, k.plainSize) <= size
  {
    hide LooksFull, LastRecordStart, RecordNr, Sealing.Sound, Sealing.EncryptSize;
    SoundSizes(k);
    LastRecordFound(k, m, dataSize);
    if LooksFull(dataSize, k.plainSize) {
      TimesGrows(m - 1, m, k.plainSize);
      TimesGrows(m - 1, m, k.EncryptSize());
    }
  }

  /** Subtraction on 64 bits. */
  lemma Wraps(a: nat, b: nat)
    requires a < TWO_TO_THE_64 && b <= TWO_TO_THE_64
    ensures (a - b) % TWO_TO_THE_64 == if a >= b then a - b else a - b + TWO_TO_THE_64
  {
  }

  /** The size the file must exceed, at close, for its last record to be there. */
  lemma ExpectedSize(k: Sealing, plain: Bytes, ended: bool, written: nat)
    requires k.Sound() && written % k.plainSize == 0 && written <= |plain|
    requires !ended ==> written == |plain|
    ensures |Body(k, plain, ended)| > written / k.plainSize * k.EncryptSize() <==> ended
    ensures !ended ==> |Body(k, plain, ended)| == Times(|plain| / k.plainSize, k.EncryptSize())
  {
    DataSizeCounts(k, plain, ended);
    var m, w := |plain| / k.plainSize, written / k.plainSize;
    Divide(written, k.plainSize);
    TimesIsProduct(w, k.EncryptSize());
    if w < m {
      TimesGrows(w, m, k.EncryptSize());
    } else if w > m {
      TimesGrows(m + 1, w, k.plainSize);
    }
  }

  lemma {:induction false} TimesGrows(a: nat, b: nat, size: nat)
    requires a <= b
    ensures Times(a, size) <= Times(b, size)
  {
    if a < b {
      TimesGrows(a, b - 1, size);
    }
  }

  /** The stored size of a plaintext of this size, with its last record or without. */
  function StoredSize(k: Sealing, size: nat, ended: bool): nat
    requires k.plainSize >= 1
  {
    Times(size / k.plainSize, k.EncryptSize()) + if ended then k.recordSize(size % k.plainSize) else 0
  }

  lemma StoredSizeIs(k: Sealing, plain: Bytes, ended: bool)
    requires k.Sound()
    ensures |Body(k, plain, ended)| == StoredSize(k, |plain|, ended)
  {
    Divide(|plain|, k.plainSize);
    StoredLength(k, plain, 0, ended, |plain| / k.plainSize);
  }

  /** The guard of the seek to the end takes the right branch on a file of this size; sizes have 64 bits. */
  predicate EndFound(k: Sealing, size: nat, ended: bool)
    requires k.plainSize >= 1
  {
    && !LooksFull(StoredSize(k, size, ended), k.plainSize)
    && StoredSize(k, size, ended) < TWO_TO_THE_64 && 2 * k.EncryptSize() <= TWO_TO_THE_64
  }

  /** What that comes to for the stored data of a plaintext. */
  lemma EndFoundExactly(k: Sealing, plain: Bytes, ended: bool)
    requires k.Sound()
    ensures EndFound(k, |plain|, ended) <==>
      && |Body(k, plain, ended)| % k.plainSize != 0
      && |Body(k, plain, ended)| < 0x1_0000_0000_0000_0000
      && 2 * k.recordSize(k.plainSize) <= 0x1_0000_0000_0000_0000
  {
    StoredSizeIs(k, plain, ended);
  }

  /** Whether the last record is there after `n` bytes are written as record `i`, told by the sizes alone. */
  lemma EndedTold(plainSize: nat, i: nat, before: nat, n: nat, ended: bool)
    requires 1 <= n <= plainSize && Times(i, plainSize) <= before
    requires n < plainSize ==> before <= Times(i, plainSize) + n
    requires before % plainSize != 0 ==> ended
    ensures
      var end := Times(i, plainSize) + n;
      var after := Max(before, end);
      (n < plainSize || (ended && end <= before)) <==> (after % plainSize != 0 || (ended && after == before))
  {
    if n < plainSize {
      TimesDivides(i, plainSize, n);
    } else {
      TimesDivides(i + 1, plainSize, 0);
    }
  }

  /** The empty record behind a plaintext of this size differs from those with smaller numbers. */
  ghost predicate ApartIn(k: Sealing, size: nat) {
    k.plainSize >= 1 && forall i: nat :: i < size / k.plainSize ==> k.seal(i, []) != k.seal(size / k.plainSize, [])
  }

  /** The empty record that ends a file is the right one exactly if it carries the number of full records. */
  lemma TerminatorTells(k: Sealing, header: Bytes, plain: Bytes, n: nat)
    requires k.Sound() && ApartIn(k, |plain|) && |plain| % k.plainSize == 0 && n <= |plain| / k.plainSize
    ensures header + Body(k, plain, false) + k.seal(n, []) == header + Body(k, plain, true)
       <==> n == |plain| / k.plainSize
  {
    hide Stored;
    var m := |plain| / k.plainSize;
    var front := header + Body(k, plain, false);
    EndedByTerminator(k, plain);
    assert header + Body(k, plain, true) == front + k.seal(m, []);
    assert (front + k.seal(m, []))[|front|..] == k.seal(m, []);
    assert (front + k.seal(n, []))[|front|..] == k.seal(n, []);
  }

  lemma EndedByTerminator(k: Sealing, plain: Bytes)
    requires k.Sound() && |plain| % k.plainSize == 0
    ensures Body(k, plain, true) == Body(k, plain, false) + k.seal(|plain| / k.plainSize, [])
  {
    var m := |plain| / k.plainSize;
    Divide(|plain|, k.plainSize);
    WriteShortRecord(k, plain, false, m, []);
    StoredLength(k, plain, 0, false, m);
    assert Overwrite(plain, |plain|, []) == plain;
    var body := Body(k, plain, false);
    assert Overwrite(body, |body|, k.seal(m, [])) == body + k.seal(m, []);
  }
}
