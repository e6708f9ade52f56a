/** One nonce per record: the initialization vector XOR the record's sequence number. */
module Nonces {
  import opened Sizes

  /** Exclusive or of the low `bits` bits. */
  function XorBits(a: nat, b: nat, bits: nat): (r: nat)
    decreases bits
  {
    if bits == 0 then 0 else 2 * XorBits(a / 2, b / 2, bits - 1) + (a % 2 + b % 2) % 2
  }

  lemma {:induction false} XorBitsRange(a: nat, b: nat, bits: nat)
    ensures XorBits(a, b, bits) < Power(2, bits)
    decreases bits
  {
    if bits > 0 {
      XorBitsRange(a / 2, b / 2, bits - 1);
    }
  }

  function Xor(a: Byte, b: Byte): Byte {
    XorBitsRange(a, b, 8);
    ByteIs8Bits();
    XorBits(a, b, 8)
  }

  lemma ByteIs8Bits()
    ensures Power(2, 8) == 256
  {
    assert Power(2, 4) == 16;
    assert Power(2, 6) == 64;
  }

  function Power(base: nat, n: nat): (p: nat)
    ensures base >= 1 ==> p >= 1
  {
    if n == 0 then 1
    else
      ProductPositive(base, Power(base, n - 1));
      base * Power(base, n - 1)
  }

  lemma ProductPositive(a: nat, b: nat)
    ensures a >= 1 && b >= 1 ==> a * b >= 1
  {
  }

  /** Exclusive or with a fixed second operand loses nothing. */
  lemma {:induction false} XorBitsInjective(a: nat, a': nat, b: nat, bits: nat)
    requires a < Power(2, bits) && a' < Power(2, bits)
    requires XorBits(a, b, bits) == XorBits(a', b, bits)
    ensures a == a'
    decreases bits
  {
    if bits > 0 {
      assert Power(2, bits) == 2 * Power(2, bits - 1);
      XorBitsInjective(a / 2, a' / 2, b / 2, bits - 1);
    }
  }

  lemma XorInjective(a: Byte, a': Byte, b: Byte)
    requires Xor(a, b) == Xor(a', b)
    ensures a == a'
  {
    ByteIs8Bits();
    XorBitsInjective(a, a', b, 8);
  }

  /** Bit `k` of a number. */
  function Bit(n: nat, k: nat): nat {
    if k == 0 then n % 2 else Bit(n / 2, k - 1)
  }

  lemma {:induction false} XorBitsAt(a: nat, b: nat, bits: nat, k: nat)
    requires k < bits
    ensures Bit(XorBits(a, b, bits), k) == if Bit(a, k) == Bit(b, k) then 0 else 1
    decreases bits
  {
    var rest := XorBits(a / 2, b / 2, bits - 1);
    assert XorBits(a, b, bits) / 2 == rest && XorBits(a, b, bits) % 2 == (a % 2 + b % 2) % 2;
    if k > 0 {
      XorBitsAt(a / 2, b / 2, bits - 1, k - 1);
    }
  }

  /** Every bit of the result is set exactly if it is set in one of the operands and not in the other. */
  lemma XorBit(a: Byte, b: Byte, k: nat)
    requires k < 8
    ensures Bit(Xor(a, b), k) == if Bit(a, k) == Bit(b, k) then 0 else 1
  {
    XorBitsAt(a, b, 8, k);
  }

  lemma XorHalves(a: nat, b: nat, bits: nat)
    ensures bits == 0 ==> XorBits(a, b, bits) == 0
    ensures bits > 0 ==> XorBits(a, b, bits) / 2 == XorBits(a / 2, b / 2, bits - 1)
    ensures bits > 0 ==> XorBits(a, b, bits) % 2 == (a % 2 + b % 2) % 2
  {
  }

  lemma {:induction false} XorBitsAlone(a: nat, bits: nat)
    requires a < Power(2, bits)
    ensures XorBits(a, 0, bits) == a && XorBits(a, a, bits) == 0
    ensures XorBits(a, Power(2, bits) - 1, bits) == Power(2, bits) - 1 - a
    decreases bits
  {
    if bits > 0 {
      XorBitsAlone(a / 2, bits - 1);
      assert (Power(2, bits) - 1) / 2 == Power(2, bits - 1) - 1;
    }
  }

  lemma {:induction false} XorBitsCommute(a: nat, b: nat, bits: nat)
    ensures XorBits(a, b, bits) == XorBits(b, a, bits)
    decreases bits
  {
    if bits > 0 {
      XorBitsCommute(a / 2, b / 2, bits - 1);
    }
  }

  lemma {:induction false} XorBitsAssociate(a: nat, b: nat, c: nat, bits: nat)
    ensures XorBits(XorBits(a, b, bits), c, bits) == XorBits(a, XorBits(b, c, bits), bits)
    decreases bits
  {
    hide XorBits;
    var x, y := XorBits(a, b, bits), XorBits(b, c, bits);
    XorHalves(a, b, bits);
    XorHalves(b, c, bits);
    XorHalves(x, c, bits);
    XorHalves(a, y, bits);
    if bits > 0 {
      XorBitsAssociate(a / 2, b / 2, c / 2, bits - 1);
      assert XorBits(x, c, bits) / 2 == XorBits(a, y, bits) / 2;
      assert XorBits(x, c, bits) % 2 == XorBits(a, y, bits) % 2;
    }
  }

  /** Zero changes nothing, a byte undoes itself, and neither order nor grouping matters; 255 inverts. */
  lemma XorLaws(a: Byte, b: Byte, c: Byte)
    ensures Xor(a, 0) == a && Xor(a, a) == 0 && Xor(a, 255) == 255 - a
    ensures Xor(a, b) == Xor(b, a) && Xor(Xor(a, b), c) == Xor(a, Xor(b, c))
    ensures Xor(Xor(a, b), b) == a
  {
    ByteIs8Bits();
    XorBitsAlone(a, 8);
    XorBitsAlone(b, 8);
    XorBitsCommute(a, b, 8);
    XorBitsAssociate(a, b, c, 8);
    XorBitsAssociate(a, b, b, 8);
  }

  /** The `size` low bytes of a number, most significant first. */
  function BigEndian(n: nat, size: nat): (bytes: Bytes)
    ensures |bytes| == size
  {
    if size == 0 then [] else BigEndian(n / 256, size - 1) + [n % 256]
  }

  lemma DivideTwice(n: nat, a: nat, b: nat)
    requires a > 0 && b > 0
    ensures a * b > 0 && n / a / b == n / (a * b)
  {
    ProductPositive(a, b);
    var q := n / a / b;
    var r := n / a % b;
    assert n == (q * b + r) * a + n % a;
    assert (q * b + r) * a == q * (a * b) + r * a;
    assert r * a + n % a < a * b by {
      MulGap(r, b, a);
      assert b * a == a * b;
    }
    DivModUnique(q, a * b, r * a + n % a);
  }

  /** Byte `i` from the left is the digit of the number that stands there, in base 256. */
  lemma {:induction false} BigEndianAt(n: nat, size: nat, i: nat)
    requires i < size
    ensures BigEndian(n, size)[i] == n / Power(256, size - 1 - i) % 256
    decreases size
  {
    if i < size - 1 {
      BigEndianAt(n / 256, size - 1, i);
      DivideTwice(n, 256, Power(256, size - 2 - i));
    }
  }

  /** The number that a big-endian byte string denotes. */
  function FromBigEndian(bytes: Bytes): nat {
    if bytes == [] then 0 else 256 * FromBigEndian(bytes[..|bytes| - 1]) + bytes[|bytes| - 1]
  }

  /** Big-endian bytes denote the number, as far as it fits. */
  lemma {:induction false} BigEndianRoundTrip(n: nat, size: nat)
    requires n < Power(256, size)
    ensures FromBigEndian(BigEndian(n, size)) == n
  {
    if size > 0 {
      BigEndianRoundTrip(n / 256, size - 1);
      var bytes := BigEndian(n, size);
      assert bytes[..size - 1] == BigEndian(n / 256, size - 1);
    }
  }

  /** The nonce of sequence number `n`: both numbers aligned at their last byte, byte by byte. */
  function Nonce(iv: Bytes, n: nat): (nonce: Bytes)
    ensures |nonce| == |iv|
  {
    var numbered := BigEndian(n, |iv|);
    seq(|iv|, i requires 0 <= i < |iv| => Xor(numbered[i], iv[i]))
  }

  /** Different sequence numbers below 256^|iv| never share a nonce. */
  lemma NonceInjective(iv: Bytes, n: nat, n': nat)
    requires n < Power(256, |iv|) && n' < Power(256, |iv|)
    requires Nonce(iv, n) == Nonce(iv, n')
    ensures n == n'
  {
    var a, b := BigEndian(n, |iv|), BigEndian(n', |iv|);
    forall i | 0 <= i < |iv| ensures a[i] == b[i] {
      assert Nonce(iv, n)[i] == Nonce(iv, n')[i];
      XorInjective(a[i], b[i], iv[i]);
    }
    assert a == b;
    BigEndianRoundTrip(n, |iv|);
    BigEndianRoundTrip(n', |iv|);
  }

  const HEADER_SEQUENCE_NUMBER: nat := 0xFFFF_FFFF_FFFF_FFFF

  /** Taking the vector out of a nonce again leaves the number. */
  lemma NonceUndone(iv: Bytes, n: nat)
    requires n < Power(256, |iv|)
    ensures FromBigEndian(seq(|iv|, i requires 0 <= i < |iv| => Xor(Nonce(iv, n)[i], iv[i]))) == n
    ensures (forall i :: 0 <= i < |iv| ==> iv[i] == 0) ==> FromBigEndian(Nonce(iv, n)) == n
  {
    hide Xor;
    var numbered := BigEndian(n, |iv|);
    BigEndianRoundTrip(n, |iv|);
    forall i | 0 <= i < |iv| ensures Xor(Nonce(iv, n)[i], iv[i]) == numbered[i] && Xor(numbered[i], 0) == numbered[i] {
      XorLaws(numbered[i], iv[i], 0);
    }
    assert seq(|iv|, i requires 0 <= i < |iv| => Xor(Nonce(iv, n)[i], iv[i])) == numbered;
    if forall i :: 0 <= i < |iv| ==> iv[i] == 0 {
      assert Nonce(iv, n) == numbered;
    }
  }

  /** Powers of 256 up to eight bytes. */
  lemma PowersOf256()
    ensures Power(256, 1) == 0x100 && Power(256, 2) == 0x1_0000 && Power(256, 3) == 0x100_0000
    ensures Power(256, 4) == 0x1_0000_0000 && Power(256, 5) == 0x100_0000_0000
    ensures Power(256, 6) == 0x1_0000_0000_0000 && Power(256, 7) == 0x100_0000_0000_0000
    ensures Power(256, 8) == 0x1_0000_0000_0000_0000
  {
    assert Power(256, 2) == 0x1_0000;
    assert Power(256, 4) == 0x1_0000_0000;
    assert Power(256, 6) == 0x1_0000_0000_0000;
  }

  /** The header's number has all its 64 bits set: its nonce is the vector with the last eight bytes inverted. */
  lemma HeaderNonceInverts(iv: Bytes, i: nat)
    requires |iv| >= 8 && i < |iv|
    ensures Nonce(iv, HEADER_SEQUENCE_NUMBER)[i] == if i < |iv| - 8 then iv[i] else 255 - iv[i]
  {
    hide Xor, BigEndian, Power;
    var shift := |iv| - 1 - i;
    BigEndianAt(HEADER_SEQUENCE_NUMBER, |iv|, i);
    AllOnes(shift);
    XorLaws(iv[i], 0, 0);
    XorLaws(iv[i], 255, 0);
  }

  lemma AllOnes(shift: nat)
    ensures HEADER_SEQUENCE_NUMBER / Power(256, shift) % 256 == if shift < 8 then 255 else 0
  {
    PowersOf256();
    if shift >= 8 {
      PowerGrows(256, 8, shift);
      DivModUnique(0, Power(256, shift), HEADER_SEQUENCE_NUMBER);
    }
  }

  /** With eight bytes of initialization vector or more, the header's nonce is no data record's nonce. */
  lemma HeaderNonceIsReserved(iv: Bytes, blockNr: nat)
    requires |iv| >= 8 && blockNr < 0xFFFF_FFFF_FFFF_FFFF
    ensures Nonce(iv, blockNr) != Nonce(iv, HEADER_SEQUENCE_NUMBER)
  {
    PowerGrows(256, 8, |iv|);
    PowersOf256();
    if Nonce(iv, blockNr) == Nonce(iv, HEADER_SEQUENCE_NUMBER) {
      NonceInjective(iv, blockNr, HEADER_SEQUENCE_NUMBER);
    }
  }

  lemma {:induction false} PowerGrows(base: nat, m: nat, n: nat)
    requires base >= 1 && m <= n
    ensures Power(base, m) <= Power(base, n)
    decreases n
  {
    if m < n {
      PowerGrows(base, m, n - 1);
      assert base * Power(base, n - 1) >= Power(base, n - 1);
    }
  }

  /** Builds the nonce in place, from the last byte to the first. */
  method GenerateNonce(nonce: array<Byte>, iv: array<Byte>, seqNr: nat)
    requires nonce.Length == iv.Length && nonce != iv
    modifies nonce
    ensures nonce[..] == Nonce(iv[..], seqNr)
    ensures forall i: nat :: i < iv.Length ==>
      nonce[i] == Xor(iv[i], seqNr / Power(256, iv.Length - 1 - i) % 256)
    ensures iv[..] == old(iv[..])
  {
    hide Xor, Power;
    var p := iv.Length;
    var rest := seqNr;
    ghost var numbered := BigEndian(seqNr, iv.Length);
    while p > 0
      invariant 0 <= p <= iv.Length
      invariant numbered[..p] == BigEndian(rest, p)
      invariant forall i :: p <= i < iv.Length ==> nonce[i] == Xor(numbered[i], iv[i])
    {
      p := p - 1;
      assert numbered[p] == BigEndian(rest, p + 1)[p];
      assert numbered[..p] == numbered[..p + 1][..p];
      nonce[p] := Xor(rest % 256, iv[p]);
      rest := rest / 256;
    }
    forall i: nat | i < iv.Length
      ensures nonce[i] == Xor(iv[i], seqNr / Power(256, iv.Length - 1 - i) % 256)
    {
      BigEndianAt(seqNr, iv.Length, i);
      XorLaws(numbered[i], iv[i], 0);
    }
  }
}
