/** Packing integers and bytes into a buffer, most significant byte first, without running past its end. */
module Packing {
  import opened Sizes
  import opened Nonces

  /** The position after `n` more bytes: it stops one past the end, which says that the buffer overflowed. */
  function Bumped(bp: nat, n: nat, end: nat): nat {
    Min(bp + n, end + 1)
  }

  /** What is left of a number without its `b` low bytes. */
  function Shifted(n: nat, b: nat): nat
    decreases b
  {
    if b == 0 then n else Shifted(n / 256, b - 1)
  }

  /** A number's bytes, in two parts. */
  lemma {:induction false} BigEndianSplit(n: nat, a: nat, b: nat)
    ensures BigEndian(n, a + b) == BigEndian(Shifted(n, b), a) + BigEndian(n, b)
    decreases b
  {
    if b > 0 {
      BigEndianSplit(n / 256, a, b - 1);
    }
  }

  /** Shifting by whole bytes divides. */
  lemma ShiftDivides(n: nat)
    ensures Shifted(n, 1) == n / 0x100 && Shifted(n, 2) == n / 0x1_0000 && Shifted(n, 4) == n / 0x1_0000_0000
  {
    var m := n / 0x100 / 0x100;
    assert Shifted(n, 1) == Shifted(n / 256, 0);
    assert Shifted(n, 2) == m && m == n / 0x1_0000;
    assert Shifted(n, 4) == Shifted(m, 2) == m / 0x100 / 0x100;
    assert m / 0x100 / 0x100 == m / 0x1_0000 == n / 0x1_0000_0000;
  }

  /** The bytes denote a number, and the number's bytes are those bytes. */
  lemma {:induction false} FromBigEndianRoundTrip(bytes: Bytes)
    ensures BigEndian(FromBigEndian(bytes), |bytes|) == bytes
  {
    if bytes != [] {
      var init, last := bytes[..|bytes| - 1], bytes[|bytes| - 1];
      FromBigEndianRoundTrip(init);
      assert (256 * FromBigEndian(init) + last) / 256 == FromBigEndian(init);
    }
  }

  lemma {:induction false} FromBigEndianConcat(a: Bytes, b: Bytes)
    ensures FromBigEndian(a + b) == FromBigEndian(a) * Power(256, |b|) + FromBigEndian(b)
  {
    if b == [] {
      assert a + b == a;
    } else {
      var init, last := b[..|b| - 1], b[|b| - 1];
      FromBigEndianConcat(a, init);
      assert (a + b)[..|a + b| - 1] == a + init;
      var p := Power(256, |init|);
      assert Power(256, |b|) == 256 * p;
      assert 256 * (FromBigEndian(a) * p) == FromBigEndian(a) * (256 * p);
    }
  }

  /** Writes through a pointer that is clamped at the end of its buffer. */
  class Packer {
    const buf: array<Byte>
    const end: nat
    var bp: nat
    /** Everything that has been asked to be packed, whether or not it fitted; and what lies past the end. */
    ghost var requested: Bytes
    ghost const beyond: Bytes

    ghost predicate Valid()
      reads this, buf
    {
      && end <= buf.Length
      && bp == Bumped(0, |requested|, end)
      && buf[..Min(|requested|, end)] == requested[..Min(|requested|, end)]
      && buf[end..] == beyond
    }

    constructor (buf: array<Byte>, end: nat)
      requires end <= buf.Length
      ensures Valid() && requested == [] && this.buf == buf && this.end == end && beyond == buf[end..]
    {
      this.buf, this.end, bp := buf, end, 0;
      requested, beyond := [], buf[end..];
    }

    /** The pointer passes the end exactly when more was asked for than fits; nothing is stored there. */
    lemma OverflowIsSticky()
      requires Valid()
      ensures bp > end <==> |requested| > end
      ensures bp <= end ==> bp == |requested| && buf[..bp] == requested
      ensures buf[end..] == beyond
    {
      if bp <= end {
        assert requested[..|requested|] == requested;
      }
    }

    method Pack1(val: nat)
      requires Valid()
      modifies this`bp, this`requested, buf
      ensures Valid() && requested == old(requested) + BigEndian(val, 1)
    {
      ghost var stored := buf[..Min(bp, end)];
      if bp < end {
        buf[bp] := val % 256;
      }
      if bp <= end {
        bp := bp + 1;
      }
      requested := requested + BigEndian(val, 1);
      assert BigEndian(val, 1) == [val % 256];
      if |requested| <= end {
        assert buf[..|requested|] == stored + [val % 256];
      } else {
        assert buf[..end] == stored[..end];
      }
    }

    method Pack2(val: nat)
      requires Valid()
      modifies this`bp, this`requested, buf
      ensures Valid() && requested == old(requested) + BigEndian(val, 2)
    {
      BigEndianSplit(val, 1, 1);
      ShiftDivides(val);
      Pack1(val / 0x100);
      Pack1(val);
    }

    method Pack4(val: nat)
      requires Valid()
      modifies this`bp, this`requested, buf
      ensures Valid() && requested == old(requested) + BigEndian(val, 4)
    {
      BigEndianSplit(val, 2, 2);
      ShiftDivides(val);
      Pack2(val / 0x1_0000);
      Pack2(val);
    }

    method Pack8(val: nat)
      requires Valid()
      modifies this`bp, this`requested, buf
      ensures Valid() && requested == old(requested) + BigEndian(val, 8)
    {
      BigEndianSplit(val, 4, 4);
      ShiftDivides(val);
      Pack4(val / 0x1_0000_0000);
      Pack4(val);
    }

    method PackBytes(bytes: Bytes)
      requires Valid()
      modifies this`bp, this`requested, buf
      ensures Valid() && requested == old(requested) + bytes
    {
      for idx := 0 to |bytes|
        invariant Valid() && requested == old(requested) + bytes[..idx]
      {
        assert BigEndian(bytes[idx], 1) == [bytes[idx]];
        Pack1(bytes[idx]);
      }
    }
  }

  /** The next `n` bytes from `bp` on, with zeros for those past the end. */
  function Ahead(buf: Bytes, bp: nat, n: nat): (ahead: Bytes)
    ensures |ahead| == n
  {
    seq(n, i requires 0 <= i < n => if bp + i < |buf| then buf[bp + i] else 0)
  }

  lemma AheadSplit(buf: Bytes, bp: nat, a: nat, b: nat)
    ensures Ahead(buf, bp, a + b) == Ahead(buf, bp, a) + Ahead(buf, Bumped(bp, a, |buf|), b)
  {
  }

  /** Reads through a clamped pointer. */
  class Unpacker {
    const buf: Bytes
    var bp: nat

    constructor (buf: Bytes)
      ensures this.buf == buf && bp == 0
    {
      this.buf, bp := buf, 0;
    }

    method Unpack1() returns (val: nat)
      requires bp <= |buf| + 1
      modifies this
      ensures val == FromBigEndian(Ahead(buf, old(bp), 1)) && bp == Bumped(old(bp), 1, |buf|)
      ensures val == if old(bp) < |buf| then buf[old(bp)] else 0
      ensures bp == if old(bp) <= |buf| then old(bp) + 1 else old(bp)
    {
      val := 0;
      if bp < |buf| {
        val := buf[bp];
      }
      assert Ahead(buf, bp, 1)[..0] == [];
      if bp <= |buf| {
        bp := bp + 1;
      }
    }

    method Unpack2() returns (val: nat)
      requires bp <= |buf| + 1
      modifies this
      ensures val == FromBigEndian(Ahead(buf, old(bp), 2)) && bp == Bumped(old(bp), 2, |buf|)
    {
      AheadSplit(buf, bp, 1, 1);
      FromBigEndianConcat(Ahead(buf, bp, 1), Ahead(buf, Bumped(bp, 1, |buf|), 1));
      PowersOf256();
      var high := Unpack1();
      var low := Unpack1();
      val := high * 0x100 + low;
    }

    method Unpack4() returns (val: nat)
      requires bp <= |buf| + 1
      modifies this
      ensures val == FromBigEndian(Ahead(buf, old(bp), 4)) && bp == Bumped(old(bp), 4, |buf|)
    {
      AheadSplit(buf, bp, 2, 2);
      FromBigEndianConcat(Ahead(buf, bp, 2), Ahead(buf, Bumped(bp, 2, |buf|), 2));
      PowersOf256();
      var high := Unpack2();
      var low := Unpack2();
      val := high * 0x1_0000 + low;
    }

    method Unpack8() returns (val: nat)
      requires bp <= |buf| + 1
      modifies this
      ensures val == FromBigEndian(Ahead(buf, old(bp), 8)) && bp == Bumped(old(bp), 8, |buf|)
    {
      AheadSplit(buf, bp, 4, 4);
      FromBigEndianConcat(Ahead(buf, bp, 4), Ahead(buf, Bumped(bp, 4, |buf|), 4));
      PowersOf256();
      var high := Unpack4();
      var low := Unpack4();
      val := high * 0x1_0000_0000 + low;
    }

    method UnpackBytes(size: nat) returns (bytes: Bytes)
      requires bp <= |buf| + 1
      modifies this
      ensures bytes == Ahead(buf, old(bp), size) && bp == Bumped(old(bp), size, |buf|)
      ensures |bytes| == size
      ensures forall i :: 0 <= i < size ==> bytes[i] == if old(bp) + i < |buf| then buf[old(bp) + i] else 0
      ensures bp == if old(bp) + size <= |buf| then old(bp) + size else |buf| + 1
    {
      bytes := [];
      for idx := 0 to size
        invariant bytes == Ahead(buf, old(bp), idx) && bp == Bumped(old(bp), idx, |buf|)
      {
        AheadSplit(buf, old(bp), idx, 1);
        FromBigEndianRoundTrip(Ahead(buf, bp, 1));
        var b := Unpack1();
        bytes := bytes + [b];
      }
    }
  }

  /** A packed number that fits its width is unpacked again, wherever it stands in the buffer. */
  lemma PackRoundTrip(before: Bytes, val: nat, size: nat, after: Bytes)
    requires val < Power(256, size)
    ensures FromBigEndian(Ahead(before + BigEndian(val, size) + after, |before|, size)) == val
  {
    BigEndianRoundTrip(val, size);
    assert Ahead(before + BigEndian(val, size) + after, |before|, size) == BigEndian(val, size);
  }
}
