/** Integers and sized blocks on a byte stream. */
module Framing {
  import opened Sizes
  import opened FlatFiles
  import opened Nonces
  import opened Packing
  import opened Files
  import opened Pipelines

  /** The bytes of a 4- or 8-byte integer. */
  method PackInteger(value: nat, size: nat) returns (bytes: Bytes)
    requires size == 4 || size == 8
    ensures bytes == BigEndian(value, size)
  {
    var buf := new Byte[size];
    var packer := new Packer(buf, size);
    if size == 4 {
      packer.Pack4(value);
    } else {
      packer.Pack8(value);
    }
    packer.OverflowIsSticky();
    bytes := buf[..];
  }

  method UnpackInteger(bytes: Bytes) returns (value: nat)
    requires |bytes| == 4 || |bytes| == 8
    ensures value == FromBigEndian(bytes)
  {
    var unpacker := new Unpacker(bytes);
    assert Ahead(bytes, 0, |bytes|) == bytes;
    if |bytes| == 4 {
      value := unpacker.Unpack4();
    } else {
      value := unpacker.Unpack8();
    }
  }

  /** Puts an integer of 4 or 8 bytes on the stream. */
  method FilePut(next: Next, value: nat, size: nat, e: Error) returns (e': Error)
    requires next.Robust() && next.Valid() && (size == 4 || size == 8)
    modifies next.Repr()
    ensures next.Valid() && next.Elsewhere() == old(next.Elsewhere())
    ensures forall o :: o in next.Repr() ==> o in old(next.Repr()) || fresh(o)
    ensures e' == e
    ensures e == OK ==> next.Contents() == Overwrite(old(next.Contents()), old(next.Pos()), BigEndian(value, size))
    ensures e == OK ==> next.Pos() == old(next.Pos()) + size
    ensures e != OK ==> next.Contents() == old(next.Contents()) && next.Pos() == old(next.Pos())
  {
    hide Next.Valid, Next.Contents, Next.CanRead, Next.CanWrite, Next.CanTake, Next.Files, Next.Clean;
    hide Next.Whole, Next.Elsewhere, Next.Pos, Next.Heads, Next.Repr;
    assert allocated(next.Repr()) && allocated(next.Heads());
    var bytes := PackInteger(value, size);
    next.RobustReady(size);
    var _, e1 := WriteAll(next, bytes, e);
    assert bytes[..size] == bytes;
    e' := e1;
  }

  /** Gets an integer of 4 or 8 bytes from the stream. At the end of the file the value means nothing. */
  method FileGet(next: Next, size: nat, e: Error) returns (value: nat, e': Error)
    requires next.Robust() && next.Valid() && (size == 4 || size == 8)
    modifies next.Repr()
    ensures next.Valid() && (old(next.Clean()) ==> next.Clean() && next.Files() == old(next.Files()))
    ensures forall o :: o in next.Repr() ==> o in old(next.Repr()) || fresh(o)
    ensures next.Contents() == old(next.Contents())
    ensures e == OK ==> next.Pos() == Min(old(next.Pos()) + size, |next.Contents()|)
    ensures e == OK ==>
      var here := next.Contents()[old(next.Pos())..next.Pos()];
      if here == [] then e' == EOF
      else if |here| < size then e'.Failure? && value == 0
      else e' == OK && value == FromBigEndian(here)
    ensures e != OK ==> e' == e && next.Pos() == old(next.Pos())
  {
    hide Next.Valid, Next.Contents, Next.CanRead, Next.CanWrite, Next.CanTake, Next.Files, Next.Clean;
    hide Next.Whole, Next.Elsewhere, Next.Pos, Next.Heads, Next.Repr;
    next.RobustReady(size);
    var bytes;
    bytes, e' := ReadAll(next, size, e);
    if e' != EOF && |bytes| != size {
      value, e' := 0, if e' == OK then Failure("unable to read bytes") else e';
    } else if |bytes| == size {
      assert allocated(next.Repr()) && allocated(next.Heads());
      value := UnpackInteger(bytes);
    } else {
      value := *;
    }
  }

  /** A block that carries its size in front. */
  function Framed(block: Bytes): (framed: Bytes)
    ensures |framed| == 4 + |block|
  {
    BigEndian(|block|, 4) + block
  }

  /** Writes a block, after its size; nothing if there is an error already. */
  method WriteSized(next: Next, block: Bytes, e: Error) returns (e': Error)
    requires next.Robust() && next.Valid() && |block| > 0
    modifies next.Repr()
    ensures next.Valid() && next.Elsewhere() == old(next.Elsewhere()) && e' == e
    ensures forall o :: o in next.Repr() ==> o in old(next.Repr()) || fresh(o)
    ensures e == OK ==> next.Contents() == Overwrite(old(next.Contents()), old(next.Pos()), Framed(block))
    ensures e == OK ==> next.Pos() == old(next.Pos()) + 4 + |block|
    ensures e != OK ==> next.Contents() == old(next.Contents()) && next.Pos() == old(next.Pos())
  {
    hide Next.Valid, Next.Contents, Next.CanRead, Next.CanWrite, Next.CanTake, Next.Files, Next.Clean, Next.Whole;
    hide Next.Elsewhere, Next.Pos, Next.Heads, Next.Repr;
    if e != OK {
      return e;
    }
    next.RobustReady(0);
    e' := FilePut(next, |block|, 4, OK);
    next.RobustReady(|block|);
    var _, e1 := WriteAll(next, block, e');
    e' := e1;
    assert block[..|block|] == block;
    OverwriteTwice(old(next.Contents()), old(next.Pos()), BigEndian(|block|, 4), block);
  }

  /** Reads a block of the size found in front of it, if that is at most `size`. */
  method ReadSized(next: Next, size: nat, e: Error) returns (block: Bytes, e': Error)
    requires next.Robust() && next.Valid()
    modifies next.Repr()
    ensures next.Valid() && (old(next.Clean()) ==> next.Clean() && next.Files() == old(next.Files()))
    ensures forall o :: o in next.Repr() ==> o in old(next.Repr()) || fresh(o)
    ensures next.Contents() == old(next.Contents())
    ensures e != OK ==> block == [] && e' == e && next.Pos() == old(next.Pos())
    ensures e == OK && old(next.Pos()) == |next.Contents()| ==>
      block == [] && e' == EOF && next.Pos() == old(next.Pos())
    ensures e == OK && old(next.Pos()) + 4 <= |next.Contents()| ==>
      var p := old(next.Pos()) + 4;
      var n := FromBigEndian(next.Contents()[old(next.Pos())..p]);
      if n > size then block == [] && e'.Failure? && next.Pos() == p
      else
        && next.Pos() == Min(p + n, |next.Contents()|) && block == next.Contents()[p..next.Pos()]
        && e' == if n > 0 && block == [] then EOF else OK
    ensures e == OK && old(next.Pos()) < |next.Contents()| < old(next.Pos()) + 4 ==> block == [] && e'.Failure?
  {
    hide Next.Valid, Next.Contents, Next.CanRead, Next.CanWrite, Next.CanTake, Next.Files, Next.Clean;
    hide Next.Whole, Next.Elsewhere, Next.Pos, Next.Heads, Next.Repr;
    var blockSize;
    next.RobustReady(0);
    blockSize, e' := FileGet(next, 4, e);
    if e' != OK {
      return [], e';
    }
    if blockSize > size {
      return [], Failure("ReadSized: Block length is too large");
    }
    next.RobustReady(0);
    block, e' := ReadAll(next, blockSize, OK);
  }

  /** The size in front of a block is read back as the size of the block. */
  lemma FramedSize(block: Bytes)
    requires |block| < 0x1_0000_0000
    ensures FromBigEndian(Framed(block)[..4]) == |block| && Framed(block)[4..] == block
  {
    PowersOf256();
    BigEndianRoundTrip(|block|, 4);
    assert Framed(block)[..4] == BigEndian(|block|, 4);
  }

  /** A framed block, taken apart where it stands. */
  lemma TakeApart(data: Bytes, p: nat, block: Bytes)
    requires |block| < 0x1_0000_0000
    requires p + |Framed(block)| <= |data| && data[p..p + |Framed(block)|] == Framed(block)
    ensures |Framed(block)| == 4 + |block|
    ensures FromBigEndian(data[p..p + 4]) == |block| && data[p + 4..p + 4 + |block|] == block
  {
    FramedSize(block);
    var framed := Framed(block);
    assert data[p..p + 4] == framed[..4];
    assert data[p + 4..p + 4 + |block|] == framed[4..];
  }
}
