/** The header of an encrypted file, and opening such a file. */
module Headers {
  import opened Sizes
  import opened FlatFiles
  import opened Nonces
  import opened Packing
  import opened Records
  import opened Files
  import opened Pipelines
  import opened Framing

  const MAX_AEAD_HEADER_SIZE: nat := 1024
  const MAX_CIPHER_NAME: nat := 64
  const MAX_BLOCK_SIZE: nat := 16 * 1024 * 1024
  const MAX_IV_LENGTH: nat := 16
  const MAX_BLOCK_LENGTH: nat := 32
  const MAX_MD_SIZE: nat := 64

  /** What the header says. The empty block and the tag are opaque here. */
  datatype Header = Header(plainSize: nat, cipherName: Bytes, iv: Bytes, emptyBlock: Bytes, tag: Bytes) {
    /** The sizes that a reader of the header accepts. */
    predicate Acceptable() {
      && plainSize <= MAX_BLOCK_SIZE && |cipherName| <= MAX_CIPHER_NAME - 1 && |iv| <= MAX_IV_LENGTH
      && |emptyBlock| <= MAX_BLOCK_LENGTH && |tag| <= MAX_MD_SIZE
    }
  }

  /** A byte string after one byte that holds its size. */
  function Field(bytes: Bytes): (field: Bytes)
    ensures |field| == |bytes| + 1
  {
    BigEndian(|bytes|, 1) + bytes
  }

  function HeaderBytes(h: Header): Bytes {
    BigEndian(h.plainSize, 4) + Field(h.cipherName) + Field(h.iv) + Field(h.emptyBlock) + Field(h.tag)
  }

  method PackField(packer: Packer, bytes: Bytes)
    requires packer.Valid()
    modifies packer`bp, packer`requested, packer.buf
    ensures packer.Valid() && packer.requested == old(packer.requested) + Field(bytes)
  {
    packer.Pack1(|bytes|);
    packer.PackBytes(bytes);
  }

  /** Lays the header out. It must fit its buffer. */
  method LayOut(h: Header) returns (header: Bytes, e: Error)
    ensures e == OK <==> 8 + |h.cipherName| + |h.iv| + |h.emptyBlock| + |h.tag| <= 1024
    ensures e == OK ==> header == HeaderBytes(h)
  {
    hide Packer.Valid, BigEndian, Field;
    var buf := new Byte[MAX_AEAD_HEADER_SIZE];
    var packer := new Packer(buf, MAX_AEAD_HEADER_SIZE);
    packer.Pack4(h.plainSize);
    PackField(packer, h.cipherName);
    PackField(packer, h.iv);
    packer.OverflowIsSticky();
    if packer.bp > MAX_AEAD_HEADER_SIZE {
      return [], Failure("Trying to write a header which is too large");
    }
    PackField(packer, h.emptyBlock);
    PackField(packer, h.tag);
    packer.OverflowIsSticky();
    assert packer.requested == HeaderBytes(h);
    if packer.bp > MAX_AEAD_HEADER_SIZE {
      return [], Failure("Encryption file header was too large.");
    }
    header, e := buf[..packer.bp], OK;
  }

  /** `s` stands at position `p`. */
  ghost predicate Here(buf: Bytes, p: nat, s: Bytes) {
    p + |s| <= |buf| && buf[p..p + |s|] == s
  }

  lemma HereConcat(buf: Bytes, p: nat, a: Bytes, b: Bytes)
    ensures Here(buf, p, a + b) <==> Here(buf, p, a) && Here(buf, p + |a|, b)
  {
    if p + |a| + |b| <= |buf| {
      SliceConcat(buf, p, p + |a|, p + |a| + |b|);
      assert (a + b)[..|a|] == a && (a + b)[|a|..] == b;
      assert buf[p..p + |a| + |b|][..|a|] == buf[p..p + |a|];
      assert buf[p..p + |a| + |b|][|a|..] == buf[p + |a|..p + |a| + |b|];
    }
  }

  /** The size byte at a position. */
  function SizeAt(buf: Bytes, p: nat): nat {
    FromBigEndian(Ahead(buf, p, 1))
  }

  /** Reads a size and that many bytes, unless the size is over the limit. */
  method ParseField(u: Unpacker, limit: nat) returns (bytes: Bytes, ok: bool)
    requires u.bp <= |u.buf| + 1
    modifies u
    ensures u.bp <= |u.buf| + 1 && u.bp >= old(u.bp)
    ensures ok <==> SizeAt(u.buf, old(u.bp)) <= limit
    ensures ok ==> |bytes| == SizeAt(u.buf, old(u.bp)) && u.bp == Bumped(old(u.bp), 1 + |bytes|, |u.buf|)
    ensures ok && u.bp <= |u.buf| ==> bytes == Ahead(u.buf, old(u.bp) + 1, |bytes|)
  {
    var size := u.Unpack1();
    if size > limit {
      return [], false;
    }
    bytes := u.UnpackBytes(size);
    ok := true;
  }

  /** A field that stands at a position is what is parsed there, and what is parsed there stands there. */
  lemma FieldParsed(buf: Bytes, p: nat, limit: nat, g: Bytes)
    requires limit < 256
    ensures |g| <= limit && Here(buf, p, Field(g))
       <==> SizeAt(buf, p) == |g| <= limit && p + 1 + |g| <= |buf| && Ahead(buf, p + 1, |g|) == g
  {
    HereConcat(buf, p, BigEndian(|g|, 1), g);
    if p + 1 + |g| <= |buf| {
      assert Ahead(buf, p, 1) == buf[p..p + 1];
      assert Ahead(buf, p + 1, |g|) == buf[p + 1..p + 1 + |g|];
      FromBigEndianRoundTrip(buf[p..p + 1]);
      if |g| <= limit {
        PowersOf256();
        BigEndianRoundTrip(|g|, 1);
      }
    }
  }

  /** Where the fields of a header stand. */
  lemma HeaderHere(buf: Bytes, h: Header)
    ensures
      var p1 := 4 + |Field(h.cipherName)|;
      var p2 := p1 + |Field(h.iv)|;
      var p3 := p2 + |Field(h.emptyBlock)|;
      Here(buf, 0, HeaderBytes(h)) <==>
        && Here(buf, 0, BigEndian(h.plainSize, 4)) && Here(buf, 4, Field(h.cipherName))
        && Here(buf, p1, Field(h.iv)) && Here(buf, p2, Field(h.emptyBlock)) && Here(buf, p3, Field(h.tag))
  {
    var a := BigEndian(h.plainSize, 4);
    var b := a + Field(h.cipherName);
    var c := b + Field(h.iv);
    var d := c + Field(h.emptyBlock);
    HereConcat(buf, 0, d, Field(h.tag));
    HereConcat(buf, 0, c, Field(h.emptyBlock));
    HereConcat(buf, 0, b, Field(h.iv));
    HereConcat(buf, 0, a, Field(h.cipherName));
  }

  /** The layout, byte by byte. */
  lemma LayoutIs(h: Header)
    ensures
      var s := HeaderBytes(h);
      var p1 := 5 + |h.cipherName|;
      var p2 := p1 + 1 + |h.iv|;
      var p3 := p2 + 1 + |h.emptyBlock|;
      && |s| == p3 + 1 + |h.tag|
      && s[..4] == BigEndian(h.plainSize, 4)
      && s[4] == |h.cipherName| % 256 && s[5..p1] == h.cipherName
      && s[p1] == |h.iv| % 256 && s[p1 + 1..p2] == h.iv
      && s[p2] == |h.emptyBlock| % 256 && s[p2 + 1..p3] == h.emptyBlock
      && s[p3] == |h.tag| % 256 && s[p3 + 1..] == h.tag
  {
    hide Field, BigEndian;
    var s := HeaderBytes(h);
    var p1 := 5 + |h.cipherName|;
    var p2 := p1 + 1 + |h.iv|;
    WholeHere(s);
    HeaderHere(s, h);
    FieldIs(s, 4, h.cipherName);
    FieldIs(s, p1, h.iv);
    FieldIs(s, p2, h.emptyBlock);
    FieldIs(s, p2 + 1 + |h.emptyBlock|, h.tag);
  }

  lemma FieldIs(buf: Bytes, p: nat, g: Bytes)
    requires Here(buf, p, Field(g))
    ensures p + 1 + |g| <= |buf| && buf[p] == |g| % 256 && buf[p + 1..p + 1 + |g|] == g
  {
    HereConcat(buf, p, BigEndian(|g|, 1), g);
    assert buf[p..p + 1][0] == BigEndian(|g|, 1)[0] == |g| % 256;
  }

  /** The sizes of the fields can be told from the header. */
  predicate Writable(h: Header) {
    h.plainSize < 0x1_0000_0000 && |h.cipherName| < 256 && |h.iv| < 256 && |h.emptyBlock| < 256 && |h.tag| < 256
  }

  /** No two headers have layouts that begin the same bytes. */
  lemma LayoutInjective(buf: Bytes, f: Header, h: Header)
    requires Writable(f) && Here(buf, 0, HeaderBytes(f)) && Writable(h) && Here(buf, 0, HeaderBytes(h))
    ensures f == h
  {
    hide Here, Field, HeaderBytes, BigEndian, Ahead, FromBigEndian;
    FieldsFound(buf, f);
    FieldsFound(buf, h);
  }

  lemma OnlyLayout(buf: Bytes, h: Header)
    requires Writable(h) && Here(buf, 0, HeaderBytes(h))
    ensures forall f: Header :: Writable(f) && Here(buf, 0, HeaderBytes(f)) ==> f == h
  {
    forall f: Header | Writable(f) && Here(buf, 0, HeaderBytes(f)) ensures f == h {
      LayoutInjective(buf, f, h);
    }
  }

  /** What is found of a header, from its front to its end. */
  lemma FieldsFound(buf: Bytes, h: Header)
    requires Writable(h) && Here(buf, 0, HeaderBytes(h))
    ensures FromBigEndian(Ahead(buf, 0, 4)) == h.plainSize
    ensures SizeAt(buf, 4) == |h.cipherName| && Ahead(buf, 5, |h.cipherName|) == h.cipherName
    ensures
      var p1 := 5 + |h.cipherName|;
      var p2 := p1 + 1 + |h.iv|;
      var p3 := p2 + 1 + |h.emptyBlock|;
      && SizeAt(buf, p1) == |h.iv| && Ahead(buf, p1 + 1, |h.iv|) == h.iv
      && SizeAt(buf, p2) == |h.emptyBlock| && Ahead(buf, p2 + 1, |h.emptyBlock|) == h.emptyBlock
      && SizeAt(buf, p3) == |h.tag| && Ahead(buf, p3 + 1, |h.tag|) == h.tag
  {
    hide Here, Field, Ahead, FromBigEndian;
    var p1 := 5 + |h.cipherName|;
    var p2 := p1 + 1 + |h.iv|;
    HeaderHere(buf, h);
    FieldParsed(buf, 4, 255, h.cipherName);
    FieldParsed(buf, p1, 255, h.iv);
    FieldParsed(buf, p2, 255, h.emptyBlock);
    FieldParsed(buf, p2 + 1 + |h.emptyBlock|, 255, h.tag);
    SizeHere(buf, h.plainSize);
  }

  lemma SizeHere(buf: Bytes, size: nat)
    requires size < 0x1_0000_0000 && |buf| >= 4
    ensures Here(buf, 0, BigEndian(size, 4)) <==> FromBigEndian(Ahead(buf, 0, 4)) == size
  {
    assert Ahead(buf, 0, 4) == buf[0..4];
    FromBigEndianRoundTrip(buf[0..4]);
    PowersOf256();
    BigEndianRoundTrip(size, 4);
  }

  /** What the stages of parsing find, for a header in question. */
  ghost predicate Parses(buf: Bytes, h: Header) {
    var p1 := 5 + |h.cipherName|;
    var p2 := p1 + 1 + |h.iv|;
    var p3 := p2 + 1 + |h.emptyBlock|;
    && h.Acceptable() && p3 + 1 + |h.tag| <= |buf|
    && FromBigEndian(Ahead(buf, 0, 4)) == h.plainSize
    && SizeAt(buf, 4) == |h.cipherName| && Ahead(buf, 5, |h.cipherName|) == h.cipherName
    && SizeAt(buf, p1) == |h.iv| && Ahead(buf, p1 + 1, |h.iv|) == h.iv
    && SizeAt(buf, p2) == |h.emptyBlock| && Ahead(buf, p2 + 1, |h.emptyBlock|) == h.emptyBlock
    && SizeAt(buf, p3) == |h.tag| && Ahead(buf, p3 + 1, |h.tag|) == h.tag
  }

  lemma ParsesHere(buf: Bytes, h: Header)
    ensures Parses(buf, h) <==> h.Acceptable() && Here(buf, 0, HeaderBytes(h))
  {
    hide Here, Field;
    var p1 := 5 + |h.cipherName|;
    var p2 := p1 + 1 + |h.iv|;
    HeaderHere(buf, h);
    FieldParsed(buf, 4, MAX_CIPHER_NAME - 1, h.cipherName);
    FieldParsed(buf, p1, MAX_IV_LENGTH, h.iv);
    FieldParsed(buf, p2, MAX_BLOCK_LENGTH, h.emptyBlock);
    FieldParsed(buf, p2 + 1 + |h.emptyBlock|, MAX_MD_SIZE, h.tag);
    if |buf| >= 4 && h.Acceptable() {
      SizeHere(buf, h.plainSize);
    }
  }

  /** Takes a header apart. It is accepted exactly when it begins with the layout of acceptable fields. */
  method Parse(header: Bytes) returns (h: Header, e: Error)
    ensures e == OK || e.Failure?
    ensures e == OK ==> h.Acceptable() && Here(header, 0, HeaderBytes(h))
    ensures forall f: Header :: f.Acceptable() && Here(header, 0, HeaderBytes(f)) ==> e == OK && h == f
    // What the limits are, for any header whose sizes can be told.
    ensures forall f: Header :: Writable(f) && Here(header, 0, HeaderBytes(f)) ==>
      (e == OK <==> f.plainSize <= 0x100_0000 && |f.cipherName| <= 63 && |f.iv| <= 16 && |f.emptyBlock| <= 32
                    && |f.tag| <= 64)
  {
    hide Ahead, FromBigEndian, BigEndian, Field, HeaderBytes, Here;
    var u := new Unpacker(header);
    h := Header(0, [], [], [], []);
    var size := u.Unpack4();
    forall f: Header | f.Acceptable() && Here(header, 0, HeaderBytes(f)) ensures Parses(header, f) {
      ParsesHere(header, f);
    }
    if size > MAX_BLOCK_SIZE {
      return h, Failure("AEAD record size in header is > 16MB");
    }
    var name, iv, empty, tag, ok;
    name, ok := ParseField(u, MAX_CIPHER_NAME - 1);
    if !ok {
      return h, Failure("Cipher name in header is too large");
    }
    iv, ok := ParseField(u, MAX_IV_LENGTH);
    if !ok {
      return h, Failure("Initialization vector is too large");
    }
    empty, ok := ParseField(u, MAX_BLOCK_LENGTH);
    if !ok {
      return h, Failure("Empty cipher block in header is too large");
    }
    tag, ok := ParseField(u, MAX_MD_SIZE);
    if !ok {
      return h, Failure("Authentication tag is too large");
    }
    if u.bp > |header| {
      return h, Failure("Invalid AEAD header in file");
    }
    h, e := Header(size, name, iv, empty, tag), OK;
    assert Parses(header, h);
    ParsesHere(header, h);
    OnlyLayout(header, h);
  }

  /**
   Opens an encrypted file at its start: reads the header that is there, or writes `initial` to an empty
   file. `keyed` makes the sealing of records from what the header says.
   */
  method OpenEncrypted(file: FileSystemBottom, initial: Header, keyed: Header -> Sealing,
                       writable: bool, truncated: bool, ghost found: Header, ghost plain: Bytes)
    returns (a: AeadFilter?, e: Error)
    requires file.Valid() && file.pos == 0
    requires initial.Acceptable() && keyed(initial).Sound()
    // The file is new, or was closed by this filter.
    requires file.Contents() == [] || (found.Acceptable() && keyed(found).Sound()
      && file.Contents() == Framed(HeaderBytes(found)) + Body(keyed(found), plain, true))
    modifies file, file.store, file.log
    ensures e == OK <==> a != null
    ensures e != OK <==> old(file.Contents()) == [] && !writable
    ensures a != null ==> a.AtRecord() && a.position == 0 && a.next == file
    ensures a != null ==> fresh(a) && fresh(a.log) && a.log.requests == []
    ensures a != null && old(file.Contents()) == [] ==>
      a.plain == [] && !a.ended && a.key == keyed(initial) && a.header == Framed(HeaderBytes(initial))
    ensures a != null && old(file.Contents()) != [] ==>
      && a.plain == plain && a.ended && a.key == keyed(found) && a.header == Framed(HeaderBytes(found))
      && file.Contents() == old(file.Contents())
  {
    hide Framed, Body, Here, Writable, HeaderBytes;
    ghost var next := Low(Bottom(file));
    if file.Contents() != [] {
      HeaderSizes(found);
      FoundHeader(file.Contents(), HeaderBytes(found), Body(keyed(found), plain, true));
    }
    var header;
    header, e := ReadSized(Low(Bottom(file)), MAX_AEAD_HEADER_SIZE, OK);
    if e == OK {
      var h;
      assert Here(header, 0, HeaderBytes(found)) by {
        WholeHere(header);
      }
      h, e := Parse(header);
      a := new AeadFilter.Open(file, keyed(h), |header| + 4, truncated, Framed(HeaderBytes(found)), plain, true);
    } else if e == EOF && writable {
      HeaderSizes(initial);
      header, e := LayOut(initial);
      e := WriteSized(Low(Bottom(file)), header, OK);
      NewFile(keyed(initial), Framed(header));
      a := new AeadFilter.Open(file, keyed(initial), |header| + 4, truncated, Framed(header), [], false);
    } else {
      a, e := null, Failure("AEAD encryption can't read header");
    }
  }

  lemma HeaderSizes(h: Header)
    requires h.Acceptable()
    ensures 8 <= |HeaderBytes(h)| <= MAX_AEAD_HEADER_SIZE
  {
  }

  lemma WholeHere(header: Bytes)
    ensures Here(header, 0, header)
  {
  }

  /** What reading the header of a closed file meets. */
  lemma FoundHeader(contents: Bytes, header: Bytes, body: Bytes)
    requires contents == Framed(header) + body && |header| <= MAX_AEAD_HEADER_SIZE
    ensures |Framed(header)| == 4 + |header| <= |contents|
    ensures FromBigEndian(contents[0..4]) == |header| && contents[4..4 + |header|] == header
  {
    assert contents[0..|Framed(header)|] == Framed(header);
    TakeApart(contents, 0, header);
  }

  /** A header alone is a new encrypted file. */
  lemma NewFile(k: Sealing, framed: Bytes)
    requires k.Sound()
    ensures Overwrite([], 0, framed) == framed + Body(k, [], false)
    ensures 0 % k.plainSize == 0
  {
  }
}
