/** The IHDR fields as `read_header` takes them: width and height as
    big-endian u32 at bytes 16..19 and 20..23 of the file, then five
    single-byte fields at 24..28 (section 4.1.1 of RFC 2083). The offsets are
    fixed: they are right exactly when IHDR is the first chunk. */
module Header {
  import opened Bytes
  import opened Chunks

  datatype Ihdr = Ihdr(width: u32, height: u32, bitDepth: byte, colorType: byte,
                       compress: byte, filter: byte, interlace: byte)

  /** The 13 data bytes of an IHDR chunk. */
  function EncodeIhdr(h: Ihdr): (s: seq<byte>)
    ensures |s| == 13
  {
    U32BE(h.width) + U32BE(h.height) + [h.bitDepth, h.colorType, h.compress, h.filter, h.interlace]
  }

  /** The fields `read_header` assigns, read from bytes 16..28: the IHDR
      data the encoding of the result gives back byte for byte. */
  function HeaderAt(data: seq<byte>): (h: Ihdr)
    requires |data| >= 29
    ensures EncodeIhdr(h) == data[16..29]
    ensures h.width == BigEndian(data[16..20]) && h.height == BigEndian(data[20..24])
    ensures h.bitDepth == data[24] && h.colorType == data[25] && h.compress == data[26]
    ensures h.filter == data[27] && h.interlace == data[28]
  {
    U32OfBigEndian(data[16..20]);
    U32OfBigEndian(data[20..24]);
    Ihdr(BigEndian(data[16..20]), BigEndian(data[20..24]), data[24], data[25], data[26], data[27], data[28])
  }

  /** The one profile the decoder is written for: 8-bit truecolour, no
      interlacing. `read_header` only reports other profiles. */
  predicate Supported(h: Ihdr) {
    h.bitDepth == 8 && h.colorType == 2 && h.compress == 0 && h.filter == 0 && h.interlace == 0
  }

  /** Round trip: a file that starts with the signature and an IHDR chunk
      carrying `h` yields `h` back at the fixed offsets, whatever the CRC and
      whatever follows. */
  lemma HeaderRoundTrip(h: Ihdr, crc: u32, rest: seq<byte>)
    ensures WellFormed(Chunk(IHDR, EncodeIhdr(h), crc))
    ensures |Signature + Serialize(Chunk(IHDR, EncodeIhdr(h), crc)) + rest| >= 29
    ensures HeaderAt(Signature + Serialize(Chunk(IHDR, EncodeIhdr(h), crc)) + rest) == h
  {
    var data := Signature + Serialize(Chunk(IHDR, EncodeIhdr(h), crc)) + rest;
    var body := EncodeIhdr(h);
    assert data[16..29] == body;
    assert data[16..20] == U32BE(h.width);
    assert data[20..24] == U32BE(h.height);
    BigEndianOfU32(h.width);
    BigEndianOfU32(h.height);
  }

  /** Distinct headers have distinct IHDR data, so the data determines the
      header. */
  lemma EncodeIhdrInjective(h: Ihdr, k: Ihdr)
    requires EncodeIhdr(h) == EncodeIhdr(k)
    ensures h == k
  {
    var s, t := EncodeIhdr(h), EncodeIhdr(k);
    assert s[..4] == U32BE(h.width) && t[..4] == U32BE(k.width);
    assert s[4..8] == U32BE(h.height) && t[4..8] == U32BE(k.height);
    BigEndianOfU32(h.width);
    BigEndianOfU32(k.width);
    BigEndianOfU32(h.height);
    BigEndianOfU32(k.height);
    assert s[8..] == t[8..];
  }

  /** The fixed offsets are those of the first walked record's data: when
      that record is complete and 13 bytes long, `read_header` reads exactly
      its data. */
  lemma HeaderOfFirstChunk(data: seq<byte>)
    requires var cs := Walk(data, FirstChunk); |cs| > 0 && cs[0].Complete() && cs[0].Length() == 13
    ensures |data| >= 29 && EncodeIhdr(HeaderAt(data)) == Walk(data, FirstChunk)[0].body
  {
    WalkStep(data, FirstChunk);
    ChunkAtSpan(data, FirstChunk);
    var c := Walk(data, FirstChunk)[0];
    assert c.Record() == data[8..33];
    assert data[16..29] == c.Record()[8..21] == c.body;
  }

  /** A file that starts with the signature and a complete record of 13 data
      bytes gives `read_header` that record's data, whatever follows. */
  lemma HeaderOfRecord(c: RawChunk, rest: seq<byte>)
    requires c.Complete() && c.Length() == 13
    ensures |Signature + c.Record() + rest| >= 29
    ensures EncodeIhdr(HeaderAt(Signature + c.Record() + rest)) == c.body
  {
    var out := Signature + c.Record() + rest;
    assert out[16..29] == c.body;
  }

  /** The profile check of `read_header` looks at bytes 24..28 alone: it
      passes exactly when they are 8, 2, 0, 0, 0, whatever the width and
      height. */
  lemma SupportedBytes(data: seq<byte>)
    requires |data| >= 29
    ensures Supported(HeaderAt(data)) <==> data[24..29] == [8, 2, 0, 0, 0]
  {
    var t := data[24..29];
    assert t[0] == data[24] && t[1] == data[25] && t[2] == data[26] && t[3] == data[27] && t[4] == data[28];
  }
}
