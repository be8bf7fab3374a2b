/** The `PNG` class of png3.py: the same decoder as png2.py, except that the
    chunk walk of `read_chunks` stops at the first CRC-valid IEND, and that
    `save_rgb` writes a fresh three-chunk file (the stored IHDR, one new IDAT
    with its CRC recomputed, the stored IEND) built from a byte array. */
module Png3 {
  import opened Bytes
  import opened External
  import opened Chunks
  import opened Header
  import opened Pixels
  import opened Unfilter
  import opened Isolation

  /** The file `save_rgb` writes: the signature, the stored IHDR record, an
      IDAT chunk carrying `payload` and the CRC-32 of its type and data, and
      the stored IEND record. */
  function Output(ihdr: seq<byte>, payload: seq<byte>, crc32: seq<byte> -> u32, iend: seq<byte>): (out: seq<byte>)
    requires |payload| < 0x1_0000_0000
    ensures |out| == 8 + |ihdr| + |payload| + 12 + |iend|
    ensures out[..8] == Signature
  {
    Signature + ihdr + Serialize(Chunk(IDAT, payload, crc32(IDAT + payload))) + iend
  }

  class PNG {
    var data: seq<byte>
    var info: string
    var width: u32
    var height: u32
    var bitDepth: byte
    var colorType: byte
    var compress: byte
    var filter: byte
    var interlace: byte
    var img: seq<seq<Pixel>>

    /** The seven header fields, as one value. */
    function Fields(): Ihdr
      reads this
    {
      Ihdr(width, height, bitDepth, colorType, compress, filter, interlace)
    }

    /** Every attribute empty or zero. */
    constructor()
      ensures data == [] && info == [] && img == []
      ensures Fields() == Ihdr(0, 0, 0, 0, 0, 0, 0)
    {
      data, info := [], [];
      width, height := 0, 0;
      bitDepth, colorType, compress, filter, interlace := 0, 0, 0, 0, 0;
      img := [];
    }

    /** `load_file`: `contents` is what reading the file produced, `None`
        when it does not exist. */
    method LoadFile(fileName: string, contents: Option<seq<byte>>)
      modifies this
      ensures contents.Some? ==> data == contents.value && info == fileName
      ensures contents.None? ==> data == old(data) && info == "file not found"
      ensures Fields() == old(Fields()) && img == old(img)
    {
      if contents.Some? {
        data := contents.value;
        info := fileName;
      } else {
        info := "file not found";
      }
    }

    /** `valid_png`: the file starts with the eight signature bytes. */
    function ValidPng(): (r: bool)
      reads this
      ensures r <==> |data| >= 8 && data[..8] == Signature
    {
      HasSignature(data)
    }

    /** `read_header`: the IHDR fields at their fixed offsets. The profile
        check only reports, so the fields are set whatever they hold. */
    method ReadHeader()
      requires |data| >= 29
      modifies this
      ensures data == old(data) && info == old(info) && img == old(img)
      ensures Fields() == HeaderAt(data)
    {
      var pos := 16;
      U32OfBigEndian(data[pos..pos + 4]);
      U32OfBigEndian(data[pos + 4..pos + 8]);
      width := BigEndian(data[pos..pos + 4]);
      height := BigEndian(data[pos + 4..pos + 8]);
      bitDepth := data[pos + 8];
      colorType := data[pos + 9];
      compress := data[pos + 10];
      filter := data[pos + 11];
      interlace := data[pos + 12];
    }

    /** The walk of `read_chunks`: the data of the CRC-valid IDAT records in
        stream order, up to the first CRC-valid IEND. */
    method CollectIdat(z: Zlib) returns (idatData: seq<byte>)
      ensures idatData == IdatUntilIend(Walk(data, FirstChunk), z.crc32)
    {
      var offset: nat := FirstChunk;
      idatData := [];
      ghost var payload := IdatUntilIend(Walk(data, FirstChunk), z.crc32);
      hide Walk, IdatUntilIend, ChunkAt;
      while offset < |data|
        invariant idatData + IdatUntilIend(Walk(data, offset), z.crc32) == payload
        decreases |data| - offset
      {
        var chunkLength := BigEndian(PySlice(data, offset, offset + 4));
        var chunkType := PySlice(data, offset + 4, offset + 8);
        var chunkData := PySlice(data, offset + 8, offset + 8 + chunkLength);
        var crc := BigEndian(PySlice(data, offset + 8 + chunkLength, offset + 12 + chunkLength));
        ghost var next := offset + chunkLength + 12;
        assert SlicesAt(data, offset, chunkLength, chunkType, chunkData, crc);
        hide SlicesAt;
        if z.crc32(chunkType + chunkData) == crc && chunkType == IDAT {
          IdatUntilIendAtIdat(data, offset, z.crc32, chunkLength, chunkType, chunkData, crc);
          ghost var rest := IdatUntilIend(Walk(data, next), z.crc32);
          assert (idatData + chunkData) + rest == idatData + (chunkData + rest);
          idatData := idatData + chunkData;
          assert idatData + IdatUntilIend(Walk(data, next), z.crc32) == payload;
        } else if z.crc32(chunkType + chunkData) == crc && chunkType == IEND {
          IdatUntilIendAtIend(data, offset, z.crc32, chunkLength, chunkType, chunkData, crc);
          assert idatData + [] == idatData;
          assert idatData == payload;
          break;
        } else {
          IdatUntilIendAtOther(data, offset, z.crc32, chunkLength, chunkType, chunkData, crc);
          assert idatData + IdatUntilIend(Walk(data, next), z.crc32) == payload;
        }
        offset := offset + chunkLength + 12;
      }
      if offset >= |data| {
        IdatUntilIendPastEnd(data, offset, z.crc32);
      }
    }

    /** `read_chunks`: the payload collected by the walk, decoded into `img`;
        `height` empty rows when there was none. The walk decodes the type of
        every record whose CRC does not match as ASCII for its report, and the
        decoder needs every row it reads: both are required of the buffer. */
    method ReadChunks(z: Zlib)
      requires CorruptTypesAsciiUntilIend(Walk(data, FirstChunk), z.crc32)
      requires var payload := IdatUntilIend(Walk(data, FirstChunk), z.crc32);
        |payload| > 0 ==> Decodable(z.decompress(payload), width, height)
      modifies this
      ensures data == old(data) && info == old(info) && Fields() == old(Fields())
      ensures img == ImageOf(IdatUntilIend(Walk(data, FirstChunk), z.crc32), z.decompress, width, height)
    {
      var idatData := CollectIdat(z);
      img := seq(height, _ => []);
      if |idatData| > 0 {
        var decompressedData := z.decompress(idatData);
        img := Reconstruct(decompressedData, width, height);
      }
    }

    /** The inner `raw_data` loop of `save_rgb` for row `y`: a triple per
        pixel keeping only channel `rgbOption`, nothing for another option. */
    method ChannelRow(y: nat, rgbOption: int) returns (rowData: seq<byte>)
      requires IsChannel(rgbOption) && width > 0 ==> y < |img| && |img[y]| >= width
      ensures rowData == ChannelBytes(RowOf(img, y), rgbOption, width)
    {
      rowData := [];
      ghost var row := RowOf(img, y);
      for x := 0 to width
        invariant rowData == ChannelBytes(row, rgbOption, x)
      {
        if IsChannel(rgbOption) {
          assert row[x] == img[y][x];
        }
        if rgbOption == 1 {
          rowData := rowData + [img[y][x].r, 0, 0];
        } else if rgbOption == 2 {
          rowData := rowData + [0, img[y][x].g, 0];
        } else if rgbOption == 3 {
          rowData := rowData + [0, 0, img[y][x].b];
        }
      }
    }

    /** The `raw_data` loops of `save_rgb`: a 0 filter byte per row, then the
        row's triples. */
    method IsolatedRecords(rgbOption: int) returns (rawData: seq<byte>)
      requires Readable(img, width, height, rgbOption)
      ensures rawData == Records(img, width, rgbOption, height)
    {
      rawData := [];
      for y := 0 to height
        invariant rawData == Records(img, width, rgbOption, y)
      {
        rawData := rawData + [0];
        var rowData := ChannelRow(y, rgbOption);
        rawData := rawData + rowData;
      }
    }

    /** The walk of `save_rgb`: the last IHDR and the last IEND record in
        the buffer, CRC-checked or not; none when there is no such record. */
    method KeptRecords() returns (ihdrChunk: seq<byte>, iendChunk: seq<byte>)
      ensures ihdrChunk == KeptFrom(Walk(data, FirstChunk), IHDR, [])
      ensures iendChunk == KeptFrom(Walk(data, FirstChunk), IEND, [])
    {
      var offset: nat := FirstChunk;
      ihdrChunk, iendChunk := [], [];
      ghost var ihdrKept := KeptFrom(Walk(data, FirstChunk), IHDR, []);
      ghost var iendKept := KeptFrom(Walk(data, FirstChunk), IEND, []);
      hide Walk, ChunkAt, KeptFrom;
      while offset < |data|
        invariant KeptFrom(Walk(data, offset), IHDR, ihdrChunk) == ihdrKept
        invariant KeptFrom(Walk(data, offset), IEND, iendChunk) == iendKept
        decreases |data| - offset
      {
        var chunkLengthBin := PySlice(data, offset, offset + 4);
        var chunkLength := BigEndian(chunkLengthBin);
        var chunkType := PySlice(data, offset + 4, offset + 8);
        var chunkData := PySlice(data, offset + 8, offset + 8 + chunkLength);
        var crcBin := PySlice(data, offset + 8 + chunkLength, offset + 12 + chunkLength);
        KeptStep(data, offset, IHDR, ihdrChunk, chunkLengthBin, chunkType, chunkData, crcBin);
        KeptStep(data, offset, IEND, iendChunk, chunkLengthBin, chunkType, chunkData, crcBin);
        if chunkType == IHDR {
          TypesDistinct();
          ihdrChunk := chunkLengthBin + chunkType + chunkData + crcBin;
        } else if chunkType == IEND {
          iendChunk := chunkLengthBin + chunkType + chunkData + crcBin;
        }
        offset := offset + chunkLength + 12;
      }
      KeptFromPastEnd(data, offset, IHDR, ihdrChunk);
      KeptFromPastEnd(data, offset, IEND, iendChunk);
    }

    /** `save_rgb`, returning the bytes it writes: the signature, the kept
        IHDR record, one IDAT chunk carrying the compressed records of the
        selected channel with a fresh CRC, and the kept IEND record. Both
        records must exist, or the source fails with a `NameError`. */
    method SaveRgb(z: Zlib, rgbOption: int) returns (out: seq<byte>)
      requires HasType(Walk(data, FirstChunk), IHDR) && HasType(Walk(data, FirstChunk), IEND)
      requires Readable(img, width, height, rgbOption)
      requires |z.compress(Records(img, width, rgbOption, height))| < 0x1_0000_0000
      ensures out == Output(LastOfType(Walk(data, FirstChunk), IHDR).Record(),
                            z.compress(Records(img, width, rgbOption, height)), z.crc32,
                            LastOfType(Walk(data, FirstChunk), IEND).Record())
    {
      var ihdrChunk, iendChunk := KeptRecords();
      KeptFromLast(Walk(data, FirstChunk), IHDR, []);
      KeptFromLast(Walk(data, FirstChunk), IEND, []);
      hide Walk, ChunkAt, KeptFrom;
      var rawData := IsolatedRecords(rgbOption);
      var rgbCompressedIdatData := z.compress(rawData);
      out := Signature + ihdrChunk;
      out := out + U32BE(|rgbCompressedIdatData|) + IDAT + rgbCompressedIdatData;
      out := out + U32BE(z.crc32(IDAT + rgbCompressedIdatData));
      out := out + iendChunk;
    }
  }

  // -----------------------------------------------------------------------
  // Reading back what `save_rgb` writes

  /** When the stored IHDR and IEND records are complete, walking the saved
      file finds exactly those two records around the new IDAT chunk. */
  lemma SavedChunks(ihdr: RawChunk, payload: seq<byte>, crc32: seq<byte> -> u32, iend: RawChunk)
    requires ihdr.Complete() && iend.Complete()
    requires |payload| < 0x1_0000_0000
    ensures var idat := Chunk(IDAT, payload, crc32(IDAT + payload));
      Walk(Output(ihdr.Record(), payload, crc32, iend.Record()), FirstChunk) == [ihdr, Parsed(idat), iend]
  {
    hide Walk, ChunkAt;
    var idat := Chunk(IDAT, payload, crc32(IDAT + payload));
    ParsedRecord(idat);
    var rs := [ihdr, Parsed(idat), iend];
    assert Concat([iend]) == iend.Record() by {
      assert [iend][1..] == [];
    }
    assert Concat([Parsed(idat), iend]) == Serialize(idat) + iend.Record() by {
      assert [Parsed(idat), iend][1..] == [iend];
    }
    assert Concat(rs) == ihdr.Record() + Serialize(idat) + iend.Record() by {
      assert rs[1..] == [Parsed(idat), iend];
    }
    assert Output(ihdr.Record(), payload, crc32, iend.Record()) == Signature + Concat(rs);
    WalkRecords(Signature, rs);
  }

  /** Both versions of `read_chunks` collect exactly the new payload from the
      records of a saved file: the IHDR record is skipped, the new IDAT chunk
      passes its CRC check, and the IEND record adds nothing. */
  lemma SavedPayload(ihdr: RawChunk, payload: seq<byte>, crc32: seq<byte> -> u32, iend: RawChunk)
    requires ihdr.ctype == IHDR && iend.ctype == IEND
    requires |payload| < 0x1_0000_0000
    ensures var rs := [ihdr, Parsed(Chunk(IDAT, payload, crc32(IDAT + payload))), iend];
      IdatUntilIend(rs, crc32) == payload && AllIdat(rs, crc32) == payload
  {
    var p := Parsed(Chunk(IDAT, payload, crc32(IDAT + payload)));
    var rs := [ihdr, p, iend];
    TypesDistinct();
    BigEndianOfU32(crc32(IDAT + payload));
    assert CrcOk(p, crc32) && !IsValidIend(ihdr, crc32) && !IsValidIend(p, crc32);
    assert rs[1..] == [p, iend] && rs[1..][1..] == [iend] && rs[1..][1..][1..] == [];
    assert IdatUntilIend([iend], crc32) == [];
    assert AllIdat([iend], crc32) == [];
    assert IdatUntilIend([p, iend], crc32) == payload;
    assert AllIdat([p, iend], crc32) == payload;
  }

  /** Round trip of the whole tool: with a `zlib` whose `decompress` undoes
      `compress`, reading the file that `save_rgb` wrote (at the same width
      and height) gives back exactly the selected channel of `img`, with the
      other two channels zero. */
  lemma SaveThenRead(ihdr: RawChunk, iend: RawChunk, img: seq<seq<Pixel>>, width: nat, height: nat,
                     option: int, z: Zlib)
    requires ihdr.Complete() && iend.Complete() && ihdr.ctype == IHDR && iend.ctype == IEND
    requires IsChannel(option) && Covers(img, width, height)
    requires var raw := Records(img, width, option, height);
      0 < |z.compress(raw)| < 0x1_0000_0000 && z.decompress(z.compress(raw)) == raw
    ensures var out := Output(ihdr.Record(), z.compress(Records(img, width, option, height)), z.crc32, iend.Record());
      var payload := IdatUntilIend(Walk(out, FirstChunk), z.crc32);
      |payload| > 0 && Decodable(z.decompress(payload), width, height)
      && ImageOf(payload, z.decompress, width, height) == Isolated(img, width, height, option)
  {
    var raw := Records(img, width, option, height);
    SavedChunks(ihdr, z.compress(raw), z.crc32, iend);
    SavedPayload(ihdr, z.compress(raw), z.crc32, iend);
    IsolationRoundTrip(img, width, option, height);
  }

  /** The header leg of the round trip: when the file's first record is its
      only IHDR, complete and 13 bytes long, the saved file gives
      `read_header` the same fields, width and height included. */
  lemma SavedHeader(data: seq<byte>, payload: seq<byte>, crc32: seq<byte> -> u32, iend: seq<byte>)
    requires |payload| < 0x1_0000_0000
    requires var cs := Walk(data, FirstChunk);
      |cs| > 0 && cs[0].ctype == IHDR && cs[0].Complete() && cs[0].Length() == 13 && !HasType(cs[1..], IHDR)
    ensures HasType(Walk(data, FirstChunk), IHDR) && |data| >= 29
    ensures LastOfType(Walk(data, FirstChunk), IHDR) == Walk(data, FirstChunk)[0]
    ensures var out := Output(LastOfType(Walk(data, FirstChunk), IHDR).Record(), payload, crc32, iend);
      |out| >= 29 && HeaderAt(out) == HeaderAt(data)
  {
    hide Walk, ChunkAt, HeaderAt;
    var cs := Walk(data, FirstChunk);
    var c := cs[0];
    var rest := Serialize(Chunk(IDAT, payload, crc32(IDAT + payload))) + iend;
    assert cs == [c] + cs[1..];
    LastOfTypePrepend(c, cs[1..], IHDR);
    assert Output(c.Record(), payload, crc32, iend) == Signature + c.Record() + rest;
    HeaderOfFirstChunk(data);
    HeaderOfRecord(c, rest);
    EncodeIhdrInjective(HeaderAt(Signature + c.Record() + rest), HeaderAt(data));
  }

  /** The whole round trip on a file: `save_rgb` with the dimensions
      `read_header` found, then `read_header` and `read_chunks` on the saved
      file, give back those dimensions and the selected channel of `img`. */
  lemma ReadSavedFile(data: seq<byte>, img: seq<seq<Pixel>>, option: int, z: Zlib)
    requires |data| >= 29
    requires var cs := Walk(data, FirstChunk);
      |cs| > 0 && cs[0].ctype == IHDR && cs[0].Complete() && cs[0].Length() == 13 && !HasType(cs[1..], IHDR)
      && HasType(cs, IEND) && LastOfType(cs, IEND).Complete()
    requires var h := HeaderAt(data);
      IsChannel(option) && Covers(img, h.width, h.height)
      && var raw := Records(img, h.width, option, h.height);
      0 < |z.compress(raw)| < 0x1_0000_0000 && z.decompress(z.compress(raw)) == raw
    ensures var cs, h := Walk(data, FirstChunk), HeaderAt(data);
      var out := Output(LastOfType(cs, IHDR).Record(), z.compress(Records(img, h.width, option, h.height)), z.crc32,
                        LastOfType(cs, IEND).Record());
      var read := IdatUntilIend(Walk(out, FirstChunk), z.crc32);
      |out| >= 29 && HeaderAt(out) == h
      && |read| > 0 && Decodable(z.decompress(read), HeaderAt(out).width, HeaderAt(out).height)
      && ImageOf(read, z.decompress, HeaderAt(out).width, HeaderAt(out).height) == Isolated(img, h.width, h.height, option)
  {
    hide Walk, ChunkAt, HeaderAt, Records, Output, LastOfType, IdatUntilIend, ImageOf, Isolated, Decodable;
    var cs, h := Walk(data, FirstChunk), HeaderAt(data);
    var payload := z.compress(Records(img, h.width, option, h.height));
    SavedHeader(data, payload, z.crc32, LastOfType(cs, IEND).Record());
    SaveThenRead(LastOfType(cs, IHDR), LastOfType(cs, IEND), img, h.width, h.height, option, z);
  }
}
