/** The `PNG` class of png2.py. Its `read_chunks` walks the whole buffer and
    collects every CRC-valid IDAT record; its `save_rgb` copies the walked
    records one by one, replacing the data and length of each IDAT record
    with the compressed isolated channel, which it builds as upper-case hex
    text and turns back into bytes with `bytes.fromhex`. */
module Png2 {
  import opened Bytes
  import opened External
  import opened Chunks
  import opened Header
  import opened Pixels
  import opened Unfilter
  import opened Isolation

  // -----------------------------------------------------------------------
  // What `save_rgb` writes

  /** The record `save_rgb` writes for a walked record: an IDAT record gets
      `payload` as its data and `len(payload)` as its length; its CRC bytes
      are the old ones (`newCrc == None`, as written) or the big-endian
      `newCrc` value. Any other record is written verbatim. */
  function Rewrite(c: RawChunk, payload: seq<byte>, newCrc: Option<u32>): (r: RawChunk)
    requires |payload| < 0x1_0000_0000
    ensures c.ctype != IDAT ==> r == c
    ensures c.ctype == IDAT ==> r.ctype == IDAT && r.body == payload && r.Length() == |payload|
    ensures c.ctype == IDAT ==> r.crcBytes == if newCrc.Some? then U32BE(newCrc.value) else c.crcBytes
  {
    BigEndianOfU32(|payload|);
    if c.ctype == IDAT then
      RawChunk(U32BE(|payload|), c.ctype, payload, if newCrc.Some? then U32BE(newCrc.value) else c.crcBytes)
    else c
  }

  /** Every walked record, rewritten in order. */
  function Rewritten(cs: seq<RawChunk>, payload: seq<byte>, newCrc: Option<u32>): (rs: seq<RawChunk>)
    requires |payload| < 0x1_0000_0000
    ensures |rs| == |cs|
  {
    if cs == [] then [] else [Rewrite(cs[0], payload, newCrc)] + Rewritten(cs[1..], payload, newCrc)
  }

  /** The bytes `save_rgb` writes: the signature, then every rewritten record. */
  function Saved(cs: seq<RawChunk>, payload: seq<byte>, newCrc: Option<u32>): (out: seq<byte>)
    requires |payload| < 0x1_0000_0000
    ensures |out| >= 8 && out[..8] == Signature
  {
    Signature + Concat(Rewritten(cs, payload, newCrc))
  }

  /** The CRC bytes a rewritten IDAT record gets: the old ones as written,
      or the CRC-32 of its type and new data when recomputed. */
  function NewCrc(crc32: seq<byte> -> u32, payload: seq<byte>, recompute: bool): (c: Option<u32>)
    ensures recompute <==> c.Some?
    ensures recompute ==> c.value == crc32(IDAT + payload)
  {
    if recompute then Some(crc32(IDAT + payload)) else None
  }

  /** The number of IDAT records, each of which receives the whole image. */
  function IdatCount(cs: seq<RawChunk>): nat
  {
    if cs == [] then 0 else (if cs[0].ctype == IDAT then 1 else 0) + IdatCount(cs[1..])
  }

  /** `k` copies of `s`, one after the other. */
  function Repeat(s: seq<byte>, k: nat): (r: seq<byte>)
    ensures |r| == k * |s|
  {
    if k == 0 then [] else s + Repeat(s, k - 1)
  }

  /** The records of a buffer that the walk reads without clipping any. */
  predicate AllComplete(cs: seq<RawChunk>) {
    forall i :: 0 <= i < |cs| ==> cs[i].Complete()
  }

  /** One iteration of png2's `read_chunks` walk on the slices it takes at
      `offset`: a CRC-valid IDAT record's data moves from the payload still
      to collect to the payload collected. */
  lemma CollectStep(data: seq<byte>, offset: nat, crc32: seq<byte> -> u32,
                    n: nat, t: seq<byte>, d: seq<byte>, crc: nat, acc: seq<byte>)
    requires offset < |data| && SlicesAt(data, offset, n, t, d, crc)
    ensures (acc + if crc32(t + d) == crc && t == IDAT then d else []) + AllIdat(Walk(data, offset + n + 12), crc32)
         == acc + AllIdat(Walk(data, offset), crc32)
  {
    hide Walk, AllIdat, ChunkAt, SlicesAt;
    var rest := AllIdat(Walk(data, offset + n + 12), crc32);
    if crc32(t + d) == crc && t == IDAT {
      AllIdatAtIdat(data, offset, crc32, n, t, d, crc);
      assert (acc + d) + rest == acc + (d + rest);
    } else {
      AllIdatAtOther(data, offset, crc32, n, t, d, crc);
      assert acc + [] == acc;
    }
  }

  /** `lb`, `t`, `d` and `cb` are the four slices `save_rgb` takes of the
      record at `offset`. */
  predicate PartsAt(data: seq<byte>, offset: nat, lb: seq<byte>, t: seq<byte>, d: seq<byte>, cb: seq<byte>) {
    && lb == PySlice(data, offset, offset + 4) && t == PySlice(data, offset + 4, offset + 8)
    && d == PySlice(data, offset + 8, offset + 8 + BigEndian(lb))
    && cb == PySlice(data, offset + 8 + BigEndian(lb), offset + 12 + BigEndian(lb))
  }

  /** Appending the record at `offset` to the list moves it out of the walk
      still to do. */
  lemma ListStep(chunks: seq<RawChunk>, data: seq<byte>, offset: nat,
                 lb: seq<byte>, t: seq<byte>, d: seq<byte>, cb: seq<byte>)
    requires offset < |data| && PartsAt(data, offset, lb, t, d, cb)
    ensures (chunks + [RawChunk(lb, t, d, cb)]) + Walk(data, offset + BigEndian(lb) + 12)
         == chunks + Walk(data, offset)
  {
    hide Walk, ChunkAt;
    ChunkAtParts(data, offset, lb, t, d, cb);
    WalkStep(data, offset);
  }

  /** Two hex digits per byte of one pixel's triple, as the f-strings of the
      inner loop write them. */
  lemma PixelHex(p: Pixel, option: int)
    requires IsChannel(option)
    ensures HexOf(PixelBytes(p, option), true)
         == if option == 1 then ByteHex(p.r, true) + "0000"
            else if option == 2 then "00" + ByteHex(p.g, true) + "00"
            else "0000" + ByteHex(p.b, true)
  {
    var s := PixelBytes(p, option);
    hide HexOf;
    HexOfFront(s, true);
    HexOfFront(s[1..], true);
    HexOfFront(s[1..][1..], true);
    assert s[1..][1..][1..] == [];
    HexOfNil(true);
    assert ByteHex(0, true) == "00";
  }

  lemma HexOfZero()
    ensures HexOf([0], true) == "00"
  {
    assert [0][1..] == [];
  }

  // -----------------------------------------------------------------------
  // The class

  class PNG {
    var data: seq<byte>
    var info: string
    var width: u32
    var height: u32
    var bitDepth: byte
    var colorType: byte
    var compress: byte
    var filter: byte
    var interlace: byte
    var img: seq<seq<Pixel>>

    /** The seven header fields, as one value. */
    function Fields(): Ihdr
      reads this
    {
      Ihdr(width, height, bitDepth, colorType, compress, filter, interlace)
    }

    /** Every attribute empty or zero. */
    constructor()
      ensures data == [] && info == [] && img == []
      ensures Fields() == Ihdr(0, 0, 0, 0, 0, 0, 0)
    {
      data, info := [], [];
      width, height := 0, 0;
      bitDepth, colorType, compress, filter, interlace := 0, 0, 0, 0, 0;
      img := [];
    }

    /** `load_file`: `contents` is what reading the file produced, `None`
        when it does not exist. */
    method LoadFile(fileName: string, contents: Option<seq<byte>>)
      modifies this
      ensures contents.Some? ==> data == contents.value && info == fileName
      ensures contents.None? ==> data == old(data) && info == "file not found"
      ensures Fields() == old(Fields()) && img == old(img)
    {
      if contents.Some? {
        data := contents.value;
        info := fileName;
      } else {
        info := "file not found";
      }
    }

    /** `valid_png`: the file starts with the eight signature bytes. */
    function ValidPng(): (r: bool)
      reads this
      ensures r <==> |data| >= 8 && data[..8] == Signature
    {
      HasSignature(data)
    }

    /** `read_header`: the IHDR fields at their fixed offsets. The profile
        check only reports, so the fields are set whatever they hold. */
    method ReadHeader()
      requires |data| >= 29
      modifies this
      ensures data == old(data) && info == old(info) && img == old(img)
      ensures Fields() == HeaderAt(data)
    {
      var pos := 16;
      U32OfBigEndian(data[pos..pos + 4]);
      U32OfBigEndian(data[pos + 4..pos + 8]);
      width := BigEndian(data[pos..pos + 4]);
      height := BigEndian(data[pos + 4..pos + 8]);
      bitDepth := data[pos + 8];
      colorType := data[pos + 9];
      compress := data[pos + 10];
      filter := data[pos + 11];
      interlace := data[pos + 12];
    }

    /** The walk of `read_chunks`: the data of every CRC-valid IDAT record in
        stream order, over the whole buffer. */
    method CollectIdat(z: Zlib) returns (idatData: seq<byte>)
      ensures idatData == AllIdat(Walk(data, FirstChunk), z.crc32)
    {
      var offset: nat := FirstChunk;
      idatData := [];
      ghost var payload := AllIdat(Walk(data, FirstChunk), z.crc32);
      hide Walk, AllIdat, ChunkAt;
      while offset < |data|
        invariant idatData + AllIdat(Walk(data, offset), z.crc32) == payload
        decreases |data| - offset
      {
        var chunkLength := BigEndian(PySlice(data, offset, offset + 4));
        var chunkType := PySlice(data, offset + 4, offset + 8);
        var chunkData := PySlice(data, offset + 8, offset + 8 + chunkLength);
        var crc := BigEndian(PySlice(data, offset + 8 + chunkLength, offset + 12 + chunkLength));
        assert SlicesAt(data, offset, chunkLength, chunkType, chunkData, crc);
        hide SlicesAt;
        CollectStep(data, offset, z.crc32, chunkLength, chunkType, chunkData, crc, idatData);
        if z.crc32(chunkType + chunkData) == crc {
          if chunkType == IDAT {
            idatData := idatData + chunkData;
          }
        }
        offset := offset + chunkLength + 12;
      }
      AllIdatPastEnd(data, offset, z.crc32);
      assert idatData + [] == idatData;
    }

    /** `read_chunks`: the payload collected by the walk, decoded into `img`;
        `height` empty rows when there was none. The walk decodes the type of
        every record whose CRC does not match as ASCII for its report, and the
        decoder needs every row it reads: both are required of the buffer. */
    method ReadChunks(z: Zlib)
      requires CorruptTypesAscii(Walk(data, FirstChunk), z.crc32)
      requires var payload := AllIdat(Walk(data, FirstChunk), z.crc32);
        |payload| > 0 ==> Decodable(z.decompress(payload), width, height)
      modifies this
      ensures data == old(data) && info == old(info) && Fields() == old(Fields())
      ensures img == ImageOf(AllIdat(Walk(data, FirstChunk), z.crc32), z.decompress, width, height)
    {
      var idatData := CollectIdat(z);
      img := seq(height, _ => []);
      if |idatData| > 0 {
        var decompressedData := z.decompress(idatData);
        img := Reconstruct(decompressedData, width, height);
      }
    }

    /** The inner `raw_data_str` loop of `save_rgb` for row `y`: six hex
        digits per pixel keeping only channel `rgbOption`, nothing for
        another option. */
    method ChannelHex(y: nat, rgbOption: int) returns (text: string)
      requires IsChannel(rgbOption) && width > 0 ==> y < |img| && |img[y]| >= width
      ensures text == HexOf(ChannelBytes(RowOf(img, y), rgbOption, width), true)
    {
      text := [];
      ghost var row := RowOf(img, y);
      hide HexOf, ChannelBytes;
      ChannelBytesNone(row, rgbOption);
      HexOfNil(true);
      for x := 0 to width
        invariant text == HexOf(ChannelBytes(row, rgbOption, x), true)
      {
        ChannelBytesStep(row, rgbOption, x);
        if IsChannel(rgbOption) {
          assert row[x] == img[y][x];
          PixelHex(row[x], rgbOption);
          HexOfAppend(ChannelBytes(row, rgbOption, x), PixelBytes(row[x], rgbOption), true);
        } else {
          assert ChannelBytes(row, rgbOption, x) + [] == ChannelBytes(row, rgbOption, x);
        }
        if rgbOption == 1 {
          text := text + (ByteHex(img[y][x].r, true) + "0000");
        } else if rgbOption == 2 {
          text := text + ("00" + ByteHex(img[y][x].g, true) + "00");
        } else if rgbOption == 3 {
          text := text + ("0000" + ByteHex(img[y][x].b, true));
        }
      }
    }

    /** The `raw_data_str` loops of `save_rgb`: `'00'` per row, then the
        row's hex digits; the hex spelling of the isolated records. */
    method RawDataStr(rgbOption: int) returns (rawDataStr: string)
      requires Readable(img, width, height, rgbOption)
      ensures rawDataStr == HexOf(Records(img, width, rgbOption, height), true)
    {
      rawDataStr := [];
      hide HexOf, Records;
      RecordsNone(img, width, rgbOption);
      HexOfNil(true);
      for y := 0 to height
        invariant rawDataStr == HexOf(Records(img, width, rgbOption, y), true)
      {
        RecordsStep(img, width, rgbOption, y + 1);
        var front := Records(img, width, rgbOption, y);
        var cb := ChannelBytes(RowOf(img, y), rgbOption, width);
        HexOfAppend(front, [0], true);
        HexOfAppend(front + [0], cb, true);
        HexOfZero();
        rawDataStr := rawDataStr + "00";
        var rowHex := ChannelHex(y, rgbOption);
        rawDataStr := rawDataStr + rowHex;
      }
    }

    /** `zlib.compress(bytes.fromhex(raw_data_str))`: the compressed records. */
    method IdatPayload(z: Zlib, rgbOption: int) returns (rgbCompressedIdatData: seq<byte>)
      requires Readable(img, width, height, rgbOption)
      ensures rgbCompressedIdatData == z.compress(Records(img, width, rgbOption, height))
    {
      var rawDataStr := RawDataStr(rgbOption);
      FromHexOfHex(Records(img, width, rgbOption, height), true);
      var rgbDecompressedIdatData := FromHex(rawDataStr);
      rgbCompressedIdatData := z.compress(rgbDecompressedIdatData);
    }

    /** The first loop of `save_rgb`: the list of the four slices of every
        record the walk visits, CRC-checked or not. */
    method ChunkList() returns (chunks: seq<RawChunk>)
      ensures chunks == Walk(data, FirstChunk)
    {
      var offset: nat := FirstChunk;
      chunks := [];
      hide Walk, ChunkAt;
      while offset < |data|
        invariant chunks + Walk(data, offset) == Walk(data, FirstChunk)
        decreases |data| - offset
      {
        var chunkLengthBin := PySlice(data, offset, offset + 4);
        var chunkLength := BigEndian(chunkLengthBin);
        var chunkType := PySlice(data, offset + 4, offset + 8);
        var chunkData := PySlice(data, offset + 8, offset + 8 + chunkLength);
        var crcBin := PySlice(data, offset + 8 + chunkLength, offset + 12 + chunkLength);
        assert PartsAt(data, offset, chunkLengthBin, chunkType, chunkData, crcBin);
        hide PartsAt;
        ListStep(chunks, data, offset, chunkLengthBin, chunkType, chunkData, crcBin);
        chunks := chunks + [RawChunk(chunkLengthBin, chunkType, chunkData, crcBin)];
        offset := offset + chunkLength + 12;
      }
      WalkPastEnd(data, offset);
      assert chunks + [] == chunks;
    }

    /** The compressed isolated records every IDAT record receives. */
    function NewPayload(z: Zlib, rgbOption: int): seq<byte>
      reads this
      requires Readable(img, width, height, rgbOption)
    {
      z.compress(Records(img, width, rgbOption, height))
    }

    /** One pass of the second loop of `save_rgb`: an IDAT record is written
        with the compressed records of the selected channel as its data and
        their length, and either its old CRC bytes (as written) or, when
        `recompute`, the CRC-32 of its type and new data; any other record is
        written verbatim. */
    method WriteRecord(z: Zlib, rgbOption: int, chunk: RawChunk, recompute: bool) returns (record: seq<byte>)
      requires chunk.ctype == IDAT
               ==> Readable(img, width, height, rgbOption) && |NewPayload(z, rgbOption)| < 0x1_0000_0000
      ensures chunk.ctype != IDAT ==> record == chunk.Record()
      ensures chunk.ctype == IDAT ==>
                var payload := NewPayload(z, rgbOption);
                record == Rewrite(chunk, payload, NewCrc(z.crc32, payload, recompute)).Record()
    {
      if chunk.ctype == IDAT {
        var rgbCompressedIdatData := IdatPayload(z, rgbOption);
        var crcBytes := if recompute then U32BE(z.crc32(chunk.ctype + rgbCompressedIdatData)) else chunk.crcBytes;
        record := U32BE(|rgbCompressedIdatData|) + chunk.ctype + rgbCompressedIdatData + crcBytes;
      } else {
        record := chunk.lengthBytes + chunk.ctype + chunk.body + chunk.crcBytes;
      }
    }

    /** The second loop of `save_rgb` over the walked records, after the
        signature. `payload` and `newCrc` name what every IDAT record
        receives; they are what `WriteRecord` computes whenever there is an
        IDAT record. */
    method WriteRecords(z: Zlib, rgbOption: int, chunks: seq<RawChunk>, recompute: bool,
                        ghost payload: seq<byte>, ghost newCrc: Option<u32>) returns (out: seq<byte>)
      requires |payload| < 0x1_0000_0000
      requires HasType(chunks, IDAT)
               ==> Readable(img, width, height, rgbOption) && payload == NewPayload(z, rgbOption)
                   && newCrc == NewCrc(z.crc32, payload, recompute)
      ensures out == Saved(chunks, payload, newCrc)
    {
      ghost var total := Concat(Rewritten(chunks, payload, newCrc));
      hide Concat, Rewritten, HasType, NewPayload, NewCrc, Readable, Records, Rewrite;
      out := Signature;
      for i := 0 to |chunks|
        invariant out + Concat(Rewritten(chunks[i..], payload, newCrc)) == Signature + total
      {
        var chunk := chunks[i];
        if chunk.ctype == IDAT {
          HasTypeAt(chunks, i, IDAT);
        }
        var record := WriteRecord(z, rgbOption, chunk, recompute);
        assert record == Rewrite(chunk, payload, newCrc).Record();
        SavedStep(out, chunks, i, payload, newCrc);
        out := out + record;
      }
      assert chunks[|chunks|..] == [];
      RewrittenNil(payload, newCrc);
      ConcatNil();
      assert out == Signature + total;
    }

    /** `save_rgb`, returning the bytes it writes: the signature, then every
        walked record, where each IDAT record carries the compressed records
        of the selected channel, their length, and its OLD CRC bytes. The
        image must be readable and the payload short enough for
        `to_bytes(4, 'big')` only when there is an IDAT record to rewrite. */
    method SaveRgb(z: Zlib, rgbOption: int) returns (out: seq<byte>)
      requires HasType(Walk(data, FirstChunk), IDAT)
               ==> Readable(img, width, height, rgbOption)
                   && |z.compress(Records(img, width, rgbOption, height))| < 0x1_0000_0000
      ensures HasType(Walk(data, FirstChunk), IDAT)
              ==> out == Saved(Walk(data, FirstChunk), z.compress(Records(img, width, rgbOption, height)), None)
      ensures !HasType(Walk(data, FirstChunk), IDAT) ==> out == Saved(Walk(data, FirstChunk), [], None)
    {
      var chunks := ChunkList();
      ghost var payload := if HasType(chunks, IDAT) then NewPayload(z, rgbOption) else [];
      out := WriteRecords(z, rgbOption, chunks, false, payload, None);
    }

    /** `save_rgb` with the CRC of each rewritten IDAT record recomputed over
        its type and new data, as png3.py does. */
    method SaveRgbFreshCrc(z: Zlib, rgbOption: int) returns (out: seq<byte>)
      requires HasType(Walk(data, FirstChunk), IDAT)
               ==> Readable(img, width, height, rgbOption)
                   && |z.compress(Records(img, width, rgbOption, height))| < 0x1_0000_0000
      ensures HasType(Walk(data, FirstChunk), IDAT)
              ==> var payload := z.compress(Records(img, width, rgbOption, height));
                  out == Saved(Walk(data, FirstChunk), payload, Some(z.crc32(IDAT + payload)))
      ensures !HasType(Walk(data, FirstChunk), IDAT) ==> out == Saved(Walk(data, FirstChunk), [], None)
    {
      var chunks := ChunkList();
      ghost var has := HasType(chunks, IDAT);
      ghost var payload := if has then NewPayload(z, rgbOption) else [];
      ghost var newCrc := if has then Some(z.crc32(IDAT + payload)) else None;
      out := WriteRecords(z, rgbOption, chunks, true, payload, newCrc);
    }
  }

  // -----------------------------------------------------------------------
  // Properties of the rewrite

  lemma RewrittenCons(c: RawChunk, rest: seq<RawChunk>, payload: seq<byte>, newCrc: Option<u32>)
    requires |payload| < 0x1_0000_0000
    ensures Rewritten([c] + rest, payload, newCrc) == [Rewrite(c, payload, newCrc)] + Rewritten(rest, payload, newCrc)
  {
    HeadTail(c, rest);
  }

  /** Writing record `i` moves it from the records still to write to the
      bytes written. */
  lemma SavedStep(out: seq<byte>, cs: seq<RawChunk>, i: nat, payload: seq<byte>, newCrc: Option<u32>)
    requires i < |cs| && |payload| < 0x1_0000_0000
    ensures (out + Rewrite(cs[i], payload, newCrc).Record()) + Concat(Rewritten(cs[i + 1..], payload, newCrc))
         == out + Concat(Rewritten(cs[i..], payload, newCrc))
  {
    hide Concat, Rewritten, Rewrite;
    assert cs[i..] == [cs[i]] + cs[i + 1..];
    RewrittenCons(cs[i], cs[i + 1..], payload, newCrc);
    ConcatCons(Rewrite(cs[i], payload, newCrc), Rewritten(cs[i + 1..], payload, newCrc));
  }

  lemma RewrittenNil(payload: seq<byte>, newCrc: Option<u32>)
    requires |payload| < 0x1_0000_0000
    ensures Rewritten([], payload, newCrc) == []
  {
  }

  lemma ConcatNil()
    ensures Concat([]) == []
  {
  }

  /** Records without IDAT pass through unchanged, whatever the payload. */
  lemma {:induction false} NoIdatUnchanged(cs: seq<RawChunk>, payload: seq<byte>, newCrc: Option<u32>)
    requires |payload| < 0x1_0000_0000
    requires !HasType(cs, IDAT)
    ensures Rewritten(cs, payload, newCrc) == cs
  {
    if cs != [] {
      assert cs == [cs[0]] + cs[1..];
      HasTypePrepend(cs[0], cs[1..], IDAT);
      NoIdatUnchanged(cs[1..], payload, newCrc);
    }
  }

  /** Every rewritten record is complete when the walked ones are: the new
      length field matches the new data. */
  lemma {:induction false} RewrittenComplete(cs: seq<RawChunk>, payload: seq<byte>, newCrc: Option<u32>)
    requires |payload| < 0x1_0000_0000 && AllComplete(cs)
    ensures AllComplete(Rewritten(cs, payload, newCrc))
  {
    if cs != [] {
      RewrittenComplete(cs[1..], payload, newCrc);
      var rs := Rewritten(cs, payload, newCrc);
      assert rs[0] == Rewrite(cs[0], payload, newCrc);
      forall i | 1 <= i < |rs| ensures rs[i].Complete() {
        assert rs[i] == Rewritten(cs[1..], payload, newCrc)[i - 1];
      }
    }
  }

  /** Reading the saved file walks exactly the rewritten records. */
  lemma WalkSaved(cs: seq<RawChunk>, payload: seq<byte>, newCrc: Option<u32>)
    requires |payload| < 0x1_0000_0000 && AllComplete(cs)
    ensures Walk(Saved(cs, payload, newCrc), FirstChunk) == Rewritten(cs, payload, newCrc)
  {
    RewrittenComplete(cs, payload, newCrc);
    WalkRecords(Signature, Rewritten(cs, payload, newCrc));
  }

  /** A file without IDAT records is written back byte for byte. */
  lemma SavedWithoutIdat(data: seq<byte>, payload: seq<byte>, newCrc: Option<u32>)
    requires |payload| < 0x1_0000_0000
    requires HasSignature(data) && !HasType(Walk(data, FirstChunk), IDAT)
    ensures Saved(Walk(data, FirstChunk), payload, newCrc) == data
  {
    NoIdatUnchanged(Walk(data, FirstChunk), payload, newCrc);
    WalkCovers(data, FirstChunk);
    assert data == data[..8] + data[8..];
  }

  /** No IDAT record's stored CRC is the CRC-32 of `IDAT` and `payload`. */
  predicate StaleCrcs(cs: seq<RawChunk>, payload: seq<byte>, crc32: seq<byte> -> u32) {
    forall i :: 0 <= i < |cs| && cs[i].ctype == IDAT ==> BigEndian(cs[i].crcBytes) != crc32(IDAT + payload)
  }

  /** As written: when no rewritten IDAT record's old CRC happens to be the
      CRC-32 of `IDAT` and the new data, png2's `read_chunks` finds no valid
      IDAT data at all in the records `save_rgb` wrote. */
  lemma {:induction false} StaleCrcLosesPayload(cs: seq<RawChunk>, payload: seq<byte>, crc32: seq<byte> -> u32)
    requires |payload| < 0x1_0000_0000
    requires StaleCrcs(cs, payload, crc32)
    ensures AllIdat(Rewritten(cs, payload, None), crc32) == []
  {
    if cs != [] {
      var rs := Rewritten(cs, payload, None);
      assert rs[1..] == Rewritten(cs[1..], payload, None);
      forall i | 0 <= i < |cs[1..]| && cs[1..][i].ctype == IDAT
        ensures BigEndian(cs[1..][i].crcBytes) != crc32(IDAT + payload)
      {
        assert cs[1..][i] == cs[i + 1];
      }
      StaleCrcLosesPayload(cs[1..], payload, crc32);
    }
  }

  /** Corrected: with the CRC recomputed, every IDAT record passes the check
      and contributes the whole new payload. */
  lemma {:induction false} FreshCrcKeepsPayload(cs: seq<RawChunk>, payload: seq<byte>, crc32: seq<byte> -> u32)
    requires |payload| < 0x1_0000_0000
    ensures AllIdat(Rewritten(cs, payload, Some(crc32(IDAT + payload))), crc32) == Repeat(payload, IdatCount(cs))
  {
    if cs != [] {
      var newCrc := Some(crc32(IDAT + payload));
      var rs := Rewritten(cs, payload, newCrc);
      assert rs[1..] == Rewritten(cs[1..], payload, newCrc);
      FreshCrcKeepsPayload(cs[1..], payload, crc32);
      if cs[0].ctype == IDAT {
        BigEndianOfU32(crc32(IDAT + payload));
        assert CrcOk(rs[0], crc32);
      }
    }
  }

  /** Finding, as written: for a well-formed file, re-reading what
      `save_rgb` wrote yields no image data unless an old CRC happens to
      match, so `read_chunks` leaves every row empty. */
  lemma StaleCrcDropsImage(data: seq<byte>, payload: seq<byte>, z: Zlib, width: nat, height: nat)
    requires |payload| < 0x1_0000_0000
    requires AllComplete(Walk(data, FirstChunk))
    requires StaleCrcs(Walk(data, FirstChunk), payload, z.crc32)
    ensures var out := Saved(Walk(data, FirstChunk), payload, None);
      AllIdat(Walk(out, FirstChunk), z.crc32) == []
      && forall y :: 0 <= y < height ==> ImageOf(AllIdat(Walk(out, FirstChunk), z.crc32), z.decompress, width, height)[y] == []
  {
    WalkSaved(Walk(data, FirstChunk), payload, None);
    StaleCrcLosesPayload(Walk(data, FirstChunk), payload, z.crc32);
  }

  /** Finding, corrected: for a well-formed file with one IDAT record and a
      `zlib` whose `decompress` undoes `compress`, re-reading what the
      corrected `save_rgb` wrote gives back exactly the selected channel of
      `img`, with the other two channels zero. */
  lemma FreshCrcRoundTrip(data: seq<byte>, img: seq<seq<Pixel>>, width: nat, height: nat, option: int, z: Zlib)
    requires AllComplete(Walk(data, FirstChunk)) && IdatCount(Walk(data, FirstChunk)) == 1
    requires IsChannel(option) && Covers(img, width, height)
    requires var raw := Records(img, width, option, height);
      0 < |z.compress(raw)| < 0x1_0000_0000 && z.decompress(z.compress(raw)) == raw
    ensures var payload := z.compress(Records(img, width, option, height));
      var out := Saved(Walk(data, FirstChunk), payload, Some(z.crc32(IDAT + payload)));
      var read := AllIdat(Walk(out, FirstChunk), z.crc32);
      read == payload && Decodable(z.decompress(read), width, height)
      && ImageOf(read, z.decompress, width, height) == Isolated(img, width, height, option)
  {
    var payload := z.compress(Records(img, width, option, height));
    var newCrc := Some(z.crc32(IDAT + payload));
    WalkSaved(Walk(data, FirstChunk), payload, newCrc);
    FreshCrcKeepsPayload(Walk(data, FirstChunk), payload, z.crc32);
    assert Repeat(payload, 1) == payload + [];
    IsolationRoundTrip(img, width, option, height);
  }

  /** The header leg of the round trip: when the file's first record is a
      complete IHDR of 13 bytes, the saved file gives `read_header` the same
      fields, width and height included, whatever the payload and CRC. */
  lemma SavedHeader(data: seq<byte>, payload: seq<byte>, newCrc: Option<u32>)
    requires |payload| < 0x1_0000_0000
    requires var cs := Walk(data, FirstChunk);
      |cs| > 0 && cs[0].ctype == IHDR && cs[0].Complete() && cs[0].Length() == 13
    ensures |data| >= 29
    ensures var out := Saved(Walk(data, FirstChunk), payload, newCrc);
      |out| >= 29 && HeaderAt(out) == HeaderAt(data)
  {
    hide Walk, ChunkAt, Rewritten, Concat, Rewrite, HeaderAt;
    var cs := Walk(data, FirstChunk);
    var c := cs[0];
    var rest := Concat(Rewritten(cs[1..], payload, newCrc));
    assert cs == [c] + cs[1..];
    TypesDistinct();
    RewrittenCons(c, cs[1..], payload, newCrc);
    ConcatCons(c, Rewritten(cs[1..], payload, newCrc));
    assert Saved(cs, payload, newCrc) == Signature + c.Record() + rest;
    HeaderOfFirstChunk(data);
    HeaderOfRecord(c, rest);
    EncodeIhdrInjective(HeaderAt(Signature + c.Record() + rest), HeaderAt(data));
  }

  /** The whole corrected round trip on a file: `save_rgb` with a fresh CRC
      and the dimensions `read_header` found, then `read_header` and
      `read_chunks` on the saved file, give back those dimensions and the
      selected channel of `img`. */
  lemma ReadSavedFile(data: seq<byte>, img: seq<seq<Pixel>>, option: int, z: Zlib)
    requires |data| >= 29
    requires var cs := Walk(data, FirstChunk);
      |cs| > 0 && cs[0].ctype == IHDR && cs[0].Length() == 13 && AllComplete(cs) && IdatCount(cs) == 1
    requires var h := HeaderAt(data);
      IsChannel(option) && Covers(img, h.width, h.height)
      && var raw := Records(img, h.width, option, h.height);
      0 < |z.compress(raw)| < 0x1_0000_0000 && z.decompress(z.compress(raw)) == raw
    ensures var h := HeaderAt(data);
      var payload := z.compress(Records(img, h.width, option, h.height));
      var out := Saved(Walk(data, FirstChunk), payload, Some(z.crc32(IDAT + payload)));
      var read := AllIdat(Walk(out, FirstChunk), z.crc32);
      |out| >= 29 && HeaderAt(out) == h
      && read == payload && Decodable(z.decompress(read), HeaderAt(out).width, HeaderAt(out).height)
      && ImageOf(read, z.decompress, HeaderAt(out).width, HeaderAt(out).height) == Isolated(img, h.width, h.height, option)
  {
    hide Walk, ChunkAt, HeaderAt, Records, Saved, AllIdat, ImageOf, Isolated, Decodable, IdatCount;
    var cs, h := Walk(data, FirstChunk), HeaderAt(data);
    var payload := z.compress(Records(img, h.width, option, h.height));
    assert cs[0].Complete();
    SavedHeader(data, payload, Some(z.crc32(IDAT + payload)));
    FreshCrcRoundTrip(data, img, h.width, h.height, option, z);
  }
}
