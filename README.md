# PNG channel isolator, modelled in Dafny

The Python program reads an 8-bit RGB, non-interlaced PNG file and decodes
it into `img`, a list of rows of `[R, G, B]` pixels. It can then write a new
PNG file that keeps one colour channel and sets the other two to zero. Two
versions of the same `PNG` class exist:

- `png2.py` walks every chunk and collects every CRC-valid IDAT chunk. Its
  `save_rgb` copies each walked chunk. It gives every IDAT chunk the whole
  isolated image, built as upper-case hex text and read back with
  `bytes.fromhex`.
- `png3.py` stops the walk at the first CRC-valid IEND. Its `save_rgb` writes
  three chunks: the stored IHDR, one new IDAT with a fresh CRC, and the
  stored IEND.

Decoding is the same in both versions. Each scanline is `1 + 3 * width`
bytes. Its first byte selects one of the five filters of sections 6.2 to
6.6 of RFC 2083 (None, Sub, Up, Average, Paeth). Reconstruction works on
bytes modulo 256, with 3 bytes per pixel.

Modules:

- `Bytes` (bytes.dfy): bytes, big-endian words, Python's clipping slice,
  and hex text.
- `External` (external.dfy): `zlib` as a record of three function values,
  plus `Option`.
- `Chunks` (chunks.dfy): the signature, the chunk walk, the IDAT payload of
  each version, records by type, and chunk serialisation.
- `Header` (header.dfy): the IHDR fields.
- `Pixels` (pixels.dfy): pixels and the Paeth predictor.
- `Unfilter` (unfilter.dfy): the decoding specification and the imperative
  per-filter loops that are proved against it.
- `Isolation` (isolation.dfy): the records that `save_rgb` builds for one
  channel, and their round trip through the decoder.
- `Png2` (png2.dfy) and `Png3` (png3.dfy): one `PNG` class per source file.
  The class has the source's attributes as fields and the source's methods
  as methods.

`zlib.crc32`, `zlib.compress` and `zlib.decompress` are parameters.

The round trip of `save_rgb` then `read_chunks` (`Png3.SaveThenRead` and
`Png2.FreshCrcRoundTrip`) is stated for a given `width` and `height`, the
dimensions `save_rgb` used. It assumes:

- `decompress` undoes `compress` on the isolated records;
- the compressed records are non-empty and shorter than 2^32 bytes;
- `rgb_option` is 1, 2 or 3, and `img` has at least `height` rows of at
  least `width` pixels;
- for png3.py, the kept IHDR and IEND records are complete and have those
  types;
- for png2.py, every walked record is complete and exactly one of them is an
  IDAT record.

The header leg is `Png3.SavedHeader` and `Png2.SavedHeader`: `read_header`
reads the same fields, width and height included, from the saved file as
from the original. This holds when the original's first record is a complete
13-byte IHDR, and for png3.py when that record is the only IHDR.
`Png3.ReadSavedFile` and `Png2.ReadSavedFile` chain the two legs. They take
the dimensions from `read_header` of the original, and show that
`read_header` and `read_chunks` on the saved file give back those
dimensions and the isolated image.

Each loop of the model is proved with small lemmas for one step of the loop
(`Chunks.WalkStep`, `Chunks.AllIdatStep`, `Unfilter.DecodePrefixStep`,
`Png2.CollectStep` and others like them). They connect an iteration to the
specification function and are not listed below.

## Model

| member | source | states |
|---|---|---|
| Bytes.BigEndianOfU32 | png3.py:217 | reading back the four bytes `to_bytes(4, 'big')` wrote gives the original length |
| Bytes.U32OfBigEndian | png2.py:256-257 | a four-byte length field is below 2^32, and writing its value out again reproduces its bytes |
| Bytes.PySlice | png3.py:65-68 | a slice is clipped at the end of the buffer: it is exact when it fits, the tail when it overhangs, empty past the end, with the clipped length |
| Bytes.HexOfAppend | png2.py:278-300 | building hex text piece by piece equals the hex text of the concatenated bytes |
| Bytes.HexOfIsHexText | png2.py:300-302 | the text the loops build is made of hex digit pairs only, so `bytes.fromhex` accepts it |
| Bytes.FromHexOfHex | png2.py:302 | `bytes.fromhex` accepts the text that either hex spelling produces and gives back exactly the original bytes |
| Bytes.HexOfInjective | png3.py:41 | different byte strings have different hex text |
| Chunks.SignatureTextIsHex | png3.py:41 | the literal that `valid_png` compares against is the lower-case hex text of the 8 signature bytes |
| Chunks.SignatureCheck | png2.py:47-52 | the hex-text comparison holds exactly when the buffer is at least 8 bytes long and starts with the signature |
| Chunks.ChunkAtSpan | png3.py:64-80 | the record at an offset is the slice of `length + 12` bytes there, and it is complete exactly when that slice fits in the buffer |
| Chunks.WalkCovers | png2.py:255-265 | the walked records, concatenated, are exactly the buffer after the signature: no byte is skipped or read twice |
| Chunks.AllIdatAppend | png2.py:96 | png2's payload over two runs of records is the two payloads concatenated |
| Chunks.CorruptChunkSkipped | png2.py:98-104 | a record with a bad CRC contributes nothing and does not stop the walk |
| Chunks.IdatUntilIendAppend | png3.py:73-74 | png3's walk over `a + b` ends inside `a` when `a` holds a CRC-valid IEND, and otherwise takes png2's payload of `a` and continues into `b` |
| Chunks.IdatUntilIendIsPrefix | png3.py:73-74 | png3's payload is a prefix of png2's over the same records, and the two are equal when there is no CRC-valid IEND |
| Chunks.KeptFromLast | png3.py:185-190 | the walk ends holding the last record of the type, or its starting value when there is none |
| Chunks.LastOfType | png3.py:185-190 | the chosen record has the type, occurs in the walk, and no later record has that type |
| Chunks.LastOfTypePrepend | png3.py:185-190 | with a record in front, the last record of a type is found in the rest when the rest has one, and is the front record otherwise |
| Chunks.ChunkAtRecord | png3.py:65-68 | a complete record is read back field for field, and it spans `length + 12` bytes |
| Chunks.WalkRecords | png2.py:255-265 | walking a buffer made of complete records recovers exactly those records |
| Chunks.WalkSerialized | png3.py:64-80 | after any 8 leading bytes, the walk reads back a serialised chunk sequence chunk by chunk |
| Chunks.AllIdatSerialized | png2.py:93-96 | png2's payload over a serialised stream is the data of each IDAT chunk whose CRC matches, in order |
| Header.HeaderAt | png3.py:45-52 | the fields read at the fixed offsets are the IHDR data there: encoding them gives back bytes 16 to 28 of the file exactly |
| Header.EncodeIhdrInjective | png3.py:45-52 | the 13 IHDR data bytes determine the seven fields: two headers with the same encoding are equal |
| Header.HeaderOfFirstChunk | png3.py:45-52 | the fixed offsets are those of the first record's data: when the first walked record is complete and 13 bytes long, the fields read are that record's data |
| Header.HeaderOfRecord | png3.py:45-52 | a file that starts with the signature and a complete 13-byte record gives `read_header` that record's data, whatever follows |
| Header.SupportedBytes | png3.py:54-56 | the profile check passes exactly when bytes 24 to 28 are 8, 2, 0, 0, 0 |
| Header.HeaderRoundTrip | png2.py:55-69 | for a file that starts with the signature and an IHDR chunk, the fixed offsets give back that chunk's fields, whatever the CRC and whatever follows |
| Pixels.PaethPredictor | png2.py:226-247 | the predictor returns one of a, b and c |
| Pixels.PaethNearestFirst | png3.py:85-96 | the predictor picks a neighbour nearest to `a + b - c`, and breaks ties in the order a, b, c |
| Unfilter.DecodeRowsPrefix | png3.py:102 | rows are rebuilt in increasing `y`: decoding more rows never changes the rows already decoded |
| Unfilter.DecodedRow | png3.py:102-106 | row `y` is record `y` decoded against row `y - 1`, with all zeros above row 0 |
| Unfilter.DecodedShape | png3.py:166-168 | the image has `height` rows; a row has `width` pixels for filter bytes 0 to 4 and stays empty for any other |
| Unfilter.DecodePrefixPrefix | png3.py:119 | pixels are rebuilt left to right: decoding more pixels never changes those already decoded |
| Unfilter.DecodedPixel | png3.py:98-165 | every pixel of a known-filter row is its filtered bytes plus the filter's prediction from its left, upper and upper-left neighbours, modulo 256 |
| Unfilter.FilteredChannel | png3.py:106 | channel `i` of pixel `x` is byte `1 + scanline * y + 3x + i` of the payload |
| Unfilter.FilterNoneVerbatim | png3.py:109-111 | filter 0: each channel is the filtered byte itself |
| Unfilter.FilterSubEquation | png3.py:114-122 | filter 1: the first pixel is copied and every later channel adds the channel to its left, modulo 256 |
| Unfilter.FilterUpEquation | png3.py:125-134 | filter 2: row 0 is copied and later rows add the channel above, modulo 256 |
| Unfilter.FilterAverageEquation | png3.py:137-143 | filter 3: each channel adds the floor of the mean of left and above, with zeros outside the image, modulo 256 |
| Unfilter.FilterPaethEquation | png3.py:146-165 | filter 4: each channel adds the Paeth prediction from left, above and upper left, with zeros outside the image, modulo 256 |
| Unfilter.ImageOf | png3.py:82-98 | with no IDAT payload the image is `height` empty rows; otherwise it is the decoded payload, also `height` rows |
| Unfilter.UnfilterNone | png2.py:127-133 | the filter-0 loop builds exactly the specified row |
| Unfilter.UnfilterSub | png2.py:137-154 | the filter-1 loop (first pixel, then `x` from 1) builds exactly the specified row |
| Unfilter.UnfilterUp | png2.py:158-168 | the filter-2 loop builds exactly the specified row, given the row above |
| Unfilter.UnfilterAverage | png2.py:172-187 | the filter-3 loop builds exactly the specified row, given the row above |
| Unfilter.UnfilterPaeth | png2.py:190-220 | the filter-4 loop (first pixel, then `x` from 1 to `len(filtered_data) // 3`) builds exactly the specified row |
| Unfilter.Reconstruct | png3.py:98-168 | the row loop leaves `img` equal to the decoding specification for every filter byte, unknown ones included |
| Isolation.Isolate | png3.py:200-205 | the selected channel is kept and the other two are zero |
| Isolation.PixelBytes | png3.py:200-205 | a pixel contributes three bytes: the selected channel of the pixel in its own place, and 0 in the other two |
| Isolation.ChannelBytesAt | png3.py:199-205 | pixel `x` of a row fills bytes `3x` to `3x + 2` of that row's channel bytes |
| Isolation.RecordsPrefix | png3.py:197-198 | the first `m` records are a prefix of the first `n` records |
| Isolation.RecordFilterByte | png3.py:198 | every record starts with filter byte 0 |
| Isolation.RecordChannel | png3.py:196-205 | byte `y * scanline + 1 + 3x + i` of the records is channel `i` of the isolated `img[y][x]` |
| Isolation.NoChannelRecords | png3.py:200-205 | for an option other than 1, 2 or 3, each record is its filter byte alone |
| Isolation.RecordsDecodable | png3.py:196-205 | the records meet every condition the decoder needs, and every row has filter 0 |
| Isolation.IsolationRoundTrip | png3.py:196-205 | decoding the records gives back exactly the isolated image |
| Png3.Output | png3.py:209-223 | the written file starts with the signature and has the stated length |
| Png3.PNG.constructor | png3.py:17-28 | every attribute starts empty or zero |
| Png3.PNG.LoadFile | png3.py:30-37 | the contents and the file name are stored, or `info` becomes `'file not found'` and the data stays as it was |
| Png3.PNG.ValidPng | png3.py:39-41 | true exactly when the data starts with the 8 signature bytes |
| Png3.PNG.ReadHeader | png3.py:43-56 | the fields become the IHDR values at their fixed offsets |
| Png3.PNG.CollectIdat | png3.py:60-80 | the loop collects png3's payload: CRC-valid IDAT data up to the first CRC-valid IEND |
| Png3.PNG.ReadChunks | png3.py:58-168 | `img` becomes the image of png3's payload; the data and header fields are unchanged |
| Png3.PNG.ChannelRow | png3.py:199-205 | the inner loop builds the channel bytes of row `y` |
| Png3.PNG.IsolatedRecords | png3.py:196-205 | the outer loop builds the isolated records of all `height` rows |
| Png3.PNG.KeptRecords | png3.py:173-193 | the walk keeps the last IHDR and the last IEND record, CRC-checked or not |
| Png3.PNG.SaveRgb | png3.py:170-223 | the output is the signature, the last IHDR record, one IDAT chunk with the compressed records and their CRC, and the last IEND record |
| Png3.SavedChunks | png3.py:209-223 | walking the saved file finds exactly the three records written |
| Png3.SavedPayload | png3.py:220 | both versions of `read_chunks` collect exactly the new payload from the saved records |
| Png3.SaveThenRead | png3.py:170-223 | for the dimensions `save_rgb` used, reading back the file it wrote gives the selected channel of `img`, with the other two channels zero |
| Png3.ReadSavedFile | png3.py:43-223 | with the dimensions `read_header` found in the original, the saved file gives back the same header and, decoded, the selected channel of `img` |
| Png3.SavedHeader | png3.py:209-213 | the saved file gives `read_header` the same fields as the original, width and height included, when the original's first record is its only IHDR |
| Png2.Rewrite | png2.py:273-316 | an IDAT record gets the new data, its length and the chosen CRC bytes (a fresh CRC when one is given, its old CRC bytes otherwise); any other record is unchanged |
| Png2.Saved | png2.py:270-271 | the written file starts with the signature |
| Png2.PixelHex | png2.py:287-300 | the three f-strings spell the isolated pixel's three bytes in upper-case hex |
| Png2.PNG.constructor | png2.py:19-35 | every attribute starts empty or zero |
| Png2.PNG.LoadFile | png2.py:38-45 | the contents and the file name are stored, or `info` becomes `'file not found'` and the data stays as it was |
| Png2.PNG.ValidPng | png2.py:47-52 | true exactly when the data starts with the 8 signature bytes |
| Png2.PNG.ReadHeader | png2.py:55-72 | the fields become the IHDR values at their fixed offsets |
| Png2.PNG.CollectIdat | png2.py:80-104 | the loop collects png2's payload: the data of every CRC-valid IDAT record in the whole buffer |
| Png2.PNG.ReadChunks | png2.py:76-223 | `img` becomes the image of png2's payload; the data and header fields are unchanged |
| Png2.PNG.ChannelHex | png2.py:284-300 | the inner loop builds the upper-case hex text of row `y`'s channel bytes |
| Png2.PNG.RawDataStr | png2.py:278-300 | the loops build the upper-case hex text of the isolated records |
| Png2.PNG.IdatPayload | png2.py:302-303 | `fromhex` then `compress` gives the compressed isolated records |
| Png2.PNG.ChunkList | png2.py:252-265 | the list holds exactly the walked records, CRC-checked or not |
| Png2.PNG.WriteRecord | png2.py:274-316 | an IDAT record is written with the new data, its length and its old CRC (or a fresh one when asked); any other record is written verbatim |
| Png2.PNG.WriteRecords | png2.py:270-316 | the output is the signature followed by every walked record, rewritten with the payload and CRC that each IDAT record receives |
| Png2.PNG.SaveRgb | png2.py:249-316 | as written: every IDAT record carries the compressed records and keeps its old CRC bytes, and every other record is copied |
| Png2.PNG.SaveRgbFreshCrc | png3.py:220 | corrected: as `SaveRgb`, but each IDAT record gets the CRC-32 of its type and new data |
| Png2.NoIdatUnchanged | png2.py:311-316 | records without IDAT pass through unchanged |
| Png2.RewrittenComplete | png2.py:305-308 | every rewritten record is complete when the walked ones were: the new length field matches the new data |
| Png2.WalkSaved | png2.py:270-316 | reading the saved file walks exactly the rewritten records |
| Png2.SavedWithoutIdat | png2.py:270-316 | a file with the signature and no IDAT record is written back byte for byte |
| Png2.StaleCrcLosesPayload | png2.py:308 | as written: when no old CRC matches the new data, png2's walk finds no IDAT data in the rewritten records |
| Png2.StaleCrcDropsImage | png2.py:308 | as written: re-reading the saved file collects no payload, so every row of `img` stays empty |
| Png2.FreshCrcKeepsPayload | png3.py:220 | corrected: every IDAT record passes the CRC check and contributes the whole new payload |
| Png2.FreshCrcRoundTrip | png2.py:249-316 | corrected, with one IDAT record and the dimensions `save_rgb` used: re-reading the saved file gives the selected channel of `img`, with the other two channels zero |
| Png2.ReadSavedFile | png2.py:55-316 | corrected, with one IDAT record: with the dimensions `read_header` found in the original, the saved file gives back the same header and, decoded, the selected channel of `img` |
| Png2.SavedHeader | png2.py:270-316 | the saved file gives `read_header` the same fields as the original, width and height included, when the original's first record is a complete 13-byte IHDR |

## Left out

- File I/O. `load_file` receives what reading the file produced, or `None` when the file does not exist. `save_rgb` returns the bytes it would write. The file name is not used to open a file; `LoadFile` stores it in `info`, as the source does.
- `print` output, the "does not meet the required specifications" report, and the `debug_timer` decorator with its clock. They change no state. `Header.SupportedBytes` states when that report is not printed.
- `zlib` is a set of parameters. The model does not define CRC-32 or DEFLATE.
- Paths where Python raises an exception are excluded by preconditions, because the source never handles them. These are:
  - `read_header` on fewer than 29 bytes;
  - a decompressed payload without a filter byte for every one of the `height` rows, or with a record of filter 0 to 3 cut short, or a Paeth record with fewer than 3 data bytes;
  - Sub or Paeth rows when `width` is 0;
  - an Up, Average or Paeth row below a row that stayed empty, when `width` is positive;
  - `chunk_type.decode('ascii')` on a non-ASCII type;
  - `img` too small for the loops of `save_rgb`;
  - a compressed payload of 2^32 bytes or more for `to_bytes(4, 'big')`;
  - png3's `save_rgb` on a file without an IHDR or an IEND record.
- `Unfilter.Decodable` asks for `height` full records, which is more than the no-exception cases above need. It also excludes a payload whose last record is cut short after its filter byte without raising in Python. With filter 4 and at least 3 data bytes, the Paeth loop runs to `len(filtered_data) // 3` and that last row gets fewer than `width` pixels (width 2, height 1, payload `[4, 9, 9, 9]` gives `[[[9, 9, 9]]]`). With an unknown filter byte the last row stays empty. The model says nothing about `img` for such payloads.
- Zlib's own errors (a corrupt stream in `decompress`) are out of scope, because `decompress` is a total function here.
- `Png2.PNG.ReadChunks` and `Png3.PNG.ReadChunks` share `Unfilter.Reconstruct`. The two loops compute the same rows and differ only in form. png3.py builds a filter-0 row by comprehension, and png2.py by appends. png2.py computes `filtered_data` in each branch, and png3.py once before the branches. png2.py calls the static method `paeth_predictor`, and png3.py a nested function with the same body. The zero row above row 0 and the Paeth slice use different length expressions: `len(filtered_data) // 3` and `3 * width` bytes in png2.py, `width` and `3 * width + 1` in png3.py. Every one of these gives `width` pixels.
- Rows are values (`seq<Pixel>`), not aliased Python lists. `previous_row = self.img[y - 1]` makes an alias of the row above, but the source only reads through it and never writes through it, so nothing depends on aliasing.
- The `main` functions and the script file are not part of this model.
- Png2.FreshCrcRoundTrip and Png2.ReadSavedFile: stated for exactly one IDAT record. With `k` IDAT records the corrected `save_rgb` gives each one the whole payload, so `read_chunks` collects it `k` times (`Png2.FreshCrcKeepsPayload`), and what that decompresses to depends on zlib.
- Png3.ReadSavedFile and Png2.ReadSavedFile: stated for originals whose first record is a complete 13-byte IHDR. For any other original the fixed offsets of `read_header` do not read an IHDR's data, and nothing is claimed.

## Findings

| source | as written | input that shows it | evidently intended | confidence | as-written member | corrected member |
|---|---|---|---|---|---|---|
| png2.py:308 | each rewritten IDAT chunk keeps the CRC bytes of the original chunk, although its data changed | any valid file with one IDAT chunk whose old CRC differs from the CRC-32 of `IDAT` plus the new compressed data | write the CRC-32 of the type and the new data, as png3.py:220 does | not executed | Png2.StaleCrcDropsImage | Png2.FreshCrcRoundTrip |
