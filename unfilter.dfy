/** Scanline reconstruction: the second half of `read_chunks`, identical in
    both versions. The decompressed payload holds `height` records of
    `1 + 3 * width` bytes; a record's first byte selects None, Sub, Up,
    Average or Paeth (sections 6.2 to 6.6 of RFC 2083) and the rest are the
    filtered channel bytes. Rows are rebuilt in increasing `y`, each from
    left to right, with bpp = 3 and arithmetic modulo 256. */
module Unfilter {
  import opened Bytes
  import opened Pixels

  /** `scanline = 1 + (3 * self.width)`. */
  function Stride(width: nat): nat { 1 + 3 * width }

  /** Record `y` lies inside the buffer. */
  predicate RowFits(data: seq<byte>, width: nat, y: nat) {
    y * Stride(width) + Stride(width) <= |data|
  }

  lemma {:induction false} MulMonotone(a: nat, b: nat, s: nat)
    requires a <= b
    ensures a * s <= b * s
    decreases b
  {
    if a < b {
      MulMonotone(a, b - 1, s);
      assert (b - 1) * s + s == b * s;
    }
  }

  lemma RowsFit(data: seq<byte>, width: nat, y: nat, height: nat)
    requires y < height && height * Stride(width) <= |data|
    ensures RowFits(data, width, y)
  {
    var s := Stride(width);
    MulMonotone(y + 1, height, s);
    assert (y + 1) * s == y * s + s;
  }

  lemma StrideStep(width: nat, n: nat)
    requires n > 0
    ensures (n - 1) * Stride(width) + Stride(width) == n * Stride(width)
  {
  }

  /** `filter_num = data[scanline * y]`. */
  function FilterType(data: seq<byte>, width: nat, y: nat): byte
    requires RowFits(data, width, y)
  {
    data[y * Stride(width)]
  }

  /** The three filtered bytes of pixel `x` of record `y`:
      `filtered_data[3 * x .. 3 * x + 2]`. */
  function Filtered(data: seq<byte>, width: nat, y: nat, x: nat): Pixel
    requires RowFits(data, width, y) && x < width
  {
    var o := y * Stride(width) + 1 + 3 * x;
    Pixel(data[o], data[o + 1], data[o + 2])
  }

  /** The value each filter type adds to a filtered byte, given the
      reconstructed byte to the left (a), above (b) and upper left (c). */
  function Predictor(ft: int, a: int, b: int, c: int): int
    requires 0 <= ft <= 4
  {
    if ft == 0 then 0
    else if ft == 1 then a
    else if ft == 2 then b
    else if ft == 3 then (a + b) / 2
    else PaethPredictor(a, b, c)
  }

  /** One reconstructed byte: `(filtered + predictor) % 256`. */
  function Recon(ft: int, f: byte, a: byte, b: byte, c: byte): byte
    requires 0 <= ft <= 4
  {
    (f + Predictor(ft, a, b, c)) % 256
  }

  function ReconPixel(ft: int, f: Pixel, left: Pixel, above: Pixel, upperLeft: Pixel): Pixel
    requires 0 <= ft <= 4
  {
    Pixel(Recon(ft, f.r, left.r, above.r, upperLeft.r),
          Recon(ft, f.g, left.g, above.g, upperLeft.g),
          Recon(ft, f.b, left.b, above.b, upperLeft.b))
  }

  /** The all-zero row that stands above row 0. */
  function Zeros(width: nat): (z: seq<Pixel>)
    ensures |z| == width && forall x :: 0 <= x < width ==> z[x] == Zero
  {
    seq(width, _ => Zero)
  }

  /** Neighbours of position `x`, zero outside the image. */
  function Left(row: seq<Pixel>, x: nat): Pixel {
    if 0 < x <= |row| then row[x - 1] else Zero
  }

  function Above(prev: seq<Pixel>, x: nat): Pixel {
    if x < |prev| then prev[x] else Zero
  }

  function UpperLeft(prev: seq<Pixel>, x: nat): Pixel {
    if 0 < x <= |prev| then prev[x - 1] else Zero
  }

  /** The row above row `y`: zeros for row 0. */
  function PrevRow(img: seq<seq<Pixel>>, y: nat, width: nat): seq<Pixel> {
    if y == 0 || y > |img| then Zeros(width) else img[y - 1]
  }

  /** The first `n` pixels of row `y` once reconstructed, each from the
      pixels already rebuilt to its left and from the row above. */
  function DecodePrefix(data: seq<byte>, width: nat, y: nat, prev: seq<Pixel>, n: nat): (row: seq<Pixel>)
    requires RowFits(data, width, y) && FilterType(data, width, y) <= 4 && n <= width
    ensures |row| == n
  {
    if n == 0 then []
    else
      var row := DecodePrefix(data, width, y, prev, n - 1);
      row + [ReconPixel(FilterType(data, width, y), Filtered(data, width, y, n - 1),
                        Left(row, n - 1), Above(prev, n - 1), UpperLeft(prev, n - 1))]
  }

  /** Row `y` of `img`: `width` pixels for filter types 0 to 4, and the
      empty list for any other filter byte. */
  function DecodeRow(data: seq<byte>, width: nat, y: nat, prev: seq<Pixel>): (row: seq<Pixel>)
    requires RowFits(data, width, y)
    ensures |row| == if FilterType(data, width, y) <= 4 then width else 0
  {
    if FilterType(data, width, y) <= 4 then DecodePrefix(data, width, y, prev, width) else []
  }

  /** The first `n` rows of `img` after `read_chunks`. */
  function DecodeRows(data: seq<byte>, width: nat, n: nat): (img: seq<seq<Pixel>>)
    requires n * Stride(width) <= |data|
    ensures |img| == n
  {
    if n == 0 then []
    else
      StrideStep(width, n);
      var img := DecodeRows(data, width, n - 1);
      img + [DecodeRow(data, width, n - 1, PrevRow(img, n - 1, width))]
  }

  /** A condition on the decompressed payload sufficient for the decoding
      loop to run without an `IndexError` and give every row its full width:
      all records present in full; Sub and Paeth rows only when the image has
      a column (both read the first pixel unconditionally); and no Up,
      Average or Paeth row right below a row that stayed empty. A last record
      cut short after filter 4 or an unknown filter byte does not raise, but
      is excluded too. */
  predicate Decodable(data: seq<byte>, width: nat, height: nat) {
    && height * Stride(width) <= |data|
    && (forall y :: 0 <= y < height ==> RowFits(data, width, y))
    && (forall y :: (0 <= y < height && RowFits(data, width, y)
                     && (FilterType(data, width, y) == 1 || FilterType(data, width, y) == 4))
                    ==> width > 0)
    && (forall y :: (0 < y < height && RowFits(data, width, y) && RowFits(data, width, y - 1)
                     && width > 0 && 2 <= FilterType(data, width, y) <= 4)
                    ==> FilterType(data, width, y - 1) <= 4)
  }

  /** `self.img` after `read_chunks`: `height` empty rows when no IDAT data
      was collected, otherwise the rows decoded from the decompressed payload. */
  function ImageOf(payload: seq<byte>, decompress: seq<byte> -> seq<byte>, width: nat, height: nat): (img: seq<seq<Pixel>>)
    requires |payload| > 0 ==> Decodable(decompress(payload), width, height)
    ensures |img| == height
    ensures |payload| == 0 ==> forall y :: 0 <= y < height ==> img[y] == []
  {
    if |payload| > 0 then DecodeRows(decompress(payload), width, height) else seq(height, _ => [])
  }

  // ---------------------------------------------------------------------
  // Properties of the decoded image

  /** Rows are rebuilt in increasing `y`: decoding more rows never changes
      the rows already decoded. */
  lemma {:induction false} DecodeRowsPrefix(data: seq<byte>, width: nat, m: nat, n: nat)
    requires n <= m && m * Stride(width) <= |data|
    ensures n * Stride(width) <= |data|
    ensures DecodeRows(data, width, m)[..n] == DecodeRows(data, width, n)
    decreases m
  {
    if n < m {
      StrideStep(width, m);
      DecodeRowsPrefix(data, width, m - 1, n);
      var img := DecodeRows(data, width, m);
      assert img[..m - 1] == DecodeRows(data, width, m - 1);
      assert img[..n] == img[..m - 1][..n];
    } else {
      assert DecodeRows(data, width, m)[..n] == DecodeRows(data, width, m);
    }
  }

  /** Row `y` of the image is the decoding of record `y` against row `y - 1`. */
  lemma DecodedRow(data: seq<byte>, width: nat, height: nat, y: nat)
    requires height * Stride(width) <= |data| && y < height
    ensures RowFits(data, width, y)
    ensures var img := DecodeRows(data, width, height);
      img[y] == DecodeRow(data, width, y, PrevRow(img, y, width))
  {
    RowsFit(data, width, y, height);
    DecodeRowsPrefix(data, width, height, y + 1);
    DecodeRowsPrefix(data, width, height, y);
    var img := DecodeRows(data, width, height);
    assert img[y] == img[..y + 1][y];
    assert DecodeRows(data, width, y + 1)[..y] == DecodeRows(data, width, y);
    assert PrevRow(img, y, width) == PrevRow(DecodeRows(data, width, y), y, width) by {
      if y > 0 {
        assert img[y - 1] == img[..y][y - 1];
      }
    }
  }

  /** The decoded image has `height` rows; a row holds exactly `width`
      pixels when its filter byte is 0 to 4 and stays empty otherwise. */
  lemma DecodedShape(data: seq<byte>, width: nat, height: nat, y: nat)
    requires height * Stride(width) <= |data| && y < height
    ensures RowFits(data, width, y)
    ensures |DecodeRows(data, width, height)| == height
    ensures |DecodeRows(data, width, height)[y]|
         == if FilterType(data, width, y) <= 4 then width else 0
  {
    DecodedRow(data, width, height, y);
  }

  lemma {:induction false} DecodePrefixPrefix(data: seq<byte>, width: nat, y: nat, prev: seq<Pixel>, m: nat, n: nat)
    requires RowFits(data, width, y) && FilterType(data, width, y) <= 4 && n <= m <= width
    ensures DecodePrefix(data, width, y, prev, m)[..n] == DecodePrefix(data, width, y, prev, n)
    decreases m
  {
    if n < m {
      DecodePrefixPrefix(data, width, y, prev, m - 1, n);
      var row := DecodePrefix(data, width, y, prev, m);
      assert row[..m - 1] == DecodePrefix(data, width, y, prev, m - 1);
      assert row[..n] == row[..m - 1][..n];
    } else {
      assert DecodePrefix(data, width, y, prev, m)[..n] == DecodePrefix(data, width, y, prev, m);
    }
  }

  /** Every pixel of a row with a known filter is its filtered bytes plus
      the filter's prediction from the already reconstructed left, above and
      upper-left pixels, modulo 256 (zero outside the image). */
  lemma DecodedPixel(data: seq<byte>, width: nat, height: nat, y: nat, x: nat)
    requires height * Stride(width) <= |data| && y < height && x < width
    requires RowFits(data, width, y) && FilterType(data, width, y) <= 4
    ensures var img := DecodeRows(data, width, height);
      var prev := PrevRow(img, y, width);
      |img[y]| == width &&
      img[y][x] == ReconPixel(FilterType(data, width, y), Filtered(data, width, y, x),
                              Left(img[y], x), Above(prev, x), UpperLeft(prev, x))
  {
    DecodedRow(data, width, height, y);
    var img := DecodeRows(data, width, height);
    var prev := PrevRow(img, y, width);
    var row := DecodePrefix(data, width, y, prev, width);
    assert img[y] == row;
    DecodePrefixPrefix(data, width, y, prev, width, x + 1);
    DecodePrefixPrefix(data, width, y, prev, width, x);
    assert row[x] == row[..x + 1][x];
    assert Left(row, x) == Left(DecodePrefix(data, width, y, prev, x), x) by {
      if x > 0 { assert row[x - 1] == row[..x][x - 1]; }
    }
  }

  lemma FilteredChannel(data: seq<byte>, width: nat, y: nat, x: nat, i: nat)
    requires RowFits(data, width, y) && x < width && i < 3
    ensures y * Stride(width) + 1 + 3 * x + i < |data|
    ensures Filtered(data, width, y, x).Channel(i) == data[y * Stride(width) + 1 + 3 * x + i]
  {
  }

  /** Filter 0 (None): pixel `x` is bytes `3x .. 3x + 2` of the record,
      verbatim. */
  lemma FilterNoneVerbatim(data: seq<byte>, width: nat, height: nat, y: nat, x: nat, i: nat)
    requires height * Stride(width) <= |data| && y < height && x < width && i < 3
    requires RowFits(data, width, y) && FilterType(data, width, y) == 0
    ensures |DecodeRows(data, width, height)[y]| == width
    ensures DecodeRows(data, width, height)[y][x].Channel(i) == data[y * Stride(width) + 1 + 3 * x + i]
  {
    hide DecodeRows, DecodeRow, DecodePrefix;
    DecodedPixel(data, width, height, y, x);
    FilteredChannel(data, width, y, x, i);
  }

  /** Filter 1 (Sub): the first pixel is copied, every later channel is
      `(filtered + left) % 256`. */
  lemma FilterSubEquation(data: seq<byte>, width: nat, height: nat, y: nat, x: nat, i: nat)
    requires height * Stride(width) <= |data| && y < height && x < width && i < 3
    requires RowFits(data, width, y) && FilterType(data, width, y) == 1
    ensures |DecodeRows(data, width, height)[y]| == width
    ensures var img := DecodeRows(data, width, height);
      var f := data[y * Stride(width) + 1 + 3 * x + i];
      img[y][x].Channel(i) == if x == 0 then f else (f + img[y][x - 1].Channel(i)) % 256
  {
    hide DecodeRows, DecodeRow, DecodePrefix;
    DecodedPixel(data, width, height, y, x);
    FilteredChannel(data, width, y, x, i);
  }

  /** Filter 2 (Up): `(filtered + above) % 256`, and row 0 verbatim. */
  lemma FilterUpEquation(data: seq<byte>, width: nat, height: nat, y: nat, x: nat, i: nat)
    requires height * Stride(width) <= |data| && y < height && x < width && i < 3
    requires RowFits(data, width, y) && FilterType(data, width, y) == 2
    requires y > 0 ==> |DecodeRows(data, width, height)[y - 1]| == width
    ensures |DecodeRows(data, width, height)[y]| == width
    ensures var img := DecodeRows(data, width, height);
      var f := data[y * Stride(width) + 1 + 3 * x + i];
      img[y][x].Channel(i) == if y == 0 then f else (f + img[y - 1][x].Channel(i)) % 256
  {
    hide DecodeRows, DecodeRow, DecodePrefix;
    DecodedPixel(data, width, height, y, x);
    FilteredChannel(data, width, y, x, i);
  }

  /** Filter 3 (Average): `(filtered + (left + above) // 2) % 256`, with the
      left neighbour 0 in column 0 and the upper one 0 in row 0. */
  lemma FilterAverageEquation(data: seq<byte>, width: nat, height: nat, y: nat, x: nat, i: nat)
    requires height * Stride(width) <= |data| && y < height && x < width && i < 3
    requires RowFits(data, width, y) && FilterType(data, width, y) == 3
    requires y > 0 ==> |DecodeRows(data, width, height)[y - 1]| == width
    ensures |DecodeRows(data, width, height)[y]| == width
    ensures var img := DecodeRows(data, width, height);
      var f := data[y * Stride(width) + 1 + 3 * x + i];
      var left := if x == 0 then 0 else img[y][x - 1].Channel(i);
      var above := if y == 0 then 0 else img[y - 1][x].Channel(i);
      img[y][x].Channel(i) == (f + (left + above) / 2) % 256
  {
    hide DecodeRows, DecodeRow, DecodePrefix;
    DecodedPixel(data, width, height, y, x);
    FilteredChannel(data, width, y, x, i);
  }

  /** Filter 4 (Paeth): `(filtered + paeth(left, above, upper left)) % 256`,
      where the row above row 0 is all zeros and column 0 has zero left and
      upper-left neighbours. */
  lemma FilterPaethEquation(data: seq<byte>, width: nat, height: nat, y: nat, x: nat, i: nat)
    requires height * Stride(width) <= |data| && y < height && x < width && i < 3
    requires RowFits(data, width, y) && FilterType(data, width, y) == 4
    requires y > 0 ==> |DecodeRows(data, width, height)[y - 1]| == width
    ensures |DecodeRows(data, width, height)[y]| == width
    ensures var img := DecodeRows(data, width, height);
      var f := data[y * Stride(width) + 1 + 3 * x + i];
      var left := if x == 0 then 0 else img[y][x - 1].Channel(i);
      var above := if y == 0 then 0 else img[y - 1][x].Channel(i);
      var upperLeft := if x == 0 || y == 0 then 0 else img[y - 1][x - 1].Channel(i);
      img[y][x].Channel(i) == (f + PaethPredictor(left, above, upperLeft)) % 256
  {
    hide DecodeRows, DecodeRow, DecodePrefix, PaethPredictor;
    DecodedPixel(data, width, height, y, x);
    FilteredChannel(data, width, y, x, i);
  }

  // ---------------------------------------------------------------------
  // The decoding loops

  /** One step of every decoding loop: pixel `x` of record `y` is its three
      filtered bytes, read at `1 + scanline * y + 3 * x`, reconstructed
      against the pixels to its left, above and upper left. */
  lemma DecodePrefixStep(data: seq<byte>, width: nat, y: nat, prev: seq<Pixel>, x: nat)
    requires RowFits(data, width, y) && FilterType(data, width, y) <= 4 && x < width
    ensures 1 + Stride(width) * y + 3 * x + 2 < |data|
    ensures var row := DecodePrefix(data, width, y, prev, x);
      var ft, o := FilterType(data, width, y), 1 + Stride(width) * y + 3 * x;
      var l, a, c := Left(row, x), Above(prev, x), UpperLeft(prev, x);
      DecodePrefix(data, width, y, prev, x + 1)
      == row + [Pixel(Recon(ft, data[o], l.r, a.r, c.r), Recon(ft, data[o + 1], l.g, a.g, c.g),
                      Recon(ft, data[o + 2], l.b, a.b, c.b))]
  {
  }

  lemma DecodePrefixNone(data: seq<byte>, width: nat, y: nat, prev: seq<Pixel>)
    requires RowFits(data, width, y) && FilterType(data, width, y) <= 4
    ensures DecodePrefix(data, width, y, prev, 0) == []
  {
  }

  lemma DecodeRowWhole(data: seq<byte>, width: nat, y: nat, prev: seq<Pixel>)
    requires RowFits(data, width, y) && FilterType(data, width, y) <= 4
    ensures DecodeRow(data, width, y, prev) == DecodePrefix(data, width, y, prev, width)
  {
  }

  /** Filter 0: `[filtered_data[3x], filtered_data[3x+1], filtered_data[3x+2]]`
      for every `x`. */
  method UnfilterNone(data: seq<byte>, width: nat, y: nat, prev: seq<Pixel>) returns (row: seq<Pixel>)
    requires RowFits(data, width, y) && FilterType(data, width, y) == 0
    ensures row == DecodeRow(data, width, y, prev)
  {
    hide DecodePrefix, DecodeRow;
    DecodeRowWhole(data, width, y, prev);
    DecodePrefixNone(data, width, y, prev);
    var start := 1 + Stride(width) * y;
    row := [];
    for x := 0 to width
      invariant row == DecodePrefix(data, width, y, prev, x)
    {
      DecodePrefixStep(data, width, y, prev, x);
      row := row + [Pixel(data[start + 3 * x], data[start + 3 * x + 1], data[start + 3 * x + 2])];
    }
  }

  /** Filter 1: the first pixel verbatim, then each channel plus the one to
      its left. */
  method UnfilterSub(data: seq<byte>, width: nat, y: nat, prev: seq<Pixel>) returns (row: seq<Pixel>)
    requires RowFits(data, width, y) && FilterType(data, width, y) == 1 && width > 0
    ensures row == DecodeRow(data, width, y, prev)
  {
    hide DecodePrefix, DecodeRow;
    DecodeRowWhole(data, width, y, prev);
    DecodePrefixNone(data, width, y, prev);
    var start := 1 + Stride(width) * y;
    DecodePrefixStep(data, width, y, prev, 0);
    row := [Pixel(data[start], data[start + 1], data[start + 2])];
    for x := 1 to width
      invariant row == DecodePrefix(data, width, y, prev, x)
    {
      DecodePrefixStep(data, width, y, prev, x);
      row := row + [Pixel((data[start + 3 * x] + row[x - 1].r) % 256,
                          (data[start + 3 * x + 1] + row[x - 1].g) % 256,
                          (data[start + 3 * x + 2] + row[x - 1].b) % 256)];
    }
  }

  /** Filter 2: row 0 verbatim, later rows add the pixel above. */
  method UnfilterUp(data: seq<byte>, width: nat, y: nat, prev: seq<Pixel>) returns (row: seq<Pixel>)
    requires RowFits(data, width, y) && FilterType(data, width, y) == 2
    requires |prev| >= width && (y == 0 ==> prev == Zeros(width))
    ensures row == DecodeRow(data, width, y, prev)
  {
    hide DecodePrefix, DecodeRow;
    DecodeRowWhole(data, width, y, prev);
    DecodePrefixNone(data, width, y, prev);
    var start := 1 + Stride(width) * y;
    row := [];
    for x := 0 to width
      invariant row == DecodePrefix(data, width, y, prev, x)
    {
      DecodePrefixStep(data, width, y, prev, x);
      if y == 0 {
        row := row + [Pixel(data[start + 3 * x], data[start + 3 * x + 1], data[start + 3 * x + 2])];
      } else {
        row := row + [Pixel((data[start + 3 * x] + prev[x].r) % 256,
                            (data[start + 3 * x + 1] + prev[x].g) % 256,
                            (data[start + 3 * x + 2] + prev[x].b) % 256)];
      }
    }
  }

  lemma AverageOf(f: byte, a: byte, b: byte, c: byte)
    ensures Recon(3, f, a, b, c) == (f + (a + b) / 2) % 256
  {
  }

  /** Filter 3: each channel plus the floor of the mean of left and above. */
  method UnfilterAverage(data: seq<byte>, width: nat, y: nat, prev: seq<Pixel>) returns (row: seq<Pixel>)
    requires RowFits(data, width, y) && FilterType(data, width, y) == 3
    requires |prev| >= width && (y == 0 ==> prev == Zeros(width))
    ensures row == DecodeRow(data, width, y, prev)
  {
    hide DecodePrefix, DecodeRow, Recon;
    DecodeRowWhole(data, width, y, prev);
    DecodePrefixNone(data, width, y, prev);
    var start := 1 + Stride(width) * y;
    row := [];
    for x := 0 to width
      invariant row == DecodePrefix(data, width, y, prev, x)
    {
      DecodePrefixStep(data, width, y, prev, x);
      var above := if y > 0 then prev[x] else Zero;
      var left := if x > 0 then row[x - 1] else Zero;
      ghost var upperLeft := UpperLeft(prev, x);
      AverageOf(data[start + 3 * x], left.r, above.r, upperLeft.r);
      AverageOf(data[start + 3 * x + 1], left.g, above.g, upperLeft.g);
      AverageOf(data[start + 3 * x + 2], left.b, above.b, upperLeft.b);
      row := row + [Pixel((data[start + 3 * x] + (left.r + above.r) / 2) % 256,
                          (data[start + 3 * x + 1] + (left.g + above.g) / 2) % 256,
                          (data[start + 3 * x + 2] + (left.b + above.b) / 2) % 256)];
    }
  }

  /** Filter 4: the first pixel predicts from above only, every later one
      from left, above and upper left. */
  method UnfilterPaeth(data: seq<byte>, width: nat, y: nat, prev: seq<Pixel>) returns (row: seq<Pixel>)
    requires RowFits(data, width, y) && FilterType(data, width, y) == 4 && width > 0
    requires |prev| >= width
    ensures row == DecodeRow(data, width, y, prev)
  {
    hide DecodePrefix, DecodeRow, PaethPredictor;
    DecodeRowWhole(data, width, y, prev);
    DecodePrefixNone(data, width, y, prev);
    var start := 1 + Stride(width) * y;
    DecodePrefixStep(data, width, y, prev, 0);
    row := [Pixel((data[start] + PaethPredictor(0, prev[0].r, 0)) % 256,
                  (data[start + 1] + PaethPredictor(0, prev[0].g, 0)) % 256,
                  (data[start + 2] + PaethPredictor(0, prev[0].b, 0)) % 256)];
    for x := 1 to width
      invariant row == DecodePrefix(data, width, y, prev, x)
    {
      DecodePrefixStep(data, width, y, prev, x);
      var left, above, upperLeft := row[x - 1], prev[x], prev[x - 1];
      row := row + [Pixel((data[start + 3 * x] + PaethPredictor(left.r, above.r, upperLeft.r)) % 256,
                          (data[start + 3 * x + 1] + PaethPredictor(left.g, above.g, upperLeft.g)) % 256,
                          (data[start + 3 * x + 2] + PaethPredictor(left.b, above.b, upperLeft.b)) % 256)];
    }
  }

  lemma DecodeRowsNone(data: seq<byte>, width: nat)
    ensures DecodeRows(data, width, 0) == []
  {
  }

  /** One step of the row loop: row `y` is decoded against row `y - 1`. */
  lemma DecodeRowsStep(data: seq<byte>, width: nat, y: nat)
    requires (y + 1) * Stride(width) <= |data|
    ensures RowFits(data, width, y) && y * Stride(width) <= |data|
    ensures DecodeRows(data, width, y + 1)
         == DecodeRows(data, width, y) + [DecodeRow(data, width, y, PrevRow(DecodeRows(data, width, y), y, width))]
  {
    StrideStep(width, y + 1);
  }

  /** The facts `Decodable` states about record `y`. */
  lemma DecodableAt(data: seq<byte>, width: nat, height: nat, y: nat)
    requires Decodable(data, width, height) && y < height
    ensures RowFits(data, width, y) && (y + 1) * Stride(width) <= |data|
    ensures (FilterType(data, width, y) == 1 || FilterType(data, width, y) == 4) ==> width > 0
    ensures y > 0 && width > 0 && 2 <= FilterType(data, width, y) <= 4
            ==> RowFits(data, width, y - 1) && FilterType(data, width, y - 1) <= 4
  {
    RowsFit(data, width, y, height);
    StrideStep(width, y + 1);
    if y > 0 {
      RowsFit(data, width, y - 1, height);
    }
  }

  /** `self.img = [[] for _ in range(self.height)]`, then every row in
      increasing `y`; a row with an unknown filter byte keeps its empty list. */
  method Reconstruct(data: seq<byte>, width: nat, height: nat) returns (img: seq<seq<Pixel>>)
    requires Decodable(data, width, height)
    ensures img == DecodeRows(data, width, height)
  {
    hide DecodeRows, DecodeRow, DecodePrefix, Decodable;
    DecodeRowsNone(data, width);
    img := seq(height, _ => []);
    var scanline := Stride(width);
    for y := 0 to height
      invariant |img| == height && y * Stride(width) <= |data|
      invariant img[..y] == DecodeRows(data, width, y)
      invariant forall k :: y <= k < height ==> img[k] == []
    {
      DecodableAt(data, width, height, y);
      DecodeRowsStep(data, width, y);
      var filterNum := data[scanline * y];
      var prev := if y > 0 then img[y - 1] else Zeros(width);
      assert prev == PrevRow(DecodeRows(data, width, y), y, width) by {
        if y > 0 { assert img[y - 1] == img[..y][y - 1]; }
      }
      if y > 0 && width > 0 && 2 <= filterNum <= 4 {
        DecodeRowsStep(data, width, y - 1);
        assert img[y - 1] == img[..y][y - 1];
      }
      var row: seq<Pixel>;
      if filterNum == 0 {
        row := UnfilterNone(data, width, y, prev);
      } else if filterNum == 1 {
        row := UnfilterSub(data, width, y, prev);
      } else if filterNum == 2 {
        row := UnfilterUp(data, width, y, prev);
      } else if filterNum == 3 {
        row := UnfilterAverage(data, width, y, prev);
      } else if filterNum == 4 {
        row := UnfilterPaeth(data, width, y, prev);
      } else {
        row := img[y];
        DecodeRowUnknown(data, width, y, prev);
      }
      img := img[y := row];
      assert img[..y + 1] == img[..y] + [row];
    }
    assert img == img[..height];
  }

  /** A record whose filter byte is not 0 to 4 leaves its row empty. */
  lemma DecodeRowUnknown(data: seq<byte>, width: nat, y: nat, prev: seq<Pixel>)
    requires RowFits(data, width, y) && FilterType(data, width, y) > 4
    ensures DecodeRow(data, width, y, prev) == []
  {
  }
}
