/** The uncompressed image `save_rgb` writes in both versions: `height`
    records, each a filter byte 0 (None) followed by one triple per pixel that
    keeps the chosen channel of `img` and sets the other two to 0. An option
    other than 1, 2 or 3 selects nothing, and each record is then the filter
    byte alone. */
module Isolation {
  import opened Bytes
  import opened Pixels
  import opened Unfilter

  /** `rgb_option` 1, 2 and 3 select R, G and B. */
  predicate IsChannel(option: int) {
    1 <= option <= 3
  }

  /** The pixel with only the selected channel kept. */
  function Isolate(p: Pixel, option: int): (q: Pixel)
    requires IsChannel(option)
    ensures q.Channel(option - 1) == p.Channel(option - 1)
    ensures forall i :: 0 <= i < 3 && i != option - 1 ==> q.Channel(i) == 0
  {
    if option == 1 then Pixel(p.r, 0, 0)
    else if option == 2 then Pixel(0, p.g, 0)
    else Pixel(0, 0, p.b)
  }

  /** The three bytes one pixel contributes: the selected channel of `p` in
      its own place, 0 in the other two. */
  function PixelBytes(p: Pixel, option: int): (s: seq<byte>)
    requires IsChannel(option)
    ensures |s| == 3 && s[option - 1] == p.Channel(option - 1)
    ensures forall i :: 0 <= i < 3 && i != option - 1 ==> s[i] == 0
    ensures forall i :: 0 <= i < 3 ==> s[i] == Isolate(p, option).Channel(i)
  {
    var q := Isolate(p, option);
    [q.r, q.g, q.b]
  }

  /** `self.img[y]`, or no pixels when the image has fewer rows. */
  function RowOf(img: seq<seq<Pixel>>, y: nat): seq<Pixel> {
    if y < |img| then img[y] else []
  }

  /** `img` holds at least `height` rows of at least `width` pixels. */
  predicate Covers(img: seq<seq<Pixel>>, width: nat, height: nat) {
    |img| >= height && forall y :: 0 <= y < height ==> |img[y]| >= width
  }

  /** What the loops need to index `self.img[y][x]` without an `IndexError`:
      pixels are read only for a channel option and a non-empty row width. */
  predicate Readable(img: seq<seq<Pixel>>, width: nat, height: nat, option: int) {
    IsChannel(option) && width > 0 ==> Covers(img, width, height)
  }

  /** The pixel bytes of the first `n` pixels of one row. */
  function ChannelBytes(row: seq<Pixel>, option: int, n: nat): (s: seq<byte>)
    requires IsChannel(option) ==> n <= |row|
    ensures |s| == if IsChannel(option) then 3 * n else 0
  {
    if n == 0 || !IsChannel(option) then []
    else ChannelBytes(row, option, n - 1) + PixelBytes(row[n - 1], option)
  }

  /** The first `n` records: the bytes `raw_data` holds after row `n - 1`. */
  function Records(img: seq<seq<Pixel>>, width: nat, option: int, n: nat): (s: seq<byte>)
    requires Readable(img, width, n, option)
    ensures |s| == n * (if IsChannel(option) then Stride(width) else 1)
  {
    if n == 0 then []
    else
      StrideStep(width, n);
      Records(img, width, option, n - 1) + [0] + ChannelBytes(RowOf(img, n - 1), option, width)
  }

  /** The image the records encode: every pixel of the first `height` rows
      with only the selected channel kept. */
  function Isolated(img: seq<seq<Pixel>>, width: nat, height: nat, option: int): (out: seq<seq<Pixel>>)
    requires IsChannel(option) && Covers(img, width, height)
    ensures |out| == height && forall y :: 0 <= y < height ==> |out[y]| == width
  {
    seq(height, y requires 0 <= y < height => seq(width, x requires 0 <= x < width => Isolate(img[y][x], option)))
  }

  // ---------------------------------------------------------------------
  // Layout of the records

  /** Pixel `x` of a row occupies bytes `3x .. 3x + 2` of its channel bytes. */
  lemma {:induction false} ChannelBytesAt(row: seq<Pixel>, option: int, n: nat, x: nat, i: nat)
    requires IsChannel(option) && n <= |row| && x < n && i < 3
    ensures ChannelBytes(row, option, n)[3 * x + i] == Isolate(row[x], option).Channel(i)
    decreases n
  {
    if x < n - 1 {
      ChannelBytesAt(row, option, n - 1, x, i);
    }
  }

  /** One more pixel of a row: its triple for a channel option, nothing
      otherwise. */
  lemma ChannelBytesStep(row: seq<Pixel>, option: int, n: nat)
    requires IsChannel(option) ==> n < |row|
    ensures ChannelBytes(row, option, n + 1)
         == ChannelBytes(row, option, n) + (if IsChannel(option) then PixelBytes(row[n], option) else [])
  {
  }

  lemma ChannelBytesNone(row: seq<Pixel>, option: int)
    ensures ChannelBytes(row, option, 0) == []
  {
  }

  lemma RecordsNone(img: seq<seq<Pixel>>, width: nat, option: int)
    ensures Records(img, width, option, 0) == []
  {
  }

  /** Row `n - 1` appends its record to the first `n - 1`. */
  lemma RecordsStep(img: seq<seq<Pixel>>, width: nat, option: int, n: nat)
    requires n > 0 && Readable(img, width, n, option)
    ensures Readable(img, width, n - 1, option)
    ensures Records(img, width, option, n)
         == Records(img, width, option, n - 1) + [0] + ChannelBytes(RowOf(img, n - 1), option, width)
  {
  }

  /** Record `y` lies at `y * (1 + 3 * width)` inside the records. */
  lemma {:induction false} RecordsPrefix(img: seq<seq<Pixel>>, width: nat, option: int, n: nat, m: nat)
    requires IsChannel(option) && m <= n && Readable(img, width, n, option)
    ensures Readable(img, width, m, option)
    ensures m * Stride(width) <= |Records(img, width, option, n)|
    ensures Records(img, width, option, n)[..m * Stride(width)] == Records(img, width, option, m)
    decreases n
  {
    hide Records;
    MulMonotone(m, n, Stride(width));
    if m < n {
      RecordsPrefix(img, width, option, n - 1, m);
      RecordsStep(img, width, option, n);
      var r := Records(img, width, option, n);
      var front := Records(img, width, option, n - 1);
      assert r[..|front|] == front;
      assert r[..m * Stride(width)] == front[..m * Stride(width)];
    } else {
      assert Records(img, width, option, n)[..n * Stride(width)] == Records(img, width, option, n);
    }
  }

  /** Every record starts with the filter byte 0. */
  lemma RecordFilterByte(img: seq<seq<Pixel>>, width: nat, option: int, n: nat, y: nat)
    requires IsChannel(option) && Readable(img, width, n, option) && y < n
    ensures y * Stride(width) < |Records(img, width, option, n)|
    ensures Records(img, width, option, n)[y * Stride(width)] == 0
  {
    hide Records;
    RecordsPrefix(img, width, option, n, y + 1);
    RecordsStep(img, width, option, y + 1);
    StrideStep(width, y + 1);
    var r := Records(img, width, option, y + 1);
    assert r[y * Stride(width)] == 0;
    assert Records(img, width, option, n)[..(y + 1) * Stride(width)][y * Stride(width)] == 0;
  }

  /** Channel `i` of pixel `x` of record `y` is that channel of the isolated
      pixel: the selected value of `img[y][x]`, or 0. */
  lemma RecordChannel(img: seq<seq<Pixel>>, width: nat, option: int, n: nat, y: nat, x: nat, i: nat)
    requires IsChannel(option) && Covers(img, width, n) && y < n && x < width && i < 3
    ensures y * Stride(width) + 1 + 3 * x + i < |Records(img, width, option, n)|
    ensures Records(img, width, option, n)[y * Stride(width) + 1 + 3 * x + i]
         == Isolate(img[y][x], option).Channel(i)
  {
    hide Records, ChannelBytes;
    RecordsPrefix(img, width, option, n, y + 1);
    RecordsStep(img, width, option, y + 1);
    StrideStep(width, y + 1);
    var r := Records(img, width, option, y + 1);
    var cb := ChannelBytes(img[y], option, width);
    ChannelBytesAt(img[y], option, width, x, i);
    assert r[y * Stride(width) + 1 + 3 * x + i] == cb[3 * x + i];
    assert Records(img, width, option, n)[..(y + 1) * Stride(width)][y * Stride(width) + 1 + 3 * x + i]
        == r[y * Stride(width) + 1 + 3 * x + i];
  }

  /** An option other than 1, 2 or 3 gives `height` zero bytes: each record
      is its filter byte alone. */
  lemma {:induction false} NoChannelRecords(img: seq<seq<Pixel>>, width: nat, option: int, n: nat)
    requires !IsChannel(option)
    ensures Records(img, width, option, n) == seq(n, _ => 0)
  {
    if n > 0 {
      NoChannelRecords(img, width, option, n - 1);
    }
  }

  // ---------------------------------------------------------------------
  // Round trip through the decoder

  /** The records pass the decoder's preconditions: all present, all filter 0. */
  lemma RecordsDecodable(img: seq<seq<Pixel>>, width: nat, option: int, height: nat)
    requires IsChannel(option) && Covers(img, width, height)
    ensures Decodable(Records(img, width, option, height), width, height)
    ensures forall y :: 0 <= y < height ==>
              (RowFits(Records(img, width, option, height), width, y)
               && FilterType(Records(img, width, option, height), width, y) == 0)
  {
    var data := Records(img, width, option, height);
    forall y | 0 <= y < height
      ensures RowFits(data, width, y) && FilterType(data, width, y) == 0
    {
      RowsFit(data, width, y, height);
      RecordFilterByte(img, width, option, height, y);
    }
  }

  /** Decoding what `save_rgb` compresses, with the filter-0 branch of
      `read_chunks`, gives back exactly the selected channel of `img` and
      zeros in the other two. */
  lemma IsolationRoundTrip(img: seq<seq<Pixel>>, width: nat, option: int, height: nat)
    requires IsChannel(option) && Covers(img, width, height)
    ensures Decodable(Records(img, width, option, height), width, height)
    ensures DecodeRows(Records(img, width, option, height), width, height)
         == Isolated(img, width, height, option)
  {
    var data := Records(img, width, option, height);
    RecordsDecodable(img, width, option, height);
    var out: seq<seq<Pixel>> := DecodeRows(data, width, height);
    var want: seq<seq<Pixel>> := Isolated(img, width, height, option);
    forall y | 0 <= y < height
      ensures out[y] == want[y]
    {
      DecodedShape(data, width, height, y);
      forall x | 0 <= x < width
        ensures out[y][x] == want[y][x]
      {
        forall i | 0 <= i < 3
          ensures out[y][x].Channel(i) == want[y][x].Channel(i)
        {
          FilterNoneVerbatim(data, width, height, y, x, i);
          RecordChannel(img, width, option, height, y, x, i);
        }
        assert out[y][x].Channel(0) == want[y][x].Channel(0);
        assert out[y][x].Channel(1) == want[y][x].Channel(1);
        assert out[y][x].Channel(2) == want[y][x].Channel(2);
      }
    }
  }
}
