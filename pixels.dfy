/** Pixels of the 8-bit RGB profile and the Paeth predictor
    (section 6.6 of RFC 2083). */
module Pixels {
  import opened Bytes

  /** One entry `[R, G, B]` of a row of `img`. */
  datatype Pixel = Pixel(r: byte, g: byte, b: byte)
  {
    /** `pixel[i]`. */
    function Channel(i: nat): byte
      requires i < 3
    {
      if i == 0 then r else if i == 1 then g else b
    }
  }

  /** The `[0, 0, 0]` used outside the image. */
  const Zero: Pixel := Pixel(0, 0, 0)

  function Abs(x: int): nat {
    if x < 0 then -x else x
  }

  /** `paeth_predictor(a, b, c)`: a is the byte to the left, b the byte
      above, c the byte to the upper left. */
  function PaethPredictor(a: int, b: int, c: int): (r: int)
    ensures r == a || r == b || r == c
  {
    var p := a + b - c;
    var pa := Abs(p - a);
    var pb := Abs(p - b);
    var pc := Abs(p - c);
    if pa <= pb && pa <= pc then a
    else if pb <= pc then b
    else c
  }

  /** The Paeth predictor picks, among a, b and c, one nearest to the
      estimate `a + b - c`, and among equally near candidates the first in
      the order a, b, c. */
  lemma PaethNearestFirst(a: int, b: int, c: int)
    ensures var p, r := a + b - c, PaethPredictor(a, b, c);
      && Abs(p - r) <= Abs(p - a) && Abs(p - r) <= Abs(p - b) && Abs(p - r) <= Abs(p - c)
      && (Abs(p - a) == Abs(p - r) ==> r == a)
      && (Abs(p - b) == Abs(p - r) ==> r == a || r == b)
  {
  }
}
