/** What the colour conversion and the averaging of colour samples compute, against ITU-R BT.601 as JFIF uses it:
    Y = 0.299 R + 0.587 G + 0.114 B, Cb = 128 + (B - Y) / 1.772, Cr = 128 + (R - Y) / 1.402. */
module Colour {
  import opened Basics
  import opened Bits
  import opened Picture

  /** 1000 times the luminance, exactly. */
  function ExactLuma(r: Byte, g: Byte, b: Byte): nat {
    299 * r + 587 * g + 114 * b
  }

  /** Rounded to nearest, but for the last digits of the constants. */
  lemma LumaIsStandard(r: Byte, g: Byte, b: Byte)
    ensures Abs(1000 * Luma(r, g, b) - ExactLuma(r, g, b)) <= 503
  {
  }

  /** The same for blue; only the value 255.5 of pure blue is cut to 255, and it is half a level off as well. */
  lemma CbIsStandard(r: Byte, g: Byte, b: Byte)
    ensures Abs(1772 * (Cb(r, g, b) - 128) - (1000 * b - ExactLuma(r, g, b))) <= 893
  {
  }

  lemma CrIsStandard(r: Byte, g: Byte, b: Byte)
    ensures Abs(1402 * (Cr(r, g, b) - 128) - (1000 * r - ExactLuma(r, g, b))) <= 708
  {
  }

  /** The inverse conversion R = Y + 1.402 (Cr - 128), B = Y + 1.772 (Cb - 128) and
      G = Y - 0.344136 (Cb - 128) - 0.714136 (Cr - 128) returns each channel to within 1.4 levels. */
  lemma ColourRecovered(r: Byte, g: Byte, b: Byte)
    ensures var y, cb, cr := Luma(r, g, b), Cb(r, g, b) - 128, Cr(r, g, b) - 128;
      && Abs(1000 * y + 1402 * cr - 1000 * r) <= 1211
      && Abs(1000 * y + 1772 * cb - 1000 * b) <= 1396
      && Abs(1000000 * y - 344136 * cb - 714136 * cr - 1000000 * g) <= 1042000
  {
    hide Luma, Cb, Cr;
    LumaIsStandard(r, g, b);
    CbIsStandard(r, g, b);
    CrIsStandard(r, g, b);
  }

  // ------------------------------------------------------------ averages

  /** The four pixels of a 2 by 2 square. */
  function SquareSum(p: Image, x: nat, y: nat, c: nat): nat
    requires IsImage(p)
  {
    Pixel(p, x, y, c) + Pixel(p, x + 1, y, c) + Pixel(p, x, y + 1, c) + Pixel(p, x + 1, y + 1, c)
  }

  /** A sample of a block of averages is a quarter of the sum of its square, rounded down and to nearest in turn,
      like the fields of a chess board. */
  lemma QuadIsMean(p: Image, row: nat, h: nat, c: nat, i: nat)
    requires IsImage(p) && i < 64
    ensures var sum := SquareSum(p, 16 * h + 2 * (i % 8), Top(p.sub, row) + 2 * (i / 8), c);
      var m := SampleAt(p, row, Quad(h, c), i) + 128;
      && ((i % 8 + i / 8) % 2 == 0 ==> sum - 3 <= 4 * m <= sum)
      && ((i % 8 + i / 8) % 2 == 1 ==> sum - 1 <= 4 * m <= sum + 2)
  {
    hide Pixel;
  }

  /** With half the resolution along the line only: half the sum of two pixels, rounded down. */
  lemma PairIsMean(p: Image, row: nat, h: nat, c: nat, i: nat)
    requires IsImage(p) && i < 64
    ensures var x, y := 16 * h + 2 * (i % 8), Top(p.sub, row) + i / 8;
      var sum, m := Pixel(p, x, y, c) + Pixel(p, x + 1, y, c), SampleAt(p, row, Pair(h, c), i) + 128;
      sum - 1 <= 2 * m <= sum
  {
    hide Pixel;
  }

  // ------------------------------------------------------------ grey pixels and edges

  /** Every grey sample three times, as red, green and blue. */
  function Tripled(line: seq<Byte>): (t: seq<Byte>)
    ensures |t| == 3 * |line|
  {
    seq(3 * |line|, i requires 0 <= i < 3 * |line| => line[i / 3])
  }

  /** A line of grey samples is coded like a line of pixels with equal channels. */
  lemma GreyLikeColour(width: nat, line: seq<Byte>, x: nat, c: nat)
    requires |line| >= width && x < width
    ensures IsScanline(1, width, line) && IsScanline(3, width, Tripled(line))
    ensures Convert(1, width, line, x, c) == Convert(3, width, Tripled(line), x, c)
  {
    hide Luma, Cb, Cr;
    GreyStaysGrey(line[x]);
    assert 3 * x / 3 == x && (3 * x + 1) / 3 == x && (3 * x + 2) / 3 == x;
  }

  /** Beyond the right and the lower edge the last column and the last line go on. */
  lemma EdgeRepeats(p: Image, x: nat, y: nat, c: nat)
    requires IsImage(p)
    ensures x >= p.width ==> Pixel(p, x, y, c) == Pixel(p, p.width - 1, y, c)
    ensures y >= |p.lines| ==> Pixel(p, x, y, c) == Pixel(p, x, |p.lines| - 1, c)
    ensures x < p.width && y < |p.lines| ==> Pixel(p, x, y, c) == Convert(p.bpp, p.width, p.lines[y], x, c)
  {
    hide Convert;
  }
}
