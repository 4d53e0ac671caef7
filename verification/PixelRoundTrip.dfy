/** From the pixels of an image to a file and back to pixels: every sample of every block of a decoded file is close
    to the sample that was coded. */
module PixelRoundTrip {
  import opened Basics
  import opened Bits
  import opened Dct
  import opened Quantise
  import opened Picture
  import opened Colour
  import opened Encoder
  import opened FileRoundTrip
  import opened Reconstruct
  import opened ToJpg
  import opened CutFile
  import D = FileDecoder

  /** What a decoder multiplies back, by position in the block. */
  function Dequantised(c: seq<int>, table: seq<nat>): (g: seq<int>)
    requires |c| == |table| == 64
    ensures |g| == 64
  {
    seq(64, r requires 0 <= r < 64 => ZagInverse(r); table[ScanIndex(r)] * c[ScanIndex(r)])
  }

  /** No step is larger than `2 h + 1`, so that half a step is at most `h`. */
  ghost predicate StepsAtMost(table: seq<nat>, h: nat) {
    |table| == 64 && forall i :: 0 <= i < 64 ==> 1 <= table[i] <= 2 * h + 1
  }

  lemma DequantisedNear(p: seq<int>, table: seq<nat>, h: nat)
    requires IsSamples(p) && StepsAtMost(table, h)
    ensures Near(Dequantised(Quantised(Forward(p), table), table), Forward(p), h)
  {
    hide Forward, Quantised, ScanIndex;
    QuantisedBlock(p, table);
    var c := Quantised(Forward(p), table);
    forall r | 0 <= r < 64 ensures Abs(Dequantised(c, table)[r] - Forward(p)[r]) <= h {
      assert HalfStep(Forward(p)[r], table[ScanIndex(r)], c[ScanIndex(r)]);
    }
  }

  // ------------------------------------------------------------ where a block stands in the scan

  function PlanLength(s: Subsampling): nat {
    |PlanComponents(s)|
  }

  lemma PlanIsThatLong(s: Subsampling, i: nat)
    ensures |McuPlan(s, i)| == PlanLength(s) > 0
  {
  }

  lemma {:induction false} RowBlocksAt(p: Image, quality: nat, row: nat, m: nat, i: nat, j: nat)
    requires IsImage(p) && 1 <= quality <= 100 && j < PlanLength(p.sub)
    ensures |RowBlocks(p, quality, row, m)| == m * PlanLength(p.sub)
    ensures |McuPlan(p.sub, i)| == PlanLength(p.sub)
    ensures i < m ==> 0 <= i * PlanLength(p.sub) + j < |RowBlocks(p, quality, row, m)|
    ensures i < m ==>
      RowBlocks(p, quality, row, m)[i * PlanLength(p.sub) + j] == BlockOf(p, quality, row, McuPlan(p.sub, i)[j])
    decreases m
  {
    hide BlockOf, McuPlan, PlanLength, IsImage;
    var n := PlanLength(p.sub);
    PlanIsThatLong(p.sub, i);
    if m > 0 {
      RowBlocksAt(p, quality, row, m - 1, i, j);
      PlanIsThatLong(p.sub, m - 1);
      assert m * n == (m - 1) * n + n;
      if i < m {
        MulOrder(i + 1, m, n);
        assert (i + 1) * n == i * n + n;
      }
    }
  }

  /** Block `j` of MCU `i` of MCU row `row` in the scan. */
  function BlockIndex(p: Image, row: nat, i: nat, j: nat): nat {
    row * (McusPerRow(p) * PlanLength(p.sub)) + (i * PlanLength(p.sub) + j)
  }

  lemma {:induction false} ImageBlocksAt(p: Image, quality: nat, rows: nat, row: nat, i: nat, j: nat)
    requires IsImage(p) && 1 <= quality <= 100 && i < McusPerRow(p) && j < PlanLength(p.sub)
    ensures |ImageBlocks(p, quality, rows)| == rows * (McusPerRow(p) * PlanLength(p.sub))
    ensures |McuPlan(p.sub, i)| == PlanLength(p.sub)
    ensures row < rows ==> BlockIndex(p, row, i, j) < |ImageBlocks(p, quality, rows)|
    ensures row < rows ==>
      ImageBlocks(p, quality, rows)[BlockIndex(p, row, i, j)] == BlockOf(p, quality, row, McuPlan(p.sub, i)[j])
    decreases rows
  {
    hide RowBlocks, BlockOf, McuPlan, PlanLength, IsImage, McusPerRow;
    var n := McusPerRow(p) * PlanLength(p.sub);
    PlanIsThatLong(p.sub, i);
    if rows > 0 {
      ImageBlocksAt(p, quality, rows - 1, row, i, j);
      RowBlocksAt(p, quality, rows - 1, McusPerRow(p), i, j);
      assert rows * n == (rows - 1) * n + n;
      if row < rows {
        MulOrder(row + 1, rows, n);
        assert (row + 1) * n == row * n + n;
      }
    }
  }

  // ------------------------------------------------------------ decoded samples

  /** Block `b` is complete: 64 coefficients and a table for its component. */
  predicate HasBlock(d: D.Decoding, b: nat) {
    && b < |d.blocks| && |d.blocks[b].coefficients| == 64
    && d.blocks[b].component < |d.planes| && |d.planes[d.blocks[b].component].quant| == 64
  }

  /** Sample `k` of block `b` of a decoded file as a decoder computes it with the tables it read, times 2^29. */
  function DecodedSample(d: D.Decoding, b: nat, k: nat): int
    requires HasBlock(d, b) && k < 64
  {
    Inverse(Dequantised(d.blocks[b].coefficients, d.planes[d.blocks[b].component].quant))[k]
  }

  /** The file can be decoded, and sample `k` of its block `b` differs from `sample` by less than `levels`. */
  ghost predicate Recovers(file: seq<Byte>, b: nat, k: nat, sample: int, levels: nat) {
    var r := D.DecodeFile(file);
    && r.Some? && HasBlock(r.value, b) && k < 64
    && Abs(DecodedSample(r.value, b, k) - SCALE * sample) < SCALE * levels
  }

  /** Every sample of every block, under every subsampling: what is decoded is within `7 h + 4` of the padded and
      averaged pixels, when no step is larger than `2 h + 1`. */
  lemma BlockRecovered(p: Image, quality: nat, row: nat, i: nat, j: nat, k: nat, h: nat)
    requires IsImage(p) && 1 <= quality <= 100 && p.width < 65536 && |p.lines| < 65536
    requires row < McuRows(p) && i < McusPerRow(p) && j < |McuPlan(p.sub, i)| && k < 64
    requires StepsAtMost(Table(McuPlan(p.sub, i)[j].component > 0, quality), h)
    ensures Recovers(File(p, quality), BlockIndex(p, row, i, j), k, Samples(p, row, McuPlan(p.sub, i)[j])[k], 7 * h + 4)
  {
    hide D.DecodeFile, File, Forward, Samples, Table, Quantised, Dequantised, Inverse, ImageBlocks,
      McusPerRow, BlockIndex;
    var b := McuPlan(p.sub, i)[j];
    DecodeUndoesEncode(p, quality);
    PlanIsThatLong(p.sub, i);
    ImageBlocksAt(p, quality, McuRows(p), row, i, j);
    PlanIsInPlan(p.sub, i, j);
    SamplesRange(p, row, b);
    var samples, table := Samples(p, row, b), Table(b.component > 0, quality);
    DequantisedNear(samples, table, h);
    SamplesRecovered(samples, Dequantised(Quantised(Forward(samples), table), table), k, h);
  }

  // ------------------------------------------------------------ where a pixel stands

  /** Within an MCU the luminance blocks come line by line, then one block of each colour component. */
  function LumaBlock(s: Subsampling, x: nat, y: nat): nat {
    McuX(s) / 8 * (y % McuY(s) / 8) + x % McuX(s) / 8
  }

  function ColourBlock(s: Subsampling, c: nat): int {
    PlanLength(s) - 3 + c
  }

  /** A sample within its block. */
  function InBlock(x: nat, y: nat): (k: nat)
    ensures k < 64
  {
    8 * (y % 8) + x % 8
  }

  /** The MCU of a pixel. */
  function Across(s: Subsampling, x: nat): nat {
    x / McuX(s)
  }

  function Down(s: Subsampling, y: nat): nat {
    y / McuY(s)
  }

  lemma LumaBlockIs(s: Subsampling, x: nat, y: nat)
    ensures var plan, j := McuPlan(s, Across(s, x)), LumaBlock(s, x, y);
      j < |plan| && plan[j] == Direct(x / 8, y % McuY(s) / 8, 0)
  {
  }

  lemma LinePart(s: Subsampling, y: nat)
    ensures Top(s, Down(s, y)) + 8 * (y % McuY(s) / 8) + y % 8 == y
  {
    if s.H2V2? {
      var a, r := y / 16, y % 16;
      DivIs(y, 8, 2 * a + r / 8, r % 8);
    }
  }

  lemma DirectSample(p: Image, x: nat, y: nat, c: nat)
    requires IsImage(p)
    ensures Samples(p, Down(p.sub, y), Direct(x / 8, y % McuY(p.sub) / 8, c))[InBlock(x, y)] == Pixel(p, x, y, c) - 128
  {
    hide Pixel, IsImage, InBlock, Top, McuY, Down;
    BlockParts(x, y);
    LinePart(p.sub, y);
    assert 8 * (x / 8) + x % 8 == x;
  }

  lemma LumaPlace(p: Image, x: nat, y: nat)
    requires IsImage(p)
    ensures var i, row, j := Across(p.sub, x), Down(p.sub, y), LumaBlock(p.sub, x, y);
      && j < |McuPlan(p.sub, i)| && McuPlan(p.sub, i)[j].component == 0
      && Samples(p, row, McuPlan(p.sub, i)[j])[InBlock(x, y)] == Pixel(p, x, y, 0) - 128
  {
    hide Pixel, IsImage, McuPlan, LumaBlock, Samples, InBlock, Across, Down, McuY;
    LumaBlockIs(p.sub, x, y);
    DirectSample(p, x, y, 0);
  }

  /** With full resolution a colour sample stands where the luminance sample does. */
  lemma FullColourPlace(p: Image, x: nat, y: nat, c: nat)
    requires IsImage(p) && p.sub.H1V1? && 1 <= c <= 2
    ensures var plan := McuPlan(p.sub, x / 8);
      && 0 <= ColourBlock(p.sub, c) < |plan| && plan[ColourBlock(p.sub, c)].component == c
      && Samples(p, y / 8, plan[ColourBlock(p.sub, c)])[InBlock(x, y)] == Pixel(p, x, y, c) - 128
  {
    hide Pixel, IsImage, Samples, InBlock;
    DirectSample(p, x, y, c);
  }

  /** With half the resolution both ways it is a quarter of the sum of a 2 by 2 square, off by less than a level. */
  lemma QuarterColourPlace(p: Image, x: nat, y: nat, c: nat)
    requires IsImage(p) && p.sub.H2V2? && 1 <= c <= 2
    ensures var plan := McuPlan(p.sub, x / 16);
      && 0 <= ColourBlock(p.sub, c) < |plan| && plan[ColourBlock(p.sub, c)].component == c
      && Abs(4 * (Samples(p, y / 16, plan[ColourBlock(p.sub, c)])[InBlock(x / 2, y / 2)] + 128)
             - SquareSum(p, x / 2 * 2, y / 2 * 2, c)) <= 3
  {
    hide Pixel, IsImage, SampleAt, SquareSum, InBlock, McuPlan;
    QuadBlockIs(p.sub, x / 16, c);
    BlockParts(x / 2, y / 2);
    EvenPart(x);
    EvenPart(y);
    QuadIsMean(p, y / 16, x / 16, c, InBlock(x / 2, y / 2));
  }

  lemma QuadBlockIs(s: Subsampling, i: nat, c: nat)
    requires s.H2V2? && 1 <= c <= 2
    ensures 0 <= ColourBlock(s, c) < |McuPlan(s, i)| && McuPlan(s, i)[ColourBlock(s, c)] == Quad(i, c)
  {
  }

  lemma BlockParts(x: nat, y: nat)
    ensures InBlock(x, y) / 8 == y % 8 && InBlock(x, y) % 8 == x % 8
  {
  }

  lemma EvenPart(v: nat)
    ensures 16 * (v / 16) + 2 * (v / 2 % 8) == v / 2 * 2
  {
    var a, r := v / 16, v % 16;
    DivIs(v, 2, 8 * a + r / 2, r % 2);
    DivIs(8 * a + r / 2, 8, a, r / 2);
  }

  /** With half the resolution along the line it is half the sum of two pixels, off by half a level. */
  lemma HalfColourPlace(p: Image, x: nat, y: nat, c: nat)
    requires IsImage(p) && p.sub.H2V1? && 1 <= c <= 2
    ensures var plan := McuPlan(p.sub, x / 16);
      && 0 <= ColourBlock(p.sub, c) < |plan| && plan[ColourBlock(p.sub, c)].component == c
      && Abs(2 * (Samples(p, y / 8, plan[ColourBlock(p.sub, c)])[InBlock(x / 2, y)] + 128)
             - (Pixel(p, x / 2 * 2, y, c) + Pixel(p, x / 2 * 2 + 1, y, c))) <= 1
  {
    hide Pixel, IsImage, SampleAt, InBlock, McuPlan;
    PairBlockIs(p.sub, x / 16, c);
    BlockParts(x / 2, y);
    EvenPart(x);
    PairIsMean(p, y / 8, x / 16, c, InBlock(x / 2, y));
  }

  lemma PairBlockIs(s: Subsampling, i: nat, c: nat)
    requires s.H2V1? && 1 <= c <= 2
    ensures 0 <= ColourBlock(s, c) < |McuPlan(s, i)| && McuPlan(s, i)[ColourBlock(s, c)] == Pair(i, c)
  {
  }

  lemma McuOfPixel(p: Image, x: nat, y: nat)
    requires IsImage(p) && x < p.width && y < |p.lines|
    ensures Across(p.sub, x) < McusPerRow(p) && Down(p.sub, y) < McuRows(p)
  {
  }

  /** The luminance of every pixel, under every subsampling, comes back at its place to within `7 h + 4` levels. */
  lemma LumaRecovered(p: Image, quality: nat, x: nat, y: nat, h: nat)
    requires IsImage(p) && 1 <= quality <= 100 && p.width < 65536 && |p.lines| < 65536
    requires x < p.width && y < |p.lines| && StepsAtMost(Table(false, quality), h)
    ensures Recovers(File(p, quality), BlockIndex(p, Down(p.sub, y), Across(p.sub, x), LumaBlock(p.sub, x, y)),
                     InBlock(x, y), Pixel(p, x, y, 0) - 128, 7 * h + 4)
  {
    hide Recovers, File, Table, Samples, Pixel, StepsAtMost, IsImage, BlockIndex, McuRows, McusPerRow, McuPlan, InBlock,
      LumaBlock, Across, Down;
    McuOfPixel(p, x, y);
    LumaPlace(p, x, y);
    BlockRecovered(p, quality, Down(p.sub, y), Across(p.sub, x), LumaBlock(p.sub, x, y), InBlock(x, y), h);
  }

  /** Each colour component of every 2 by 2 square of the subsampling that `fmt2jpg` uses: what is decoded is within
      `7 h + 4` levels of a number that is the mean of the square to within 3 / 4. */
  lemma ColourRecovered(p: Image, quality: nat, x: nat, y: nat, c: nat, h: nat) returns (mean: int)
    requires IsImage(p) && p.sub.H2V2? && 1 <= quality <= 100 && p.width < 65536 && |p.lines| < 65536
    requires x < p.width && y < |p.lines| && 1 <= c <= 2 && StepsAtMost(Table(true, quality), h)
    ensures 0 <= ColourBlock(p.sub, c)
    ensures Abs(4 * (mean + 128) - SquareSum(p, x / 2 * 2, y / 2 * 2, c)) <= 3
    ensures Recovers(File(p, quality), BlockIndex(p, y / 16, x / 16, ColourBlock(p.sub, c)),
      InBlock(x / 2, y / 2), mean,
                     7 * h + 4)
  {
    hide Recovers, File, Table, Samples, Pixel, StepsAtMost, IsImage, BlockIndex, McuRows, McusPerRow, McuPlan, InBlock,
      SquareSum, ColourBlock;
    McuOfPixel(p, x, y);
    QuarterColourPlace(p, x, y, c);
    BlockRecovered(p, quality, y / 16, x / 16, ColourBlock(p.sub, c), InBlock(x / 2, y / 2), h);
    mean := Samples(p, y / 16, McuPlan(p.sub, x / 16)[ColourBlock(p.sub, c)])[InBlock(x / 2, y / 2)];
  }

  // ------------------------------------------------------------ grey images

  /** The block and the sample of a pixel of a grey image, whose scan has one component. */
  function GreyBlock(p: Image, x: nat, y: nat): nat {
    y / 8 * CeilDiv(p.width, 8) + x / 8
  }

  function GreySample(x: nat, y: nat): nat {
    8 * (y % 8) + x % 8
  }

  /** The place of a pixel of a grey image: the MCU and the sample. */
  lemma GreyPlace(p: Image, x: nat, y: nat)
    requires IsImage(p) && p.sub.YOnly? && x < p.width && y < |p.lines|
    ensures y / 8 < McuRows(p) && x / 8 < McusPerRow(p) && McuPlan(p.sub, x / 8) == [Direct(x / 8, 0, 0)]
    ensures BlockIndex(p, y / 8, x / 8, 0) == GreyBlock(p, x, y)
    ensures GreySample(x, y) < 64
    ensures Samples(p, y / 8, Direct(x / 8, 0, 0))[GreySample(x, y)] == Pixel(p, x, y, 0) - 128
  {
    hide Pixel, IsImage;
    var k := 8 * (y % 8) + x % 8;
    assert k / 8 == y % 8 && k % 8 == x % 8;
  }

  /** Every pixel of a grey image, at its place in the scan of one component: what is decoded is within `7 h + 4` of
      the source pixel. */
  lemma GreyPixelRecovered(p: Image, quality: nat, x: nat, y: nat, h: nat)
    requires IsImage(p) && p.sub.YOnly? && 1 <= quality <= 100 && p.width < 65536 && |p.lines| < 65536
    requires x < p.width && y < |p.lines| && StepsAtMost(Table(false, quality), h)
    ensures Recovers(File(p, quality), GreyBlock(p, x, y), GreySample(x, y), Pixel(p, x, y, 0) - 128, 7 * h + 4)
  {
    hide Recovers, File, Table, Samples, Pixel, StepsAtMost, IsImage, BlockIndex, McuRows, McusPerRow, McuPlan,
      GreyBlock, GreySample;
    GreyPlace(p, x, y);
    BlockRecovered(p, quality, y / 8, x / 8, 0, GreySample(x, y), h);
  }

  lemma FinestSteps(chroma: bool)
    ensures StepsAtMost(Table(chroma, 100), 0)
  {
    hide StdQuant;
  }

  /** At quality 100 every pixel of a grey image comes back to less than four levels. */
  lemma FinestGreyPixel(p: Image, x: nat, y: nat)
    requires IsImage(p) && p.sub.YOnly? && p.width < 65536 && |p.lines| < 65536 && x < p.width && y < |p.lines|
    ensures Recovers(File(p, 100), GreyBlock(p, x, y), GreySample(x, y), Pixel(p, x, y, 0) - 128, 4)
  {
    hide Recovers, File, Table, Pixel, IsImage, StepsAtMost, GreyBlock, GreySample;
    FinestSteps(false);
    GreyPixelRecovered(p, 100, x, y, 0);
  }

  // ------------------------------------------------------------ frame buffers

  lemma {:induction false} LinesAt(src: seq<Byte>, format: PixelFormat, width: nat, n: nat, y: nat)
    requires y < n && |src| >= Stride(format, width) * n
    ensures 0 <= Stride(format, width) * y <= Stride(format, width) * y + Stride(format, width) <= |src|
    ensures LinesOf(src, format, width, n)[y]
         == SourceLine(format, src[Stride(format, width) * y..Stride(format, width) * y + Stride(format, width)], width)
    decreases n
  {
    hide Stride, SourceLine;
    RowFits(Stride(format, width), y, n);
    RowFits(Stride(format, width), n - 1, n);
    if y < n - 1 {
      LinesAt(src, format, width, n - 1, y);
    }
  }

  lemma GreyFramePixel(src: seq<Byte>, width: nat, height: nat, x: nat, y: nat)
    requires |src| >= width * height && x < width && y < height
    ensures 0 <= width * y + x < |src|
    ensures var p := PictureOf(src, Grayscale, width, height);
      IsImage(p) && p.sub.YOnly? && p.width == width && |p.lines| == height
    ensures Pixel(PictureOf(src, Grayscale, width, height), x, y, 0) == src[width * y + x]
  {
    hide LinesOf;
    LinesAt(src, Grayscale, width, height, y);
  }

  /** `fmt2jpg` on a grey frame of at most 313 blocks: every byte of the frame can be computed from the file it
      returns, to within `7 h + 4` levels. */
  lemma GreyFrameRecovered(s: seq<Byte>, src: seq<Byte>, width: nat, height: nat, quality: nat, x: nat, y: nat, h: nat)
    requires |src| >= width * height && width < 65536 && height < 65536 && x < width && y < height
    requires IsCutFile(s, src, Grayscale, width, height, quality) && FrameBlocks(Grayscale, width, height) <= 313
    requires StepsAtMost(Table(false, Clamped(quality)), h)
    ensures 0 <= width * y + x < |src|
    ensures Recovers(s, GreyBlock(PictureOf(src, Grayscale, width, height), x, y), GreySample(x, y),
                     src[width * y + x] as int - 128, 7 * h + 4)
  {
    hide Recovers, File, Table, Pixel, IsImage, StepsAtMost, GreyBlock, GreySample, PictureOf,
      IsCutFile, FrameBlocks, Clamped;
    GreyFramePixel(src, width, height, x, y);
    SmallFrameUncut(s, src, Grayscale, width, height, quality);
    GreyPixelRecovered(PictureOf(src, Grayscale, width, height), Clamped(quality), x, y, h);
  }

  // ------------------------------------------------------------ colour frame buffers

  /** Red, green and blue of pixel `i` of a colour frame: three bytes, blue first, or five, six and five bits of a
      number of two bytes, the high one first. */
  function FrameColour(src: seq<Byte>, format: PixelFormat, i: nat): (Byte, Byte, Byte)
    requires !format.Grayscale? && |src| >= BytesPerPixel(format) * (i + 1)
  {
    if format.Rgb888? then (src[3 * i + 2], src[3 * i + 1], src[3 * i])
    else
      var v := 256 * (src[2 * i] as nat) + src[2 * i + 1] as nat;
      (v / 2048 * 8, v / 32 % 64 * 4, v % 32 * 8)
  }

  lemma RowColour(row: seq<Byte>, format: PixelFormat, width: nat, x: nat)
    requires !format.Grayscale? && |row| == Stride(format, width) && x < width
    ensures |row| >= BytesPerPixel(format) * (x + 1)
    ensures var line, (r, g, b) := SourceLine(format, row, width), FrameColour(row, format, x);
      line[3 * x] == r && line[3 * x + 1] == g && line[3 * x + 2] == b
  {
    hide SourceLine;
    if format.Rgb888? {
      RgbAt(row, width, x);
    } else {
      Rgb565At(row, width, x);
      TwoBytes(row[2 * x], row[2 * x + 1]);
    }
  }

  lemma TwoBytes(hi: Byte, lo: Byte)
    ensures var v := 256 * (hi as nat) + lo as nat;
      v / 2048 * 8 == hi / 8 * 8 && v / 32 % 64 * 4 == hi % 8 * 32 + lo / 32 * 4 && v % 32 * 8 == lo % 32 * 8
  {
    var v, a, b, c, d := 256 * (hi as nat) + lo as nat, hi / 8, hi % 8, lo / 32, lo % 32;
    DivIs(v, 2048, a, 256 * b + lo);
    DivIs(v, 32, 64 * a + (8 * b + c), d);
    DivIs(64 * a + (8 * b + c), 64, a, 8 * b + c);
  }

  lemma ColourOfRow(src: seq<Byte>, format: PixelFormat, width: nat, x: nat, y: nat, start: nat)
    requires !format.Grayscale? && x < width && start == BytesPerPixel(format) * (width * y)
    requires start + Stride(format, width) <= |src|
    ensures 0 <= width * y + x && |src| >= BytesPerPixel(format) * (width * y + x + 1)
    ensures FrameColour(src[start..start + Stride(format, width)], format, x) == FrameColour(src, format, width * y + x)
  {
    assert 0 <= width * y;
  }

  /** The components of a pixel of a colour frame are those of its red, green and blue. */
  lemma ColourFramePixel(src: seq<Byte>, format: PixelFormat, width: nat, height: nat, x: nat, y: nat)
    requires !format.Grayscale? && |src| >= Stride(format, width) * height && x < width && y < height
    ensures 0 <= width * y + x && |src| >= BytesPerPixel(format) * (width * y + x + 1)
    ensures var p := PictureOf(src, format, width, height);
      IsImage(p) && p.sub.H2V2? && p.width == width && |p.lines| == height
    ensures var p, (r, g, b) := PictureOf(src, format, width, height), FrameColour(src, format, width * y + x);
      Pixel(p, x, y, 0) == Luma(r, g, b) && Pixel(p, x, y, 1) == Cb(r, g, b) && Pixel(p, x, y, 2) == Cr(r, g, b)
  {
    hide LinesOf, SourceLine, FrameColour, Luma, Cb, Cr, Stride;
    var l := Stride(format, width);
    StrideOf(format, width, []);
    LinesAt(src, format, width, height, y);
    RowStart(BytesPerPixel(format), width, y);
    RowColour(src[l * y..l * y + l], format, width, x);
    ColourOfRow(src, format, width, x, y, l * y);
  }

  lemma RowStart(n: nat, width: nat, y: nat)
    ensures n * width * y == n * (width * y)
  {
  }

  /** `fmt2jpg` on a colour frame of at most 313 blocks: from the file it returns the luminance
      0.299 R + 0.587 G + 0.114 B of every pixel can be computed to within `7 h + 4` levels of a number that is half a
      level off. */
  lemma ColourFrameLuma(s: seq<Byte>, src: seq<Byte>, format: PixelFormat, width: nat, height: nat, quality: nat,
                        x: nat, y: nat, h: nat) returns (luma: int)
    requires !format.Grayscale? && |src| >= Stride(format, width) * height && width < 65536 && height < 65536
    requires x < width && y < height
    requires IsCutFile(s, src, format, width, height, quality) && FrameBlocks(format, width, height) <= 313
    requires StepsAtMost(Table(false, Clamped(quality)), h)
    ensures 0 <= width * y + x && |src| >= BytesPerPixel(format) * (width * y + x + 1)
    ensures var (r, g, b) := FrameColour(src, format, width * y + x); Abs(1000 * luma - ExactLuma(r, g, b)) <= 503
    ensures var p := PictureOf(src, format, width, height);
      Recovers(s, BlockIndex(p, y / 16, x / 16, LumaBlock(p.sub, x, y)), InBlock(x, y), luma - 128, 7 * h + 4)
  {
    hide Recovers, File, Table, Pixel, IsImage, StepsAtMost, BlockIndex, LumaBlock, InBlock, PictureOf, IsCutFile,
      FrameBlocks, Clamped, FrameColour, Stride, Luma, Cb, Cr;
    var p := PictureOf(src, format, width, height);
    ColourFramePixel(src, format, width, height, x, y);
    SmallFrameUncut(s, src, format, width, height, quality);
    LumaRecovered(p, Clamped(quality), x, y, h);
    var (r, g, b) := FrameColour(src, format, width * y + x);
    LumaIsStandard(r, g, b);
    luma := Luma(r, g, b);
  }
}
