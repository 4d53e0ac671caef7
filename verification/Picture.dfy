/** What the encoder codes: the source image as padded planes, cut into blocks in scan order. */
module Picture {
  import opened Basics
  import opened Bits
  import opened Dct
  import opened Quantise
  import opened Scan

  datatype Subsampling = YOnly | H1V1 | H2V1 | H2V2

  /** Size of an MCU in pixels, number of components. */
  function McuX(s: Subsampling): nat {
    if s.H2V1? || s.H2V2? then 16 else 8
  }

  function McuY(s: Subsampling): nat {
    if s.H2V2? then 16 else 8
  }

  /** The first pixel line of MCU row `row`, and the number of complete MCU rows in `n` lines. */
  function Top(s: Subsampling, row: nat): nat {
    if s.H2V2? then 16 * row else 8 * row
  }

  function CompleteRows(s: Subsampling, n: nat): nat {
    if s.H2V2? then n / 16 else n / 8
  }

  function ComponentCount(s: Subsampling): nat {
    if s.YOnly? then 1 else 3
  }

  /** Scanlines of `width` pixels of `bpp` bytes.  With `bpp == 3` a pixel is R, G, B; otherwise the
      first `width` bytes are grey samples. */
  datatype Image = Image(sub: Subsampling, width: nat, bpp: nat, lines: seq<seq<Byte>>)

  predicate IsScanline(bpp: nat, width: nat, line: seq<Byte>) {
    |line| >= if bpp == 3 then 3 * width else width
  }

  ghost predicate AreScanlines(p: Image) {
    && p.width > 0
    && forall i :: 0 <= i < |p.lines| ==> IsScanline(p.bpp, p.width, p.lines[i])
  }

  ghost predicate IsImage(p: Image) {
    AreScanlines(p) && |p.lines| > 0
  }

  function Luma(r: Byte, g: Byte, b: Byte): Byte {
    (r * 19595 + g * 38470 + b * 7471 + 32768) / 65536
  }

  function ClampByte(i: int): Byte {
    if i < 0 then 0 else if i > 255 then 255 else i
  }

  function Cb(r: Byte, g: Byte, b: Byte): Byte {
    ClampByte(128 + (r * -11059 + g * -21709 + b * 32768 + 32768) / 65536)
  }

  function Cr(r: Byte, g: Byte, b: Byte): Byte {
    ClampByte(128 + (r * 32768 + g * -27439 + b * -5329 + 32768) / 65536)
  }

  /** Component `c` of pixel `x` of a scanline. */
  function Convert(bpp: nat, width: nat, line: seq<Byte>, x: nat, c: nat): Byte
    requires IsScanline(bpp, width, line) && x < width
  {
    if bpp == 3 then
      var r, g, b := line[3 * x], line[3 * x + 1], line[3 * x + 2];
      if c == 0 then Luma(r, g, b) else if c == 1 then Cb(r, g, b) else Cr(r, g, b)
    else if c == 0 then line[x] else 128
  }

  /** Equal red, green and blue give that luminance and no colour; the grey-scale path stores the same 128. */
  lemma GreyStaysGrey(v: Byte)
    ensures Luma(v, v, v) == v && Cb(v, v, v) == 128 && Cr(v, v, v) == 128
  {
    assert v * 19595 + v * 38470 + v * 7471 == 65536 * v;
    assert v * -11059 + v * -21709 + v * 32768 == 0;
    assert v * 32768 + v * -27439 + v * -5329 == 0;
  }

  /** Pixel (x, y), the last column and the last line repeated beyond the edges. */
  function Pixel(p: Image, x: nat, y: nat, c: nat): Byte
    requires IsImage(p)
  {
    Convert(p.bpp, p.width, p.lines[Min(y, |p.lines| - 1)], Min(x, p.width - 1), c)
  }

  function McusPerRow(p: Image): nat {
    CeilDiv(p.width, McuX(p.sub))
  }

  function McuRows(p: Image): nat {
    CeilDiv(|p.lines|, McuY(p.sub))
  }

  /** A block of an MCU row: samples as they are, or averages over 2x2 or 2x1 pixels. */
  datatype BlockSource =
    | Direct(h: nat, v: nat, component: nat)
    | Quad(h: nat, component: nat)
    | Pair(h: nat, component: nat)

  /** 0 and 2 in turn, along a line and down a column of a block. */
  function Bias(n: nat): (bias: nat)
    ensures bias <= 2
  {
    if n % 2 == 0 then 0 else 2
  }

  /** The rounded mean of four samples; `bias` 2 rounds to nearest, 0 rounds down. */
  function Mean4(a: Byte, b: Byte, c: Byte, d: Byte, bias: nat): (m: Byte)
    requires bias <= 2
  {
    (a + b + c + d + bias) / 4
  }

  /** Sample `i` of a block of MCU row `row`, shifted to be signed. */
  function SampleAt(p: Image, row: nat, b: BlockSource, i: nat): int
    requires IsImage(p) && i < 64
  {
    var top := Top(p.sub, row);
    match b
    case Direct(h, v, c) => Pixel(p, 8 * h + i % 8, top + 8 * v + i / 8, c) - 128
    case Quad(h, c) =>
      var x, y := 16 * h + 2 * (i % 8), top + 2 * (i / 8);
      Mean4(Pixel(p, x, y, c), Pixel(p, x + 1, y, c), Pixel(p, x, y + 1, c), Pixel(p, x + 1, y + 1, c),
        Bias(i % 8 + i / 8)) - 128
    case Pair(h, c) =>
      var x, y := 16 * h + 2 * (i % 8), top + i / 8;
      (Pixel(p, x, y, c) + Pixel(p, x + 1, y, c)) / 2 - 128
  }

  function Samples(p: Image, row: nat, b: BlockSource): (s: seq<int>)
    requires IsImage(p)
    ensures |s| == 64
  {
    seq(64, i requires 0 <= i < 64 => SampleAt(p, row, b, i))
  }

  lemma SamplesRange(p: Image, row: nat, b: BlockSource)
    requires IsImage(p)
    ensures IsSamples(Samples(p, row, b))
  {
    hide Pixel;
  }

  /** The blocks of MCU `i`, in the order of section A.2.3 of T.81. */
  function McuPlan(s: Subsampling, i: nat): seq<BlockSource> {
    match s
    case YOnly => [Direct(i, 0, 0)]
    case H1V1 => [Direct(i, 0, 0), Direct(i, 0, 1), Direct(i, 0, 2)]
    case H2V1 => [Direct(2 * i, 0, 0), Direct(2 * i + 1, 0, 0), Pair(i, 1), Pair(i, 2)]
    case H2V2 => [Direct(2 * i, 0, 0), Direct(2 * i + 1, 0, 0), Direct(2 * i, 1, 0), Direct(2 * i + 1, 1, 0),
                  Quad(i, 1), Quad(i, 2)]
  }

  /** One quantised block. */
  function BlockOf(p: Image, quality: nat, row: nat, b: BlockSource): (r: Block)
    requires IsImage(p) && 1 <= quality <= 100
  {
    Block(b.component, Quantised(Forward(Samples(p, row, b)), Table(b.component > 0, quality)))
  }

  lemma BlockIsCodable(p: Image, quality: nat, row: nat, b: BlockSource)
    requires IsImage(p) && 1 <= quality <= 100 && b.component < 3
    ensures IsBlock(BlockOf(p, quality, row, b))
  {
    hide Samples, Forward, Quantised, Table, ScanIndex;
    SamplesRange(p, row, b);
    QuantisedBlock(Samples(p, row, b), Table(b.component > 0, quality));
  }

  function BlocksOf(p: Image, quality: nat, row: nat, plan: seq<BlockSource>): (s: seq<Block>)
    requires IsImage(p) && 1 <= quality <= 100
    ensures |s| == |plan|
  {
    seq(|plan|, i requires 0 <= i < |plan| => BlockOf(p, quality, row, plan[i]))
  }

  /** The blocks of the first `n` MCUs of a row. */
  function RowBlocks(p: Image, quality: nat, row: nat, n: nat): seq<Block>
    requires IsImage(p) && 1 <= quality <= 100
  {
    if n == 0 then [] else RowBlocks(p, quality, row, n - 1) + BlocksOf(p, quality, row, McuPlan(p.sub, n - 1))
  }

  /** The blocks of the first `rows` MCU rows. */
  function ImageBlocks(p: Image, quality: nat, rows: nat): seq<Block>
    requires IsImage(p) && 1 <= quality <= 100
  {
    if rows == 0 then []
    else ImageBlocks(p, quality, rows - 1) + RowBlocks(p, quality, rows - 1, McusPerRow(p))
  }

  /** The blocks of the first `rows` MCU rows of an image that may have no line yet. */
  ghost function BlocksSoFar(p: Image, quality: nat, rows: nat): seq<Block>
    requires AreScanlines(p) && 1 <= quality <= 100
  {
    if |p.lines| == 0 then [] else ImageBlocks(p, quality, rows)
  }

  /** The whole image: also the MCU row that the last lines do not fill. */
  ghost function AllBlocks(p: Image, quality: nat): seq<Block>
    requires AreScanlines(p) && 1 <= quality <= 100
  {
    BlocksSoFar(p, quality, McuRows(p))
  }

  // ------------------------------------------------------------ more lines change nothing above them

  ghost predicate Extends(p: Image, q: Image) {
    IsImage(p) && IsImage(q) && q == p.(lines := q.lines) && p.lines <= q.lines
  }

  predicate InPlan(s: Subsampling, b: BlockSource) {
    && b.component < ComponentCount(s)
    && (b.Direct? ==> 8 * b.v + 8 <= McuY(s))
    && (b.Quad? ==> McuY(s) == 16)
  }

  lemma PlanIsInPlan(s: Subsampling, i: nat, k: nat)
    requires k < |McuPlan(s, i)|
    ensures InPlan(s, McuPlan(s, i)[k])
  {
  }

  lemma BlockStable(p: Image, q: Image, quality: nat, row: nat, b: BlockSource)
    requires Extends(p, q) && 1 <= quality <= 100 && InPlan(p.sub, b)
    requires Top(p.sub, row + 1) <= |p.lines|
    ensures BlockOf(p, quality, row, b) == BlockOf(q, quality, row, b)
  {
    hide SampleAt, Forward, Quantised, Table, IsScanline;
    forall i | 0 <= i < 64 ensures SampleAt(p, row, b, i) == SampleAt(q, row, b, i) {
      SampleStable(p, q, row, b, i);
    }
    assert Samples(p, row, b) == Samples(q, row, b);
  }

  lemma SampleStable(p: Image, q: Image, row: nat, b: BlockSource, i: nat)
    requires Extends(p, q) && InPlan(p.sub, b) && i < 64 && Top(p.sub, row + 1) <= |p.lines|
    ensures SampleAt(p, row, b, i) == SampleAt(q, row, b, i)
  {
    hide Convert, IsScanline, Mean4;
  }

  lemma {:induction false} RowStable(p: Image, q: Image, quality: nat, row: nat, n: nat)
    requires Extends(p, q) && 1 <= quality <= 100 && Top(p.sub, row + 1) <= |p.lines|
    ensures RowBlocks(p, quality, row, n) == RowBlocks(q, quality, row, n)
  {
    hide BlockOf, InPlan;
    if n > 0 {
      RowStable(p, q, quality, row, n - 1);
      var plan := McuPlan(p.sub, n - 1);
      forall k | 0 <= k < |plan| ensures BlockOf(p, quality, row, plan[k]) == BlockOf(q, quality, row, plan[k]) {
        PlanIsInPlan(p.sub, n - 1, k);
        BlockStable(p, q, quality, row, plan[k]);
      }
      assert BlocksOf(p, quality, row, plan) == BlocksOf(q, quality, row, plan);
    }
  }

  lemma {:induction false} ImageStable(p: Image, q: Image, quality: nat, rows: nat)
    requires Extends(p, q) && 1 <= quality <= 100 && Top(p.sub, rows) <= |p.lines|
    ensures ImageBlocks(p, quality, rows) == ImageBlocks(q, quality, rows)
  {
    hide RowBlocks;
    if rows > 0 {
      ImageStable(p, q, quality, rows - 1);
      RowStable(p, q, quality, rows - 1, McusPerRow(p));
    }
  }

  lemma {:induction false} RowIsCodable(p: Image, quality: nat, row: nat, n: nat)
    requires IsImage(p) && 1 <= quality <= 100
    ensures AreBlocks(RowBlocks(p, quality, row, n))
  {
    hide BlockOf, IsBlock;
    if n > 0 {
      RowIsCodable(p, quality, row, n - 1);
      var plan := McuPlan(p.sub, n - 1);
      forall k | 0 <= k < |plan| ensures IsBlock(BlocksOf(p, quality, row, plan)[k]) {
        PlanIsInPlan(p.sub, n - 1, k);
        BlockIsCodable(p, quality, row, plan[k]);
      }
    }
  }

  lemma {:induction false} ImageIsCodable(p: Image, quality: nat, rows: nat)
    requires IsImage(p) && 1 <= quality <= 100
    ensures AreBlocks(ImageBlocks(p, quality, rows))
  {
    hide RowBlocks, IsBlock;
    if rows > 0 {
      ImageIsCodable(p, quality, rows - 1);
      RowIsCodable(p, quality, rows - 1, McusPerRow(p));
    }
  }

  /** One line more: the rows above stay as they are. */
  lemma LineAdded(p: Image, q: Image, quality: nat)
    requires AreScanlines(p) && AreScanlines(q) && 1 <= quality <= 100
    requires q == p.(lines := q.lines) && |q.lines| == |p.lines| + 1 && p.lines <= q.lines
    ensures BlocksSoFar(p, quality, CompleteRows(p.sub, |p.lines|))
      == ImageBlocks(q, quality, CompleteRows(p.sub, |p.lines|))
  {
    if |p.lines| > 0 {
      ImageStable(p, q, quality, CompleteRows(p.sub, |p.lines|));
    }
  }

  lemma AllIsCodable(p: Image, quality: nat)
    requires AreScanlines(p) && 1 <= quality <= 100
    ensures AreBlocks(AllBlocks(p, quality))
  {
    if |p.lines| > 0 {
      ImageIsCodable(p, quality, McuRows(p));
    }
  }

  /** What a decoder multiplies back is within half a step of the transform of the samples, coefficient by
      coefficient. */
  lemma BlockAccuracy(p: Image, quality: nat, row: nat, b: BlockSource, r: nat)
    requires IsImage(p) && 1 <= quality <= 100 && r < 64
    ensures ScanIndex(r) < 64
    ensures HalfStep(Forward(Samples(p, row, b))[r], Table(b.component > 0, quality)[ScanIndex(r)],
                     BlockOf(p, quality, row, b).coefficients[ScanIndex(r)])
  {
    hide Samples, Forward, Quantised, Table, ScanIndex, HalfStep;
    SamplesRange(p, row, b);
    QuantisedBlock(Samples(p, row, b), Table(b.component > 0, quality));
  }
}
