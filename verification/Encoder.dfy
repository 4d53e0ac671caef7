/** The JPEG encoder: file-level tables, block coding, MCU assembly and end of image. */
module Encoder {
  import opened Basics
  import opened Bits
  import opened Huffman
  import opened Entropy
  import opened StandardTables
  import opened Stuffing
  import opened Scan
  import opened Dct
  import opened Quantise
  import opened Picture
  import opened Output
  import opened Headers

  function Standard(): Tables {
    Tables([TableAt(0), TableAt(1)], [TableAt(2), TableAt(3)])
  }

  lemma StandardIsUsable()
    ensures Usable(Standard())
  {
    hide DcTable, AcTable, DcLum, DcChroma, AcLum, AcChroma;
    DcLumCanCode();
    DcChromaCanCode();
    AcLumCanCode();
    AcChromaCanCode();
  }

  lemma TableIsValid(k: nat)
    requires k < 4
    ensures ValidSpec(TableAt(k)) && AllFit(AllSizes(TableAt(k)))
  {
    hide DcLum, DcChroma, AcLum, AcChroma, DcTable, AcTable, ValidSpec, AllFit, AllSizes;
    DcLumCanCode();
    DcChromaCanCode();
    AcLumCanCode();
    AcChromaCanCode();
    DcTableFits(DcLum());
    DcTableFits(DcChroma());
    AcTableFits(AcLum());
    AcTableFits(AcChroma());
  }

  lemma DcTableFits(t: Spec)
    requires DcTable(t)
    ensures ValidSpec(t) && AllFit(AllSizes(t))
  {
    hide ValidSpec, AllFit, HasCode;
  }

  lemma AcTableFits(t: Spec)
    requires AcTable(t)
    ensures ValidSpec(t) && AllFit(AllSizes(t))
  {
    hide ValidSpec, AllFit, HasCode;
  }

  /** The file-level statics of the encoder. */
  class Statics {
    var lastQuality: nat
    var huffInitialized: bool
    const quantTables: array2<int>
    const huffCodes: array2<nat>
    const huffCodeSizes: array2<nat>

    ghost function Repr(): set<object> {
      {this, quantTables, huffCodes, huffCodeSizes}
    }

    ghost predicate HoldsTable(k: nat)
      requires k < 4 && huffCodes.Length0 == huffCodeSizes.Length0 == 4
        && huffCodes.Length1 == huffCodeSizes.Length1 == 256
      requires ValidSpec(TableAt(k))
      reads huffCodes, huffCodeSizes
    {
      forall v {:trigger huffCodes[k, v]} {:trigger huffCodeSizes[k, v]} :: 0 <= v < 256 ==>
        huffCodes[k, v] == CodeOf(TableAt(k), v) && huffCodeSizes[k, v] == SizeOf(TableAt(k), v)
    }

    /** Whatever is cached is right. */
    ghost predicate Valid()
      reads Repr()
    {
      && quantTables.Length0 == 2 && quantTables.Length1 == 64 && huffCodes != huffCodeSizes
      && huffCodes.Length0 == huffCodeSizes.Length0 == 4 && huffCodes.Length1 == huffCodeSizes.Length1 == 256
      && (forall k :: 0 <= k < 4 ==> ValidSpec(TableAt(k)))
      && (huffInitialized ==> forall k :: 0 <= k < 4 ==> HoldsTable(k))
      && lastQuality <= 100
      && (lastQuality > 0 ==> forall c, i :: 0 <= c < 2 && 0 <= i < 64 ==>
           quantTables[c, i] == Table(c > 0, lastQuality)[i])
    }

    constructor ()
      ensures Valid() && fresh(Repr())
    {
      lastQuality, huffInitialized := 0, false;
      quantTables, huffCodes, huffCodeSizes := new int[2, 64], new nat[4, 256], new nat[4, 256];
      new;
      hide TableAt, ValidSpec, Table;
      forall k | 0 <= k < 4 ensures ValidSpec(TableAt(k)) {
        TableIsValid(k);
      }
    }

    method ComputeQuantTable(c: nat, quality: nat)
      requires c < 2 && 1 <= quality <= 100 && quantTables.Length0 == 2 && quantTables.Length1 == 64
      modifies quantTables
      ensures forall i :: 0 <= i < 64 ==> quantTables[c, i] == Table(c > 0, quality)[i]
      ensures forall k, i :: 0 <= k < 2 && k != c && 0 <= i < 64 ==> quantTables[k, i] == old(quantTables[k, i])
    {
      var q := if quality < 50 then 5000 / quality else 200 - quality * 2;
      for i := 0 to 64
        invariant forall k :: 0 <= k < i ==> quantTables[c, k] == Table(c > 0, quality)[k]
        invariant forall k, i :: 0 <= k < 2 && k != c && 0 <= i < 64 ==> quantTables[k, i] == old(quantTables[k, i])
      {
        hide StdQuant;
        var j := (StdQuant(c > 0)[i] * q + 50) / 100;
        var atLeastOne := if j > 1 then j else 1;
        quantTables[c, i] := if atLeastOne < 255 then atLeastOne else 255;
      }
    }

    method FillTable(k: nat)
      requires Valid() && !huffInitialized && k < 4
      modifies huffCodes, huffCodeSizes
      ensures Valid() && HoldsTable(k)
      ensures forall j :: 0 <= j < 4 && j != k && old(HoldsTable(j)) ==> HoldsTable(j)
    {
      hide TableAt, Table, ValidSpec, CodeOf, SizeOf;
      ComputeHuffmanTable(huffCodes, huffCodeSizes, k, TableAt(k));
    }

    /** The table part of `jpg_open`. */
    method Prepare(quality: nat)
      requires Valid() && 1 <= quality <= 100
      modifies Repr()
      ensures Valid() && huffInitialized && lastQuality == quality
    {
      hide TableAt, Table, ValidSpec, HoldsTable;
      if lastQuality != quality {
        ComputeQuantTable(0, quality);
        ComputeQuantTable(1, quality);
        lastQuality := quality;
      }
      if !huffInitialized {
        FillTable(0);
        FillTable(2);
        FillTable(1);
        FillTable(3);
        huffInitialized := true;
      }
    }
  }

  lemma SymbolFits(t: Spec, v: nat)
    requires ValidSpec(t) && AllFit(AllSizes(t))
    ensures SizeOf(t, v) <= 16 && CodeOf(t, v) < Pow2(SizeOf(t, v))
  {
    LastIndexRange(t.val, |AllSizes(t)|, v);
    hide Code;
  }

  class JpegEncoder {
    const statics: Statics
    const writer: Writer
    const sub: Subsampling
    const quality: nat
    const width: nat
    const bpp: nat
    const mcuLines: array2<Byte>
    const samples: array<int>
    const coefficients: array<int>
    const lastDc: array<int>
    var mcuYOfs: nat
    var passNum: nat
    /** The scanlines loaded and the blocks coded so far. */
    ghost var lines: seq<seq<Byte>>
    ghost var blocks: seq<Block>

    constructor (st: Statics, wr: Writer, subsampling: Subsampling, imageQuality: nat, imageWidth: nat, channels: nat)
      ensures statics == st && writer == wr && sub == subsampling && quality == imageQuality
      ensures width == imageWidth && bpp == channels
      ensures samples.Length == 64 && coefficients.Length == 64 && lastDc.Length == 3
      ensures mcuLines.Length0 == McuY(sub) && mcuLines.Length1 == LineLength()
      ensures fresh(samples) && fresh(coefficients) && fresh(lastDc) && fresh(mcuLines)
      ensures samples != coefficients && samples != lastDc && coefficients != lastDc
      ensures mcuYOfs == 0 && passNum == 0 && lines == [] && blocks == []
    {
      statics, writer, sub, quality, width, bpp := st, wr, subsampling, imageQuality, imageWidth, channels;
      samples, coefficients, lastDc := new int[64], new int[64], new int[3];
      var w := McuX(subsampling) * CeilDiv(imageWidth, McuX(subsampling));
      mcuLines := new Byte[McuY(subsampling), if subsampling.YOnly? then w else 3 * w];
      mcuYOfs, passNum := 0, 0;
      lines, blocks := [], [];
    }

    /** The buffers that samples are loaded from and to. */
    predicate Sized() {
      samples.Length == 64 && mcuLines.Length0 == McuY(sub) && mcuLines.Length1 == LineLength()
    }

    function PaddedWidth(): nat {
      McuX(sub) * CeilDiv(width, McuX(sub))
    }

    function LineLength(): nat {
      if sub.YOnly? then PaddedWidth() else 3 * PaddedWidth()
    }

    /** The buffers are distinct and apart from the statics and the writer. */
    ghost predicate Buffers() {
      && Sized() && coefficients.Length == 64 && lastDc.Length == 3
      && samples != coefficients && samples != lastDc && coefficients != lastDc
      && {samples, coefficients, lastDc} !! statics.Repr() !! writer.Footprint()
      && this !in writer.Footprint() && mcuLines !in statics.Repr() && mcuLines !in writer.Footprint()
      && width > 0
    }

    /** The statics are those of this image. */
    ghost predicate Ready()
      reads statics.Repr()
    {
      Buffers() && statics.Valid() && statics.huffInitialized && statics.lastQuality == quality && quality > 0
    }

    /** What the scan holds is the coding of `blocks`. */
    ghost predicate Coded()
      reads writer.Footprint(), this`blocks, lastDc
    {
      && lastDc.Length == 3
      && writer.InScan() && AreBlocks(blocks) && Usable(Standard())
      && writer.bits == ScanBits(Standard(), blocks, [0, 0, 0])
      && lastDc[..] == AfterAll(blocks, [0, 0, 0])
    }

    method PutSymbol(k: nat, v: nat)
      requires Ready() && writer.InScan() && k < 4 && v < 256 && ValidSpec(TableAt(k))
      modifies writer.Footprint()
      ensures Ready() && writer.InScan() && writer.head == old(writer.head)
      ensures writer.bits == old(writer.bits) + SymbolBits(TableAt(k), v)
    {
      hide TableAt, CodeOf, SizeOf, Table, ValidSpec;
      TableIsValid(k);
      SymbolFits(TableAt(k), v);
      assert statics.HoldsTable(k);
      writer.PutBits(statics.huffCodes[k, v], statics.huffCodeSizes[k, v]);
    }

    method PutMagnitude(v: int, nbits: nat)
      requires Ready() && writer.InScan() && nbits == Category(Abs(v)) <= 16
      modifies writer.Footprint()
      ensures Ready() && writer.InScan() && writer.head == old(writer.head)
      ensures writer.bits == old(writer.bits) + MagnitudeBits(v)
    {
      var temp2 := if v < 0 then v - 1 else v;
      LowBound(temp2, nbits);
      BitsOfLow(temp2, nbits);
      writer.PutBits(Low(temp2, nbits), nbits);
    }

    lemma BlockBuffers()
      requires Ready()
      ensures coefficients.Length == 64 && lastDc.Length == 3 && coefficients != lastDc
      ensures {coefficients, lastDc} !! statics.Repr() !! writer.Footprint()
    {
      hide Statics.Valid;
    }

    /** The DC part of `code_coefficients_pass_two`. */
    method CodeDc(component: nat)
      requires Ready() && writer.InScan() && component < 3
      requires -1024 <= coefficients[0] <= 1023 && -1024 <= lastDc[component] <= 1023
      requires ValidSpec(TableAt(Selector(component)))
      modifies writer.Footprint(), lastDc
      ensures Ready() && writer.InScan() && writer.head == old(writer.head)
      ensures writer.bits == old(writer.bits)
                           + DcBits(TableAt(Selector(component)), coefficients[0] - old(lastDc[component]))
      ensures lastDc[..] == old(lastDc[..])[component := coefficients[0]]
    {
      hide TableAt, ValidSpec, Table, SymbolBits, MagnitudeBits, Ready, Writer.InScan;
      BlockBuffers();
      var diff := coefficients[0] - lastDc[component];
      lastDc[component] := coefficients[0];
      var temp1, nbits := Abs(diff), 0;
      while temp1 > 0
        invariant nbits + Category(temp1) == Category(Abs(diff))
      {
        nbits, temp1 := nbits + 1, temp1 / 2;
      }
      Categories(Abs(diff));
      PutSymbol(Selector(component), nbits);
      ConcatAssoc(old(writer.bits), SymbolBits(TableAt(Selector(component)), nbits), MagnitudeBits(diff));
      if nbits > 0 {
        PutMagnitude(diff, nbits);
      } else {
        NoMagnitude(diff);
      }
    }

    /** The ZRL loop: sixteen zeros at a time. */
    method CodeZrls(component: nat, run: nat) returns (runLen: nat)
      requires Ready() && writer.InScan() && component < 3
      requires ValidSpec(TableAt(2 + Selector(component)))
      modifies writer.Footprint()
      ensures Ready() && writer.InScan() && writer.head == old(writer.head)
      ensures writer.bits == old(writer.bits) + ZrlBits(TableAt(2 + Selector(component)), run)
      ensures runLen == run % 16
    {
      hide TableAt, ValidSpec, Table, SymbolBits, ZrlBits, Ready, Writer.InScan;
      ghost var t := TableAt(2 + Selector(component));
      runLen := run;
      ghost var skipped := 0;
      while runLen >= 16
        invariant Ready() && writer.InScan() && writer.head == old(writer.head)
        invariant writer.bits + ZrlBits(t, runLen) == old(writer.bits) + ZrlBits(t, run)
        invariant 0 <= runLen && runLen + 16 * skipped == run
      {
        ZrlFirst(t, runLen, writer.bits);
        PutSymbol(2 + Selector(component), 0xF0);
        runLen, skipped := runLen - 16, skipped + 1;
      }
      ZrlLast(t, runLen, writer.bits);
    }

    /** One nonzero AC coefficient after `run` zeros. */
    method CodeRun(component: nat, run: nat, v: int)
      requires Ready() && writer.InScan() && component < 3 && v != 0 && Abs(v) <= 1023
      requires ValidSpec(TableAt(2 + Selector(component)))
      modifies writer.Footprint()
      ensures Ready() && writer.InScan() && writer.head == old(writer.head)
      ensures writer.bits == old(writer.bits) + RunBits(TableAt(2 + Selector(component)), run, v)
    {
      hide TableAt, ValidSpec, Table, SymbolBits, ZrlBits, MagnitudeBits, Ready, Writer.InScan;
      var temp1: nat := Abs(v) / 2;
      var nbits := 1;
      while temp1 > 0
        invariant nbits + Category(temp1) == Category(Abs(v))
      {
        nbits, temp1 := nbits + 1, temp1 / 2;
      }
      Categories(Abs(v));
      var runLen := CodeZrls(component, run);
      PutSymbol(2 + Selector(component), RunSize(runLen, nbits));
      PutMagnitude(v, nbits);
      ghost var t := TableAt(2 + Selector(component));
      ghost var symbol := SymbolBits(t, RunSize(runLen, nbits));
      ConcatAssoc(old(writer.bits), ZrlBits(t, run), symbol);
      ConcatAssoc(old(writer.bits), ZrlBits(t, run) + symbol, MagnitudeBits(v));
    }

    /** The AC part of `code_coefficients_pass_two`. */
    method CodeAc(component: nat)
      requires Ready() && writer.InScan() && component < 3
      requires forall i :: 1 <= i < 64 ==> -1023 <= coefficients[i] <= 1023
      requires ValidSpec(TableAt(2 + Selector(component)))
      modifies writer.Footprint()
      ensures Ready() && writer.InScan() && writer.head == old(writer.head)
      ensures writer.bits == old(writer.bits) + AcBits(TableAt(2 + Selector(component)), coefficients[..], 1, 0)
    {
      hide TableAt, ValidSpec, Table, SymbolBits, RunBits, Ready, Writer.InScan;
      BlockBuffers();
      ghost var t := TableAt(2 + Selector(component));
      ghost var c := coefficients[..];
      ghost var all := old(writer.bits) + AcBits(t, c, 1, 0);
      var runLen := 0;
      for i := 1 to 64
        invariant Ready() && writer.InScan() && writer.head == old(writer.head)
        invariant writer.bits + AcBits(t, c, i, runLen) == all
      {
        if coefficients[i] == 0 {
          runLen := runLen + 1;
        } else {
          CodeRun(component, runLen, coefficients[i]);
          runLen := 0;
        }
      }
      if runLen > 0 {
        PutSymbol(2 + Selector(component), 0);
      }
    }

    /** `code_coefficients_pass_two`: one block, whatever was coded before it. */
    method CodeCoefficientsPassTwo(component: nat, ghost p: Predictors)
      requires Ready() && writer.InScan() && component < 3 && InRange(coefficients[..])
      requires lastDc[..] == p && SmallPredictors(p) && Usable(Standard())
      modifies writer.Footprint(), lastDc
      ensures Ready() && writer.InScan() && writer.head == old(writer.head)
      ensures writer.bits == old(writer.bits) + Scan.CodeBlock(Standard(), Block(component, coefficients[..]), p)
      ensures lastDc[..] == After(Block(component, coefficients[..]), p)
    {
      hide TableAt, ValidSpec, Table, DcBits, AcBits, Usable, Standard, Scan.CodeBlock, InRange, Ready, Writer.InScan;
      BlockBuffers();
      ghost var b := Block(component, coefficients[..]);
      TableIsValid(Selector(component));
      TableIsValid(2 + Selector(component));
      BlockIsDcThenAc(b, p, writer.bits);
      CoefficientRange(coefficients[..]);
      assert lastDc[component] == p[component] && -1024 <= p[component] <= 1023;
      CodeDc(component);
      CodeAc(component);
    }

    /** The block in `coefficients` joins the coded ones. */
    method AppendCoefficients(component: nat)
      requires Ready() && Coded() && component < 3 && InRange(coefficients[..])
      modifies writer.Footprint(), lastDc, this`blocks
      ensures Ready() && Coded() && writer.head == old(writer.head)
      ensures blocks == old(blocks) + [Block(component, coefficients[..])]
    {
      hide InRange, AfterAll, After, ScanBits, Usable, Standard, Scan.CodeBlock, Writer.InScan;
      ghost var b := Block(component, coefficients[..]);
      PredictorsStaySmall(blocks, [0, 0, 0]);
      AppendBlock(Standard(), blocks, b, [0, 0, 0]);
      CodeCoefficientsPassTwo(component, AfterAll(blocks, [0, 0, 0]));
      blocks := blocks + [b];
    }

    method CodeBlock(component: nat)
      requires Ready() && Coded() && component < 3 && IsSamples(samples[..])
      modifies writer.Footprint(), lastDc, samples, coefficients, this`blocks
      ensures Ready() && Coded() && writer.head == old(writer.head)
      ensures blocks == old(blocks)
                     + [Block(component, Quantised(Forward(old(samples[..])), Table(component > 0, quality)))]
    {
      hide TableAt, ValidSpec, Table, Forward, Quantised, InRange, Writer.InScan, AfterAll, ScanBits, Usable;
      ghost var p := samples[..];
      ghost var table := Table(component > 0, quality);
      DCT2D(samples);
      LoadQuantizedCoefficients(samples, statics.quantTables, if component > 0 then 1 else 0, table, coefficients);
      QuantisedBlock(p, table);
      QuantisedIsInRange(p, table);
      AppendCoefficients(component);
    }

    // ---------------------------------------------------------- MCU assembly

    /** The image seen so far. */
    ghost function Seen(): Image
      reads this`lines
    {
      Image(sub, width, bpp, lines)
    }

    /** Where component `c` of pixel `x` stands in a line. */
    function Col(x: nat, c: nat): nat {
      if sub.YOnly? then x else 3 * x + c
    }

    /** The first `n` lines of the MCU buffer are the padded pixels of MCU row `row`. */
    ghost predicate LinesHold(row: nat, n: nat)
      requires Sized()
      reads mcuLines, this`lines
    {
      && n <= McuY(sub) && (n > 0 ==> IsImage(Seen()))
      && forall r, x, c {:trigger mcuLines[r, Col(x, c)]} ::
           0 <= r < n && 0 <= x < PaddedWidth() && 0 <= c < ComponentCount(sub) ==>
           mcuLines[r, Col(x, c)] == Pixel(Seen(), x, Top(sub, row) + r, c)
    }

    ghost predicate BlockFits(b: BlockSource) {
      && InPlan(sub, b)
      && (b.Direct? ==> 8 * b.h + 8 <= PaddedWidth())
      && (!b.Direct? ==> 16 * b.h + 16 <= PaddedWidth())
    }

    /** `load_block_8_8` and `load_block_8_8_grey` */
    method LoadDirect(b: BlockSource, ghost row: nat)
      requires Sized() && b.Direct? && BlockFits(b) && LinesHold(row, McuY(sub)) && IsImage(Seen())
      modifies samples
      ensures samples[..] == Samples(Seen(), row, b)
    {
      hide Pixel, PaddedWidth;
      for i := 0 to 8
        invariant forall k :: 0 <= k < 8 * i ==> samples[k] == SampleAt(Seen(), row, b, k)
      {
        forall j | 0 <= j < 8 {
          samples[8 * i + j] := mcuLines[8 * b.v + i, Col(8 * b.h + j, b.component)] - 128;
        }
        forall k | 8 * i <= k < 8 * i + 8 ensures samples[k] == SampleAt(Seen(), row, b, k) {
          DirectSample(Seen(), row, b, i, k - 8 * i);
        }
      }
    }

    lemma LineAt(row: nat, n: nat, r: nat, x: nat, c: nat)
      requires Sized()
      requires LinesHold(row, n) && r < n && x < PaddedWidth() && c < ComponentCount(sub)
      ensures r < mcuLines.Length0 && Col(x, c) < mcuLines.Length1 && IsImage(Seen())
      ensures mcuLines[r, Col(x, c)] == Pixel(Seen(), x, Top(sub, row) + r, c)
    {
      hide Pixel, PaddedWidth;
    }

    method QuadMean(b: BlockSource, i: nat, j: nat, bias: nat, ghost row: nat) returns (s: int)
      requires Sized() && b.Quad? && BlockFits(b) && LinesHold(row, McuY(sub)) && i < 8 && j < 8
      requires IsImage(Seen()) && bias == Bias(i + j)
      ensures s == Samples(Seen(), row, b)[8 * i + j]
    {
      hide Pixel, PaddedWidth, LinesHold, SampleAt, Mean4, Col, IsImage;
      var x := 16 * b.h + 2 * j;
      LineAt(row, McuY(sub), 2 * i, x, b.component);
      LineAt(row, McuY(sub), 2 * i, x + 1, b.component);
      LineAt(row, McuY(sub), 2 * i + 1, x, b.component);
      LineAt(row, McuY(sub), 2 * i + 1, x + 1, b.component);
      QuadSample(Seen(), row, b, i, j);
      s := Mean4(mcuLines[2 * i, Col(x, b.component)], mcuLines[2 * i, Col(x + 1, b.component)],
                 mcuLines[2 * i + 1, Col(x, b.component)], mcuLines[2 * i + 1, Col(x + 1, b.component)], bias) - 128;
    }

    /** `load_block_16_8`: averages over 2x2 pixels, rounded down and up in turn. */
    method LoadQuad(b: BlockSource, ghost row: nat)
      requires Sized() && b.Quad? && BlockFits(b) && LinesHold(row, McuY(sub)) && IsImage(Seen())
      modifies samples
      ensures samples[..] == Samples(Seen(), row, b)
    {
      hide Pixel, PaddedWidth, LinesHold, Samples, BlockFits, Bias, IsImage;
      ghost var want := Samples(Seen(), row, b);
      BiasAlternates(0, 0);
      var even, odd := 0, 2;
      for i := 0 to 8
        invariant even == Bias(i) && odd == Bias(i + 1)
        invariant forall k :: 0 <= k < 8 * i ==> samples[k] == want[k]
      {
        for j := 0 to 8
          invariant forall k :: 0 <= k < 8 * i + j ==> samples[k] == want[k]
        {
          BiasAlternates(i, j);
          samples[8 * i + j] := QuadMean(b, i, j, if j % 2 == 0 then even else odd, row);
        }
        BiasAlternates(i, 0);
        even, odd := odd, even;
      }
      assert samples[..] == want;
    }

    /** `load_block_16_8_8`: averages over 2x1 pixels. */
    method LoadPair(b: BlockSource, ghost row: nat)
      requires Sized() && b.Pair? && BlockFits(b) && LinesHold(row, McuY(sub)) && IsImage(Seen())
      modifies samples
      ensures samples[..] == Samples(Seen(), row, b)
    {
      hide Pixel, PaddedWidth;
      for i := 0 to 8
        invariant forall k :: 0 <= k < 8 * i ==> samples[k] == SampleAt(Seen(), row, b, k)
      {
        forall j | 0 <= j < 8 {
          samples[8 * i + j] := (mcuLines[i, Col(16 * b.h + 2 * j, b.component)]
                                 + mcuLines[i, Col(16 * b.h + 2 * j + 1, b.component)]) / 2 - 128;
        }
        forall k | 8 * i <= k < 8 * i + 8 ensures samples[k] == SampleAt(Seen(), row, b, k) {
          PairSample(Seen(), row, b, i, k - 8 * i);
        }
      }
    }

    /** Load one block and code it. */
    method CodeSource(b: BlockSource, ghost row: nat)
      requires Sized() && 1 <= quality <= 100 && Ready() && Coded() && BlockFits(b) && LinesHold(row, McuY(sub))
        && IsImage(Seen())
      modifies writer.Footprint(), lastDc, samples, coefficients, this`blocks
      ensures Ready() && Coded() && IsImage(Seen()) && LinesHold(row, McuY(sub)) && writer.head == old(writer.head)
      ensures blocks == old(blocks) + [BlockOf(Seen(), quality, row, b)]
    {
      hide PaddedWidth, IsImage, Samples, Statics.Valid, Writer.InScan, AfterAll, ScanBits, Usable, Table,
        Forward, Quantised;
      SamplesRange(Seen(), row, b);
      match b {
        case Direct(_, _, _) => LoadDirect(b, row);
        case Quad(_, _) => LoadQuad(b, row);
        case Pair(_, _) => LoadPair(b, row);
      }
      CodeBlock(b.component);
    }

    /** One turn of the loop of `process_mcu_row`. */
    method ProcessMcu(i: nat, ghost row: nat)
      requires Sized() && 1 <= quality <= 100 && Ready() && Coded() && LinesHold(row, McuY(sub)) && IsImage(Seen())
      requires i < CeilDiv(width, McuX(sub))
      modifies writer.Footprint(), lastDc, samples, coefficients, this`blocks
      ensures Ready() && Coded() && IsImage(Seen()) && LinesHold(row, McuY(sub)) && writer.head == old(writer.head)
      ensures blocks == old(blocks) + BlocksOf(Seen(), quality, row, McuPlan(sub, i))
    {
      hide IsImage, BlockOf, BlocksOf, McuPlan, Coded, LinesHold, Ready;
      McuFits(i);
      McuBlocks(Seen(), quality, row, i, blocks);
      match sub {
        case YOnly =>
          CodeSource(Direct(i, 0, 0), row);
        case H1V1 =>
          CodeSource(Direct(i, 0, 0), row);
          CodeSource(Direct(i, 0, 1), row);
          CodeSource(Direct(i, 0, 2), row);
        case H2V1 =>
          CodeSource(Direct(2 * i, 0, 0), row);
          CodeSource(Direct(2 * i + 1, 0, 0), row);
          CodeSource(Pair(i, 1), row);
          CodeSource(Pair(i, 2), row);
        case H2V2 =>
          CodeSource(Direct(2 * i, 0, 0), row);
          CodeSource(Direct(2 * i + 1, 0, 0), row);
          CodeSource(Direct(2 * i, 1, 0), row);
          CodeSource(Direct(2 * i + 1, 1, 0), row);
          CodeSource(Quad(i, 1), row);
          CodeSource(Quad(i, 2), row);
      }
    }

    lemma McuFits(i: nat)
      requires i < CeilDiv(width, McuX(sub))
      ensures McuX(sub) * i + McuX(sub) <= PaddedWidth()
    {
    }

    method ProcessMcuRow(ghost row: nat)
      requires Sized() && 1 <= quality <= 100 && Ready() && Coded() && LinesHold(row, McuY(sub)) && IsImage(Seen())
      modifies writer.Footprint(), lastDc, samples, coefficients, this`blocks
      ensures Ready() && Coded() && IsImage(Seen()) && writer.head == old(writer.head)
      ensures blocks == old(blocks) + RowBlocks(Seen(), quality, row, McusPerRow(Seen()))
    {
      hide IsImage, BlocksOf, Coded, LinesHold, Ready;
      for i := 0 to CeilDiv(width, McuX(sub))
        invariant Ready() && Coded() && IsImage(Seen()) && LinesHold(row, McuY(sub)) && writer.head == old(writer.head)
        invariant blocks == old(blocks) + RowBlocks(Seen(), quality, row, i)
      {
        ProcessMcu(i, row);
      }
    }

    /** One source line converted into line `y` of the MCU buffer. */
    method ConvertLine(src: array<Byte>, y: nat)
      requires Sized() && 0 < width && IsScanline(bpp, width, src[..]) && y < McuY(sub)
      modifies mcuLines
      ensures forall x, c {:trigger mcuLines[y, Col(x, c)]} :: 0 <= x < width && 0 <= c < ComponentCount(sub) ==>
        mcuLines[y, Col(x, c)] == Convert(bpp, width, src[..], x, c)
      ensures OtherLinesKept(y)
    {
      hide PaddedWidth;
      WidthFits();
      for x := 0 to width
        invariant forall k, c {:trigger mcuLines[y, Col(k, c)]} :: 0 <= k < x && 0 <= c < ComponentCount(sub) ==>
          mcuLines[y, Col(k, c)] == Convert(bpp, width, src[..], k, c)
        invariant OtherLinesKept(y)
      {
        if sub.YOnly? {
          mcuLines[y, Col(x, 0)] := if bpp == 3 then Luma(src[3 * x], src[3 * x + 1], src[3 * x + 2]) else src[x];
        } else if bpp == 3 {
          var r, g, b := src[3 * x], src[3 * x + 1], src[3 * x + 2];
          mcuLines[y, Col(x, 0)] := Luma(r, g, b);
          mcuLines[y, Col(x, 1)] := Cb(r, g, b);
          mcuLines[y, Col(x, 2)] := Cr(r, g, b);
        } else {
          mcuLines[y, Col(x, 0)] := src[x];
          mcuLines[y, Col(x, 1)] := 128;
          mcuLines[y, Col(x, 2)] := 128;
        }
      }
    }

    lemma WidthFits()
      ensures width <= PaddedWidth()
    {
    }

    twostate predicate OtherLinesKept(y: nat)
      requires Sized()
      reads mcuLines
    {
      forall r, k :: 0 <= r < McuY(sub) && r != y && 0 <= k < LineLength() ==> mcuLines[r, k] == old(mcuLines[r, k])
    }

    /** The last pixel of the line repeated up to the padded width. */
    method PadLine(y: nat)
      requires Sized() && 0 < width && y < McuY(sub)
      modifies mcuLines
      ensures forall x, c {:trigger mcuLines[y, Col(x, c)]} ::
        0 <= x < PaddedWidth() && 0 <= c < ComponentCount(sub) ==>
        mcuLines[y, Col(x, c)] == old(mcuLines[y, Col(Min(x, width - 1), c)])
      ensures OtherLinesKept(y)
    {
      hide PaddedWidth;
      WidthFits();
      for x := width to PaddedWidth()
        invariant forall k, c {:trigger mcuLines[y, Col(k, c)]} :: 0 <= k < x && 0 <= c < ComponentCount(sub) ==>
          mcuLines[y, Col(k, c)] == old(mcuLines[y, Col(Min(k, width - 1), c)])
        invariant OtherLinesKept(y)
      {
        mcuLines[y, Col(x, 0)] := mcuLines[y, Col(width - 1, 0)];
        if !sub.YOnly? {
          mcuLines[y, Col(x, 1)] := mcuLines[y, Col(width - 1, 1)];
          mcuLines[y, Col(x, 2)] := mcuLines[y, Col(width - 1, 2)];
        }
      }
    }

    /** The next line of MCU row `row` is in place. */
    method LoadLine(src: array<Byte>, ghost row: nat)
      requires Sized() && IsScanline(bpp, width, src[..]) && mcuYOfs < McuY(sub) && AreScanlines(Seen())
      requires LinesHold(row, mcuYOfs) && |lines| == Top(sub, row) + mcuYOfs
      modifies mcuLines, this`lines
      ensures lines == old(lines) + [src[..]] && IsImage(Seen()) && LinesHold(row, mcuYOfs + 1)
    {
      hide PaddedWidth, Convert;
      ghost var before := Seen();
      ConvertLine(src, mcuYOfs);
      PadLine(mcuYOfs);
      lines := lines + [src[..]];
      forall r, x, c {:trigger mcuLines[r, Col(x, c)]}
        | 0 <= r < mcuYOfs + 1 && 0 <= x < PaddedWidth() && 0 <= c < ComponentCount(sub)
        ensures mcuLines[r, Col(x, c)] == Pixel(Seen(), x, Top(sub, row) + r, c)
      {
        if r < mcuYOfs {
          assert mcuLines[r, Col(x, c)] == old(mcuLines[r, Col(x, c)]);
          PixelKept(before, Seen(), x, Top(sub, row) + r, c);
        }
      }
    }

    /** Every object the encoder works on. */
    ghost function Own(): set<object> {
      {this, samples, coefficients, lastDc, mcuLines} + statics.Repr() + writer.Footprint()
    }

    lemma Apart()
      requires Ready()
      ensures mcuLines !in statics.Repr() && this !in statics.Repr() && this !in writer.Footprint()
      ensures statics.Repr() !! writer.Footprint()
    {
      hide Statics.Valid;
    }

    /** Where the encoder stands between two scanlines. */
    ghost predicate Loaded()
      requires Sized() && 1 <= quality <= 100
      reads this, mcuLines
    {
      && mcuYOfs < McuY(sub) && |lines| == Top(sub, CompleteRows(sub, |lines|)) + mcuYOfs
      && AreScanlines(Seen())
      && LinesHold(CompleteRows(sub, |lines|), mcuYOfs)
      && blocks == BlocksSoFar(Seen(), quality, CompleteRows(sub, |lines|))
    }

    /** The end of `load_mcu`: line `mcuYOfs` is in place; the MCU row is coded when it was the last. */
    method FinishLine(ghost row: nat)
      requires Sized() && 1 <= quality <= 100 && IsImage(Seen()) && Ready() && Coded()
      requires mcuYOfs < McuY(sub) && |lines| == Top(sub, row) + mcuYOfs + 1
      requires LinesHold(row, mcuYOfs + 1) && blocks == ImageBlocks(Seen(), quality, row)
      modifies writer.Footprint(), lastDc, samples, coefficients, this`blocks, this`mcuYOfs
      ensures Ready() && Coded() && Loaded() && writer.head == old(writer.head)
    {
      hide Ready, Coded, LinesHold, IsScanline, RowBlocks, PaddedWidth;
      Apart();
      RowCount(sub, row, mcuYOfs + 1);
      mcuYOfs := mcuYOfs + 1;
      if mcuYOfs == McuY(sub) {
        ProcessMcuRow(row);
        NoLineHeld(row + 1);
        mcuYOfs := 0;
      }
    }

    lemma NoLineHeld(row: nat)
      requires Sized()
      ensures LinesHold(row, 0)
    {
    }

    method LoadMcu(src: array<Byte>)
      requires Sized() && 1 <= quality <= 100 && Ready() && Coded() && Loaded() && IsScanline(bpp, width, src[..])
      modifies writer.Footprint(), lastDc, samples, coefficients, mcuLines, this`blocks, this`lines, this`mcuYOfs
      ensures Ready() && Coded() && Loaded() && writer.head == old(writer.head)
      ensures lines == old(lines + [src[..]])
    {
      hide Ready, Coded, LinesHold, IsScanline, BlocksSoFar, ImageBlocks, PaddedWidth;
      ghost var row, before := CompleteRows(sub, |lines|), Seen();
      Apart();
      LoadLine(src, row);
      LineAdded(before, Seen(), quality);
      FinishLine(row);
    }

    /** The lines missing in the last MCU row are copies of the last line. */
    method RepeatLastLine(ghost row: nat)
      requires Sized() && 0 < mcuYOfs < McuY(sub) && IsImage(Seen())
      requires LinesHold(row, mcuYOfs) && |lines| == Top(sub, row) + mcuYOfs
      modifies mcuLines
      ensures LinesHold(row, McuY(sub))
    {
      hide PaddedWidth, IsScanline, Convert;
      for i := mcuYOfs to McuY(sub)
        invariant LinesHold(row, i)
      {
        forall k | 0 <= k < LineLength() {
          mcuLines[i, k] := mcuLines[mcuYOfs - 1, k];
        }
      }
    }

    /** The MCU row that the last lines do not fill. */
    method ProcessLastRow()
      requires Sized() && 1 <= quality <= 100 && Ready() && Coded() && Loaded()
      modifies writer.Footprint(), lastDc, samples, coefficients, mcuLines, this`blocks
      ensures Ready() && Coded() && AreScanlines(Seen()) && writer.head == old(writer.head)
      ensures blocks == AllBlocks(Seen(), quality)
    {
      hide Ready, Coded, LinesHold, IsScanline, RowBlocks, PaddedWidth;
      ghost var row := CompleteRows(sub, |lines|);
      Apart();
      if mcuYOfs > 0 {
        RepeatLastLine(row);
        ProcessMcuRow(row);
      }
    }

    /** Ones up to a byte boundary, the EOI marker, and everything to the stream. */
    method FinishScan()
      requires Sized() && 1 <= quality <= 100 && Ready() && Coded() && AreScanlines(Seen())
      requires blocks == AllBlocks(Seen(), quality)
      modifies writer.Footprint()
      ensures Ready() && writer.Valid() && writer.head == old(writer.head)
      ensures writer.emitted == writer.stream.offered == writer.head + ScanAndEnd(Seen(), quality)
    {
      hide Ready, AreScanlines, AllBlocks, ScanBits, Usable, Standard, AfterAll, Stuff, Pack, BitsOf, Pow2,
        ScanBytes, AreBlocks;
      Apart();
      SevenOnes();
      PaddedScan(writer.bits);
      writer.PutBits(0x7F, 7);
      ConcatBytes(writer.head, ScanBytes(ScanBits(Standard(), blocks, [0, 0, 0])), Marker(0xD9));
      writer.EmitMarker(0xD9);
      writer.EndStream();
    }

    method ProcessEndOfImage() returns (ok: bool)
      requires Sized() && 1 <= quality <= 100 && Ready() && Coded() && Loaded()
      modifies writer.Footprint(), lastDc, samples, coefficients, mcuLines, this`blocks, this`passNum
      ensures ok && Ready() && writer.Valid() && AreScanlines(Seen()) && writer.head == old(writer.head)
      ensures writer.emitted == writer.stream.offered == writer.head + ScanAndEnd(Seen(), quality)
      ensures passNum == old(passNum) + 1
    {
      hide Ready, Coded, Loaded, AreScanlines, AllBlocks, ScanAndEnd;
      Apart();
      ProcessLastRow();
      FinishScan();
      passNum := passNum + 1;
      return true;
    }

    lemma BuffersApart()
      requires Buffers()
      ensures Sized() && lastDc.Length == 3 && width > 0
      ensures lastDc !in statics.Repr() && lastDc !in writer.Footprint()
      ensures this !in statics.Repr() && this !in writer.Footprint() && statics.Repr() !! writer.Footprint()
    {
    }

    lemma TablesHold()
      requires statics.Valid() && statics.lastQuality == quality && 1 <= quality <= 100
      ensures statics.quantTables.Length0 == 2 && statics.quantTables.Length1 == 64
      ensures forall c, j :: 0 <= c < 2 && 0 <= j < 64 ==> statics.quantTables[c, j] == Table(c > 0, quality)[j]
    {
      hide Table, Statics.HoldsTable, TableAt, ValidSpec;
    }

    lemma NothingCoded()
      requires lastDc.Length == 3 && lastDc[..] == [0, 0, 0] && writer.InScan() && writer.bits == [] && blocks == []
      ensures Coded()
    {
      hide Writer.InScan, Usable, Standard;
      StandardIsUsable();
    }

    lemma NothingLoaded()
      requires Sized() && 1 <= quality <= 100 && mcuYOfs == 0 && lines == [] && blocks == [] && width > 0
      ensures Loaded()
    {
    }

    lemma NowReady()
      requires statics.huffInitialized && statics.lastQuality == quality && quality > 0
      ensures Buffers() && statics.Valid() ==> Ready()
    {
    }

    /** The end of `jpg_open`: headers. */
    method StartFile(height: nat)
      requires statics.Valid() && statics.lastQuality == quality && 1 <= quality <= 100
      requires writer.Valid() && writer.emitted == [] && statics.Repr() !! writer.Footprint()
      modifies writer.Footprint()
      ensures writer.InScan() && writer.bits == [] && writer.head == Header(sub, quality, width, height)
    {
      hide Statics.Valid, Writer.Valid, Writer.InScan, Header, Table;
      TablesHold();
      EmitHeader(writer, statics.quantTables, sub, width, height, quality);
      writer.StartScan();
    }

    /** `jpg_open` after the sizes are set: tables, reset, headers. */
    method JpgOpen(height: nat)
      requires Buffers() && Sized() && 1 <= quality <= 100 && statics.Valid()
      requires writer.Valid() && writer.emitted == []
      requires lines == [] && blocks == []
      modifies statics.Repr(), writer.Footprint(), lastDc, this`mcuYOfs, this`passNum
      ensures Ready() && Coded() && Loaded() && passNum == 2
      ensures writer.head == Header(sub, quality, width, height)
    {
      hide Buffers, Ready, Coded, Loaded, Statics.Valid, Writer.Valid, Writer.InScan, Header;
      BuffersApart();
      statics.Prepare(quality);
      mcuYOfs, passNum := 0, 2;
      lastDc[0], lastDc[1], lastDc[2] := 0, 0, 0;
      assert lastDc[..] == [0, 0, 0];
      StartFile(height);
      NothingCoded();
      NothingLoaded();
      NowReady();
    }

    /** `process_scanline`: a line, or null at the end of the image. */
    method ProcessScanline(scanline: array?<Byte>) returns (ok: bool)
      requires Sized() && 1 <= quality <= 100 && Ready() && writer.Valid()
      requires 1 <= passNum <= 2 ==> Coded() && Loaded()
      requires scanline != null ==> IsScanline(bpp, width, scanline[..])
      modifies writer.Footprint(), lastDc, samples, coefficients, mcuLines
      modifies this`blocks, this`lines, this`mcuYOfs, this`passNum
      ensures Ready() && writer.Valid() && writer.head == old(writer.head) && (ok <==> 1 <= old(passNum) <= 2)
      ensures !ok ==>
        passNum == old(passNum) && lines == old(lines) && writer.stream.offered == old(writer.stream.offered)
      ensures ok && scanline != null ==>
        Coded() && Loaded() && passNum == old(passNum) && lines == old(lines + [scanline[..]])
      ensures ok && scanline == null ==>
        && passNum == old(passNum) + 1 && lines == old(lines) && AreScanlines(Seen())
        && writer.stream.offered == writer.head + ScanAndEnd(Seen(), quality)
    {
      hide Ready, Coded, Loaded, AreScanlines, ScanAndEnd, IsScanline, Writer.InScan;
      if passNum < 1 || passNum > 2 {
        return false;
      }
      Apart();
      if writer.allWritesSucceeded {
        if scanline == null {
          var done := ProcessEndOfImage();
          if !done {
            return false;
          }
        } else {
          LoadMcu(scanline);
          CodedIsValid();
        }
      }
      return writer.allWritesSucceeded;
    }

    lemma ReadyIsValid()
      requires Ready()
      ensures statics.Valid()
    {
      hide Buffers, Statics.Valid;
    }

    lemma CodedIsValid()
      requires Coded()
      ensures writer.Valid() && writer.allWritesSucceeded
    {
      hide Usable, Standard, AfterAll, ScanBits;
    }
  }

  /** The check at the start of `init`. */
  predicate Acceptable(stream: MemoryStream?, width: int, height: int, channels: int, quality: int) {
    stream != null && width >= 1 && height >= 1 && (channels == 1 || channels == 3 || channels == 4)
      && 1 <= quality <= 100
  }

  /** `init`: an encoder that has emitted its headers, or null. */
  method Init(statics: Statics, stream: MemoryStream?, bufferSize: nat, width: int, height: int, channels: int,
              sub: Subsampling, quality: int) returns (enc: JpegEncoder?)
    requires statics.Valid() && bufferSize > 0
    requires stream != null ==> stream.Valid() && stream.offered == [] && statics.Repr() !! {stream, stream.outBuf}
    modifies statics.Repr(), stream, if stream == null then {} else {stream.outBuf}
    ensures statics.Valid() && (enc != null <==> Acceptable(stream, width, height, channels, quality))
    ensures enc == null && stream != null ==> stream.Valid() && stream.offered == []
    ensures enc != null ==>
      && fresh(enc) && fresh(enc.writer) && fresh(enc.writer.outBuf) && enc.writer.stream == stream
      && fresh(enc.samples) && fresh(enc.coefficients) && fresh(enc.lastDc) && fresh(enc.mcuLines)
      && enc.statics == statics && enc.sub == sub && enc.width == width && enc.bpp == channels && enc.quality == quality
      && enc.Sized() && enc.Ready() && enc.Coded() && enc.Loaded() && enc.passNum == 2 && enc.lines == []
      && enc.writer.head == Header(sub, quality, width, height)
  {
    hide JpegEncoder.Ready, JpegEncoder.Coded, JpegEncoder.Loaded, Statics.Valid, Writer.Valid, Header;
    if stream == null || width < 1 || height < 1 || (channels != 1 && channels != 3 && channels != 4)
       || quality < 1 || quality > 100 {
      return null;
    }
    var writer := new Writer(stream, bufferSize);
    enc := new JpegEncoder(statics, writer, sub, quality, width, channels);
    enc.JpgOpen(height);
    enc.ReadyIsValid();
  }

  /** The bytes of the scan and the EOI marker. */
  ghost function ScanAndEnd(p: Image, quality: nat): seq<Byte>
    requires AreScanlines(p) && 1 <= quality <= 100
  {
    AllIsCodable(p, quality);
    StandardIsUsable();
    ScanBytes(ScanBits(Standard(), AllBlocks(p, quality), [0, 0, 0])) + Marker(0xD9)
  }

  /** The JPEG file of an image. */
  ghost function File(p: Image, quality: nat): seq<Byte>
    requires AreScanlines(p) && 1 <= quality <= 100
  {
    Header(p.sub, quality, p.width, |p.lines|) + ScanAndEnd(p, quality)
  }

  lemma SevenOnes()
    ensures BitsOf(0x7F, 7) == Ones(7) && 0x7F < Pow2(7)
  {
  }

  lemma PaddedScan(bits: seq<bool>)
    ensures Stuff(Pack(bits + BitsOf(0x7F, 7))) == ScanBytes(bits)
  {
    hide Stuff, Pack, BitsOf;
    SevenOnes();
  }

  lemma ConcatBytes(a: seq<Byte>, b: seq<Byte>, c: seq<Byte>)
    ensures a + (b + c) == (a + b) + c
  {
  }

  lemma NothingCoded()
    requires Usable(Standard())
    ensures ScanBits(Standard(), [], [0, 0, 0]) == [] && AfterAll([], [0, 0, 0]) == [0, 0, 0]
  {
    hide Usable, Standard;
  }

  lemma RowCount(s: Subsampling, row: nat, n: nat)
    requires n <= McuY(s)
    ensures CompleteRows(s, Top(s, row) + n) == if n == McuY(s) then row + 1 else row
    ensures Top(s, row) + McuY(s) == Top(s, row + 1)
  {
  }

  /** The blocks of an MCU one after the other. */
  lemma McuBlocks(p: Image, quality: nat, row: nat, i: nat, before: seq<Block>)
    requires IsImage(p) && 1 <= quality <= 100
    ensures var all := before + BlocksOf(p, quality, row, McuPlan(p.sub, i));
      match p.sub
      case YOnly => all == before + [BlockOf(p, quality, row, Direct(i, 0, 0))]
      case H1V1 =>
        all == before + [BlockOf(p, quality, row, Direct(i, 0, 0))] + [BlockOf(p, quality, row, Direct(i, 0, 1))]
               + [BlockOf(p, quality, row, Direct(i, 0, 2))]
      case H2V1 =>
        all == before + [BlockOf(p, quality, row, Direct(2 * i, 0, 0))]
          + [BlockOf(p, quality, row, Direct(2 * i + 1, 0, 0))]
               + [BlockOf(p, quality, row, Pair(i, 1))] + [BlockOf(p, quality, row, Pair(i, 2))]
      case H2V2 =>
        all == before + [BlockOf(p, quality, row, Direct(2 * i, 0, 0))]
          + [BlockOf(p, quality, row, Direct(2 * i + 1, 0, 0))]
               + [BlockOf(p, quality, row, Direct(2 * i, 1, 0))] + [BlockOf(p, quality, row, Direct(2 * i + 1, 1, 0))]
               + [BlockOf(p, quality, row, Quad(i, 1))] + [BlockOf(p, quality, row, Quad(i, 2))]
  {
    hide BlockOf, IsImage;
  }

  lemma PixelKept(p: Image, q: Image, x: nat, y: nat, c: nat)
    requires IsImage(p) && IsImage(q) && q == p.(lines := q.lines) && p.lines <= q.lines && y < |p.lines|
    ensures Pixel(p, x, y, c) == Pixel(q, x, y, c)
  {
    hide Convert;
  }

  lemma DirectSample(p: Image, row: nat, b: BlockSource, i: nat, j: nat)
    requires IsImage(p) && b.Direct? && i < 8 && j < 8
    ensures SampleAt(p, row, b, 8 * i + j) == Pixel(p, 8 * b.h + j, Top(p.sub, row) + (8 * b.v + i), b.component) - 128
  {
    hide Pixel;
    assert (8 * i + j) / 8 == i && (8 * i + j) % 8 == j;
  }

  lemma BiasAlternates(i: nat, j: nat)
    ensures Bias(i + j) == (if j % 2 == 0 then Bias(i) else Bias(i + 1)) && Bias(i + 2) == Bias(i)
    ensures Bias(0) == 0 && Bias(1) == 2
  {
  }

  lemma QuadSample(p: Image, row: nat, b: BlockSource, i: nat, j: nat)
    requires IsImage(p) && b.Quad? && i < 8 && j < 8
    ensures var x, y := 16 * b.h + 2 * j, Top(p.sub, row) + 2 * i;
      SampleAt(p, row, b, 8 * i + j) ==
      Mean4(Pixel(p, x, y, b.component), Pixel(p, x + 1, y, b.component), Pixel(p, x, y + 1, b.component),
            Pixel(p, x + 1, y + 1, b.component), Bias(i + j)) - 128
  {
    hide Pixel, Mean4;
    assert (8 * i + j) / 8 == i && (8 * i + j) % 8 == j;
  }

  lemma PairSample(p: Image, row: nat, b: BlockSource, i: nat, j: nat)
    requires IsImage(p) && b.Pair? && i < 8 && j < 8
    ensures var x, y := 16 * b.h + 2 * j, Top(p.sub, row) + i;
      SampleAt(p, row, b, 8 * i + j) == (Pixel(p, x, y, b.component) + Pixel(p, x + 1, y, b.component)) / 2 - 128
  {
    hide Pixel;
    assert (8 * i + j) / 8 == i && (8 * i + j) % 8 == j;
  }

  lemma BlockIsDcThenAc(b: Block, p: Predictors, before: seq<bool>)
    requires IsBlock(b) && Usable(Standard())
    requires ValidSpec(TableAt(Selector(b.component))) && ValidSpec(TableAt(2 + Selector(b.component)))
    ensures before + Scan.CodeBlock(Standard(), b, p)
         == (before + DcBits(TableAt(Selector(b.component)), b.coefficients[0] - p[b.component]))
            + AcBits(TableAt(2 + Selector(b.component)), b.coefficients, 1, 0)
  {
    hide TableAt, DcBits, AcBits, ValidSpec, Usable;
    ConcatAssoc(before, DcBits(TableAt(Selector(b.component)), b.coefficients[0] - p[b.component]),
                AcBits(TableAt(2 + Selector(b.component)), b.coefficients, 1, 0));
  }

  lemma CoefficientRange(c: seq<int>)
    requires InRange(c)
    ensures |c| == 64 && -1024 <= c[0] <= 1023 && forall i :: 1 <= i < 64 ==> -1023 <= c[i] <= 1023
  {
  }

  lemma QuantisedIsInRange(p: seq<int>, table: seq<nat>)
    requires IsSamples(p) && |table| == 64 && forall i :: 0 <= i < 64 ==> table[i] >= 1
    ensures InRange(Quantised(Forward(p), table))
  {
    hide Forward, Quantised, ScanIndex;
    QuantisedBlock(p, table);
  }


  lemma ZrlFirst(t: Spec, run: nat, before: seq<bool>)
    requires ValidSpec(t) && run >= 16
    ensures before + ZrlBits(t, run) == (before + SymbolBits(t, 0xF0)) + ZrlBits(t, run - 16)
  {
    ConcatAssoc(before, SymbolBits(t, 0xF0), ZrlBits(t, run - 16));
  }

  lemma ZrlLast(t: Spec, run: nat, before: seq<bool>)
    requires ValidSpec(t) && run < 16
    ensures before + ZrlBits(t, run) == before
  {
  }

  lemma NoMagnitude(v: int)
    requires Category(Abs(v)) == 0
    ensures MagnitudeBits(v) == []
  {
  }
}
