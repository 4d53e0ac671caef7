/** How long an encoded file is: bounds from the number of its blocks alone. */
module FileSize {
  import opened Basics
  import opened Bits
  import opened Huffman
  import opened Entropy
  import opened Stuffing
  import opened Scan
  import opened Quantise
  import opened Picture
  import opened Output
  import opened StandardTables
  import opened Headers
  import opened Encoder
  import opened FileRoundTrip
  import D = FileDecoder

  /** A code that has no code word of one bit. */
  ghost predicate NoOneBitCode(t: Spec) {
    |t.bits| == 17 && t.bits[1] == 0
  }

  lemma SymbolLength(t: Spec, v: nat)
    requires ValidSpec(t) && HasCode(t, v) && NoOneBitCode(t)
    ensures 2 <= |SymbolBits(t, v)| <= 16
  {
    LastIndexRange(t.val, |AllSizes(t)|, v);
    SizesInverse(t.bits, 16, LastIndex(t.val, |AllSizes(t)|, v));
    assert Total(t.bits, 1) == Total(t.bits, 0) + t.bits[1] == 0;
  }

  lemma {:induction false} ZrlLength(t: Spec, run: nat)
    requires AcTable(t) && NoOneBitCode(t)
    ensures |ZrlBits(t, run)| <= run
  {
    hide SymbolBits;
    if run >= 16 {
      SymbolLength(t, 0xF0);
      ZrlLength(t, run - 16);
    }
  }

  /** At most 26 bits for each of the coefficients that a run and the number behind it cover. */
  lemma RunLength(t: Spec, run: nat, v: int)
    requires AcTable(t) && NoOneBitCode(t) && v != 0 && -1023 <= v <= 1023
    ensures 2 <= |RunBits(t, run, v)| <= run + 26
  {
    hide SymbolBits, ZrlBits;
    var rs := SymbolOf(t, run % 16, v);
    ZrlLength(t, run);
    SymbolLength(t, rs);
    Categories(if v < 0 then -v else v);
  }

  lemma {:induction false} AcLength(t: Spec, c: seq<int>, i: nat, run: nat)
    requires AcTable(t) && NoOneBitCode(t) && InRange(c) && 1 <= i <= 64
    ensures |AcBits(t, c, i, run)| <= 26 * (64 - i + run)
    ensures i < 64 || run > 0 ==> |AcBits(t, c, i, run)| >= 2
    decreases 64 - i
  {
    hide SymbolBits, RunBits;
    if i == 64 {
      SymbolLength(t, 0);
    } else if c[i] == 0 {
      AcLength(t, c, i + 1, run + 1);
    } else {
      RunLength(t, run, c[i]);
      AcLength(t, c, i + 1, 0);
    }
  }

  /** The bits of any block: two symbols of two bits at least; a DC difference and 63 coefficients at most. */
  lemma BlockLength(dc: Spec, ac: Spec, c: seq<int>, pred: int)
    requires DcTable(dc) && AcTable(ac) && NoOneBitCode(dc) && NoOneBitCode(ac) && InRange(c) && -1024 <= pred <= 1023
    ensures 4 <= |BlockBits(dc, ac, c, pred)| <= 1665
  {
    hide SymbolBits, AcBits;
    var diff := c[0] - pred;
    Categories(if diff < 0 then -diff else diff);
    SymbolLength(dc, Category(if diff < 0 then -diff else diff));
    AcLength(ac, c, 1, 0);
  }

  ghost predicate NoOneBitCodes(t: Tables)
    requires Usable(t)
  {
    NoOneBitCode(t.dc[0]) && NoOneBitCode(t.dc[1]) && NoOneBitCode(t.ac[0]) && NoOneBitCode(t.ac[1])
  }

  lemma {:induction false} ScanLength(t: Tables, s: seq<Block>, p: Predictors)
    requires Usable(t) && NoOneBitCodes(t) && AreBlocks(s) && SmallPredictors(p)
    ensures 4 * |s| <= |ScanBits(t, s, p)| <= 1665 * |s|
  {
    if |s| > 0 {
      hide BlockBits, DcTable, AcTable, NoOneBitCode;
      var b := s[0];
      assert IsBlock(b);
      var i := Selector(b.component);
      assert DcTable(t.dc[i]) && AcTable(t.ac[i]);
      BlockLength(t.dc[i], t.ac[i], b.coefficients, p[b.component]);
      ScanLength(t, s[1..], After(b, p));
    }
  }

  lemma {:induction false} StuffLength(s: seq<Byte>)
    ensures |s| <= |Stuff(s)| <= 2 * |s|
  {
    if |s| > 0 {
      StuffLength(s[..|s| - 1]);
    }
  }

  lemma StandardHasNoOneBitCode()
    ensures Usable(Standard()) && NoOneBitCodes(Standard())
  {
    hide Usable;
    StandardIsUsable();
  }

  /** The bytes from SOI to the scan header. */
  function HeaderLength(sub: Subsampling): nat {
    if sub.YOnly? then 328 else 623
  }

  lemma HeaderSize(sub: Subsampling, quality: nat, width: nat, height: nat)
    requires 1 <= quality <= 100
    ensures |Header(sub, quality, width, height)| == HeaderLength(sub)
  {
    hide Table, Dhts, ScanComponents, FrameComponents;
    DhtsLength(sub);
    ScanComponentList();
    ReadComponents(sub);
  }

  lemma DhtsLength(sub: Subsampling)
    ensures |Dhts(sub)| == if sub.YOnly? then 216 else 432
  {
    hide Total, AcLumVal, AcChromaVal, Counts;
    AllTransmittable();
    StandardSizes();
    StandardTransmittable(0);
    StandardTransmittable(1);
    StandardTransmittable(2);
    StandardTransmittable(3);
  }

  /** The number of blocks of an image. */
  function BlockCount(sub: Subsampling, width: nat, height: nat): nat {
    CeilDiv(width, McuX(sub)) * CeilDiv(height, McuY(sub)) * |PlanComponents(sub)|
  }

  lemma {:induction false} RepeatLength(pattern: seq<nat>, n: nat)
    ensures |D.Repeat(pattern, n)| == n * |pattern|
  {
    if n > 0 {
      RepeatLength(pattern, n - 1);
      assert n * |pattern| == (n - 1) * |pattern| + |pattern|;
    }
  }

  lemma BlocksOfImage(p: Image, quality: nat)
    requires IsImage(p) && 1 <= quality <= 100
    ensures |AllBlocks(p, quality)| == BlockCount(p.sub, p.width, |p.lines|)
  {
    hide ImageBlocks, D.Repeat, PlanComponents;
    ImageComponents(p, quality, McuRows(p));
    RepeatLength(PlanComponents(p.sub), McusPerRow(p) * McuRows(p));
  }

  /** The length of an encoded file, whatever the pixels and the quality: at least half a byte and at most 417
      bytes for each block. */
  lemma FileLength(p: Image, quality: nat)
    requires IsImage(p) && 1 <= quality <= 100
    ensures var n, frame := BlockCount(p.sub, p.width, |p.lines|), HeaderLength(p.sub) + 2;
      frame + (4 * n + 7) / 8 <= |File(p, quality)| <= frame + 2 * ((1665 * n + 7) / 8)
  {
    hide Header, ScanBits, AllBlocks, Usable, Standard, NoOneBitCodes, BlockCount, Stuff, Pack, HeaderLength, AreBlocks;
    AllIsCodable(p, quality);
    StandardHasNoOneBitCode();
    BlocksOfImage(p, quality);
    HeaderSize(p.sub, quality, p.width, |p.lines|);
    var bits := ScanBits(Standard(), AllBlocks(p, quality), [0, 0, 0]);
    ScanLength(Standard(), AllBlocks(p, quality), [0, 0, 0]);
    StuffLength(Pack(bits + Ones(7)));
    assert |Marker(0xD9)| == 2;
  }
}
