/** The tables of ITU-T T.81, Annex K, as the standard prints them. */
module AnnexK {
  import opened Basics
  import opened Bits
  import opened Huffman
  import opened Entropy
  import opened StandardTables
  import opened Headers
  import opened Quantise

  /** Table K.1: luminance quantisation, row by row. */
  function K1(r: nat): (row: seq<nat>)
    ensures |row| == 8
  {
    if r == 0 then [16, 11, 10, 16, 24, 40, 51, 61]
    else if r == 1 then [12, 12, 14, 19, 26, 58, 60, 55]
    else if r == 2 then [14, 13, 16, 24, 40, 57, 69, 56]
    else if r == 3 then [14, 17, 22, 29, 51, 87, 80, 62]
    else if r == 4 then [18, 22, 37, 56, 68, 109, 103, 77]
    else if r == 5 then [24, 35, 55, 64, 81, 104, 113, 92]
    else if r == 6 then [49, 64, 78, 87, 103, 121, 120, 101]
    else [72, 92, 95, 98, 112, 100, 103, 99]
  }

  /** Table K.2: chrominance. */
  function K2(r: nat): (row: seq<nat>)
    ensures |row| == 8
  {
    if r == 0 then [17, 18, 24, 47, 99, 99, 99, 99]
    else if r == 1 then [18, 21, 26, 66, 99, 99, 99, 99]
    else if r == 2 then [24, 26, 56, 99, 99, 99, 99, 99]
    else if r == 3 then [47, 66, 99, 99, 99, 99, 99, 99]
    else [99, 99, 99, 99, 99, 99, 99, 99]
  }

  function K(chroma: bool, r: nat, c: nat): nat
    requires r < 8 && c < 8
  {
    if chroma then K2(r)[c] else K1(r)[c]
  }

  lemma ScanPlace(r: nat, c: nat)
    requires r < 8 && c < 8
    ensures ScanIndex(8 * r + c) == ScanRow(r)[c]
  {
    hide ScanRow;
    assert (8 * r + c) / 8 == r && (8 * r + c) % 8 == c;
  }

  predicate LumaPlaced(r: nat, c: nat)
    requires r < 8 && c < 8
  {
    var i := ScanRow(r)[c];
    i < 64 && LumRow(i / 8)[i % 8] == K1(r)[c]
  }

  predicate ChromaPlaced(r: nat, c: nat)
    requires r < 8 && c < 8
  {
    var i := ScanRow(r)[c];
    i < 64 && ChromaRow(i / 8)[i % 8] == K2(r)[c]
  }

  lemma UpperLuma(r: nat, c: nat)
    requires r < 4 && c < 8
    ensures LumaPlaced(r, c)
  {
    if r == 0 { } else if r == 1 { } else if r == 2 { } else { }
  }

  lemma LowerLuma(r: nat, c: nat)
    requires 4 <= r < 8 && c < 8
    ensures LumaPlaced(r, c)
  {
    if r == 4 { } else if r == 5 { } else if r == 6 { } else { }
  }

  lemma UpperChroma(r: nat, c: nat)
    requires r < 4 && c < 8
    ensures ChromaPlaced(r, c)
  {
    if r == 0 { } else if r == 1 { } else if r == 2 { } else { }
  }

  lemma LowerChroma(r: nat, c: nat)
    requires 4 <= r < 8 && c < 8
    ensures ChromaPlaced(r, c)
  {
    if r == 4 { } else if r == 5 { } else if r == 6 { } else { }
  }

  lemma Placed(chroma: bool, r: nat, c: nat)
    requires r < 8 && c < 8
    ensures ScanIndex(8 * r + c) < 64 && StdQuant(chroma)[ScanIndex(8 * r + c)] == K(chroma, r, c)
  {
    hide ScanRow, LumRow, ChromaRow, K1, K2, ScanIndex;
    ScanPlace(r, c);
    if chroma {
      if r < 4 {
        UpperChroma(r, c);
      } else {
        LowerChroma(r, c);
      }
    } else if r < 4 {
      UpperLuma(r, c);
    } else {
      LowerLuma(r, c);
    }
  }

  lemma KRange(chroma: bool, r: nat, c: nat)
    requires r < 8 && c < 8
    ensures 10 <= K(chroma, r, c) <= 121
  {
  }

  /** Better qualities take 200 - 2 q percent of the standard step, rounded, but never less than 1. */
  lemma BetterQuality(chroma: bool, quality: nat, r: nat, c: nat)
    requires r < 8 && c < 8 && 50 <= quality <= 100
    ensures ScanIndex(8 * r + c) < 64
    ensures var t, v := Table(chroma, quality)[ScanIndex(8 * r + c)], K(chroma, r, c) * (200 - 2 * quality);
      if v < 50 then t == 1 else Abs(100 * t - v) <= 50
  {
    hide ScanIndex, StdQuant, K;
    Placed(chroma, r, c);
    KRange(chroma, r, c);
    var k, scale := K(chroma, r, c), 200 - 2 * quality;
    MulOrder(scale, 100, k);
  }

  /** At quality 50 the encoder uses the tables of the standard: K.1 for luminance, K.2 for chrominance. */
  lemma QualityFifty(chroma: bool, r: nat, c: nat)
    requires r < 8 && c < 8
    ensures ScanIndex(8 * r + c) < 64 && Table(chroma, 50)[ScanIndex(8 * r + c)] == K(chroma, r, c)
  {
    hide ScanIndex, Table, K;
    BetterQuality(chroma, 50, r, c);
    KRange(chroma, r, c);
  }

  /** Worse qualities take 5000 / q percent, rounded down twice, but never more than 255. */
  lemma WorseQuality(chroma: bool, quality: nat, r: nat, c: nat)
    requires r < 8 && c < 8 && 1 <= quality < 50
    ensures ScanIndex(8 * r + c) < 64
    ensures var t, k := Table(chroma, quality)[ScanIndex(8 * r + c)], K(chroma, r, c);
      && t <= 255 && 100 * t * quality <= 5000 * k + 50 * quality
      && (t == 255 || 100 * t * quality >= 5000 * k - (k + 49) * quality)
  {
    hide ScanIndex, StdQuant, K, Table, Entry;
    Placed(chroma, r, c);
    KRange(chroma, r, c);
    TableAtIndex(chroma, quality, ScanIndex(8 * r + c));
    ScaledEntry(K(chroma, r, c), quality);
  }

  lemma TableAtIndex(chroma: bool, quality: nat, i: nat)
    requires 1 <= quality <= 100 && i < 64
    ensures Table(chroma, quality)[i] == Entry(StdQuant(chroma)[i], quality)
  {
    hide StdQuant;
  }

  lemma ScaledEntry(k: nat, quality: nat)
    requires 1 <= quality < 50 && k >= 10
    ensures var t := Entry(k, quality);
      && t <= 255 && 100 * t * quality <= 5000 * k + 50 * quality
      && (t == 255 || 100 * t * quality >= 5000 * k - (k + 49) * quality)
  {
    hide Entry;
    EntryBounds(k, quality);
    Rounded(k, quality, 5000 / quality, Entry(k, quality));
  }

  lemma EntryBounds(k: nat, quality: nat)
    requires 1 <= quality < 50 && k >= 10
    ensures var t, v := Entry(k, quality), k * (5000 / quality);
      100 * t <= v + 50 && (t == 255 || 100 * t >= v - 49)
  {
    var scale := 5000 / quality;
    DivAtLeast(5000, quality, 100);
    MulOrder(100, scale, k);
  }

  lemma Rounded(k: nat, quality: nat, scale: nat, t: nat)
    requires scale * quality <= 5000 < scale * quality + quality
    ensures 100 * t <= k * scale + 50 ==> 100 * t * quality <= 5000 * k + 50 * quality
    ensures 100 * t >= k * scale - 49 ==> 100 * t * quality >= 5000 * k - (k + 49) * quality
  {
    var v := k * scale;
    MulOrder(100 * t, v + 50, quality);
    MulOrder(v - 49, 100 * t, quality);
    Assoc(k, scale, quality);
    MulOrder(scale * quality, 5000, k);
    MulOrder(5000 - quality, scale * quality, k);
    assert (v + 50) * quality == v * quality + 50 * quality && (v - 49) * quality == v * quality - 49 * quality;
    assert k * (5000 - quality) == 5000 * k - k * quality && (k + 49) * quality == k * quality + 49 * quality;
  }

  lemma Assoc(a: int, b: int, c: int)
    ensures a * b * c == a * (b * c)
  {
  }

  // ------------------------------------------------------------ the zig-zag

  lemma UpperZigZag(r: nat, c: nat)
    requires r < 4 && c < 8
    ensures var d, i := r + c, ScanRow(r)[c];
      && (d < 8 ==> i == d * (d + 1) / 2 + (if d % 2 == 0 then c else r))
      && i + ScanRow(7 - r)[7 - c] == 63
  {
    if r == 0 { } else if r == 1 { } else if r == 2 { } else { }
  }

  lemma LowerZigZag(r: nat, c: nat)
    requires 4 <= r < 8 && c < 8
    ensures var d, i := r + c, ScanRow(r)[c];
      && (d < 8 ==> i == d * (d + 1) / 2 + (if d % 2 == 0 then c else r))
      && i + ScanRow(7 - r)[7 - c] == 63
  {
    if r == 4 { } else if r == 5 { } else if r == 6 { } else { }
  }

  /** The scan runs along the diagonals in turn upwards and downwards; its second half is its first half turned
      round. */
  lemma ZigZag(r: nat, c: nat)
    requires r < 8 && c < 8
    ensures var d, i := r + c, ScanIndex(8 * r + c);
      && (d < 8 ==> i == d * (d + 1) / 2 + (if d % 2 == 0 then c else r))
      && i + ScanIndex(8 * (7 - r) + (7 - c)) == 63
  {
    hide ScanIndex, ScanRow;
    ScanPlace(r, c);
    ScanPlace(7 - r, 7 - c);
    if r < 4 {
      UpperZigZag(r, c);
    } else {
      LowerZigZag(r, c);
    }
  }

  // ------------------------------------------------------------ Huffman codes

  function Digits(s: string): (b: seq<bool>)
    ensures |b| == |s|
  {
    seq(|s|, i requires 0 <= i < |s| => s[i] == '1')
  }

  /** Table K.3: codes of the luminance DC difference categories. */
  function K3(category: nat): string
    requires category < 12
  {
    ["00", "010", "011", "100", "101", "110", "1110", "11110", "111110", "1111110", "11111110", "111111110"][category]
  }

  /** Table K.4: chrominance. */
  function K4(category: nat): string
    requires category < 12
  {
    ["00", "01", "10", "110", "1110", "11110", "111110", "1111110", "11111110", "111111110", "1111111110",
     "11111111110"][category]
  }

  lemma {:induction false} LastIndexIs(val: seq<nat>, n: nat, v: nat, p: nat)
    requires p < n <= |val| && val[p] == v && forall q :: p < q < n ==> val[q] != v
    ensures LastIndex(val, n, v) == p
    decreases n
  {
    if p < n - 1 {
      LastIndexIs(val, n - 1, v, p);
    }
  }

  /** The code of the value at place `p`. */
  lemma SymbolAt(t: Spec, v: nat, p: nat)
    requires ValidSpec(t) && p < |AllSizes(t)| && t.val[p] == v
    requires forall q :: p < q < |AllSizes(t)| ==> t.val[q] != v
    ensures SymbolBits(t, v) == BitsOf(Code(AllSizes(t), p), AllSizes(t)[p])
  {
    LastIndexIs(t.val, |AllSizes(t)|, v, p);
  }

  lemma {:induction false} DcLumTotals(bits: seq<nat>, l: nat)
    requires bits == DcLum().bits && 1 <= l <= 9
    ensures Total(bits, l) == if l == 1 then 0 else if l == 2 then 1 else l + 3
    decreases l
  {
    if l > 1 {
      DcLumTotals(bits, l - 1);
    }
  }

  lemma {:induction false} DcChromaTotals(bits: seq<nat>, l: nat)
    requires bits == DcChroma().bits && 1 <= l <= 11
    ensures Total(bits, l) == if l == 1 then 0 else l + 1
    decreases l
  {
    if l > 1 {
      DcChromaTotals(bits, l - 1);
    }
  }

  lemma DcLumSize(p: nat)
    requires p < 12
    ensures p < |AllSizes(DcLum())|
    ensures AllSizes(DcLum())[p] == if p == 0 then 2 else if p < 6 then 3 else p - 2
  {
    hide Total;
    var b, m := DcLum().bits, if p == 0 then 2 else if p < 6 then 3 else p - 2;
    DcLumTotals(b, m - 1);
    DcLumTotals(b, m);
    SizesAt(b, 16, m, p);
  }

  lemma DcChromaSize(p: nat)
    requires p < 12
    ensures p < |AllSizes(DcChroma())| && AllSizes(DcChroma())[p] == if p < 3 then 2 else p
  {
    hide Total;
    var b, m := DcChroma().bits, if p < 3 then 2 else p;
    DcChromaTotals(b, m - 1);
    DcChromaTotals(b, m);
    SizesAt(b, 16, m, p);
  }

  lemma ShlFew(v: nat)
    ensures Shl(v, 0) == v && Shl(v, 1) == 2 * v
  {
  }

  lemma {:induction false} DcLumCode(p: nat)
    requires p < 12
    ensures p < |AllSizes(DcLum())|
    ensures Code(AllSizes(DcLum()), p) == if p == 0 then 0 else if p < 6 then p + 1 else 2 * (Pow2(p - 3) - 1)
    decreases p
  {
    hide AllSizes, Pow2, Shl;
    DcLumSize(p);
    if p > 0 {
      DcLumSize(p - 1);
      DcLumCode(p - 1);
      ShlFew(Code(AllSizes(DcLum()), p - 1) + 1);
      SmallPowers();
    }
  }

  lemma {:induction false} DcChromaCode(p: nat)
    requires p < 12
    ensures p < |AllSizes(DcChroma())|
    ensures Code(AllSizes(DcChroma()), p) == if p < 3 then p else 2 * (Pow2(p - 1) - 1)
    decreases p
  {
    hide AllSizes, Pow2, Shl;
    DcChromaSize(p);
    if p > 0 {
      DcChromaSize(p - 1);
      DcChromaCode(p - 1);
      ShlFew(Code(AllSizes(DcChroma()), p - 1) + 1);
      SmallPowers();
    }
  }

  lemma ShortDigits()
    ensures BitsOf(0, 2) == Digits("00") && BitsOf(1, 2) == Digits("01") && BitsOf(2, 2) == Digits("10")
    ensures BitsOf(2, 3) == Digits("010") && BitsOf(3, 3) == Digits("011") && BitsOf(4, 3) == Digits("100")
    ensures BitsOf(5, 3) == Digits("101") && BitsOf(6, 3) == Digits("110")
  {
    assert BitsOf(0, 1) == [false] && BitsOf(1, 1) == [true];
    assert BitsOf(0, 2) == [false, false] && BitsOf(1, 2) == [false, true] && BitsOf(2, 2) == [true, false];
    assert BitsOf(3, 2) == [true, true];
  }

  /** `n` ones and a zero. */
  function OnesZero(n: nat): seq<bool> {
    seq(n, _ => true) + [false]
  }

  lemma {:induction false} AllOnes(n: nat)
    ensures BitsOf(Pow2(n) - 1, n) == seq(n, _ => true)
  {
    if n > 0 {
      AllOnes(n - 1);
      assert (Pow2(n) - 1) / 2 == Pow2(n - 1) - 1;
    }
  }

  lemma LongDigits(n: nat)
    ensures BitsOf(2 * (Pow2(n) - 1), n + 1) == OnesZero(n)
  {
    AllOnes(n);
  }

  lemma LongStrings(category: nat)
    requires category < 12
    ensures category >= 6 ==> Digits(K3(category)) == OnesZero(category - 3)
    ensures category >= 3 ==> Digits(K4(category)) == OnesZero(category - 1)
  {
  }

  lemma SmallPowers()
    ensures Pow2(2) == 4 && Pow2(3) == 8 && Pow2(4) == 16 && Pow2(5) == 32 && Pow2(6) == 64 && Pow2(7) == 128
    ensures Pow2(8) == 256 && Pow2(9) == 512 && Pow2(10) == 1024
  {
    assert Pow2(3) == 8 && Pow2(5) == 32 && Pow2(7) == 128;
  }

  /** The DC codes that the encoder writes for luminance are those of table K.3. */
  lemma DcLumIsK3(category: nat)
    requires category < 12
    ensures ValidSpec(TableAt(0)) && SymbolBits(TableAt(0), category) == Digits(K3(category))
  {
    hide Code, AllSizes, Total, BitsOf, Pow2, Digits, K3;
    var t := TableAt(0);
    assert ValidSpec(t) by { StandardTransmittable(0); }
    DcCategories();
    DcLumSize(category);
    DcLumCode(category);
    SymbolAt(t, category, category);
    ShortDigits();
    ShortStrings();
    if category >= 6 {
      LongStrings(category);
      LongDigits(category - 3);
    }
  }

  /** For chrominance those of table K.4. */
  lemma DcChromaIsK4(category: nat)
    requires category < 12
    ensures ValidSpec(TableAt(1)) && SymbolBits(TableAt(1), category) == Digits(K4(category))
  {
    hide Code, AllSizes, Total, BitsOf, Pow2, Digits, K4;
    var t := TableAt(1);
    assert ValidSpec(t) by { StandardTransmittable(1); }
    DcCategories();
    DcChromaSize(category);
    DcChromaCode(category);
    SymbolAt(t, category, category);
    ShortDigits();
    ShortStrings();
    if category >= 3 {
      LongStrings(category);
      LongDigits(category - 1);
    }
  }

  lemma DcCategories()
    ensures forall p :: 0 <= p < 12 ==> DcLum().val[p] == p && DcChroma().val[p] == p
    ensures |AllSizes(DcLum())| == 12 && |AllSizes(DcChroma())| == 12
  {
    hide Total, AllSizes;
    SizeCounts();
  }

  lemma SizeCounts()
    ensures |AllSizes(DcLum())| == 12 && |AllSizes(DcChroma())| == 12
  {
    hide Total;
    DcLumCounts(DcLum().bits);
    DcChromaCounts(DcChroma().bits);
  }

  lemma ShortStrings()
    ensures K3(0) == "00" && K3(1) == "010" && K3(2) == "011" && K3(3) == "100" && K3(4) == "101" && K3(5) == "110"
    ensures K4(0) == "00" && K4(1) == "01" && K4(2) == "10"
  {
  }

  lemma AcLumZeroOnce0(q: nat)
    requires 3 < q < 80
    ensures AcLumVal(q) != 0
  {
    var r := q / 16;
    if r == 0 { } else if r == 1 { } else if r == 2 { } else if r == 3 { } else { }
  }

  lemma AcLumZeroOnce80(q: nat)
    requires 79 < q < 162
    ensures AcLumVal(q) != 0
  {
    var r := q / 16;
    if r == 5 { } else if r == 6 { } else if r == 7 { } else if r == 8 { } else if r == 9 { } else { }
  }

  lemma AcChromaZeroOnce0(q: nat)
    requires 0 < q < 80
    ensures AcChromaVal(q) != 0
  {
    var r := q / 16;
    if r == 0 { } else if r == 1 { } else if r == 2 { } else if r == 3 { } else { }
  }

  lemma AcChromaZeroOnce80(q: nat)
    requires 79 < q < 162
    ensures AcChromaVal(q) != 0
  {
    var r := q / 16;
    if r == 5 { } else if r == 6 { } else if r == 7 { } else if r == 8 { } else if r == 9 { } else { }
  }

  /** End of block is 1010 for luminance (table K.5). */
  lemma LumEndOfBlock()
    ensures ValidSpec(TableAt(2)) && SymbolBits(TableAt(2), 0) == Digits("1010")
  {
    hide Code, AllSizes, AcLum, Digits, BitsOf, Total, WeightedCount;
    var t := AcLum();
    assert ValidSpec(t) by { StandardTransmittable(2); }
    LumEndOfBlockPlace();
    SymbolAt(t, 0, 3);
    EndOfBlockNumbers();
    CodeByLength(t, 4, 0);
    TenDigits();
  }

  /** And 00 for chrominance (table K.6). */
  lemma ChromaEndOfBlock()
    ensures ValidSpec(TableAt(3)) && SymbolBits(TableAt(3), 0) == Digits("00")
  {
    hide Code, AllSizes, AcChroma, Digits, BitsOf, Total, WeightedCount;
    var t := AcChroma();
    assert ValidSpec(t) by { StandardTransmittable(3); }
    ChromaEndOfBlockPlace();
    SymbolAt(t, 0, 0);
    EndOfBlockNumbers();
    CodeByLength(t, 2, 0);
    assert BitsOf(0, 2) == Digits("00") by { ShortDigits(); }
  }

  lemma TenDigits()
    ensures BitsOf(10, 4) == Digits("1010")
  {
    assert BitsOf(2, 2) == [true, false];
  }

  lemma EndOfBlockNumbers()
    ensures |AcLum().bits| == |AcChroma().bits| == 17 && AcLum().bits[4] == 3 && AcChroma().bits[2] == 2
    ensures Total(AcLum().bits, 3) == 3 && WeightedCount(AcLum().bits, 3) == 5
    ensures Total(AcChroma().bits, 1) == 0 && WeightedCount(AcChroma().bits, 1) == 0
  {
    var b := AcLum().bits;
    assert Total(b, 1) == 0 && WeightedCount(b, 1) == 0;
  }

  lemma LumEndOfBlockPlace()
    ensures |AllSizes(AcLum())| == 162
    ensures AcLum().val[3] == 0 && forall q :: 3 < q < 162 ==> AcLum().val[q] != 0
  {
    hide Total, AcLumVal;
    AcLumCounts(AcLum().bits);
    AcLumHasEobAndZrl();
    forall q | 3 < q < 162 ensures AcLum().val[q] != 0 {
      if q < 80 {
        AcLumZeroOnce0(q);
      } else {
        AcLumZeroOnce80(q);
      }
    }
  }

  lemma ChromaEndOfBlockPlace()
    ensures |AllSizes(AcChroma())| == 162
    ensures AcChroma().val[0] == 0 && forall q :: 0 < q < 162 ==> AcChroma().val[q] != 0
  {
    hide Total, AcChromaVal;
    AcChromaCounts(AcChroma().bits);
    AcChromaHasEobAndZrl();
    forall q | 0 < q < 162 ensures AcChroma().val[q] != 0 {
      if q < 80 {
        AcChromaZeroOnce0(q);
      } else {
        AcChromaZeroOnce80(q);
      }
    }
  }
}
