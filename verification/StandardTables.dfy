/** The Huffman tables of ITU-T T.81, section K.3, which `jpg_open` installs. */
module StandardTables {
  import opened Bits
  import opened Huffman
  import opened Entropy

  lemma AllEntriesHaveCodes(t: Spec, v: Byte)
    requires ValidSpec(t) && |t.val| == Total(t.bits, 16) && v in t.val
    ensures HasCode(t, v)
  {
    assert t.val[..|AllSizes(t)|] == t.val;
  }

  lemma IsDcTable(t: Spec)
    requires |t.bits| == 17 && Total(t.bits, 16) == |t.val| <= 256 && WeightedCount(t.bits, 16) <= 65536
    requires forall n: Byte :: n <= 11 ==> n in t.val
    ensures DcTable(t)
  {
    TableFits(t);
    forall n | 0 <= n <= 11 ensures HasCode(t, n) {
      AllEntriesHaveCodes(t, n);
    }
  }

  lemma IsAcTable(t: Spec)
    requires |t.bits| == 17 && Total(t.bits, 16) == |t.val| <= 256 && WeightedCount(t.bits, 16) <= 65536
    requires 0 in t.val && 0xF0 in t.val
    requires forall run, n :: 0 <= run < 16 && 1 <= n <= 10 ==> RunSize(run, n) in t.val
    ensures AcTable(t)
  {
    TableFits(t);
    AllEntriesHaveCodes(t, 0);
    AllEntriesHaveCodes(t, 0xF0);
    forall run, n | 0 <= run < 16 && 1 <= n <= 10 ensures HasCode(t, RunSize(run, n)) {
      AllEntriesHaveCodes(t, RunSize(run, n));
    }
  }

  lemma NoLengths(bits: seq<nat>)
    requires |bits| > 0
    ensures Total(bits, 0) == 0 && WeightedCount(bits, 0) == 0
  {
  }

  lemma FourLengths(bits: seq<nat>, l: nat)
    requires l + 4 < |bits|
    ensures Total(bits, l + 4) == Total(bits, l) + bits[l + 1] + bits[l + 2] + bits[l + 3] + bits[l + 4]
    ensures WeightedCount(bits, l + 4)
         == 16 * WeightedCount(bits, l) + 8 * bits[l + 1] + 4 * bits[l + 2] + 2 * bits[l + 3] + bits[l + 4]
  {
    assert Total(bits, l + 2) == Total(bits, l) + bits[l + 1] + bits[l + 2];
    assert WeightedCount(bits, l + 2) == 4 * WeightedCount(bits, l) + 2 * bits[l + 1] + bits[l + 2];
  }

  function DcLum(): Spec {
    Spec([0, 0, 1, 5, 1, 1, 1, 1, 1, 1, 0, 0, 0, 0, 0, 0, 0], [0, 1, 2, 3, 4, 5, 6, 7, 8, 9, 10, 11])
  }

  function AcLum(): Spec {
    Spec([0, 0, 2, 1, 3, 3, 2, 4, 3, 5, 5, 4, 4, 0, 0, 1, 125], seq(162, i requires 0 <= i < 162 => AcLumVal(i)))
  }

  function AcLumVal(i: nat): Byte
    requires i < 162
  {
    AcLumRow(i / 16)[i % 16]
  }

  /** Sixteen entries of `s_ac_lum_val`; the last row has two. */
  function AcLumRow(r: nat): (row: seq<Byte>)
    ensures |row| == if r < 10 then 16 else 2
  {
    if r == 0 then [0x01, 0x02, 0x03, 0x00, 0x04, 0x11, 0x05, 0x12, 0x21, 0x31, 0x41, 0x06, 0x13, 0x51, 0x61, 0x07]
    else if r == 1 then [0x22, 0x71, 0x14, 0x32, 0x81, 0x91, 0xA1, 0x08, 0x23, 0x42, 0xB1, 0xC1, 0x15, 0x52, 0xD1, 0xF0]
    else if r == 2 then [0x24, 0x33, 0x62, 0x72, 0x82, 0x09, 0x0A, 0x16, 0x17, 0x18, 0x19, 0x1A, 0x25, 0x26, 0x27, 0x28]
    else if r == 3 then [0x29, 0x2A, 0x34, 0x35, 0x36, 0x37, 0x38, 0x39, 0x3A, 0x43, 0x44, 0x45, 0x46, 0x47, 0x48, 0x49]
    else if r == 4 then [0x4A, 0x53, 0x54, 0x55, 0x56, 0x57, 0x58, 0x59, 0x5A, 0x63, 0x64, 0x65, 0x66, 0x67, 0x68, 0x69]
    else if r == 5 then [0x6A, 0x73, 0x74, 0x75, 0x76, 0x77, 0x78, 0x79, 0x7A, 0x83, 0x84, 0x85, 0x86, 0x87, 0x88, 0x89]
    else if r == 6 then [0x8A, 0x92, 0x93, 0x94, 0x95, 0x96, 0x97, 0x98, 0x99, 0x9A, 0xA2, 0xA3, 0xA4, 0xA5, 0xA6, 0xA7]
    else if r == 7 then [0xA8, 0xA9, 0xAA, 0xB2, 0xB3, 0xB4, 0xB5, 0xB6, 0xB7, 0xB8, 0xB9, 0xBA, 0xC2, 0xC3, 0xC4, 0xC5]
    else if r == 8 then [0xC6, 0xC7, 0xC8, 0xC9, 0xCA, 0xD2, 0xD3, 0xD4, 0xD5, 0xD6, 0xD7, 0xD8, 0xD9, 0xDA, 0xE1, 0xE2]
    else if r == 9 then [0xE3, 0xE4, 0xE5, 0xE6, 0xE7, 0xE8, 0xE9, 0xEA, 0xF1, 0xF2, 0xF3, 0xF4, 0xF5, 0xF6, 0xF7, 0xF8]
    else [0xF9, 0xFA]
  }

  /** Where the symbols for `run` zeros and magnitudes 1 to 10 stand in `s_ac_lum_val`. */
  function AcLumPositions(run: nat): (p: seq<nat>)
    ensures |p| == 10
  {
    if run == 0 then [0, 1, 2, 4, 6, 11, 15, 23, 37, 38]
    else if run == 1 then [5, 7, 12, 18, 28, 39, 40, 41, 42, 43]
    else if run == 2 then [8, 16, 24, 32, 44, 45, 46, 47, 48, 49]
    else if run == 3 then [9, 19, 33, 50, 51, 52, 53, 54, 55, 56]
    else if run == 4 then [10, 25, 57, 58, 59, 60, 61, 62, 63, 64]
    else if run == 5 then [13, 29, 65, 66, 67, 68, 69, 70, 71, 72]
    else if run == 6 then [14, 34, 73, 74, 75, 76, 77, 78, 79, 80]
    else if run == 7 then [17, 35, 81, 82, 83, 84, 85, 86, 87, 88]
    else if run == 8 then [20, 36, 89, 90, 91, 92, 93, 94, 95, 96]
    else if run == 9 then [21, 97, 98, 99, 100, 101, 102, 103, 104, 105]
    else if run == 10 then [22, 106, 107, 108, 109, 110, 111, 112, 113, 114]
    else if run == 11 then [26, 115, 116, 117, 118, 119, 120, 121, 122, 123]
    else if run == 12 then [27, 124, 125, 126, 127, 128, 129, 130, 131, 132]
    else if run == 13 then [30, 133, 134, 135, 136, 137, 138, 139, 140, 141]
    else if run == 14 then [142, 143, 144, 145, 146, 147, 148, 149, 150, 151]
    else [152, 153, 154, 155, 156, 157, 158, 159, 160, 161]
  }

  // The positions are right, two runs at a time to keep each proof small.

  lemma AcLumRuns0(run: nat, n: nat)
    requires 0 <= run < 2 && 1 <= n <= 10
    ensures AcLumPositions(run)[n - 1] < 162 && AcLumVal(AcLumPositions(run)[n - 1]) == RunSize(run, n)
  {
    if run == 0 { } else { }
  }

  lemma AcLumRuns2(run: nat, n: nat)
    requires 2 <= run < 4 && 1 <= n <= 10
    ensures AcLumPositions(run)[n - 1] < 162 && AcLumVal(AcLumPositions(run)[n - 1]) == RunSize(run, n)
  {
    if run == 2 { } else { }
  }

  lemma AcLumRuns4(run: nat, n: nat)
    requires 4 <= run < 6 && 1 <= n <= 10
    ensures AcLumPositions(run)[n - 1] < 162 && AcLumVal(AcLumPositions(run)[n - 1]) == RunSize(run, n)
  {
    if run == 4 { } else { }
  }

  lemma AcLumRuns6(run: nat, n: nat)
    requires 6 <= run < 8 && 1 <= n <= 10
    ensures AcLumPositions(run)[n - 1] < 162 && AcLumVal(AcLumPositions(run)[n - 1]) == RunSize(run, n)
  {
    if run == 6 { } else { }
  }

  lemma AcLumRuns8(run: nat, n: nat)
    requires 8 <= run < 10 && 1 <= n <= 10
    ensures AcLumPositions(run)[n - 1] < 162 && AcLumVal(AcLumPositions(run)[n - 1]) == RunSize(run, n)
  {
    if run == 8 { } else { }
  }

  lemma AcLumRuns10(run: nat, n: nat)
    requires 10 <= run < 12 && 1 <= n <= 10
    ensures AcLumPositions(run)[n - 1] < 162 && AcLumVal(AcLumPositions(run)[n - 1]) == RunSize(run, n)
  {
    if run == 10 { } else { }
  }

  lemma AcLumRuns12(run: nat, n: nat)
    requires 12 <= run < 14 && 1 <= n <= 10
    ensures AcLumPositions(run)[n - 1] < 162 && AcLumVal(AcLumPositions(run)[n - 1]) == RunSize(run, n)
  {
    if run == 12 { } else { }
  }

  lemma AcLumRuns14(run: nat, n: nat)
    requires 14 <= run < 16 && 1 <= n <= 10
    ensures AcLumPositions(run)[n - 1] < 162 && AcLumVal(AcLumPositions(run)[n - 1]) == RunSize(run, n)
  {
    if run == 14 { } else { }
  }

  lemma AcLumHasEobAndZrl()
    ensures AcLumVal(3) == 0 && AcLumVal(31) == 0xF0
  {
  }

  lemma AcLumHasRun(run: nat, n: nat)
    requires run < 16 && 1 <= n <= 10
    ensures AcLumPositions(run)[n - 1] < 162 && AcLumVal(AcLumPositions(run)[n - 1]) == RunSize(run, n)
  {
    hide AcLumPositions, AcLumVal;
    if run < 2 { AcLumRuns0(run, n); }
    else if run < 4 { AcLumRuns2(run, n); }
    else if run < 6 { AcLumRuns4(run, n); }
    else if run < 8 { AcLumRuns6(run, n); }
    else if run < 10 { AcLumRuns8(run, n); }
    else if run < 12 { AcLumRuns10(run, n); }
    else if run < 14 { AcLumRuns12(run, n); }
    else { AcLumRuns14(run, n); }
  }

  lemma DcLumCounts(bits: seq<nat>)
    requires bits == DcLum().bits
    ensures Total(bits, 16) == 12 && WeightedCount(bits, 16) == 65408
  {
    hide Total, WeightedCount;
    NoLengths(bits);
    FourLengths(bits, 0);
    FourLengths(bits, 4);
    FourLengths(bits, 8);
    FourLengths(bits, 12);
  }

  /** Codes for every difference of baseline DC values. */
  lemma DcLumCanCode()
    ensures DcTable(DcLum())
  {
    hide Total, WeightedCount;
    var t := DcLum();
    DcLumCounts(t.bits);
    forall n: Byte | n <= 11 ensures n in t.val {
      assert t.val[n] == n;
    }
    IsDcTable(t);
  }

  lemma AcLumCounts(bits: seq<nat>)
    requires bits == AcLum().bits
    ensures Total(bits, 16) == 162 && WeightedCount(bits, 16) == 65535
  {
    hide Total, WeightedCount;
    NoLengths(bits);
    FourLengths(bits, 0);
    FourLengths(bits, 4);
    FourLengths(bits, 8);
    FourLengths(bits, 12);
  }

  /** Codes for end of block, sixteen zeros, and every run and magnitude of baseline AC values. */
  lemma AcLumCanCode()
    ensures AcTable(AcLum())
  {
    hide Total, WeightedCount, AcLumPositions, AcLumRow;
    var t := AcLum();
    AcLumCounts(t.bits);
    AcLumHasEobAndZrl();
    assert t.val[3] == 0 && t.val[31] == 0xF0;
    forall run, n | 0 <= run < 16 && 1 <= n <= 10 ensures RunSize(run, n) in t.val {
      AcLumHasRun(run, n);
      assert t.val[AcLumPositions(run)[n - 1]] == RunSize(run, n);
    }
    IsAcTable(t);
  }

  function DcChroma(): Spec {
    Spec([0, 0, 3, 1, 1, 1, 1, 1, 1, 1, 1, 1, 0, 0, 0, 0, 0], [0, 1, 2, 3, 4, 5, 6, 7, 8, 9, 10, 11])
  }

  function AcChroma(): Spec {
    Spec([0, 0, 2, 1, 2, 4, 4, 3, 4, 7, 5, 4, 4, 0, 1, 2, 119], seq(162, i requires 0 <= i < 162 => AcChromaVal(i)))
  }

  function AcChromaVal(i: nat): Byte
    requires i < 162
  {
    AcChromaRow(i / 16)[i % 16]
  }

  /** Sixteen entries of `s_ac_chroma_val`; the last row has two. */
  function AcChromaRow(r: nat): (row: seq<Byte>)
    ensures |row| == if r < 10 then 16 else 2
  {
    if r == 0 then [0x00, 0x01, 0x02, 0x03, 0x11, 0x04, 0x05, 0x21, 0x31, 0x06, 0x12, 0x41, 0x51, 0x07, 0x61, 0x71]
    else if r == 1 then [0x13, 0x22, 0x32, 0x81, 0x08, 0x14, 0x42, 0x91, 0xA1, 0xB1, 0xC1, 0x09, 0x23, 0x33, 0x52, 0xF0]
    else if r == 2 then [0x15, 0x62, 0x72, 0xD1, 0x0A, 0x16, 0x24, 0x34, 0xE1, 0x25, 0xF1, 0x17, 0x18, 0x19, 0x1A, 0x26]
    else if r == 3 then [0x27, 0x28, 0x29, 0x2A, 0x35, 0x36, 0x37, 0x38, 0x39, 0x3A, 0x43, 0x44, 0x45, 0x46, 0x47, 0x48]
    else if r == 4 then [0x49, 0x4A, 0x53, 0x54, 0x55, 0x56, 0x57, 0x58, 0x59, 0x5A, 0x63, 0x64, 0x65, 0x66, 0x67, 0x68]
    else if r == 5 then [0x69, 0x6A, 0x73, 0x74, 0x75, 0x76, 0x77, 0x78, 0x79, 0x7A, 0x82, 0x83, 0x84, 0x85, 0x86, 0x87]
    else if r == 6 then [0x88, 0x89, 0x8A, 0x92, 0x93, 0x94, 0x95, 0x96, 0x97, 0x98, 0x99, 0x9A, 0xA2, 0xA3, 0xA4, 0xA5]
    else if r == 7 then [0xA6, 0xA7, 0xA8, 0xA9, 0xAA, 0xB2, 0xB3, 0xB4, 0xB5, 0xB6, 0xB7, 0xB8, 0xB9, 0xBA, 0xC2, 0xC3]
    else if r == 8 then [0xC4, 0xC5, 0xC6, 0xC7, 0xC8, 0xC9, 0xCA, 0xD2, 0xD3, 0xD4, 0xD5, 0xD6, 0xD7, 0xD8, 0xD9, 0xDA]
    else if r == 9 then [0xE2, 0xE3, 0xE4, 0xE5, 0xE6, 0xE7, 0xE8, 0xE9, 0xEA, 0xF2, 0xF3, 0xF4, 0xF5, 0xF6, 0xF7, 0xF8]
    else [0xF9, 0xFA]
  }

  /** Where the symbols for `run` zeros and magnitudes 1 to 10 stand in `s_ac_chroma_val`. */
  function AcChromaPositions(run: nat): (p: seq<nat>)
    ensures |p| == 10
  {
    if run == 0 then [1, 2, 3, 5, 6, 9, 13, 20, 27, 36]
    else if run == 1 then [4, 10, 16, 21, 32, 37, 43, 44, 45, 46]
    else if run == 2 then [7, 17, 28, 38, 41, 47, 48, 49, 50, 51]
    else if run == 3 then [8, 18, 29, 39, 52, 53, 54, 55, 56, 57]
    else if run == 4 then [11, 22, 58, 59, 60, 61, 62, 63, 64, 65]
    else if run == 5 then [12, 30, 66, 67, 68, 69, 70, 71, 72, 73]
    else if run == 6 then [14, 33, 74, 75, 76, 77, 78, 79, 80, 81]
    else if run == 7 then [15, 34, 82, 83, 84, 85, 86, 87, 88, 89]
    else if run == 8 then [19, 90, 91, 92, 93, 94, 95, 96, 97, 98]
    else if run == 9 then [23, 99, 100, 101, 102, 103, 104, 105, 106, 107]
    else if run == 10 then [24, 108, 109, 110, 111, 112, 113, 114, 115, 116]
    else if run == 11 then [25, 117, 118, 119, 120, 121, 122, 123, 124, 125]
    else if run == 12 then [26, 126, 127, 128, 129, 130, 131, 132, 133, 134]
    else if run == 13 then [35, 135, 136, 137, 138, 139, 140, 141, 142, 143]
    else if run == 14 then [40, 144, 145, 146, 147, 148, 149, 150, 151, 152]
    else [42, 153, 154, 155, 156, 157, 158, 159, 160, 161]
  }

  // The positions are right, two runs at a time to keep each proof small.

  lemma AcChromaRuns0(run: nat, n: nat)
    requires 0 <= run < 2 && 1 <= n <= 10
    ensures AcChromaPositions(run)[n - 1] < 162 && AcChromaVal(AcChromaPositions(run)[n - 1]) == RunSize(run, n)
  {
    if run == 0 { } else { }
  }

  lemma AcChromaRuns2(run: nat, n: nat)
    requires 2 <= run < 4 && 1 <= n <= 10
    ensures AcChromaPositions(run)[n - 1] < 162 && AcChromaVal(AcChromaPositions(run)[n - 1]) == RunSize(run, n)
  {
    if run == 2 { } else { }
  }

  lemma AcChromaRuns4(run: nat, n: nat)
    requires 4 <= run < 6 && 1 <= n <= 10
    ensures AcChromaPositions(run)[n - 1] < 162 && AcChromaVal(AcChromaPositions(run)[n - 1]) == RunSize(run, n)
  {
    if run == 4 { } else { }
  }

  lemma AcChromaRuns6(run: nat, n: nat)
    requires 6 <= run < 8 && 1 <= n <= 10
    ensures AcChromaPositions(run)[n - 1] < 162 && AcChromaVal(AcChromaPositions(run)[n - 1]) == RunSize(run, n)
  {
    if run == 6 { } else { }
  }

  lemma AcChromaRuns8(run: nat, n: nat)
    requires 8 <= run < 10 && 1 <= n <= 10
    ensures AcChromaPositions(run)[n - 1] < 162 && AcChromaVal(AcChromaPositions(run)[n - 1]) == RunSize(run, n)
  {
    if run == 8 { } else { }
  }

  lemma AcChromaRuns10(run: nat, n: nat)
    requires 10 <= run < 12 && 1 <= n <= 10
    ensures AcChromaPositions(run)[n - 1] < 162 && AcChromaVal(AcChromaPositions(run)[n - 1]) == RunSize(run, n)
  {
    if run == 10 { } else { }
  }

  lemma AcChromaRuns12(run: nat, n: nat)
    requires 12 <= run < 14 && 1 <= n <= 10
    ensures AcChromaPositions(run)[n - 1] < 162 && AcChromaVal(AcChromaPositions(run)[n - 1]) == RunSize(run, n)
  {
    if run == 12 { } else { }
  }

  lemma AcChromaRuns14(run: nat, n: nat)
    requires 14 <= run < 16 && 1 <= n <= 10
    ensures AcChromaPositions(run)[n - 1] < 162 && AcChromaVal(AcChromaPositions(run)[n - 1]) == RunSize(run, n)
  {
    if run == 14 { } else { }
  }

  lemma AcChromaHasEobAndZrl()
    ensures AcChromaVal(0) == 0 && AcChromaVal(31) == 0xF0
  {
  }

  lemma AcChromaHasRun(run: nat, n: nat)
    requires run < 16 && 1 <= n <= 10
    ensures AcChromaPositions(run)[n - 1] < 162 && AcChromaVal(AcChromaPositions(run)[n - 1]) == RunSize(run, n)
  {
    hide AcChromaPositions, AcChromaVal;
    if run < 2 { AcChromaRuns0(run, n); }
    else if run < 4 { AcChromaRuns2(run, n); }
    else if run < 6 { AcChromaRuns4(run, n); }
    else if run < 8 { AcChromaRuns6(run, n); }
    else if run < 10 { AcChromaRuns8(run, n); }
    else if run < 12 { AcChromaRuns10(run, n); }
    else if run < 14 { AcChromaRuns12(run, n); }
    else { AcChromaRuns14(run, n); }
  }

  lemma DcChromaCounts(bits: seq<nat>)
    requires bits == DcChroma().bits
    ensures Total(bits, 16) == 12 && WeightedCount(bits, 16) == 65504
  {
    hide Total, WeightedCount;
    NoLengths(bits);
    FourLengths(bits, 0);
    FourLengths(bits, 4);
    FourLengths(bits, 8);
    FourLengths(bits, 12);
  }

  /** Codes for every difference of baseline DC values. */
  lemma DcChromaCanCode()
    ensures DcTable(DcChroma())
  {
    hide Total, WeightedCount;
    var t := DcChroma();
    DcChromaCounts(t.bits);
    forall n: Byte | n <= 11 ensures n in t.val {
      assert t.val[n] == n;
    }
    IsDcTable(t);
  }

  lemma AcChromaCounts(bits: seq<nat>)
    requires bits == AcChroma().bits
    ensures Total(bits, 16) == 162 && WeightedCount(bits, 16) == 65535
  {
    hide Total, WeightedCount;
    NoLengths(bits);
    FourLengths(bits, 0);
    FourLengths(bits, 4);
    FourLengths(bits, 8);
    FourLengths(bits, 12);
  }

  /** Codes for end of block, sixteen zeros, and every run and magnitude of baseline AC values. */
  lemma AcChromaCanCode()
    ensures AcTable(AcChroma())
  {
    hide Total, WeightedCount, AcChromaPositions, AcChromaRow;
    var t := AcChroma();
    AcChromaCounts(t.bits);
    AcChromaHasEobAndZrl();
    assert t.val[0] == 0 && t.val[31] == 0xF0;
    forall run, n | 0 <= run < 16 && 1 <= n <= 10 ensures RunSize(run, n) in t.val {
      AcChromaHasRun(run, n);
      assert t.val[AcChromaPositions(run)[n - 1]] == RunSize(run, n);
    }
    IsAcTable(t);
  }
}
