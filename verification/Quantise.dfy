/** Quantisation: tables scaled by quality, coefficients rounded to table steps in zig-zag order. */
module Quantise {
  import opened Basics
  import opened Dct

  /** Eight entries of `s_zag`: the block position of each coefficient in scan order. */
  function ZagRow(r: nat): (row: seq<nat>)
    ensures |row| == 8
  {
    if r == 0 then [0, 1, 8, 16, 9, 2, 3, 10]
    else if r == 1 then [17, 24, 32, 25, 18, 11, 4, 5]
    else if r == 2 then [12, 19, 26, 33, 40, 48, 41, 34]
    else if r == 3 then [27, 20, 13, 6, 7, 14, 21, 28]
    else if r == 4 then [35, 42, 49, 56, 57, 50, 43, 36]
    else if r == 5 then [29, 22, 15, 23, 30, 37, 44, 51]
    else if r == 6 then [58, 59, 52, 45, 38, 31, 39, 46]
    else [53, 60, 61, 54, 47, 55, 62, 63]
  }

  function Zag(i: nat): nat
    requires i < 64
  {
    ZagRow(i / 8)[i % 8]
  }

  /** Figure A.6 of ITU-T T.81: the scan index of each position of a block, row by row. */
  function ScanRow(r: nat): (row: seq<nat>)
    ensures |row| == 8
  {
    if r == 0 then [0, 1, 5, 6, 14, 15, 27, 28]
    else if r == 1 then [2, 4, 7, 13, 16, 26, 29, 42]
    else if r == 2 then [3, 8, 12, 17, 25, 30, 41, 43]
    else if r == 3 then [9, 11, 18, 24, 31, 40, 44, 53]
    else if r == 4 then [10, 19, 23, 32, 39, 45, 52, 54]
    else if r == 5 then [20, 22, 33, 38, 46, 51, 55, 60]
    else if r == 6 then [21, 34, 37, 47, 50, 56, 59, 61]
    else [35, 36, 48, 49, 57, 58, 62, 63]
  }

  function ScanIndex(p: nat): nat
    requires p < 64
  {
    ScanRow(p / 8)[p % 8]
  }

  /** `s_zag` is the inverse of the zig-zag of figure A.6, so it visits every position once. */
  lemma ZagInverse(i: nat)
    requires i < 64
    ensures Zag(i) < 64 && ScanIndex(Zag(i)) == i
    ensures ScanIndex(i) < 64 && Zag(ScanIndex(i)) == i
  {
    if i < 16 { ZagInverse0(i); } else if i < 32 { ZagInverse16(i); }
    else if i < 48 { ZagInverse32(i); } else { ZagInverse48(i); }
  }

  lemma ZagInverse0(i: nat)
    requires 0 <= i < 16
    ensures Zag(i) < 64 && ScanIndex(Zag(i)) == i
    ensures ScanIndex(i) < 64 && Zag(ScanIndex(i)) == i
  {
    if i < 8 { } else { }
  }

  lemma ZagInverse16(i: nat)
    requires 16 <= i < 32
    ensures Zag(i) < 64 && ScanIndex(Zag(i)) == i
    ensures ScanIndex(i) < 64 && Zag(ScanIndex(i)) == i
  {
    if i < 24 { } else { }
  }

  lemma ZagInverse32(i: nat)
    requires 32 <= i < 48
    ensures Zag(i) < 64 && ScanIndex(Zag(i)) == i
    ensures ScanIndex(i) < 64 && Zag(ScanIndex(i)) == i
  {
    if i < 40 { } else { }
  }

  lemma ZagInverse48(i: nat)
    requires 48 <= i < 64
    ensures Zag(i) < 64 && ScanIndex(Zag(i)) == i
    ensures ScanIndex(i) < 64 && Zag(ScanIndex(i)) == i
  {
    if i < 56 { } else { }
  }

  /** `s_std_lum_quant` */
  function LumRow(r: nat): (row: seq<nat>)
    ensures |row| == 8
  {
    if r == 0 then [16, 11, 12, 14, 12, 10, 16, 14]
    else if r == 1 then [13, 14, 18, 17, 16, 19, 24, 40]
    else if r == 2 then [26, 24, 22, 22, 24, 49, 35, 37]
    else if r == 3 then [29, 40, 58, 51, 61, 60, 57, 51]
    else if r == 4 then [56, 55, 64, 72, 92, 78, 64, 68]
    else if r == 5 then [87, 69, 55, 56, 80, 109, 81, 87]
    else if r == 6 then [95, 98, 103, 104, 103, 62, 77, 113]
    else [121, 112, 100, 120, 92, 101, 103, 99]
  }

  /** `s_std_croma_quant` */
  function ChromaRow(r: nat): (row: seq<nat>)
    ensures |row| == 8
  {
    if r == 0 then [17, 18, 18, 24, 21, 24, 47, 26]
    else if r == 1 then [26, 47, 99, 66, 56, 66, 99, 99]
    else if r == 2 then [99, 99, 99, 99, 99, 99, 99, 99]
    else if r == 3 then [99, 99, 99, 99, 99, 99, 99, 99]
    else if r == 4 then [99, 99, 99, 99, 99, 99, 99, 99]
    else if r == 5 then [99, 99, 99, 99, 99, 99, 99, 99]
    else if r == 6 then [99, 99, 99, 99, 99, 99, 99, 99]
    else [99, 99, 99, 99, 99, 99, 99, 99]
  }

  function StdQuant(chroma: bool): (t: seq<nat>)
    ensures |t| == 64
  {
    seq(64, i requires 0 <= i < 64 => if chroma then ChromaRow(i / 8)[i % 8] else LumRow(i / 8)[i % 8])
  }

  /** The percentage by which `compute_quant_table` scales a table. */
  function Scale(quality: nat): nat
    requires 1 <= quality <= 100
  {
    if quality < 50 then 5000 / quality else 200 - quality * 2
  }

  function Clamp(j: int): int {
    if j < 1 then 1 else if j > 255 then 255 else j
  }

  function Entry(base: nat, quality: nat): (q: nat)
    requires 1 <= quality <= 100
    ensures 1 <= q <= 255
  {
    Clamp((base * Scale(quality) + 50) / 100)
  }

  function Table(chroma: bool, quality: nat): (t: seq<nat>)
    requires 1 <= quality <= 100
    ensures |t| == 64 && forall i :: 0 <= i < 64 ==> 1 <= t[i] <= 255
  {
    seq(64, i requires 0 <= i < 64 => Entry(StdQuant(chroma)[i], quality))
  }

  lemma ScaleFalls(a: nat, b: nat)
    requires 1 <= a <= b <= 100
    ensures Scale(a) >= Scale(b)
  {
    if a < 50 {
      DivFalls(5000, a, if b < 50 then b else 50);
    }
  }

  lemma DivAtLeast(n: nat, a: nat, y: nat)
    requires a >= 1
    ensures y * a <= n <==> y <= n / a
  {
    var x := n / a;
    assert x * a <= n < x * a + a;
    MulOrder(y, x, a);
    MulOrder(x + 1, y, a);
  }

  lemma DivFalls(n: nat, a: nat, b: nat)
    requires 1 <= a <= b
    ensures n / a >= n / b
  {
    var y := n / b;
    DivAtLeast(n, b, y);
    MulOrder(a, b, y);
    DivAtLeast(n, a, y);
  }

  /** Better quality never coarsens a step. */
  lemma TableFalls(chroma: bool, a: nat, b: nat, i: nat)
    requires 1 <= a <= b <= 100 && i < 64
    ensures Table(chroma, a)[i] >= Table(chroma, b)[i]
  {
    var base := StdQuant(chroma)[i];
    ScaleFalls(a, b);
    assert base * Scale(a) >= base * Scale(b);
  }

  // ------------------------------------------------------------ coefficients

  /** One coefficient as `load_quantized_coefficients` computes it.  Dividends are not negative, so
      C's division rounds down as `/` does. */
  function Round(x: int, q: nat): int
    requires q >= 1
  {
    if x < 0 then
      var j := -x + q / 2;
      if j < q then 0 else -(j / q)
    else
      var j := x + q / 2;
      if j < q then 0 else j / q
  }

  /** The coefficients of a block in scan order. */
  function Quantised(samples: seq<int>, table: seq<nat>): (c: seq<int>)
    requires |samples| == 64 && |table| == 64 && forall i :: 0 <= i < 64 ==> table[i] >= 1
    ensures |c| == 64
  {
    seq(64, i requires 0 <= i < 64 => ZagInverse(i); Round(samples[Zag(i)], table[i]))
  }

  /** `q * c` lies within half a step of `x`. */
  predicate HalfStep(x: int, q: nat, c: int) {
    -(q / 2) <= x - q * c <= q / 2
  }

  /** What a decoder multiplies back lies within half a step of the coefficient. */
  lemma RoundError(x: int, q: nat)
    requires q >= 1
    ensures HalfStep(x, q, Round(x, q))
  {
    var j := (if x < 0 then -x else x) + q / 2;
    var c := j / q;
    assert j < q ==> c == 0;
    assert j == q * c + j % q;
    assert Round(x, q) == if x < 0 then -c else c;
    assert q * -c == -(q * c);
  }

  /** No multiple of the step is closer. */
  lemma RoundNearest(x: int, q: nat, other: int)
    requires q >= 1
    ensures var e, f := x - q * Round(x, q), x - q * other;
      (if e < 0 then -e else e) <= (if f < 0 then -f else f)
  {
    RoundError(x, q);
    var d := other - Round(x, q);
    StepAway(q, Round(x, q), d);
    hide Round;
  }

  lemma StepAway(q: nat, c: int, d: int)
    ensures q * (c + d) == q * c + q * d
    ensures (d >= 1 ==> q * d >= q) && (d <= -1 ==> q * d <= 0 - q) && (d == 0 ==> q * d == 0)
  {
    MulOrder(1, d, q);
    MulOrder(d, -1, q);
  }

  /** Rounding moves no coefficient away from zero. */
  lemma RoundShrinks(x: int, q: nat)
    requires q >= 1
    ensures x >= 0 ==> 0 <= Round(x, q) <= x
    ensures x <= 0 ==> x <= Round(x, q) <= 0
  {
    var a := if x < 0 then -x else x;
    DivAtLeast(a + q / 2, q, a + 1);
    MulOrder(1, q, a);
    assert (a + 1) * q == q * a + q;
  }

  /** A block of samples yields coefficients that baseline entropy coding can represent, each within
      half a step of the transform at its zig-zag position. */
  lemma QuantisedBlock(p: seq<int>, table: seq<nat>)
    requires IsSamples(p) && |table| == 64 && forall i :: 0 <= i < 64 ==> table[i] >= 1
    ensures var c := Quantised(Forward(p), table);
      && -1024 <= c[0] <= 1016
      && (forall i :: 1 <= i < 64 ==> -1020 <= c[i] <= 1020)
      && (forall r :: 0 <= r < 64 ==>
           ScanIndex(r) < 64 && HalfStep(Forward(p)[r], table[ScanIndex(r)], c[ScanIndex(r)]))
  {
    hide Forward, Quantised, Zag, ScanIndex, Round, HalfStep;
    var x := Forward(p);
    ForwardRange(p);
    forall i | 0 <= i < 64
      ensures var c := Quantised(x, table)[i]; -1024 <= c <= 1020 && (i == 0 ==> c <= 1016) && (i > 0 ==> -1020 <= c)
    {
      QuantisedAt(x, table, i);
      RoundShrinks(x[Zag(i)], table[i]);
    }
    forall r | 0 <= r < 64
      ensures ScanIndex(r) < 64 && HalfStep(x[r], table[ScanIndex(r)], Quantised(x, table)[ScanIndex(r)])
    {
      ZagInverse(r);
      QuantisedAt(x, table, ScanIndex(r));
      RoundError(x[r], table[ScanIndex(r)]);
    }
  }

  lemma QuantisedAt(x: seq<int>, table: seq<nat>, i: nat)
    requires |x| == 64 && |table| == 64 && i < 64 && forall k :: 0 <= k < 64 ==> table[k] >= 1
    ensures Zag(i) < 64 && (Zag(i) == 0 <==> i == 0)
    ensures Quantised(x, table)[i] == Round(x[Zag(i)], table[i])
  {
    ZagInverse(i);
    ZagStart();
    hide Zag, ScanIndex, Round;
  }

  lemma ZagStart()
    ensures Zag(0) == 0 && ScanIndex(0) == 0
  {
  }

  method LoadQuantizedCoefficients(samples: array<int>, tables: array2<int>, row: nat, ghost table: seq<nat>,
                                   coefficients: array<int>)
    requires samples.Length == coefficients.Length == 64 && coefficients != samples
    requires row < tables.Length0 && tables.Length1 == 64 && |table| == 64
    requires forall i :: 0 <= i < 64 ==> table[i] >= 1 && tables[row, i] == table[i]
    modifies coefficients
    ensures coefficients[..] == Quantised(samples[..], table)
  {
    hide Quantised, Zag;
    ghost var want := Quantised(samples[..], table);
    for i := 0 to 64
      invariant forall k :: 0 <= k < i ==> coefficients[k] == want[k]
    {
      QuantisedAt(samples[..], table, i);
      var j := samples[Zag(i)];
      var q := tables[row, i];
      if j < 0 {
        j := -j + q / 2;
        coefficients[i] := if j < q then 0 else -(j / q);
      } else {
        j := j + q / 2;
        coefficients[i] := if j < q then 0 else j / q;
      }
    }
    assert coefficients[..] == want;
  }
}
