/** The fixed-point forward DCT of `DCT2D`: two passes of an eight-point butterfly. */
module Dct {
  import opened Basics

  /** `static_cast<int16>` of a two's complement word. */
  function ToInt16(v: int): int {
    (v + 0x8000) % 0x1_0000 - 0x8000
  }

  /** DCT_MUL: the variable is cut to 16 bits before the multiplication. */
  function Mul(v: int, c: int): int {
    ToInt16(v) * c
  }

  /** DCT_DESCALE: divide by `2^n`, rounding to nearest; `>>` of a negative value rounds down. */
  function Descale(v: int, n: nat): int
    requires n == 5 || n == 11 || n == 18
  {
    if n == 5 then (v + 16) / 32
    else if n == 11 then (v + 1024) / 2048
    else (v + 131072) / 262144
  }

  datatype Eight = Eight(s0: int, s1: int, s2: int, s3: int, s4: int, s5: int, s6: int, s7: int)

  /** The macro DCT1D, casts included. */
  function Dct1D(s: Eight): Eight {
    var t0, t7, t1, t6 := s.s0 + s.s7, s.s0 - s.s7, s.s1 + s.s6, s.s1 - s.s6;
    var t2, t5, t3, t4 := s.s2 + s.s5, s.s2 - s.s5, s.s3 + s.s4, s.s3 - s.s4;
    var t10, t13, t11, t12 := t0 + t3, t0 - t3, t1 + t2, t1 - t2;
    var even := Mul(t12 + t13, 4433);
    var u1, u2, u3, u4 := t4 + t7, t5 + t6, t4 + t6, t5 + t7;
    var z5 := Mul(u3 + u4, 9633);
    var m4, m5, m6, m7 := Mul(t4, 2446), Mul(t5, 16819), Mul(t6, 25172), Mul(t7, 12299);
    var v1, v2 := Mul(u1, -7373), Mul(u2, -20995);
    var v3, v4 := Mul(u3, -16069) + z5, Mul(u4, -3196) + z5;
    Eight(t10 + t11, m7 + v1 + v4, even + Mul(t13, 6270), m6 + v2 + v3,
          t10 - t11, m5 + v2 + v4, even + Mul(t12, -15137), m4 + v1 + v3)
  }

  /** The eight-point DCT as a matrix: rows of `2^13 * sqrt(2) * cos(k*(2*i+1)*pi/16)`, and of ones
      for `k == 0` and `k == 4`, which the code leaves unscaled. */
  function Matrix(s: Eight): Eight {
    Eight(
      s.s0 + s.s1 + s.s2 + s.s3 + s.s4 + s.s5 + s.s6 + s.s7,
      11363 * (s.s0 - s.s7) + 9633 * (s.s1 - s.s6) + 6437 * (s.s2 - s.s5) + 2260 * (s.s3 - s.s4),
      10703 * (s.s0 - s.s3 - s.s4 + s.s7) + 4433 * (s.s1 - s.s2 - s.s5 + s.s6),
      9633 * (s.s0 - s.s7) - 2259 * (s.s1 - s.s6) - 11362 * (s.s2 - s.s5) - 6436 * (s.s3 - s.s4),
      s.s0 - s.s1 - s.s2 + s.s3 + s.s4 - s.s5 - s.s6 + s.s7,
      6437 * (s.s0 - s.s7) - 11362 * (s.s1 - s.s6) + 2261 * (s.s2 - s.s5) + 9633 * (s.s3 - s.s4),
      4433 * (s.s0 - s.s3 - s.s4 + s.s7) - 10704 * (s.s1 - s.s2 - s.s5 + s.s6),
      2260 * (s.s0 - s.s7) - 6436 * (s.s1 - s.s6) + 9633 * (s.s2 - s.s5) - 11363 * (s.s3 - s.s4))
  }

  /** The `i`-th component of an eight-vector. */
  function At(s: Eight, i: nat): int
    requires i < 8
  {
    if i == 0 then s.s0 else if i == 1 then s.s1 else if i == 2 then s.s2 else if i == 3 then s.s3
    else if i == 4 then s.s4 else if i == 5 then s.s5 else if i == 6 then s.s6 else s.s7
  }

  predicate Within(s: Eight, lo: int, hi: int) {
    && lo <= s.s0 <= hi && lo <= s.s1 <= hi && lo <= s.s2 <= hi && lo <= s.s3 <= hi
    && lo <= s.s4 <= hi && lo <= s.s5 <= hi && lo <= s.s6 <= hi && lo <= s.s7 <= hi
  }

  /** Every argument of DCT_MUL in DCT1D is an int16. */
  predicate CastsExact(s: Eight) {
    var t0, t7, t1, t6 := s.s0 + s.s7, s.s0 - s.s7, s.s1 + s.s6, s.s1 - s.s6;
    var t2, t5, t3, t4 := s.s2 + s.s5, s.s2 - s.s5, s.s3 + s.s4, s.s3 - s.s4;
    var t13, t12 := t0 - t3, t1 - t2;
    && Int16(t12 + t13) && Int16(t13) && Int16(t12)
    && Int16(t4) && Int16(t5) && Int16(t6) && Int16(t7)
    && Int16(t4 + t7) && Int16(t5 + t6) && Int16(t4 + t6) && Int16(t5 + t7)
    && Int16(t4 + t6 + t5 + t7)
  }

  /** Every product and every sum of DCT1D, taken in the order of the code, is an int32. */
  predicate SumsExact(s: Eight) {
    var t0, t1, t2, t3 := s.s0 + s.s7, s.s1 + s.s6, s.s2 + s.s5, s.s3 + s.s4;
    && EvenExact(t0 + t3, t1 + t2, t1 - t2, t0 - t3)
    && OddExact(s.s3 - s.s4, s.s2 - s.s5, s.s1 - s.s6, s.s0 - s.s7)
  }

  predicate EvenExact(t10: int, t11: int, t12: int, t13: int) {
    var even := (t12 + t13) * 4433;
    && Int32(t10 + t11) && Int32(t10 - t11) && Int32(4 * (t10 + t11)) && Int32(4 * (t10 - t11))
    && Int32(even) && Int32(t13 * 6270) && Int32(even + t13 * 6270)
    && Int32(t12 * -15137) && Int32(even + t12 * -15137)
  }

  predicate OddExact(t4: int, t5: int, t6: int, t7: int) {
    var u1, u2, u3, u4 := (t4 + t7) * -7373, (t5 + t6) * -20995, (t4 + t6) * -16069, (t5 + t7) * -3196;
    var z5 := (t4 + t6 + (t5 + t7)) * 9633;
    && Int32(z5) && Int32(u1) && Int32(u2) && Int32(u3 + z5) && Int32(u4 + z5)
    && Int32(t7 * 12299 + u1) && Int32(t7 * 12299 + u1 + (u4 + z5))
    && Int32(t6 * 25172 + u2) && Int32(t6 * 25172 + u2 + (u3 + z5))
    && Int32(t5 * 16819 + u2) && Int32(t5 * 16819 + u2 + (u4 + z5))
    && Int32(t4 * 2446 + u1) && Int32(t4 * 2446 + u1 + (u3 + z5))
  }

  lemma EvenNoOverflow(t10: int, t11: int, t12: int, t13: int)
    requires -16384 <= t10 <= 16384 && -16384 <= t11 <= 16384
    requires -16384 <= t12 <= 16384 && -16384 <= t13 <= 16384
    ensures EvenExact(t10, t11, t12, t13)
  {
  }

  lemma OddNoOverflow(t4: int, t5: int, t6: int, t7: int)
    requires -8192 <= t4 <= 8192 && -8192 <= t5 <= 8192 && -8192 <= t6 <= 8192 && -8192 <= t7 <= 8192
    ensures OddExact(t4, t5, t6, t7)
  {
  }

  lemma NoOverflow(s: Eight)
    requires Within(s, -4096, 4096)
    ensures SumsExact(s)
  {
    var t0, t1, t2, t3 := s.s0 + s.s7, s.s1 + s.s6, s.s2 + s.s5, s.s3 + s.s4;
    EvenNoOverflow(t0 + t3, t1 + t2, t1 - t2, t0 - t3);
    OddNoOverflow(s.s3 - s.s4, s.s2 - s.s5, s.s1 - s.s6, s.s0 - s.s7);
    hide EvenExact, OddExact;
  }

  /** Inputs that differ by at most 8160 keep every product exact: four differences reach 32640. */
  lemma NoTruncation(s: Eight, lo: int, hi: int)
    requires Within(s, lo, hi) && hi - lo <= 8160
    ensures CastsExact(s)
  {
  }

  lemma CastOfInt16(v: int)
    requires Int16(v)
    ensures ToInt16(v) == v
  {
  }

  /** With exact products the butterfly is the matrix product. */
  lemma ButterflyIsMatrix(s: Eight)
    requires CastsExact(s)
    ensures Dct1D(s) == Matrix(s)
  {
    hide ToInt16;
    var t0, t7, t1, t6 := s.s0 + s.s7, s.s0 - s.s7, s.s1 + s.s6, s.s1 - s.s6;
    var t2, t5, t3, t4 := s.s2 + s.s5, s.s2 - s.s5, s.s3 + s.s4, s.s3 - s.s4;
    var t13, t12 := t0 - t3, t1 - t2;
    CastOfInt16(t12 + t13); CastOfInt16(t13); CastOfInt16(t12);
    CastOfInt16(t4); CastOfInt16(t5); CastOfInt16(t6); CastOfInt16(t7);
    CastOfInt16(t4 + t7); CastOfInt16(t5 + t6); CastOfInt16(t4 + t6); CastOfInt16(t5 + t7);
    CastOfInt16(t4 + t6 + (t5 + t7));
  }

  /** One output of the butterfly when its inputs differ by at most `w`. */
  lemma CombinationBound(a: int, b: int, c: int, d: int, w: int)
    requires -w <= a <= w && -w <= b <= w && -w <= c <= w && -w <= d <= w
    ensures var m := 30274 * w;
      && -m <= 11363 * a + 9633 * b + 6437 * c + 2260 * d <= m
      && -m <= 9633 * a - 2259 * b - 11362 * c - 6436 * d <= m
      && -m <= 6437 * a - 11362 * b + 2261 * c + 9633 * d <= m
      && -m <= 2260 * a - 6436 * b + 9633 * c - 11363 * d <= m
  {
  }

  lemma EvenBound(a: int, b: int, c: int, d: int, w: int)
    requires -w <= a <= w && -w <= b <= w && -w <= c <= w && -w <= d <= w
    ensures var m := 30274 * w;
      && -m <= 10703 * (a + b) + 4433 * (c + d) <= m
      && -m <= 4433 * (a + b) - 10704 * (c + d) <= m
  {
  }

  /** The outputs of the exact butterfly on inputs between `lo` and `hi`. */
  lemma MatrixBounds(s: Eight, lo: int, hi: int)
    requires Within(s, lo, hi)
    ensures var d, w := Matrix(s), hi - lo;
      8 * lo <= d.s0 <= 8 * hi && -4 * w <= d.s4 <= 4 * w && Within(d.(s0 := 0, s4 := 0), -30274 * w, 30274 * w)
  {
    OddBounds(s, lo, hi);
    EvenBounds(s, lo, hi);
    hide Matrix;
  }

  lemma OddBounds(s: Eight, lo: int, hi: int)
    requires Within(s, lo, hi)
    ensures var d, m := Matrix(s), 30274 * (hi - lo);
      -m <= d.s1 <= m && -m <= d.s3 <= m && -m <= d.s5 <= m && -m <= d.s7 <= m
  {
    assert -(hi - lo) <= s.s0 - s.s7 <= hi - lo && -(hi - lo) <= s.s1 - s.s6 <= hi - lo;
    assert -(hi - lo) <= s.s2 - s.s5 <= hi - lo && -(hi - lo) <= s.s3 - s.s4 <= hi - lo;
    hide Within;
    CombinationBound(s.s0 - s.s7, s.s1 - s.s6, s.s2 - s.s5, s.s3 - s.s4, hi - lo);
  }

  lemma EvenBounds(s: Eight, lo: int, hi: int)
    requires Within(s, lo, hi)
    ensures var d, w := Matrix(s), hi - lo;
      && 8 * lo <= d.s0 <= 8 * hi && -4 * w <= d.s4 <= 4 * w
      && -30274 * w <= d.s2 <= 30274 * w && -30274 * w <= d.s6 <= 30274 * w
  {
    EvenBound(s.s0 - s.s3, s.s7 - s.s4, s.s1 - s.s2, s.s6 - s.s5, hi - lo);
    var m := Matrix(s);
    assert m.s2 == 10703 * ((s.s0 - s.s3) + (s.s7 - s.s4)) + 4433 * ((s.s1 - s.s2) + (s.s6 - s.s5));
    assert m.s6 == 4433 * ((s.s0 - s.s3) + (s.s7 - s.s4)) - 10704 * ((s.s1 - s.s2) + (s.s6 - s.s5));
    assert m.s4 == (s.s0 - s.s1) + (s.s3 - s.s2) + (s.s4 - s.s5) + (s.s7 - s.s6);
  }

  // ------------------------------------------------------------ two dimensions

  /** The results the row pass stores. */
  function RowOut(s: Eight): Eight {
    var d := Dct1D(s);
    Eight(4 * d.s0, Descale(d.s1, 11), Descale(d.s2, 11), Descale(d.s3, 11),
          4 * d.s4, Descale(d.s5, 11), Descale(d.s6, 11), Descale(d.s7, 11))
  }

  /** The results the column pass stores. */
  function ColumnOut(s: Eight): Eight {
    var d := Dct1D(s);
    Eight(Descale(d.s0, 5), Descale(d.s1, 18), Descale(d.s2, 18), Descale(d.s3, 18),
          Descale(d.s4, 5), Descale(d.s5, 18), Descale(d.s6, 18), Descale(d.s7, 18))
  }

  function Row(p: seq<int>, r: nat): Eight
    requires |p| == 64 && r < 8
  {
    Eight(p[8 * r], p[8 * r + 1], p[8 * r + 2], p[8 * r + 3], p[8 * r + 4], p[8 * r + 5], p[8 * r + 6], p[8 * r + 7])
  }

  function Column(p: seq<int>, c: nat): Eight
    requires |p| == 64 && c < 8
  {
    Eight(p[c], p[8 + c], p[16 + c], p[24 + c], p[32 + c], p[40 + c], p[48 + c], p[56 + c])
  }

  function RowPass(p: seq<int>): (r: seq<int>)
    requires |p| == 64
    ensures |r| == 64
  {
    seq(64, i requires 0 <= i < 64 => At(RowOut(Row(p, i / 8)), i % 8))
  }

  function ColumnPass(p: seq<int>): (r: seq<int>)
    requires |p| == 64
    ensures |r| == 64
  {
    seq(64, i requires 0 <= i < 64 => At(ColumnOut(Column(p, i % 8)), i / 8))
  }

  function Forward(p: seq<int>): (r: seq<int>)
    requires |p| == 64
    ensures |r| == 64
  {
    ColumnPass(RowPass(p))
  }

  ghost predicate IsSamples(p: seq<int>) {
    |p| == 64 && forall i :: 0 <= i < 64 ==> -128 <= p[i] <= 127
  }

  lemma RowOutRange(s: Eight)
    requires Within(s, -128, 127)
    ensures CastsExact(s) && SumsExact(s)
    ensures -4096 <= RowOut(s).s0 <= 4064 && Within(RowOut(s).(s0 := 0), -4080, 4080)
  {
    hide Dct1D, Matrix;
    NoTruncation(s, -128, 127);
    NoOverflow(s);
    ButterflyIsMatrix(s);
    MatrixBounds(s, -128, 127);
    hide CastsExact, SumsExact;
  }

  lemma ColumnOutRange(s: Eight, lo: int, hi: int)
    requires Within(s, lo, hi) && hi - lo <= 8160 && -4096 <= lo && hi <= 4096
    ensures CastsExact(s) && SumsExact(s)
    ensures Within(ColumnOut(s).(s0 := 0), -1020, 1020)
    ensures lo >= -4096 ==> ColumnOut(s).s0 >= -1024
    ensures lo >= -4080 ==> ColumnOut(s).s0 >= -1020
    ensures hi <= 4064 ==> ColumnOut(s).s0 <= 1016
    ensures hi <= 4080 ==> ColumnOut(s).s0 <= 1020
  {
    hide Dct1D, Matrix;
    NoTruncation(s, lo, hi);
    NoOverflow(s);
    ButterflyIsMatrix(s);
    MatrixBounds(s, lo, hi);
    hide CastsExact, SumsExact;
  }

  /** The row pass: column 0 holds four times the row sums, the others stay within 4080. */
  lemma RowPassAt(p: seq<int>, r: nat, c: nat)
    requires IsSamples(p) && r < 8 && c < 8
    ensures CastsExact(Row(p, r)) && SumsExact(Row(p, r))
    ensures var v := RowPass(p)[8 * r + c];
      (c == 0 ==> -4096 <= v <= 4064) && (c > 0 ==> -4080 <= v <= 4080)
  {
    assert Within(Row(p, r), -128, 127);
    RowOutRange(Row(p, r));
    RowPassElement(p, r, c);
    hide RowOut, CastsExact, SumsExact, Row, RowPass;
  }

  lemma RowPassElement(p: seq<int>, r: nat, c: nat)
    requires |p| == 64 && r < 8 && c < 8
    ensures RowPass(p)[8 * r + c] == At(RowOut(Row(p, r)), c)
  {
    hide RowOut, Row, At;
    assert (8 * r + c) / 8 == r && (8 * r + c) % 8 == c;
  }

  lemma ColumnOfRowPass(p: seq<int>, c: nat)
    requires IsSamples(p) && c < 8
    ensures c == 0 ==> Within(Column(RowPass(p), c), -4096, 4064)
    ensures c > 0 ==> Within(Column(RowPass(p), c), -4080, 4080)
  {
    hide RowPass, CastsExact, SumsExact, Row;
    RowPassAt(p, 0, c);
    RowPassAt(p, 1, c);
    RowPassAt(p, 2, c);
    RowPassAt(p, 3, c);
    RowPassAt(p, 4, c);
    RowPassAt(p, 5, c);
    RowPassAt(p, 6, c);
    RowPassAt(p, 7, c);
  }

  /** For every block of 8-bit samples no product in either pass is cut, the DC coefficient lies in
      [-1024, 1016] and every other coefficient is below 1024 in magnitude. */
  lemma ForwardRange(p: seq<int>)
    requires IsSamples(p)
    ensures forall r :: 0 <= r < 8 ==> CastsExact(Row(p, r)) && SumsExact(Row(p, r))
    ensures forall c :: 0 <= c < 8 ==> CastsExact(Column(RowPass(p), c)) && SumsExact(Column(RowPass(p), c))
    ensures -1024 <= Forward(p)[0] <= 1016
    ensures forall i :: 1 <= i < 64 ==> -1020 <= Forward(p)[i] <= 1020
  {
    hide CastsExact, SumsExact, RowPass, ColumnOut, Row, Column;
    forall r | 0 <= r < 8 ensures CastsExact(Row(p, r)) && SumsExact(Row(p, r)) {
      RowPassAt(p, r, 0);
    }
    forall c | 0 <= c < 8 ensures CastsExact(Column(RowPass(p), c)) && SumsExact(Column(RowPass(p), c)) {
      ColumnRange(p, c, 0);
    }
    forall i | 0 <= i < 64
      ensures -1024 <= Forward(p)[i] <= 1020 && (i == 0 ==> Forward(p)[i] <= 1016) && (i > 0 ==> -1020 <= Forward(p)[i])
    {
      ColumnRange(p, i % 8, i / 8);
    }
  }

  lemma ColumnRange(p: seq<int>, c: nat, r: nat)
    requires IsSamples(p) && c < 8 && r < 8
    ensures CastsExact(Column(RowPass(p), c)) && SumsExact(Column(RowPass(p), c))
    ensures var v := At(ColumnOut(Column(RowPass(p), c)), r);
      -1024 <= v <= 1020 && (c == 0 && r == 0 ==> v <= 1016) && (c > 0 || r > 0 ==> -1020 <= v)
  {
    hide RowPass, CastsExact, SumsExact, ColumnOut, Column;
    ColumnOfRowPass(p, c);
    ColumnOutRange(Column(RowPass(p), c), if c == 0 then -4096 else -4080, if c == 0 then 4064 else 4080);
  }

  function Sum(p: seq<int>): int {
    if |p| == 0 then 0 else Sum(p[..|p| - 1]) + p[|p| - 1]
  }

  /** The DC coefficient is an eighth of the sum of the samples, rounded to nearest. */
  lemma DcIsMean(p: seq<int>)
    requires |p| == 64
    ensures Forward(p)[0] == (Sum(p) + 4) / 8
  {
    hide RowPass, Sum, ColumnOut, Column;
    var m := RowPass(p);
    DcOfRow(p, 0); DcOfRow(p, 1); DcOfRow(p, 2); DcOfRow(p, 3);
    DcOfRow(p, 4); DcOfRow(p, 5); DcOfRow(p, 6); DcOfRow(p, 7);
    assert p[..64] == p && p[..0] == [];
    assert Sum([]) == 0 by { SumOfNothing(); }
    DcOfColumn(m);
  }

  lemma SumOfNothing()
    ensures Sum([]) == 0
  {
  }

  lemma DcOfColumn(m: seq<int>)
    requires |m| == 64
    ensures ColumnPass(m)[0] == Descale(m[0] + m[8] + m[16] + m[24] + m[32] + m[40] + m[48] + m[56], 5)
  {
    hide Mul;
  }

  lemma DcOfRow(p: seq<int>, r: nat)
    requires |p| == 64 && r < 8
    ensures RowPass(p)[8 * r] == 4 * (Sum(p[..8 * r + 8]) - Sum(p[..8 * r]))
  {
    RowPassElement(p, r, 0);
    SumStep(p, 8 * r); SumStep(p, 8 * r + 1); SumStep(p, 8 * r + 2); SumStep(p, 8 * r + 3);
    SumStep(p, 8 * r + 4); SumStep(p, 8 * r + 5); SumStep(p, 8 * r + 6); SumStep(p, 8 * r + 7);
    hide Sum, RowPass;
  }

  lemma SumStep(p: seq<int>, n: nat)
    requires n < |p|
    ensures Sum(p[..n + 1]) == Sum(p[..n]) + p[n]
  {
    assert p[..n + 1][..n] == p[..n];
  }

  /** The rows of the matrix, all at the scale 2^13. */
  function Basis(k: nat): Eight {
    if k == 0 then Eight(8192, 8192, 8192, 8192, 8192, 8192, 8192, 8192)
    else if k == 1 then Eight(11363, 9633, 6437, 2260, -2260, -6437, -9633, -11363)
    else if k == 2 then Eight(10703, 4433, -4433, -10703, -10703, -4433, 4433, 10703)
    else if k == 3 then Eight(9633, -2259, -11362, -6436, 6436, 11362, 2259, -9633)
    else if k == 4 then Eight(8192, -8192, -8192, 8192, 8192, -8192, -8192, 8192)
    else if k == 5 then Eight(6437, -11362, 2261, 9633, -9633, -2261, 11362, -6437)
    else if k == 6 then Eight(4433, -10704, 10704, -4433, -4433, 10704, -10704, 4433)
    else Eight(2260, -6436, 9633, -11363, 11363, -9633, 6436, -2260)
  }

  function Dot(a: Eight, b: Eight): int {
    a.s0 * b.s0 + a.s1 * b.s1 + a.s2 * b.s2 + a.s3 * b.s3 + a.s4 * b.s4 + a.s5 * b.s5 + a.s6 * b.s6 + a.s7 * b.s7
  }

  lemma MatrixIsBasis(s: Eight, k: nat)
    requires k < 8
    ensures Dot(Basis(k), s) == (if k == 0 || k == 4 then 8192 else 1) * At(Matrix(s), k)
  {
    if k < 2 { FirstRows(s, k); } else if k < 4 { SecondRows(s, k); } else { LowerRows(s, k); }
  }

  lemma FirstRows(s: Eight, k: nat)
    requires k < 2
    ensures Dot(Basis(k), s) == (if k == 0 then 8192 else 1) * At(Matrix(s), k)
  {
    if k == 0 { } else { }
  }

  lemma SecondRows(s: Eight, k: nat)
    requires 2 <= k < 4
    ensures Dot(Basis(k), s) == At(Matrix(s), k)
  {
    if k == 2 { } else { }
  }

  lemma LowerRows(s: Eight, k: nat)
    requires 4 <= k < 8
    ensures Dot(Basis(k), s) == (if k == 4 then 8192 else 1) * At(Matrix(s), k)
  {
    if k == 4 { } else if k == 5 { } else if k == 6 { } else { }
  }

  /** The eight basis vectors are orthogonal and of equal length, to one part in 2^13: the transform is
      a scaled rotation, as a DCT is, so the transpose inverts it to that accuracy. */
  lemma NearlyOrthogonal(j: nat, k: nat)
    requires j < 8 && k < 8
    ensures j != k ==> -65536 <= Dot(Basis(j), Basis(k)) <= 65536
    ensures j == k ==> 0x2000_0000 - 65536 <= Dot(Basis(j), Basis(k)) <= 0x2000_0000 + 65536
  {
    if j == 0 { } else if j == 1 { } else if j == 2 { } else if j == 3 { }
    else if j == 4 { } else if j == 5 { } else if j == 6 { } else { }
  }

  /** One row of the first loop. */
  method TransformRow(p: array<int>, r: nat)
    requires p.Length == 64 && r < 8
    modifies p
    ensures forall i :: 0 <= i < 64 ==>
      p[i] == if i / 8 == r then old(RowPass(p[..])[i]) else old(p[i])
  {
    hide Dct1D;
    var q := 8 * r;
    var d := Dct1D(Eight(p[q], p[q + 1], p[q + 2], p[q + 3], p[q + 4], p[q + 5], p[q + 6], p[q + 7]));
    p[q], p[q + 4] := 4 * d.s0, 4 * d.s4;
    p[q + 1], p[q + 2], p[q + 3] := Descale(d.s1, 11), Descale(d.s2, 11), Descale(d.s3, 11);
    p[q + 5], p[q + 6], p[q + 7] := Descale(d.s5, 11), Descale(d.s6, 11), Descale(d.s7, 11);
  }

  /** One column of the second loop. */
  method TransformColumn(p: array<int>, c: nat)
    requires p.Length == 64 && c < 8
    modifies p
    ensures forall i :: 0 <= i < 64 ==>
      p[i] == if i % 8 == c then old(ColumnPass(p[..])[i]) else old(p[i])
  {
    hide Dct1D;
    var d := Dct1D(Eight(p[c], p[8 + c], p[16 + c], p[24 + c], p[32 + c], p[40 + c], p[48 + c], p[56 + c]));
    p[c], p[32 + c] := Descale(d.s0, 5), Descale(d.s4, 5);
    p[8 + c], p[16 + c], p[24 + c] := Descale(d.s1, 18), Descale(d.s2, 18), Descale(d.s3, 18);
    p[40 + c], p[48 + c], p[56 + c] := Descale(d.s5, 18), Descale(d.s6, 18), Descale(d.s7, 18);
  }

  lemma SameRow(a: seq<int>, b: seq<int>, r: nat)
    requires |a| == |b| == 64 && r < 8
    requires forall i :: 8 * r <= i < 8 * r + 8 ==> a[i] == b[i]
    ensures forall i :: 8 * r <= i < 8 * r + 8 ==> RowPass(a)[i] == RowPass(b)[i]
  {
    assert Row(a, r) == Row(b, r);
    hide RowOut, Row, At;
    forall i | 8 * r <= i < 8 * r + 8 ensures RowPass(a)[i] == RowPass(b)[i] {
      assert i / 8 == r;
    }
  }

  lemma SameColumn(a: seq<int>, b: seq<int>, c: nat)
    requires |a| == |b| == 64 && c < 8
    requires forall i :: 0 <= i < 64 && i % 8 == c ==> a[i] == b[i]
    ensures forall i :: 0 <= i < 64 && i % 8 == c ==> ColumnPass(a)[i] == ColumnPass(b)[i]
  {
    assert Column(a, c) == Column(b, c);
    hide ColumnOut, Column;
  }

  method DCT2D(p: array<int>)
    requires p.Length == 64
    modifies p
    ensures p[..] == Forward(old(p[..]))
  {
    hide RowPass, ColumnPass;
    ghost var start := p[..];
    for c := 0 to 8
      invariant forall i :: 0 <= i < 64 ==> p[i] == if i < 8 * c then RowPass(start)[i] else start[i]
    {
      SameRow(p[..], start, c);
      TransformRow(p, c);
    }
    ghost var mid := p[..];
    assert mid == RowPass(start);
    for c := 0 to 8
      invariant forall i :: 0 <= i < 64 ==> p[i] == if i % 8 < c then ColumnPass(mid)[i] else mid[i]
    {
      SameColumn(p[..], mid, c);
      TransformColumn(p, c);
    }
    assert p[..] == ColumnPass(mid);
  }
}
