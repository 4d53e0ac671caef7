/** From pixels to coefficients and back: how far the samples that a decoder computes are from the coded ones.

    The inverse transform is the transposed matrix, applied to the columns and then to the rows of a block.  This is
    the inverse DCT of ITU-T T.81, section A.3.3, with cosines of 13 bits; its results are scaled by 2^29. */
module Reconstruct {
  import opened Basics
  import opened Dct

  const SCALE: int := 0x2000_0000

  /** Row `i` of the transposed matrix. */
  function Transposed(i: nat): Eight
    requires i < 8
  {
    Eight(At(Basis(0), i), At(Basis(1), i), At(Basis(2), i), At(Basis(3), i),
          At(Basis(4), i), At(Basis(5), i), At(Basis(6), i), At(Basis(7), i))
  }

  /** Value `i` of the inverse transform of eight coefficients. */
  function Back(g: Eight, i: nat): int
    requires i < 8
  {
    Dot(Transposed(i), g)
  }

  /** All eight products with rows of the matrix. */
  function Product(s: Eight): Eight {
    Eight(Dot(Basis(0), s), Dot(Basis(1), s), Dot(Basis(2), s), Dot(Basis(3), s),
          Dot(Basis(4), s), Dot(Basis(5), s), Dot(Basis(6), s), Dot(Basis(7), s))
  }

  function Minus(a: Eight, b: Eight): Eight {
    Eight(a.s0 - b.s0, a.s1 - b.s1, a.s2 - b.s2, a.s3 - b.s3, a.s4 - b.s4, a.s5 - b.s5, a.s6 - b.s6, a.s7 - b.s7)
  }

  function Times(m: int, a: Eight): Eight {
    Eight(m * a.s0, m * a.s1, m * a.s2, m * a.s3, m * a.s4, m * a.s5, m * a.s6, m * a.s7)
  }

  /** What the rounding of the constants adds when the transposed matrix follows the matrix. */
  function Residual(i: nat): Eight {
    if i == 0 then Eight(7541, 11845, 22555, 21663, 2397, -13689, -20711, -31601)
    else if i == 1 then Eight(11845, -11169, -22468, -3941, 12807, 3714, 29923, -20711)
    else if i == 2 then Eight(22555, -22468, 10744, -10547, 1681, 8010, 3714, -13689)
    else if i == 3 then Eight(21663, -3941, -10547, -5332, -18728, 1681, 12807, 2397)
    else if i == 4 then Eight(2397, 12807, 1681, -18728, -5332, -10547, -3941, 21663)
    else if i == 5 then Eight(-13689, 3714, 8010, 1681, -10547, 10744, -22468, 22555)
    else if i == 6 then Eight(-20711, 29923, 3714, 12807, -3941, -22468, -11169, 11845)
    else Eight(-31601, -20711, -13689, 2397, 21663, 22555, 11845, 7541)
  }

  lemma UpperResidual(s: Eight, i: nat)
    requires i < 4
    ensures Back(Product(s), i) == SCALE * At(s, i) + Dot(Residual(i), s)
  {
    if i == 0 { } else if i == 1 { } else if i == 2 { } else { }
  }

  lemma LowerResidual(s: Eight, i: nat)
    requires 4 <= i < 8
    ensures Back(Product(s), i) == SCALE * At(s, i) + Dot(Residual(i), s)
  {
    if i == 4 { } else if i == 5 { } else if i == 6 { } else { }
  }

  lemma ResidualBound(s: Eight, i: nat, w: int)
    requires i < 8 && 0 <= w && Within(s, -w, w)
    ensures Abs(Dot(Residual(i), s)) <= 132002 * w
  {
    if i == 0 { } else if i == 1 { } else if i == 2 { } else if i == 3 { }
    else if i == 4 { } else if i == 5 { } else if i == 6 { } else { }
  }

  /** The inverse transform undoes the products, but for the rounding of the constants. */
  lemma BackOfProduct(s: Eight, i: nat, w: int)
    requires i < 8 && 0 <= w && Within(s, -w, w)
    ensures Abs(Back(Product(s), i) - SCALE * At(s, i)) <= 132002 * w
  {
    hide Back, Product, Residual, Dot;
    if i < 4 {
      UpperResidual(s, i);
    } else {
      LowerResidual(s, i);
    }
    ResidualBound(s, i, w);
  }

  lemma BackBound(g: Eight, i: nat, w: int)
    requires i < 8 && 0 <= w && Within(g, -w, w)
    ensures Abs(Back(g, i)) <= 61214 * w
  {
    if i == 0 { } else if i == 1 { } else if i == 2 { } else if i == 3 { }
    else if i == 4 { } else if i == 5 { } else if i == 6 { } else { }
  }

  lemma BackMinus(a: Eight, b: Eight, i: nat)
    requires i < 8
    ensures Back(Minus(a, b), i) == Back(a, i) - Back(b, i)
  {
  }

  lemma BackTimes(m: int, a: Eight, i: nat)
    requires i < 8
    ensures Back(Times(m, a), i) == m * Back(a, i)
  {
  }

  lemma BackNear(a: Eight, b: Eight, i: nat, w: int)
    requires i < 8 && 0 <= w && Within(Minus(a, b), -w, w)
    ensures Abs(Back(a, i) - Back(b, i)) <= 61214 * w
  {
    hide Back, Minus;
    BackMinus(a, b, i);
    BackBound(Minus(a, b), i, w);
  }

  // ------------------------------------------------------------ one row, one column

  /** The row pass keeps two binary digits: 2^11 times its result is within 2^10 of the product. */
  lemma RowClose(s: Eight, k: nat)
    requires k < 8 && Within(s, -128, 127)
    ensures Abs(2048 * At(RowOut(s), k) - Dot(Basis(k), s)) <= 1024
  {
    hide Dct1D, Matrix, Dot, Basis;
    NoTruncation(s, -128, 127);
    ButterflyIsMatrix(s);
    MatrixIsBasis(s, k);
  }

  /** The column pass rounds to integers: 2^18 times its result is within 2^17 of the product. */
  lemma ColumnClose(s: Eight, k: nat)
    requires k < 8 && CastsExact(s)
    ensures Abs(262144 * At(ColumnOut(s), k) - Dot(Basis(k), s)) <= 131072
  {
    hide Dct1D, Matrix, Dot, Basis, CastsExact;
    ButterflyIsMatrix(s);
    MatrixIsBasis(s, k);
  }

  /** Eight values no more than `w` apart, place by place. */
  ghost predicate Close(a: Eight, b: Eight, w: int) {
    forall k :: 0 <= k < 8 ==> Abs(At(a, k) - At(b, k)) <= w
  }

  lemma CloseIsWithin(a: Eight, b: Eight, w: int)
    requires Close(a, b, w)
    ensures Within(Minus(a, b), -w, w)
  {
    assert Abs(At(a, 0) - At(b, 0)) <= w && Abs(At(a, 1) - At(b, 1)) <= w;
    assert Abs(At(a, 2) - At(b, 2)) <= w && Abs(At(a, 3) - At(b, 3)) <= w;
    assert Abs(At(a, 4) - At(b, 4)) <= w && Abs(At(a, 5) - At(b, 5)) <= w;
    assert Abs(At(a, 6) - At(b, 6)) <= w && Abs(At(a, 7) - At(b, 7)) <= w;
  }

  lemma ProductAt(s: Eight, m: int, g: Eight, k: nat)
    requires k < 8
    ensures At(Product(s), k) == Dot(Basis(k), s) && At(Times(m, g), k) == m * At(g, k)
  {
    hide Dot;
  }

  /** A column of the row pass from coefficients that are within `h` of those of the column pass. */
  lemma ColumnBack(s: Eight, g: Eight, i: nat, h: int)
    requires i < 8 && 0 <= h && CastsExact(s) && Within(s, -4096, 4096) && Close(g, ColumnOut(s), h)
    ensures Abs(262144 * Back(g, i) - SCALE * At(s, i)) <= 262144 * (61214 * h + 32670)
  {
    hide Back, Product, Times, Minus, ColumnOut, At, Dot, Basis, CastsExact;
    var w := 262144 * h + 131072;
    forall k | 0 <= k < 8 ensures Abs(At(Times(262144, g), k) - At(Product(s), k)) <= w {
      ColumnClose(s, k);
      ProductAt(s, 262144, g, k);
    }
    CloseIsWithin(Times(262144, g), Product(s), w);
    BackNear(Times(262144, g), Product(s), i, w);
    BackTimes(262144, g, i);
    BackOfProduct(s, i, 4096);
  }

  /** A row of samples from values that are close to those of the row pass. */
  lemma RowBack(s: Eight, y: Eight, i: nat, h: int)
    requires i < 8 && 0 <= h && Within(s, -128, 127)
    requires forall k :: 0 <= k < 8 ==>
      Abs(262144 * At(y, k) - SCALE * At(RowOut(s), k)) <= 262144 * (61214 * h + 32670)
    ensures Abs(Back(y, i) - SCALE * At(s, i)) < SCALE * (7 * h + 4)
  {
    hide Back, Product, Times, Minus, RowOut, At, Dot, Basis;
    var w := 61214 * h + 33694;
    forall k | 0 <= k < 8 ensures Abs(At(y, k) - At(Product(s), k)) <= w {
      RowClose(s, k);
      ProductAt(s, 1, y, k);
    }
    CloseIsWithin(y, Product(s), w);
    BackNear(y, Product(s), i, w);
    BackOfProduct(s, i, 128);
  }

  // ------------------------------------------------------------ blocks

  function BackColumns(g: seq<int>): (r: seq<int>)
    requires |g| == 64
    ensures |r| == 64
  {
    seq(64, i requires 0 <= i < 64 => Back(Column(g, i % 8), i / 8))
  }

  function BackRows(y: seq<int>): (r: seq<int>)
    requires |y| == 64
    ensures |r| == 64
  {
    seq(64, i requires 0 <= i < 64 => Back(Row(y, i / 8), i % 8))
  }

  /** The samples of a block of coefficients, times 2^29. */
  function Inverse(g: seq<int>): (r: seq<int>)
    requires |g| == 64
    ensures |r| == 64
  {
    BackRows(BackColumns(g))
  }

  /** Coefficients no more than `h` from those of the transform. */
  ghost predicate Near(g: seq<int>, f: seq<int>, h: int) {
    |g| == |f| == 64 && forall i :: 0 <= i < 64 ==> Abs(g[i] - f[i]) <= h
  }

  lemma ColumnAt(p: seq<int>, c: nat, k: nat)
    requires |p| == 64 && c < 8 && k < 8
    ensures At(Column(p, c), k) == p[8 * k + c]
  {
  }

  lemma RowAt(p: seq<int>, r: nat, k: nat)
    requires |p| == 64 && r < 8 && k < 8
    ensures At(Row(p, r), k) == p[8 * r + k]
  {
  }

  lemma ColumnPassAt(p: seq<int>, r: nat, c: nat)
    requires |p| == 64 && r < 8 && c < 8
    ensures ColumnPass(p)[8 * r + c] == At(ColumnOut(Column(p, c)), r)
  {
    hide ColumnOut, Column, At;
    assert (8 * r + c) / 8 == r && (8 * r + c) % 8 == c;
  }

  lemma BackColumnsAt(g: seq<int>, r: nat, c: nat)
    requires |g| == 64 && r < 8 && c < 8
    ensures BackColumns(g)[8 * r + c] == Back(Column(g, c), r)
  {
    hide Back, Column;
    assert (8 * r + c) / 8 == r && (8 * r + c) % 8 == c;
  }

  lemma ColumnsBack(p: seq<int>, g: seq<int>, r: nat, c: nat, h: int)
    requires IsSamples(p) && Near(g, Forward(p), h) && 0 <= h && r < 8 && c < 8
    ensures Abs(262144 * BackColumns(g)[8 * r + c] - SCALE * RowPass(p)[8 * r + c]) <= 262144 * (61214 * h + 32670)
  {
    hide RowPass, ColumnPass, BackColumns, Column, ColumnOut, At, Back, CastsExact, SumsExact, Row;
    var s := Column(RowPass(p), c);
    ForwardRange(p);
    ColumnOfRowPass(p, c);
    forall k | 0 <= k < 8 ensures Abs(At(Column(g, c), k) - At(ColumnOut(s), k)) <= h {
      ColumnAt(g, c, k);
      ColumnPassAt(RowPass(p), k, c);
    }
    ColumnBack(s, Column(g, c), r, h);
    BackColumnsAt(g, r, c);
    ColumnAt(RowPass(p), c, r);
  }

  /** Coefficients within `h` of the transform of a block give back each sample to within 7 h + 4. */
  lemma SamplesRecovered(p: seq<int>, g: seq<int>, i: nat, h: int)
    requires IsSamples(p) && Near(g, Forward(p), h) && 0 <= h && i < 64
    ensures Abs(Inverse(g)[i] - SCALE * p[i]) < SCALE * (7 * h + 4)
  {
    hide RowPass, Forward, BackColumns, Back, Row, At, RowOut;
    var r, c, y := i / 8, i % 8, BackColumns(g);
    assert i == 8 * r + c;
    SampleRow(p, r);
    forall k | 0 <= k < 8
      ensures Abs(262144 * At(Row(y, r), k) - SCALE * At(RowOut(Row(p, r)), k)) <= 262144 * (61214 * h + 32670)
    {
      ColumnsBack(p, g, r, k, h);
      RowAt(y, r, k);
      RowPassElement(p, r, k);
    }
    RowBack(Row(p, r), Row(y, r), c, h);
    RowAt(p, r, c);
  }

  lemma SampleRow(p: seq<int>, r: nat)
    requires IsSamples(p) && r < 8
    ensures Within(Row(p, r), -128, 127)
  {
  }
}
