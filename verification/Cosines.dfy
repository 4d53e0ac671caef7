/** The rows of the transform are the cosines of ITU-T T.81, section A.3.3. */
module Cosines {
  import opened Basics
  import opened Dct

  /** 2^13 times the square root of 2. */
  const ONE: int := 11585

  /** `ONE * cos(m * pi / 16)` for the first quarter turn. */
  function Quarter(m: nat): int
    requires m <= 8
  {
    if m == 0 then 11585 else if m == 1 then 11363 else if m == 2 then 10703 else if m == 3 then 9633
    else if m == 4 then 8192 else if m == 5 then 6436 else if m == 6 then 4433 else if m == 7 then 2260 else 0
  }

  /** For all angles, in sixteenths of half a turn. */
  function Cosine(m: nat): int {
    if m <= 8 then Quarter(m) else if m <= 16 then -Quarter(16 - m)
    else if m <= 24 then -Quarter(m - 16) else if m <= 32 then Quarter(32 - m) else Cosine(m - 32)
  }

  lemma WholeTurns(m: nat)
    ensures m >= 32 ==> Cosine(m) == Cosine(m - 32)
    ensures m >= 64 ==> Cosine(m) == Cosine(m - 64)
    ensures m >= 96 ==> Cosine(m) == Cosine(m - 96)
  {
    hide Quarter;
    OneTurn(m);
    if m >= 64 {
      OneTurn(m - 32);
    }
    if m >= 96 {
      OneTurn(m - 64);
    }
  }

  lemma OneTurn(m: nat)
    ensures m >= 32 ==> Cosine(m) == Cosine(m - 32)
  {
  }

  /** These are cosines: they fall from 1 to 0 over a quarter turn and satisfy 2 cos(x)^2 = 1 + cos(2 x), which leaves
      only one value for each angle, to 13 bits. */
  lemma HalfAngle(m: nat)
    requires m <= 8
    ensures Abs(ONE * ONE - 2 * 8192 * 8192) <= 5600
    ensures Quarter(0) == ONE && Quarter(8) == 0 && (m < 8 ==> Quarter(m) > Quarter(m + 1))
    ensures Abs(2 * Quarter(m) * Quarter(m) - ONE * (ONE + Cosine(2 * m))) <= 29058
  {
    if m == 0 { } else if m == 1 { } else if m == 2 { } else if m == 3 { } else if m == 4 { }
    else if m == 5 { } else if m == 6 { } else if m == 7 { } else { }
  }

  /** Row `k` holds cos((2 i + 1) k pi / 16), to one unit in the last of 13 bits; row 0 is scaled by the square root
      of one half. */
  lemma BasisIsCosine(k: nat, i: nat)
    requires k < 8 && i < 8
    ensures Abs(At(Basis(k), i) - if k == 0 then Quarter(4) else Cosine((2 * i + 1) * k)) <= 1
  {
    if k < 2 {
      FirstRows(k, i);
    } else if k < 4 {
      SecondRows(k, i);
    } else if k < 6 {
      ThirdRows(k, i);
    } else {
      FourthRows(k, i);
    }
  }

  lemma FirstRows(k: nat, i: nat)
    requires k < 2 && i < 8
    ensures Abs(At(Basis(k), i) - if k == 0 then Quarter(4) else Cosine((2 * i + 1) * k)) <= 1
  {
    if i == 0 { } else if i == 1 { } else if i == 2 { } else if i == 3 { }
    else if i == 4 { } else if i == 5 { } else if i == 6 { } else { }
  }

  lemma SecondRows(k: nat, i: nat)
    requires 2 <= k < 4 && i < 8
    ensures Abs(At(Basis(k), i) - Cosine((2 * i + 1) * k)) <= 1
  {
    if i == 0 { } else if i == 1 { } else if i == 2 { } else if i == 3 { }
    else if i == 4 { } else if i == 5 { } else if i == 6 { } else { }
  }

  lemma ThirdRows(k: nat, i: nat)
    requires 4 <= k < 6 && i < 8
    ensures Abs(At(Basis(k), i) - Cosine((2 * i + 1) * k)) <= 1
  {
    WholeTurns((2 * i + 1) * k);
    if i == 0 { } else if i == 1 { } else if i == 2 { } else if i == 3 { }
    else if i == 4 { } else if i == 5 { } else if i == 6 { } else { }
  }

  lemma FourthRows(k: nat, i: nat)
    requires 6 <= k < 8 && i < 8
    ensures Abs(At(Basis(k), i) - Cosine((2 * i + 1) * k)) <= 1
  {
    WholeTurns((2 * i + 1) * k);
    if i == 0 { } else if i == 1 { } else if i == 2 { } else if i == 3 { }
    else if i == 4 { } else if i == 5 { } else if i == 6 { } else { }
  }
}
