/** What the CRC is: the remainder of the data, as a polynomial over GF(2), by the generator
    x^32 + x^26 + x^23 + x^22 + x^16 + x^12 + x^11 + x^10 + x^8 + x^7 + x^5 + x^4 + x^2 + x + 1. */
module CrcPolynomial {
  import opened Bits
  import opened Crc

  /** A polynomial over GF(2): the exponents of its terms. */
  type Polynomial = set<nat>

  function Generator(): Polynomial {
    {32, 26, 23, 22, 16, 12, 11, 10, 8, 7, 5, 4, 2, 1, 0}
  }

  function Add(a: Polynomial, b: Polynomial): Polynomial {
    (a - b) + (b - a)
  }

  /** `a * x^k` */
  function Up(a: Polynomial, k: nat): Polynomial {
    set e | e in a :: e + k
  }

  /** Bits as coefficients, the first bit at the highest power. */
  function PolynomialOf(bits: seq<bool>): Polynomial {
    if |bits| == 0 then {} else Add(Up(PolynomialOf(bits[..|bits| - 1]), 1), if bits[|bits| - 1] then {0} else {})
  }

  /** The product of `q` and `g`, by Horner's rule. */
  function Times(q: seq<bool>, g: Polynomial): Polynomial {
    if |q| == 0 then {} else Add(Up(Times(q[..|q| - 1], g), 1), if q[|q| - 1] then g else {})
  }

  /** `r` is what division of `n` by the generator leaves. */
  ghost predicate IsRemainder(n: Polynomial, r: Polynomial) {
    && (forall e :: e in r ==> e < 32)
    && exists q: seq<bool> :: n == Add(Times(q, Generator()), r)
  }

  /** The first `k` bits of a word, the most significant first, as the coefficients of `x^(k-1)` to `x^0`. */
  function Leading(s: bv32, k: nat): Polynomial
    decreases k
  {
    if k == 0 then {} else Add(if Top(s) then {k - 1} else {}, Leading(Shift(s), k - 1))
  }

  function WordPolynomial(s: bv32): Polynomial {
    Leading(s, 32)
  }

  // ------------------------------------------------------------ polynomials

  lemma UpHas(a: Polynomial, k: nat, e: nat)
    ensures e in Up(a, k) <==> e >= k && e - k in a
  {
    if e >= k && e - k in a {
      assert (e - k) + k == e;
    }
  }

  lemma UpAdd(a: Polynomial, b: Polynomial, k: nat)
    ensures Up(Add(a, b), k) == Add(Up(a, k), Up(b, k))
  {
    hide Up;
    forall e: nat ensures e in Up(Add(a, b), k) <==> e in Add(Up(a, k), Up(b, k)) {
      UpHas(Add(a, b), k, e);
      UpHas(a, k, e);
      UpHas(b, k, e);
    }
  }

  lemma UpUp(a: Polynomial, j: nat, k: nat)
    ensures Up(Up(a, j), k) == Up(a, j + k)
  {
    hide Up;
    forall e: nat ensures e in Up(Up(a, j), k) <==> e in Up(a, j + k) {
      UpHas(Up(a, j), k, e);
      UpHas(a, j + k, e);
      if e >= k {
        UpHas(a, j, e - k);
      }
    }
  }

  lemma UpNone(k: nat)
    ensures Up({}, k) == {} && Up({0}, k) == {k}
  {
  }

  lemma AddSwap(a: Polynomial, b: Polynomial, c: Polynomial, d: Polynomial)
    ensures Add(Add(a, b), c) == Add(a, Add(b, c)) && Add(a, b) == Add(b, a)
    ensures Add(Add(a, b), Add(c, d)) == Add(Add(a, c), Add(b, d))
    ensures Add(a, a) == {} && Add(a, {}) == a
  {
  }

  function Shifted(s: bv32, k: nat): bv32
    decreases k
  {
    if k == 0 then s else Shifted(Shift(s), k - 1)
  }

  function ShiftFour(s: bv32): bv32 {
    Shift(Shift(Shift(Shift(s))))
  }

  lemma ShiftedFour(s: bv32, k: nat)
    requires k >= 4
    ensures Shifted(s, k) == Shifted(ShiftFour(s), k - 4)
  {
    hide Shift;
    var t := Shift(Shift(s));
    assert Shifted(s, k) == Shifted(t, k - 2);
    assert Shifted(t, k - 2) == Shifted(Shift(Shift(t)), k - 4);
  }

  lemma FourIsSixteenfold(s: bv32)
    ensures ShiftFour(s) == s << 4
  {
  }

  lemma EightFours(s: bv32)
    ensures s << 4 << 4 << 4 << 4 << 4 << 4 << 4 << 4 == 0
  {
  }

  function FourTimes(s: bv32, n: nat): bv32
    decreases n
  {
    if n == 0 then s else FourTimes(s << 4, n - 1)
  }

  lemma {:induction false} ShiftedFours(s: bv32, n: nat)
    ensures Shifted(s, 4 * n) == FourTimes(s, n)
    decreases n
  {
    hide ShiftFour;
    if n > 0 {
      ShiftedFour(s, 4 * n);
      FourIsSixteenfold(s);
      ShiftedFours(s << 4, n - 1);
    }
  }

  /** Nothing is left of a word after 32 shifts. */
  lemma ShiftedOut(s: bv32)
    ensures Shifted(s, 32) == 0
  {
    hide Shifted;
    ShiftedFours(s, 8);
    EightFours(s);
    assert FourTimes(s, 8) == FourTimes(s << 4 << 4 << 4 << 4, 4);
  }

  /** One bit more of a word. */
  lemma {:induction false} LeadingNext(s: bv32, k: nat)
    ensures Leading(s, k + 1) == Add(Up(Leading(s, k), 1), if Top(Shifted(s, k)) then {0} else {})
    decreases k
  {
    hide Up, Add, Top, Shift;
    var low: Polynomial := if Top(Shifted(s, k)) then {0} else {};
    UpNothing();
    if k == 0 {
      AddSwap(low, {}, {}, {});
      assert Leading(s, 1) == Add(if Top(s) then {0} else {}, Leading(Shift(s), 0));
    } else {
      var high: Polynomial := if Top(s) then {k - 1} else {};
      var rest := Leading(Shift(s), k - 1);
      LeadingNext(Shift(s), k - 1);
      UpAdd(high, rest, 1);
      UpOne(k - 1);
      AddSwap(Up(high, 1), Up(rest, 1), low, {});
    }
  }

  lemma UpNothing()
    ensures Up({}, 1) == {}
  {
  }

  lemma UpOne(e: nat)
    ensures Up({e}, 1) == {e + 1}
  {
  }

  lemma {:induction false} LeadingPlus(s: bv32, t: bv32, k: nat)
    ensures Leading(Plus(s, t), k) == Add(Leading(s, k), Leading(t, k))
    decreases k
  {
    hide Add, Top, Shift, Plus;
    if k == 0 {
      AddSwap({}, {}, {}, {});
    } else {
      TopPlus(s, t);
      ShiftPlus(s, t);
      LeadingPlus(Shift(s), Shift(t), k - 1);
      var a: Polynomial, b: Polynomial := if Top(s) then {k - 1} else {}, if Top(t) then {k - 1} else {};
      AddSwap(a, Leading(Shift(s), k - 1), b, Leading(Shift(t), k - 1));
      AddSwap(a, b, {}, {});
      AddSwap(b, b, {}, {});
      AddSwap(b, {}, {}, {});
    }
  }

  lemma {:induction false} LeadingBelow(s: bv32, k: nat)
    ensures forall e :: e in Leading(s, k) ==> e < k
    decreases k
  {
    if k > 0 {
      LeadingBelow(Shift(s), k - 1);
    }
  }

  // ------------------------------------------------------------ one step of the CRC

  /** The terms of the four leading bits of a word. */
  function Nibble(s: bv32, k: nat): Polynomial
    requires k >= 4
  {
    (if s & 0x80000000 != 0 then {k - 1} else {}) + (if s & 0x40000000 != 0 then {k - 2} else {})
    + (if s & 0x20000000 != 0 then {k - 3} else {}) + (if s & 0x10000000 != 0 then {k - 4} else {})
  }

  lemma NibbleTops(s: bv32)
    ensures Top(s) == (s & 0x80000000 != 0) && Top(Shift(s)) == (s & 0x40000000 != 0)
    ensures Top(Shift(Shift(s))) == (s & 0x20000000 != 0)
    ensures Top(Shift(Shift(Shift(s)))) == (s & 0x10000000 != 0)
  {
  }

  lemma NibbleFirst(s: bv32, k: nat)
    requires k >= 4
    ensures Leading(s, k) == Nibble(s, k) + Leading(s << 4, k - 4)
  {
    hide Top, Shift;
    NibbleTops(s);
    FourIsSixteenfold(s);
    LeadingBelow(s << 4, k - 4);
    var s1, s2, s3 := Shift(s), Shift(Shift(s)), Shift(Shift(Shift(s)));
    var l1, l2, l3, l4 := Leading(s1, k - 1), Leading(s2, k - 2), Leading(s3, k - 3), Leading(s << 4, k - 4);
    assert l3 == Add(if Top(s3) then {k - 4} else {}, l4);
    assert l2 == Add(if Top(s2) then {k - 3} else {}, l3);
    assert l1 == Add(if Top(s1) then {k - 2} else {}, l2);
    assert Leading(s, k) == Add(if Top(s) then {k - 1} else {}, l1);
  }

  lemma PolyNibbles()
    ensures Nibble(0x04c11db7, 32) == {} && Nibble(0x4c11db70, 28) == {26} && Nibble(0xc11db700, 24) == {23, 22}
    ensures Nibble(0x11db7000, 20) == {16} && Nibble(0x1db70000, 16) == {12} && Nibble(0xdb700000, 12) == {11, 10, 8}
    ensures Nibble(0xb7000000, 8) == {7, 5, 4} && Nibble(0x70000000, 4) == {2, 1, 0}
  {
  }

  lemma PolyTerms()
    ensures WordPolynomial(POLY) == {26, 23, 22, 16, 12, 11, 10, 8, 7, 5, 4, 2, 1, 0}
  {
    hide Nibble, Leading;
    PolyNibbles();
    NibbleFirst(0x04c11db7, 32);
    NibbleFirst(0x4c11db70, 28);
    NibbleFirst(0xc11db700, 24);
    NibbleFirst(0x11db7000, 20);
    NibbleFirst(0x1db70000, 16);
    NibbleFirst(0xdb700000, 12);
    NibbleFirst(0xb7000000, 8);
    NibbleFirst(0x70000000, 4);
    assert Leading(0, 0) == {} by { NothingLeads(); }
    Sevenths();
  }

  lemma NothingLeads()
    ensures Leading(0, 0) == {}
  {
  }

  lemma Sevenths()
    ensures POLY << 4 == 0x4c11db70 && 0x4c11db70 as bv32 << 4 == 0xc11db700 && 0xc11db700 as bv32 << 4 == 0x11db7000
    ensures 0x11db7000 as bv32 << 4 == 0x1db70000 && 0x1db70000 as bv32 << 4 == 0xdb700000
    ensures 0xdb700000 as bv32 << 4 == 0xb7000000 && 0xb7000000 as bv32 << 4 == 0x70000000
    ensures 0x70000000 as bv32 << 4 == 0
  {
  }

  lemma PolyIsGenerator()
    ensures Add(WordPolynomial(POLY), {32}) == Generator()
  {
    hide WordPolynomial;
    PolyTerms();
  }

  /** The step multiplies by x, takes the next bit in at x^32 and subtracts the generator when that leaves a term
      in x^32. */
  lemma StepIsDivision(s: bv32, bit: bool)
    ensures var n := Add(Up(WordPolynomial(s), 1), if bit then {32} else {});
      n == Add(if Top(s) != bit then Generator() else {}, WordPolynomial(Step(s, bit)))
  {
    hide Up, Add, Top, Shift, Plus, Leading, Generator;
    var v := WordPolynomial(Shift(s));
    var top: Polynomial, low: Polynomial := if Top(s) then {32} else {}, if bit then {32} else {};
    Rotated(s);
    Rearranged(top, low, v);
    SumOfTerms(32, Top(s), bit);
    if Top(s) != bit {
      PolyIsGenerator();
      LeadingPlus(Shift(s), POLY, 32);
      Cancelled(WordPolynomial(POLY), {32}, v);
    } else {
      AddSwap(v, {}, {}, {});
      AddSwap({}, v, {}, {});
    }
  }

  lemma Rearranged(a: Polynomial, b: Polynomial, v: Polynomial)
    ensures Add(Add(a, v), b) == Add(Add(a, b), v)
  {
  }

  lemma Cancelled(g: Polynomial, x: Polynomial, v: Polynomial)
    ensures Add(Add(g, x), Add(v, g)) == Add(x, v)
  {
  }

  lemma SumOfTerms(e: nat, a: bool, b: bool)
    ensures Add(if a then {e} else {}, if b then {e} else {}) == if a != b then {e} else {}
  {
  }

  /** x times a word is the shifted word and the bit that is shifted out. */
  lemma Rotated(s: bv32)
    ensures Up(WordPolynomial(s), 1) == Add(if Top(s) then {32} else {}, WordPolynomial(Shift(s)))
  {
    hide Up, Add, Top, Shift;
    LeadingNext(s, 32);
    ShiftedOut(s);
    TopOfZero();
    AddSwap(Up(WordPolynomial(s), 1), {}, {}, {});
  }

  lemma TopOfZero()
    ensures !Top(0)
  {
  }

  // ------------------------------------------------------------ the whole CRC

  /** The dividend: the data times x^32 and the start value in front of it. */
  function Dividend(bits: seq<bool>, start: bv32): Polynomial {
    Add(Up(PolynomialOf(bits), 32), Up(WordPolynomial(start), |bits|))
  }

  lemma DividendNext(bits: seq<bool>, bit: bool, start: bv32)
    ensures Dividend(bits + [bit], start) == Add(Up(Dividend(bits, start), 1), if bit then {32} else {})
  {
    hide Up, Add, WordPolynomial;
    var p, w := PolynomialOf(bits), WordPolynomial(start);
    var low: Polynomial, term: Polynomial := if bit then {0} else {}, if bit then {32} else {};
    assert (bits + [bit])[..|bits|] == bits;
    UpNone(32);
    UpAdd(Up(p, 1), low, 32);
    UpUp(p, 1, 32);
    UpUp(p, 32, 1);
    UpUp(w, |bits|, 1);
    UpAdd(Up(p, 32), Up(w, |bits|), 1);
    AddSwap(Up(p, 33), term, Up(w, |bits| + 1), {});
    AddSwap(Up(p, 33), Up(w, |bits| + 1), term, {});
    AddSwap(term, Up(w, |bits| + 1), {}, {});
  }

  lemma TimesNext(q: seq<bool>, bit: bool, g: Polynomial)
    ensures Times(q + [bit], g) == Add(Up(Times(q, g), 1), if bit then g else {})
  {
    assert (q + [bit])[..|q|] == q;
  }

  /** Feeding bits is long division: `q` is the quotient. */
  lemma {:induction false} FoldIsDivision(start: bv32, bits: seq<bool>) returns (q: seq<bool>)
    ensures |q| == |bits|
    ensures Dividend(bits, start) == Add(Times(q, Generator()), WordPolynomial(Fold(start, bits)))
    decreases |bits|
  {
    hide Up, Add, Step, Fold, WordPolynomial, Times, PolynomialOf;
    if |bits| == 0 {
      q := [];
      assert bits == [];
      EmptyDividend(start);
    } else {
      var front, bit := bits[..|bits| - 1], bits[|bits| - 1];
      assert bits == front + [bit];
      var before := FoldIsDivision(start, front);
      var s, g := Fold(start, front), Generator();
      q := before + [Top(s) != bit];
      FoldPush(start, front, bit);
      TimesNext(before, Top(s) != bit, g);
      DividendNext(front, bit, start);
      StepIsDivision(s, bit);
      DivisionStep(Times(before, g), WordPolynomial(s), if Top(s) != bit then g else {}, if bit then {32} else {},
                   WordPolynomial(Step(s, bit)));
    }
  }

  lemma EmptyDividend(start: bv32)
    ensures Dividend([], start) == Add(Times([], Generator()), WordPolynomial(Fold(start, [])))
  {
    hide WordPolynomial, Add;
    var w := WordPolynomial(start);
    UpNone(32);
    UpZero(w);
  }

  lemma UpZero(a: Polynomial)
    ensures Up(a, 0) == a
  {
  }

  lemma DivisionStep(t: Polynomial, w: Polynomial, g: Polynomial, bit: Polynomial, r: Polynomial)
    requires Add(Up(w, 1), bit) == Add(g, r)
    ensures Add(Up(Add(t, w), 1), bit) == Add(Add(Up(t, 1), g), r)
  {
    hide Up, Add;
    UpAdd(t, w, 1);
    AddSwap(Up(t, 1), Up(w, 1), bit, {});
    AddSwap(Up(t, 1), g, r, {});
  }

  /** The CRC of a byte string is the remainder of the string, times x^32 and with the start value added in front,
      by the generator. */
  lemma CrcIsRemainder(start: bv32, data: seq<Byte>)
    ensures IsRemainder(Dividend(ByteBits(data), start), WordPolynomial(Update(start, data)))
  {
    hide Fold, Dividend, Times, Add, Generator, Leading;
    LeadingBelow(Update(start, data), 32);
    var q := FoldIsDivision(start, ByteBits(data));
  }

  // ------------------------------------------------------------ there is only one remainder

  /** A multiple of the generator is nothing or reaches x^32. */
  lemma {:induction false} MultipleIsHigh(q: seq<bool>)
    ensures Times(q, Generator()) == {} || exists e :: e in Times(q, Generator()) && e >= 32
  {
    hide Up;
    if |q| > 0 {
      var front := Times(q[..|q| - 1], Generator());
      MultipleIsHigh(q[..|q| - 1]);
      if front == {} {
        UpNothing();
        assert 32 in Generator();
      } else {
        var e :| e in front && e >= 32;
        UpHas(front, 1, e + 1);
      }
    }
  }

  function Differences(a: seq<bool>, b: seq<bool>): (d: seq<bool>)
    requires |a| == |b|
    ensures |d| == |a|
  {
    seq(|a|, i requires 0 <= i < |a| => a[i] != b[i])
  }

  lemma {:induction false} TimesAdd(a: seq<bool>, b: seq<bool>, g: Polynomial)
    requires |a| == |b|
    ensures Add(Times(a, g), Times(b, g)) == Times(Differences(a, b), g)
  {
    hide Up, Add;
    if |a| == 0 {
      AddSwap({}, {}, {}, {});
    } else {
      var n := |a| - 1;
      var p: Polynomial, q: Polynomial := if a[n] then g else {}, if b[n] then g else {};
      TimesAdd(a[..n], b[..n], g);
      assert Differences(a, b)[..n] == Differences(a[..n], b[..n]);
      UpAdd(Times(a[..n], g), Times(b[..n], g), 1);
      AddSwap(Up(Times(a[..n], g), 1), p, Up(Times(b[..n], g), 1), q);
      AddSwap(g, {}, {}, {});
      AddSwap({}, g, {}, {});
      AddSwap({}, {}, {}, {});
    }
  }

  /** Leading zeros of a quotient do not matter. */
  lemma {:induction false} TimesPadded(q: seq<bool>, g: Polynomial)
    ensures Times([false] + q, g) == Times(q, g)
  {
    hide Up, Add;
    if |q| == 0 {
      UpNothing();
      AddSwap({}, {}, {}, {});
      assert ([false] + q)[..0] == [];
    } else {
      TimesPadded(q[..|q| - 1], g);
      assert ([false] + q)[..|q|] == [false] + q[..|q| - 1];
    }
  }

  lemma {:induction false} PadTo(q: seq<bool>, n: nat, g: Polynomial) returns (r: seq<bool>)
    requires n >= |q|
    ensures |r| == n && Times(r, g) == Times(q, g)
    decreases n - |q|
  {
    hide Times;
    r := q;
    if |q| < n {
      TimesPadded(q, g);
      r := PadTo([false] + q, n, g);
    }
  }

  lemma RemainderUnique(n: Polynomial, r: Polynomial, s: Polynomial)
    requires IsRemainder(n, r) && IsRemainder(n, s)
    ensures r == s
  {
    hide Times;
    var g := Generator();
    var p: seq<bool> :| n == Add(Times(p, g), r);
    var q: seq<bool> :| n == Add(Times(q, g), s);
    var length := if |p| > |q| then |p| else |q|;
    var a := PadTo(p, length, g);
    var b := PadTo(q, length, g);
    TimesAdd(a, b, g);
    MultipleIsHigh(Differences(a, b));
    SameSum(Times(a, g), r, Times(b, g), s);
  }

  lemma SameSum(a: Polynomial, r: Polynomial, b: Polynomial, s: Polynomial)
    requires Add(a, r) == Add(b, s)
    ensures Add(a, b) == Add(r, s) && (Add(r, s) == {} ==> r == s)
  {
    assert forall e :: (e in a <==> e in r) <==> (e in b <==> e in s) by {
      forall e ensures (e in a <==> e in r) <==> (e in b <==> e in s) {
        assert e in Add(a, r) <==> e in Add(b, s);
      }
    }
    if Add(r, s) == {} {
      assert r - s == {} && s - r == {};
    }
  }
}
