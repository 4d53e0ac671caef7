/** Fixed-width words as bit sequences, most significant bit first.

    The encoder works on C words with shifts, `|` and masks.  Shifts are defined by doubling and
    halving, `x & ((1 << n) - 1)` by keeping the `n` low binary digits (two's complement for
    negative `x`, as halving rounds down), and `|` digit by digit. */
module Bits {

  type Byte = x: nat | x < 256

  function Pow2(n: nat): (p: nat)
    ensures p >= 1
  {
    if n == 0 then 1 else 2 * Pow2(n - 1)
  }

  /** `v << n` without a word-size limit. */
  function Shl(v: nat, n: nat): nat {
    if n == 0 then v else 2 * Shl(v, n - 1)
  }

  /** `v >> n` */
  function Shr(v: int, n: nat): int
    decreases n, v
  {
    if n == 0 then v else Shr(v / 2, n - 1)
  }

  /** `v & ((1 << n) - 1)` */
  function Low(v: int, n: nat): nat
    decreases n, v
  {
    if n == 0 then 0 else 2 * Low(v / 2, n - 1) + v % 2
  }

  /** C's `|` on non-negative words. */
  function Or(a: nat, b: nat): nat {
    if a == 0 && b == 0 then 0
    else 2 * Or(a / 2, b / 2) + (if a % 2 == 1 || b % 2 == 1 then 1 else 0)
  }

  /** The `n` low bits of `v`, most significant first. */
  function BitsOf(v: int, n: nat): (s: seq<bool>)
    ensures |s| == n
    decreases n, v
  {
    if n == 0 then [] else BitsOf(v / 2, n - 1) + [v % 2 == 1]
  }

  /** The number whose binary digits are `s`. */
  function ValueOf(s: seq<bool>): nat {
    if |s| == 0 then 0 else 2 * ValueOf(s[..|s| - 1]) + (if s[|s| - 1] then 1 else 0)
  }

  lemma {:induction false} ShlAdd(v: nat, m: nat, n: nat)
    ensures Shl(Shl(v, m), n) == Shl(v, m + n)
  {
    if n > 0 {
      ShlAdd(v, m, n - 1);
    }
  }

  lemma {:induction false} ShlOne(n: nat)
    ensures Shl(1, n) == Pow2(n) && Shl(0, n) == 0
  {
    if n > 0 {
      ShlOne(n - 1);
    }
  }

  lemma {:induction false} ShlSum(a: nat, b: nat, n: nat)
    ensures Shl(a + b, n) == Shl(a, n) + Shl(b, n)
  {
    if n > 0 {
      ShlSum(a, b, n - 1);
    }
  }

  lemma {:induction false} ShlMonotone(a: nat, b: nat, n: nat)
    ensures a < b <==> Shl(a, n) < Shl(b, n)
    ensures a < b <==> Shl(a, n) + Pow2(n) <= Shl(b, n)
  {
    if n > 0 {
      ShlMonotone(a, b, n - 1);
    }
  }

  lemma {:induction false} ShrNat(v: nat, n: nat)
    ensures Shr(v, n) >= 0
  {
    if n > 0 {
      ShrNat(v / 2, n - 1);
    }
  }

  lemma {:induction false} ShrMonotone(a: int, b: int, n: nat)
    requires a <= b
    ensures Shr(a, n) <= Shr(b, n)
    decreases n
  {
    if n > 0 {
      ShrMonotone(a / 2, b / 2, n - 1);
    }
  }

  lemma {:induction false} ShrAdd(v: int, m: nat, n: nat)
    ensures Shr(Shr(v, m), n) == Shr(v, m + n)
    decreases m
  {
    if m > 0 {
      ShrAdd(v / 2, m - 1, n);
    }
  }

  lemma {:induction false} ShrShl(v: nat, lo: nat, n: nat)
    requires lo < Pow2(n)
    ensures Shr(Shl(v, n) + lo, n) == v
  {
    if n > 0 {
      ShrShl(v, lo / 2, n - 1);
    }
  }

  lemma {:induction false} LowBound(v: int, n: nat)
    ensures Low(v, n) < Pow2(n)
    decreases n
  {
    if n > 0 {
      LowBound(v / 2, n - 1);
    }
  }

  /** A word is its high part shifted up plus its low part. */
  lemma {:induction false} SplitWord(v: nat, n: nat)
    ensures Shr(v, n) >= 0 && v == Shl(Shr(v, n), n) + Low(v, n)
  {
    if n > 0 {
      SplitWord(v / 2, n - 1);
    }
  }

  lemma {:induction false} ShrFits(v: nat, n: nat, k: nat)
    requires k <= n && v < Pow2(n)
    ensures 0 <= Shr(v, n - k) < Pow2(k)
  {
    if k < n {
      ShrFits(v / 2, n - 1, k);
    }
  }

  lemma Pow2Sixteen()
    ensures Pow2(15) == 32768 && Pow2(16) == 65536
  {
    assert Pow2(15) == 32768;
  }

  lemma {:induction false} Pow2Monotone(m: nat, n: nat)
    requires m <= n
    ensures Pow2(m) <= Pow2(n)
  {
    if m < n {
      Pow2Monotone(m, n - 1);
    }
  }

  lemma {:induction false} ValueBound(s: seq<bool>)
    ensures ValueOf(s) < Pow2(|s|)
  {
    if |s| > 0 {
      ValueBound(s[..|s| - 1]);
    }
  }

  /** Reading back an `n`-bit field gives its `n` low bits. */
  lemma {:induction false} ValueOfBits(v: int, n: nat)
    ensures ValueOf(BitsOf(v, n)) == Low(v, n)
    decreases n
  {
    if n > 0 {
      ValueOfBits(v / 2, n - 1);
      assert BitsOf(v, n)[..n - 1] == BitsOf(v / 2, n - 1);
    }
  }

  lemma {:induction false} LowFits(v: nat, n: nat)
    requires v < Pow2(n)
    ensures Low(v, n) == v
  {
    if n > 0 {
      LowFits(v / 2, n - 1);
    }
  }

  lemma {:induction false} BitsOfValue(s: seq<bool>)
    ensures BitsOf(ValueOf(s), |s|) == s
  {
    if |s| > 0 {
      BitsOfValue(s[..|s| - 1]);
    }
  }

  lemma {:induction false} BitsOfLow(v: int, n: nat)
    ensures BitsOf(Low(v, n), n) == BitsOf(v, n)
    decreases n
  {
    if n > 0 {
      BitsOfLow(v / 2, n - 1);
    }
  }

  /** A word split into a high and a low field. */
  lemma {:induction false} BitsOfSplit(hi: nat, lo: nat, m: nat, n: nat)
    requires lo < Pow2(n)
    ensures BitsOf(Shl(hi, n) + lo, m + n) == BitsOf(hi, m) + BitsOf(lo, n)
  {
    if n > 0 {
      BitsOfSplit(hi, lo / 2, m, n - 1);
      assert (Shl(hi, n) + lo) / 2 == Shl(hi, n - 1) + lo / 2;
    } else {
      assert BitsOf(lo, 0) == [];
    }
  }

  /** The leading bits of a word. */
  lemma {:induction false} BitsOfPrefix(v: int, n: nat, k: nat)
    requires k <= n
    ensures BitsOf(v, n)[..k] == BitsOf(Shr(v, n - k), k)
    decreases n
  {
    if k < n {
      BitsOfPrefix(v / 2, n - 1, k);
      assert BitsOf(v, n)[..k] == BitsOf(v / 2, n - 1)[..k];
    }
  }

  /** Joining disjoint fields with `|` adds them. */
  lemma {:induction false} OrDisjoint(hi: nat, lo: nat, n: nat)
    requires lo < Pow2(n)
    ensures Or(Shl(hi, n), lo) == Shl(hi, n) + lo
  {
    if n == 0 {
      OrZero(hi);
    } else {
      OrDisjoint(hi, lo / 2, n - 1);
    }
  }

  lemma {:induction false} OrZero(a: nat)
    ensures Or(a, 0) == a
  {
    if a > 0 {
      OrZero(a / 2);
    }
  }

  /** The bits of a byte string. */
  function ByteBits(s: seq<Byte>): (b: seq<bool>)
    ensures |b| == 8 * |s|
  {
    if |s| == 0 then [] else ByteBits(s[..|s| - 1]) + BitsOf(s[|s| - 1], 8)
  }

  lemma {:induction false} ByteBitsJoin(a: seq<Byte>, b: seq<Byte>)
    ensures ByteBits(a + b) == ByteBits(a) + ByteBits(b)
  {
    if |b| == 0 {
      assert a + b == a;
    } else {
      ByteBitsJoin(a, b[..|b| - 1]);
      assert (a + b)[..|a + b| - 1] == a + b[..|b| - 1];
    }
  }

  lemma ByteInjective(a: Byte, b: Byte)
    requires BitsOf(a, 8) == BitsOf(b, 8)
    ensures a == b
  {
    assert Pow2(8) == 256;
    ValueOfBits(a, 8);
    ValueOfBits(b, 8);
    LowFits(a, 8);
    LowFits(b, 8);
  }

  lemma {:induction false} ByteBitsInjective(a: seq<Byte>, b: seq<Byte>)
    requires |a| == |b| && ByteBits(a) == ByteBits(b)
    ensures a == b
  {
    if |a| > 0 {
      hide BitsOf;
      var m := 8 * (|a| - 1);
      assert ByteBits(a)[..m] == ByteBits(a[..|a| - 1]) && ByteBits(a)[m..] == BitsOf(a[|a| - 1], 8);
      assert ByteBits(b)[..m] == ByteBits(b[..|b| - 1]) && ByteBits(b)[m..] == BitsOf(b[|b| - 1], 8);
      ByteBitsInjective(a[..|a| - 1], b[..|b| - 1]);
      ByteInjective(a[|a| - 1], b[|b| - 1]);
    }
  }

  lemma {:induction false} BitAt(v: int, n: nat, i: nat)
    requires i < n
    ensures BitsOf(v, n)[i] == (Shr(v, n - 1 - i) % 2 == 1)
    decreases n
  {
    if i < n - 1 {
      BitAt(v / 2, n - 1, i);
    }
  }

  /** The bits of a byte are the answers to `byte & mask`. */
  lemma BitsOfByte(b: Byte, i: nat)
    requires i < 8
    ensures BitsOf(b, 8)[i] == (Shr(b, 7 - i) % 2 == 1)
  {
    BitAt(b, 8, i);
  }
}
