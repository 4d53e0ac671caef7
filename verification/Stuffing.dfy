/** Bits, bytes and byte stuffing of entropy-coded data (ITU-T T.81, sections B.1.1.5 and F.1.2.3). */
module Stuffing {
  import opened Bits

  /** The complete bytes at the front of a bit string. */
  function Pack(b: seq<bool>): (s: seq<Byte>)
    ensures |s| == |b| / 8
  {
    seq(|b| / 8, i requires 0 <= i < |b| / 8 => PackByte(b[8 * i..8 * i + 8]))
  }

  function PackByte(b: seq<bool>): Byte
    requires |b| == 8
  {
    ValueBound(b);
    assert Pow2(8) == 256;
    ValueOf(b)
  }

  function StuffByte(b: Byte): seq<Byte> {
    if b == 0xFF then [0xFF, 0] else [b]
  }

  /** A zero byte after every 0xFF. */
  function Stuff(s: seq<Byte>): seq<Byte> {
    if |s| == 0 then [] else Stuff(s[..|s| - 1]) + StuffByte(s[|s| - 1])
  }

  /** What a decoder reads: bytes up to the next marker, stuffed zeros dropped, and what follows. */
  function Unstuff(s: seq<Byte>): (r: (seq<Byte>, seq<Byte>)) {
    if |s| == 0 then ([], [])
    else if s[0] != 0xFF then
      var (data, rest) := Unstuff(s[1..]);
      ([s[0]] + data, rest)
    else if |s| >= 2 && s[1] == 0 then
      var (data, rest) := Unstuff(s[2..]);
      ([0xFF] + data, rest)
    else ([], s)
  }

  lemma {:induction false} StuffAppend(a: seq<Byte>, b: seq<Byte>)
    ensures Stuff(a + b) == Stuff(a) + Stuff(b)
  {
    hide StuffByte;
    if |b| == 0 {
      assert a + b == a;
    } else {
      var front := b[..|b| - 1];
      StuffAppend(a, front);
      assert (a + b)[..|a + b| - 1] == a + front;
    }
  }

  lemma StuffOne(b: Byte)
    ensures Stuff([b]) == StuffByte(b)
  {
    assert [b][..0] == [];
  }

  /** A decoder that stops at the first marker reads back exactly the bytes that were stuffed. */
  lemma {:induction false} UnstuffUndoesStuff(s: seq<Byte>, tail: seq<Byte>)
    requires |tail| >= 2 && tail[0] == 0xFF && tail[1] != 0
    ensures Unstuff(Stuff(s) + tail) == (s, tail)
  {
    hide Stuff, Unstuff, StuffByte;
    if |s| == 0 {
      assert s == [];
      UnstuffMarker(tail);
    } else {
      UnstuffUndoesStuff(s[1..], tail);
      StuffFirst(s);
      UnstuffStep(s[0], Stuff(s[1..]) + tail);
      assert StuffByte(s[0]) + Stuff(s[1..]) + tail == StuffByte(s[0]) + (Stuff(s[1..]) + tail);
      assert [s[0]] + s[1..] == s;
    }
  }

  lemma UnstuffMarker(tail: seq<Byte>)
    requires |tail| >= 2 && tail[0] == 0xFF && tail[1] != 0
    ensures Unstuff(Stuff([]) + tail) == ([], tail)
  {
    assert Stuff([]) + tail == tail;
  }

  lemma StuffFirst(s: seq<Byte>)
    requires |s| > 0
    ensures Stuff(s) == StuffByte(s[0]) + Stuff(s[1..])
  {
    hide Stuff, StuffByte;
    StuffAppend([s[0]], s[1..]);
    StuffOne(s[0]);
    assert [s[0]] + s[1..] == s;
  }

  lemma UnstuffStep(b: Byte, rest: seq<Byte>)
    ensures Unstuff(StuffByte(b) + rest) == ([b] + Unstuff(rest).0, Unstuff(rest).1)
  {
    assert (StuffByte(b) + rest)[|StuffByte(b)|..] == rest;
  }

  /** In stuffed data every 0xFF is followed by a zero: it never looks like a marker. */
  lemma {:induction false} NoMarkerInside(s: seq<Byte>, i: nat)
    requires i < |Stuff(s)| && Stuff(s)[i] == 0xFF
    ensures i + 1 < |Stuff(s)| && Stuff(s)[i + 1] == 0
  {
    var front := Stuff(s[..|s| - 1]);
    if i < |front| {
      NoMarkerInside(s[..|s| - 1], i);
    }
  }

  lemma {:induction false} ByteBitsAt(s: seq<Byte>, k: nat)
    requires k < |s|
    ensures ByteBits(s)[8 * k..8 * k + 8] == BitsOf(s[k], 8)
  {
    if k < |s| - 1 {
      ByteBitsAt(s[..|s| - 1], k);
      assert ByteBits(s)[8 * k..8 * k + 8] == ByteBits(s[..|s| - 1])[8 * k..8 * k + 8];
    }
  }

  /** Packing loses only the incomplete byte at the end. */
  lemma PackKeepsBits(b: seq<bool>)
    ensures ByteBits(Pack(b)) == b[..8 * (|b| / 8)]
  {
    PackWhole(b);
    PackKeepsFront(b, |b| / 8);
  }

  lemma {:induction false} PackKeepsFront(b: seq<bool>, n: nat)
    requires 8 * n <= |b|
    ensures ByteBits(Pack(b[..8 * n])) == b[..8 * n]
  {
    hide Pack, ByteBits, PackByte;
    if n > 0 {
      var front, last := b[..8 * (n - 1)], b[8 * (n - 1)..8 * n];
      PackKeepsFront(b, n - 1);
      PackStep(b, n - 1);
      ByteBitsAppend(Pack(front), last);
      assert b[..8 * n] == front + last;
    } else {
      assert b[..8 * n] == [];
      PackNothing();
    }
  }

  lemma PackNothing()
    ensures ByteBits(Pack([])) == [] && Stuff(Pack([])) == []
  {
  }

  lemma ByteBitsAppend(s: seq<Byte>, b: seq<bool>)
    requires |b| == 8
    ensures ByteBits(s + [PackByte(b)]) == ByteBits(s) + b
  {
    assert (s + [PackByte(b)])[..|s|] == s;
    BitsOfValue(b);
  }

  lemma PackPrefix(a: seq<bool>, b: seq<bool>)
    requires a <= b
    ensures Pack(a) <= Pack(b)
  {
    assert |a| / 8 <= |b| / 8;
    forall i | 0 <= i < |a| / 8 ensures Pack(a)[i] == Pack(b)[i] {
      assert a[8 * i..8 * i + 8] == b[8 * i..8 * i + 8];
    }
  }

  /** The bits that do not fill a byte yet. */
  function Pending(b: seq<bool>): seq<bool> {
    b[8 * (|b| / 8)..]
  }

  /** One complete byte more. */
  lemma PackStep(b: seq<bool>, n: nat)
    requires 8 * n + 8 <= |b|
    ensures Pack(b[..8 * n + 8]) == Pack(b[..8 * n]) + [PackByte(b[8 * n..8 * n + 8])]
  {
    PackPrefix(b[..8 * n], b[..8 * n + 8]);
    assert b[..8 * n + 8][8 * n..8 * n + 8] == b[8 * n..8 * n + 8];
  }

  lemma PackWhole(b: seq<bool>)
    ensures Pack(b) == Pack(b[..8 * (|b| / 8)])
  {
    PackPrefix(b[..8 * (|b| / 8)], b);
  }

  // ------------------------------------------------------------ the 24-bit register

  /** The register holds `n` bits of value `v` below bit 24, over whatever is left of earlier bytes. */
  predicate Holds(buffer: nat, v: nat, n: nat) {
    n <= 24 && v < Pow2(n) && buffer == Shl(Shr24(buffer), 24) + Shl(v, 24 - n)
  }

  function Shr24(buffer: nat): nat {
    ShrNat(buffer, 24);
    Shr(buffer, 24)
  }

  lemma HoldsIntro(buffer: nat, g: nat, v: nat, n: nat)
    requires n <= 24 && v < Pow2(n) && buffer == Shl(g, 24) + Shl(v, 24 - n)
    ensures Holds(buffer, v, n)
  {
    ShlBelow(v, n, 24 - n);
    ShrShl(g, Shl(v, 24 - n), 24);
  }

  lemma ShlBelow(v: nat, n: nat, k: nat)
    requires v < Pow2(n)
    ensures Shl(v, k) < Pow2(n + k)
  {
    ShlMonotone(v, Pow2(n), k);
    ShlOne(n);
    ShlAdd(1, n, k);
    ShlOne(n + k);
  }

  /** `m_bit_buffer |= bits << (24 - (m_bits_in += len))` */
  lemma PutIntoRegister(buffer: nat, v: nat, n: nat, bits: nat, len: nat)
    requires Holds(buffer, v, n) && n + len <= 24 && bits < Pow2(len)
    ensures Holds(Or(buffer, Shl(bits, 24 - n - len)), Shl(v, len) + bits, n + len)
  {
    hide Shl, Pow2, Or;
    var g, k := Shr24(buffer), 24 - n - len;
    ShlBelow(bits, len, k);
    ShlAdd(g, n, 24 - n);
    ShlSum(Shl(g, n), v, 24 - n);
    OrDisjoint(Shl(g, n) + v, Shl(bits, k), 24 - n);
    ShlAdd(v, len, k);
    ShlSum(Shl(v, len), bits, k);
    ShlMonotone(v, Pow2(n), len);
    ShlOne(n);
    ShlAdd(1, n, len);
    ShlOne(n + len);
    HoldsIntro(Or(buffer, Shl(bits, k)), g, Shl(v, len) + bits, n + len);
  }

  /** `(m_bit_buffer >> 16) & 0xFF` and then `m_bit_buffer <<= 8` in 32 bits. */
  lemma TakeFromRegister(buffer: nat, hi: nat, lo: nat, n: nat)
    requires 8 <= n <= 24 && hi < 256 && lo < Pow2(n - 8)
    requires Holds(buffer, Shl(hi, n - 8) + lo, n)
    ensures Low(Shr(buffer, 16), 8) == hi
    ensures Holds(Low(Shl(buffer, 8), 32), lo, n - 8)
  {
    hide Shl, Shr, Low, Pow2;
    var g := Shr24(buffer);
    ShlSum(Shl(hi, n - 8), lo, 24 - n);
    ShlAdd(hi, n - 8, 24 - n);
    ShlBelow(lo, n - 8, 24 - n);
    ShlAdd(g, 8, 16);
    ShlSum(Shl(g, 8), hi, 16);
    assert buffer == Shl(Shl(g, 8) + hi, 16) + Shl(lo, 24 - n);
    ShrShl(Shl(g, 8) + hi, Shl(lo, 24 - n), 16);
    PowEight();
    LowOfJoined(g, hi, 8);
    ShlSum(Shl(Shl(g, 8) + hi, 16), Shl(lo, 24 - n), 8);
    ShlAdd(Shl(g, 8) + hi, 16, 8);
    ShlAdd(lo, 24 - n, 8);
    ShlSum(Shl(g, 8), hi, 24);
    ShlAdd(g, 8, 24);
    var rest := Shl(hi, 24) + Shl(lo, 32 - n);
    assert Shl(buffer, 8) == Shl(g, 32) + rest;
    ShlBelow(lo, n - 8, 32 - n);
    RestFits(hi, Shl(lo, 32 - n));
    LowOfJoined(g, rest, 32);
    HoldsIntro(rest, hi, lo, n - 8);
  }

  lemma PowEight()
    ensures Pow2(8) == 256
  {
  }

  lemma RestFits(hi: nat, l: nat)
    requires hi < 256 && l < Pow2(24)
    ensures Shl(hi, 24) + l < Pow2(32)
  {
    assert Pow2(8) == 256;
    ShlMonotone(hi, Pow2(8), 24);
    ShlOne(8);
    ShlAdd(1, 8, 24);
    ShlOne(32);
  }

  lemma {:induction false} LowOfJoined(g: nat, lo: nat, n: nat)
    requires lo < Pow2(n)
    ensures Low(Shl(g, n) + lo, n) == lo
  {
    if n > 0 {
      LowOfJoined(g, lo / 2, n - 1);
      assert (Shl(g, n) + lo) / 2 == Shl(g, n - 1) + lo / 2;
    }
  }

  lemma {:induction false} ValueAppend(a: seq<bool>, b: seq<bool>)
    ensures ValueOf(a + b) == Shl(ValueOf(a), |b|) + ValueOf(b)
  {
    if |b| == 0 {
      assert a + b == a;
    } else {
      var front := b[..|b| - 1];
      ValueAppend(a, front);
      assert (a + b)[..|a + b| - 1] == a + front;
    }
  }

  lemma NothingPending()
    ensures Holds(0, ValueOf(Pending([])), 0) && Stuff(Pack([])) == []
  {
    hide *;
    EmptyRegister(0, 0, 24);
    PackNothing();
    PendingNothing();
  }

  lemma PendingNothing()
    ensures ValueOf(Pending([])) == 0
  {
  }

  lemma EmptyRegister(zero: nat, n: nat, width: nat)
    requires zero == 0 && n == 0 && width == 24
    ensures Holds(zero, zero, n)
  {
    hide Holds, Shl, Pow2;
    ShlOne(width);
    HoldsIntro(zero, zero, zero, n);
  }

  /** The bits of `put_bits` join the pending ones. */
  lemma PendingGrows(was: seq<bool>, v: nat, len: nat)
    requires v < Pow2(len)
    ensures var now, n := was + BitsOf(v, len), |was| / 8;
      && ValueOf(now[8 * n..]) == Shl(ValueOf(Pending(was)), len) + v
      && Pack(now[..8 * n]) == Pack(was)
  {
    hide Pack, ValueOf, BitsOf, Shl, Low, Pow2;
    var now, n := was + BitsOf(v, len), |was| / 8;
    assert now[8 * n..] == Pending(was) + BitsOf(v, len);
    ValueAppend(Pending(was), BitsOf(v, len));
    ValueOfBits(v, len);
    LowFits(v, len);
    PackWhole(was);
    assert now[..8 * n] == was[..8 * n];
  }

  /** One turn of the loop of `put_bits`. */
  lemma TakeByte(buffer: nat, bits: seq<bool>, n: nat)
    requires 8 <= |bits| - 8 * n <= 24
    requires Holds(buffer, ValueOf(bits[8 * n..]), |bits| - 8 * n)
    ensures Low(Shr(buffer, 16), 8) == PackByte(bits[8 * n..8 * n + 8])
    ensures Holds(Low(Shl(buffer, 8), 32), ValueOf(bits[8 * n + 8..]), |bits| - 8 * n - 8)
    ensures Stuff(Pack(bits[..8 * n + 8]))
         == Stuff(Pack(bits[..8 * n])) + StuffByte(PackByte(bits[8 * n..8 * n + 8]))
  {
    hide Holds, Stuff, StuffByte;
    var first, rest := bits[8 * n..8 * n + 8], bits[8 * n + 8..];
    assert bits[8 * n..] == first + rest;
    ValueAppend(first, rest);
    ValueBound(rest);
    TakeFromRegister(buffer, PackByte(first), ValueOf(rest), |bits| - 8 * n);
    PackStep(bits, n);
    StuffAppend(Pack(bits[..8 * n]), [PackByte(first)]);
    StuffOne(PackByte(first));
  }
}
