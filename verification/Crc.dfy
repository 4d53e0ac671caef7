/** The firmware CRC: `crc8266` and `add_crc` of elf2bin.py, and the check the device runs. */
module Crc {
  import opened Basics
  import opened Bits

  const POLY: bv32 := 0x04c11db7

  function Top(s: bv32): bool {
    s & 0x80000000 != 0
  }

  function Shift(s: bv32): bv32 {
    s << 1
  }

  /** Addition over GF(2). */
  function Plus(a: bv32, b: bv32): bv32 {
    a ^ b
  }

  /** One turn of the inner loop: shift, and add the polynomial when the outgoing bit and the input differ. */
  function Step(s: bv32, bit: bool): bv32 {
    if Top(s) != bit then Plus(Shift(s), POLY) else Shift(s)
  }

  function Fold(s: bv32, bits: seq<bool>): bv32
    decreases |bits|
  {
    if |bits| == 0 then s else Fold(Step(s, bits[0]), bits[1..])
  }

  /** `[0x80, 0x40, ..., 0x01]` */
  function Masks(): (m: seq<nat>)
    ensures |m| == 8
  {
    [0x80, 0x40, 0x20, 0x10, 0x08, 0x04, 0x02, 0x01]
  }

  /** `byte & mask != 0` for a mask of one bit. */
  predicate HasBit(byte: Byte, mask: nat) {
    mask > 0 && byte / mask % 2 == 1
  }

  lemma MasksAreBits(byte: Byte, i: nat)
    requires i < 8
    ensures HasBit(byte, Masks()[i]) == BitsOf(byte, 8)[i]
  {
    BitsOfByte(byte, i);
    Halves(byte, 7 - i);
  }

  lemma Halves(b: Byte, k: nat)
    requires k < 8
    ensures Shr(b, k) == b / Masks()[7 - k]
  {
    ShrTwo(b);
    ShrAdd(b, 2, 1);
    ShrAdd(b, 2, 2);
    ShrTwo(b / 4);
    ShrAdd(b, 4, 1);
    ShrAdd(b, 4, 2);
    ShrTwo(b / 16);
    ShrAdd(b, 6, 1);
    ShrTwo(b / 64);
  }

  lemma ShrTwo(v: nat)
    ensures Shr(v, 0) == v && Shr(v, 1) == v / 2 && Shr(v, 2) == v / 4
  {
    ShrAdd(v, 1, 1);
    assert Shr(v, 1) == v / 2 && Shr(v / 2, 1) == v / 2 / 2;
  }

  /** The CRC of a byte string from a given start. */
  function Update(crc: bv32, data: seq<Byte>): bv32 {
    Fold(crc, ByteBits(data))
  }

  lemma {:induction false} FoldJoin(s: bv32, a: seq<bool>, b: seq<bool>)
    ensures Fold(s, a + b) == Fold(Fold(s, a), b)
    decreases |a|
  {
    if |a| == 0 {
      assert a + b == b;
    } else {
      FoldJoin(Step(s, a[0]), a[1..], b);
      assert (a + b)[1..] == a[1..] + b;
    }
  }

  lemma FoldPush(s: bv32, a: seq<bool>, bit: bool)
    ensures Fold(s, a + [bit]) == Step(Fold(s, a), bit)
  {
    FoldJoin(s, a, [bit]);
    assert [bit][1..] == [];
  }

  /** Feeding data in pieces is feeding it at once. */
  lemma UpdateJoin(crc: bv32, a: seq<Byte>, b: seq<Byte>)
    ensures Update(crc, a + b) == Update(Update(crc, a), b)
  {
    ByteBitsJoin(a, b);
    FoldJoin(crc, ByteBits(a), ByteBits(b));
  }

  /** The body of the inner loop. */
  method FeedBit(crc: bv32, one: bool) returns (next: bv32)
    ensures next == Step(crc, one)
  {
    var bit := crc & 0x80000000;
    if one {
      if bit == 0 {
        bit := 1;
      } else {
        bit := 0;
      }
    }
    next := crc << 1;
    if bit != 0 {
      next := next ^ 0x04c11db7;
    }
  }

  /** The loop over the bits of a byte. */
  method FeedByte(crc: bv32, byte: Byte) returns (next: bv32)
    ensures next == Fold(crc, BitsOf(byte, 8))
  {
    hide Fold, Step, HasBit, BitsOf;
    ghost var bits := BitsOf(byte, 8);
    next := crc;
    NothingFed(crc);
    for i := 0 to 8
      invariant next == Fold(crc, bits[..i])
    {
      MasksAreBits(byte, i);
      FoldPush(crc, bits[..i], bits[i]);
      assert bits[..i + 1] == bits[..i] + [bits[i]];
      next := FeedBit(next, HasBit(byte, Masks()[i]));
    }
    assert bits[..8] == bits;
  }

  lemma NothingFed(crc: bv32)
    ensures Fold(crc, []) == crc && ByteBits([]) == []
  {
  }

  /** `crc8266`; with another start value `crc_update` of the boot loader and `crc32` of the core. */
  method Crc(ldata: seq<Byte>, start: bv32) returns (crc: bv32)
    ensures crc == Update(start, ldata)
  {
    hide Fold, ByteBits, BitsOf;
    crc := start;
    NothingFed(start);
    var idx := 0;
    while idx < |ldata|
      invariant 0 <= idx <= |ldata| && crc == Update(start, ldata[..idx])
    {
      assert ldata[..idx + 1] == ldata[..idx] + [ldata[idx]];
      UpdateJoin(start, ldata[..idx], [ldata[idx]]);
      OneByte(ldata[idx]);
      crc := FeedByte(crc, ldata[idx]);
      idx := idx + 1;
    }
    assert ldata[..idx] == ldata;
  }

  lemma OneByte(b: Byte)
    ensures ByteBits([b]) == BitsOf(b, 8)
  {
    assert [b][..0] == [];
  }

  // ------------------------------------------------------------ bursts

  // Facts about single words.

  lemma ShiftPlus(s: bv32, v: bv32)
    ensures Shift(Plus(s, v)) == Plus(Shift(s), Shift(v))
  {
  }

  lemma TopPlus(s: bv32, v: bv32)
    ensures Top(Plus(s, v)) == (Top(s) != Top(v))
  {
  }

  lemma XorSwap(a: bv32, b: bv32, c: bv32)
    ensures (a ^ b) ^ c == (a ^ c) ^ b
  {
  }

  lemma PlusSwap(a: bv32, b: bv32, c: bv32)
    ensures Plus(Plus(a, b), c) == Plus(Plus(a, c), b)
  {
    XorSwap(a, b, c);
    assert Plus(a, b) == a ^ b && Plus(a, c) == a ^ c;
  }

  lemma ShiftInjective(s: bv32, t: bv32)
    requires Shift(s) == Shift(t) && Top(s) == Top(t)
    ensures s == t
  {
  }

  lemma OddApart(s: bv32, t: bv32)
    ensures Shift(s) != Plus(Shift(t), POLY)
  {
  }

  lemma PlusInjective(x: bv32, v: bv32, w: bv32)
    requires Plus(x, v) == Plus(x, w) || Plus(v, x) == Plus(w, x)
    ensures v == w
  {
  }

  lemma OrLow(v: bv32, w: bv32)
    ensures (v | w) & 1 == (v & 1) | (w & 1) && (v | w) >> 1 == (v >> 1) | (w >> 1)
    ensures v & 1 == 0 && w & 1 == 0 ==> (v | w) & 1 == 0
  {
  }

  lemma Unshift(w: bv32, bit: bool)
    requires w & 1 == 0
    ensures Shift(Joined(w, bit)) == w && Top(Joined(w, bit)) == bit
  {
  }

  /** The polynomial is odd, so the outgoing bit can be read off the new state: a step loses nothing. */
  lemma StepInjective(s: bv32, t: bv32, bit: bool)
    requires Step(s, bit) == Step(t, bit)
    ensures s == t
  {
    hide Top, Shift, Plus;
    OddApart(s, t);
    OddApart(t, s);
    if Top(s) != bit && Top(t) != bit {
      PlusInjective(POLY, Shift(s), Shift(t));
    }
    ShiftInjective(s, t);
  }

  lemma {:induction false} FoldInjective(s: bv32, t: bv32, bits: seq<bool>)
    requires s != t
    ensures Fold(s, bits) != Fold(t, bits)
    decreases |bits|
  {
    if |bits| > 0 {
      if Step(s, bits[0]) == Step(t, bits[0]) {
        StepInjective(s, t, bits[0]);
      }
      FoldInjective(Step(s, bits[0]), Step(t, bits[0]), bits[1..]);
    }
  }

  /** The step is linear: input bits may as well be added to the state beforehand. */
  lemma StepLinear(s: bv32, v: bv32)
    ensures Plus(Step(s, Top(v)), Shift(v)) == Step(Plus(s, v), false)
  {
    hide Top, Shift, Plus;
    ShiftPlus(s, v);
    TopPlus(s, v);
    PlusSwap(Shift(s), POLY, Shift(v));
  }

  function Joined(rest: bv32, bit: bool): bv32 {
    (rest >> 1) | (if bit then 0x80000000 else 0)
  }

  /** At most 32 bits as a word, the first at the top. */
  function Window(bits: seq<bool>): bv32 {
    if |bits| == 0 then 0 else Joined(Window(bits[1..]), bits[0])
  }

  predicate LowZero(v: bv32, k: nat) {
    k == 0 || (v & 1 == 0 && LowZero(v >> 1, k - 1))
  }

  lemma {:induction false} LowZeroOr(v: bv32, w: bv32, k: nat)
    requires LowZero(v, k) && LowZero(w, k)
    ensures LowZero(v | w, k)
  {
    if k > 0 {
      OrLow(v, w);
      LowZeroOr(v >> 1, w >> 1, k - 1);
    }
  }

  lemma {:induction false} LowZeroLess(v: bv32, k: nat, n: nat)
    requires LowZero(v, n) && k <= n
    ensures LowZero(v, k)
  {
    if k > 0 {
      LowZeroLess(v >> 1, k - 1, n - 1);
    }
  }

  lemma {:induction false} ZeroLow(k: nat)
    ensures LowZero(0, k)
  {
    if k > 0 {
      ZeroLow(k - 1);
    }
  }

  lemma LowZeroShift(v: bv32, k: nat)
    requires k >= 1 && v & 1 == 0
    ensures LowZero(v, k) == LowZero(v >> 1, k - 1)
  {
  }

  lemma TopLow()
    ensures LowZero(0x80000000, 31)
  {
    LowZeroFour(0x80000000, 31);
    LowZeroFour(0x08000000, 27);
    LowZeroFour(0x00800000, 23);
    LowZeroFour(0x00080000, 19);
    LowZeroFour(0x00008000, 15);
    LowZeroFour(0x00000800, 11);
    LowZeroFour(0x00000080, 7);
    LowZeroShift(8, 3);
    LowZeroShift(4, 2);
    LowZeroShift(2, 1);
  }

  lemma LowZeroFour(v: bv32, k: nat)
    requires k >= 4 && v & 15 == 0
    ensures LowZero(v, k) == LowZero(v >> 4, k - 4)
  {
    LowZeroShift(v, k);
    LowZeroShift(v >> 1, k - 1);
    LowZeroShift(v >> 2, k - 2);
    LowZeroShift(v >> 3, k - 3);
  }

  lemma JoinedLow(rest: bv32, bit: bool, k: nat)
    requires LowZero(rest, k + 1) && k <= 31
    ensures LowZero(Joined(rest, bit), k)
  {
    var top: bv32 := if bit then 0x80000000 else 0;
    ZeroLow(k);
    TopLow();
    LowZeroLess(0x80000000, k, 31);
    LowZeroOr(rest >> 1, top, k);
  }

  /** Bits that the window does not have are zero. */
  lemma {:induction false} WindowLow(bits: seq<bool>)
    requires |bits| <= 32
    ensures LowZero(Window(bits), 32 - |bits|)
  {
    if |bits| == 0 {
      ZeroLow(32);
    } else {
      hide Joined;
      WindowLow(bits[1..]);
      JoinedLow(Window(bits[1..]), bits[0], 32 - |bits|);
    }
  }

  lemma LowZeroOdd(v: bv32, k: nat)
    requires k >= 1 && LowZero(v, k)
    ensures v & 1 == 0
  {
  }

  lemma WindowShift(bits: seq<bool>)
    requires 0 < |bits| <= 32
    ensures Top(Window(bits)) == bits[0] && Shift(Window(bits)) == Window(bits[1..])
  {
    hide Joined, Top, Shift;
    WindowLow(bits[1..]);
    LowZeroOdd(Window(bits[1..]), 33 - |bits|);
    Unshift(Window(bits[1..]), bits[0]);
  }

  /** Feeding a window of at most 32 bits is adding it to the state and feeding zeros. */
  lemma {:induction false} FoldWindow(s: bv32, bits: seq<bool>)
    requires |bits| <= 32
    ensures Fold(s, bits) == Fold(Plus(s, Window(bits)), seq(|bits|, _ => false))
    decreases |bits|
  {
    hide Step, Top, Window, Shift, Plus;
    var zeros := seq(|bits|, _ => false);
    if |bits| == 0 {
      NoWindow(s);
    } else {
      WindowShift(bits);
      StepLinear(s, Window(bits));
      FoldWindow(Step(s, bits[0]), bits[1..]);
      assert zeros[1..] == seq(|bits| - 1, _ => false);
    }
  }

  lemma NoWindow(s: bv32)
    ensures Plus(s, Window([])) == s
  {
  }

  lemma {:induction false} WindowInjective(a: seq<bool>, b: seq<bool>)
    requires |a| == |b| <= 32 && Window(a) == Window(b)
    ensures a == b
  {
    if |a| > 0 {
      WindowShift(a);
      WindowShift(b);
      WindowInjective(a[1..], b[1..]);
      assert a == [a[0]] + a[1..] && b == [b[0]] + b[1..];
    }
  }

  lemma BitBurst(s: bv32, before: seq<bool>, a: seq<bool>, b: seq<bool>, after: seq<bool>)
    requires |a| == |b| <= 32 && a != b
    ensures Fold(s, before + a + after) != Fold(s, before + b + after)
  {
    hide Fold, Window, Plus;
    var x := Fold(s, before);
    FoldJoin(s, before + a, after);
    FoldJoin(s, before + b, after);
    FoldJoin(s, before, a);
    FoldJoin(s, before, b);
    FoldWindow(x, a);
    FoldWindow(x, b);
    if Window(a) == Window(b) {
      WindowInjective(a, b);
    }
    if Plus(x, Window(a)) == Plus(x, Window(b)) {
      PlusInjective(x, Window(a), Window(b));
    }
    FoldInjective(Plus(x, Window(a)), Plus(x, Window(b)), seq(|a|, _ => false));
    FoldInjective(Fold(x, a), Fold(x, b), after);
  }

  /** Two byte strings that differ only within `n <= 32` consecutive bits, from bit `i` on. */
  ghost predicate DifferWithin(a: seq<Byte>, b: seq<Byte>, i: nat, n: nat) {
    && |a| == |b| && a != b && i + n <= 8 * |a|
    && ByteBits(a)[..i] == ByteBits(b)[..i] && ByteBits(a)[i + n..] == ByteBits(b)[i + n..]
  }

  /** Every burst of at most 32 bits changes the CRC. */
  lemma BurstChangesCrc(crc: bv32, a: seq<Byte>, b: seq<Byte>, i: nat, n: nat)
    requires n <= 32 && DifferWithin(a, b, i, n)
    ensures Update(crc, a) != Update(crc, b)
  {
    hide Fold, ByteBits;
    var x, y := ByteBits(a), ByteBits(b);
    var p, q, u, v := x[..i], x[i + n..], x[i..i + n], y[i..i + n];
    assert x == p + u + q && y == p + v + q;
    if u == v {
      ByteBitsInjective(a, b);
    }
    BitBurst(crc, p, u, v, q);
  }

  // ------------------------------------------------------------ the two words in the image

  const CRC_SIZE_OFFSET: nat := 4096 + 16
  const CRC_VAL_OFFSET: nat := 4096 + 16 + 4

  /** The low 32 bits of a number as four bytes, the least significant first. */
  function WordBytes(val: nat): (s: seq<Byte>)
    ensures |s| == 4
  {
    [val % 256, val / 256 % 256, val / 65536 % 256, val / 16777216 % 256]
  }

  /** The word at the front of `s`, as the little-endian device reads it. */
  function ReadWord(s: seq<Byte>): nat
    requires |s| >= 4
  {
    s[0] as nat + 256 * (s[1] as nat) + 65536 * (s[2] as nat) + 16777216 * (s[3] as nat)
  }

  lemma ReadUndoesWord(val: nat, rest: seq<Byte>)
    requires val < 0x1_0000_0000
    ensures ReadWord(WordBytes(val) + rest) == val
  {
    FourDigits(val);
  }

  lemma FourDigits(val: nat)
    requires val < 0x1_0000_0000
    ensures val == val % 256 + 256 * (val / 256 % 256) + 65536 * (val / 65536 % 256) + 16777216 * (val / 16777216 % 256)
  {
  }

  /** A CRC as a number. */
  function Number(crc: bv32): (n: nat)
    ensures n < 0x1_0000_0000
  {
    crc as nat
  }

  lemma NumberInjective(a: bv32, b: bv32)
    requires Number(a) == Number(b)
    ensures a == b
  {
    assert (a as nat) as bv32 == a && (b as nat) as bv32 == b;
  }

  method StoreWord(raw: array<Byte>, offset: nat, val: nat)
    requires offset + 4 <= raw.Length
    modifies raw
    ensures raw[..] == old(raw[..])[..offset] + WordBytes(val) + old(raw[..])[offset + 4..]
  {
    raw[offset] := val % 256;
    raw[offset + 1] := val / 256 % 256;
    raw[offset + 2] := val / 65536 % 256;
    raw[offset + 3] := val / 16777216 % 256;
  }

  /** An image with these two words in its fields. */
  function WithFields(image: seq<Byte>, size: nat, val: nat): (r: seq<Byte>)
    requires |image| >= 4120
    ensures |r| == |image|
  {
    image[..4112] + WordBytes(size) + WordBytes(val) + image[4120..]
  }

  /** The CRC of an image with zeros in its fields. */
  function ImageCrc(image: seq<Byte>): bv32
    requires |image| >= 4120
  {
    Update(0xffffffff, WithFields(image, 0, 0))
  }

  /** What `add_crc` writes back. */
  function Stamped(image: seq<Byte>): (r: seq<Byte>)
    requires |image| >= 4120
    ensures |r| == |image|
  {
    WithFields(image, |image|, Number(ImageCrc(image)))
  }

  /** `add_crc` on the contents of a file; nothing is written back when the image is too short for the fields. */
  method AddCrc(file: seq<Byte>) returns (r: Option<seq<Byte>>)
    ensures r == if |file| < 4120 then None else Some(Stamped(file))
  {
    hide Update, WordBytes, WithFields;
    var raw := new Byte[|file|](i requires 0 <= i < |file| => file[i]);
    if raw.Length < CRC_SIZE_OFFSET + 4 || raw.Length < CRC_VAL_OFFSET + 4 {
      return None;
    }
    assert raw[..] == file;
    StoreWord(raw, CRC_SIZE_OFFSET, 0);
    StoreWord(raw, CRC_VAL_OFFSET, 0);
    StoredTwice(file, 0, 0);
    var crc := Crc(raw[..], 0xffffffff);
    StoreWord(raw, CRC_SIZE_OFFSET, raw.Length);
    StoreWord(raw, CRC_VAL_OFFSET, Number(crc));
    StoredTwice(WithFields(file, 0, 0), |file|, Number(crc));
    FieldsReplaced(file, 0, 0, |file|, Number(crc));
    return Some(raw[..]);
  }

  lemma StoredTwice(s: seq<Byte>, a: nat, b: nat)
    requires |s| >= 4120
    ensures var t := s[..4112] + WordBytes(a) + s[4116..];
      t[..4116] + WordBytes(b) + t[4120..] == WithFields(s, a, b)
  {
    hide WordBytes;
  }

  lemma FieldsReplaced(image: seq<Byte>, a: nat, b: nat, c: nat, d: nat)
    requires |image| >= 4120
    ensures WithFields(WithFields(image, a, b), c, d) == WithFields(image, c, d)
  {
    hide WordBytes;
  }

  /** Running `add_crc` again changes nothing. */
  lemma StampedTwice(image: seq<Byte>)
    requires |image| >= 4120
    ensures Stamped(Stamped(image)) == Stamped(image)
  {
    hide Update, WordBytes, WithFields, Number;
    var val := Number(ImageCrc(image));
    FieldsReplaced(image, |image|, val, 0, 0);
    FieldsReplaced(image, |image|, val, |image|, val);
  }

  // ------------------------------------------------------------ the check on the device

  function Zeros(n: nat): seq<Byte> {
    seq(n, _ => 0)
  }

  /** `checkFlashCRC` on the flash contents from the start of the image; None when the stored length would make
      it read before the end of the fields or past the end of the flash. */
  function CheckFlashCrc(flash: seq<Byte>): Option<bool>
    requires |flash| >= 4120
  {
    var len := ReadWord(flash[4112..]);
    if len < 4120 || len > |flash| then None
    else
      var crc := Update(Update(Update(0xffffffff, flash[..4112]), Zeros(8)), flash[4120..len]);
      Some(Number(crc) == ReadWord(flash[4116..]))
  }

  lemma DeviceCrc(image: seq<Byte>)
    requires |image| >= 4120
    ensures Update(Update(Update(0xffffffff, image[..4112]), Zeros(8)), image[4120..]) == ImageCrc(image)
  {
    hide Update;
    UpdateJoin(0xffffffff, image[..4112], Zeros(8));
    UpdateJoin(0xffffffff, image[..4112] + Zeros(8), image[4120..]);
    assert WordBytes(0) + WordBytes(0) == Zeros(8);
    assert image[..4112] + Zeros(8) + image[4120..] == WithFields(image, 0, 0);
  }

  lemma FlashParts(image: seq<Byte>, size: nat, val: nat, rest: seq<Byte>)
    requires |image| >= 4120
    ensures var flash := WithFields(image, size, val) + rest;
      && flash[4112..] == WordBytes(size) + (WordBytes(val) + image[4120..] + rest)
      && flash[4116..] == WordBytes(val) + (image[4120..] + rest)
      && flash[..4112] == image[..4112] && flash[4120..|image|] == image[4120..]
  {
    hide WordBytes;
  }

  /** What the device decides about an image whose size field is right, whatever follows it in the flash. */
  lemma CheckDecides(image: seq<Byte>, val: nat, rest: seq<Byte>)
    requires 4120 <= |image| < 0x1_0000_0000 && val < 0x1_0000_0000
    ensures CheckFlashCrc(WithFields(image, |image|, val) + rest) == Some(Number(ImageCrc(image)) == val)
  {
    hide Update, ReadWord, WordBytes, Number, ImageCrc, WithFields;
    FlashParts(image, |image|, val, rest);
    ReadUndoesWord(|image|, WordBytes(val) + image[4120..] + rest);
    ReadUndoesWord(val, image[4120..] + rest);
    DeviceCrc(image);
  }

  /** The device accepts what `add_crc` wrote. */
  lemma CheckAccepts(image: seq<Byte>, rest: seq<Byte>)
    requires 4120 <= |image| < 0x1_0000_0000
    ensures CheckFlashCrc(Stamped(image) + rest) == Some(true)
  {
    hide CheckFlashCrc, WithFields;
    CheckDecides(image, Number(ImageCrc(image)), rest);
  }

  lemma {:induction false} BitsFront(a: seq<Byte>, k: nat)
    requires k <= |a|
    ensures ByteBits(a)[..8 * k] == ByteBits(a[..k]) && ByteBits(a)[8 * k..] == ByteBits(a[k..])
  {
    ByteBitsJoin(a[..k], a[k..]);
    assert a == a[..k] + a[k..];
  }

  /** Outside the burst the bytes are the same. */
  lemma BytesBefore(a: seq<Byte>, b: seq<Byte>, i: nat, n: nat, k: nat)
    requires DifferWithin(a, b, i, n) && 8 * k <= i && k <= |a|
    ensures a[..k] == b[..k]
  {
    hide ByteBits;
    BitsFront(a, k);
    BitsFront(b, k);
    assert ByteBits(a)[..8 * k] == ByteBits(a)[..i][..8 * k] && ByteBits(b)[..8 * k] == ByteBits(b)[..i][..8 * k];
    ByteBitsInjective(a[..k], b[..k]);
  }

  lemma BytesAfter(a: seq<Byte>, b: seq<Byte>, i: nat, n: nat, k: nat)
    requires DifferWithin(a, b, i, n) && i + n <= 8 * k && k <= |a|
    ensures a[k..] == b[k..]
  {
    hide ByteBits;
    BitsFront(a, k);
    BitsFront(b, k);
    assert ByteBits(a)[8 * k..] == ByteBits(a)[i + n..][8 * k - i - n..];
    assert ByteBits(b)[8 * k..] == ByteBits(b)[i + n..][8 * k - i - n..];
    ByteBitsInjective(a[k..], b[k..]);
  }

  /** Images that differ within a burst outside the fields still do when the fields are blanked. */
  lemma BurstOutsideFields(a: seq<Byte>, b: seq<Byte>, i: nat, n: nat)
    requires |a| >= 4120 && DifferWithin(a, b, i, n) && (i + n <= 8 * 4112 || 8 * 4120 <= i)
    ensures a[4112..4120] == b[4112..4120]
    ensures DifferWithin(WithFields(a, 0, 0), WithFields(b, 0, 0), i, n)
  {
    hide ByteBits, WordBytes;
    var x, y := WithFields(a, 0, 0), WithFields(b, 0, 0);
    var zeros := WordBytes(0) + WordBytes(0);
    if i + n <= 8 * 4112 {
      BytesAfter(a, b, i, n, 4112);
      assert a[4112..4120] == a[4112..][..8] && b[4112..4120] == b[4112..][..8];
      var q := zeros + a[4120..];
      assert a[4120..] == a[4112..][8..] && b[4120..] == b[4112..][8..];
      assert x == a[..4112] + q && y == b[..4112] + q;
      assert a == a[..4112] + a[4112..] && b == b[..4112] + a[4112..];
      BurstInFront(a[..4112], b[..4112], a[4112..], q, i, n);
    } else {
      BytesBefore(a, b, i, n, 4120);
      assert a[4112..4120] == a[..4120][4112..] && b[4112..4120] == b[..4120][4112..];
      var p := a[..4112] + zeros;
      assert a[..4112] == a[..4120][..4112] && b[..4112] == b[..4120][..4112];
      assert x == p + a[4120..] && y == p + b[4120..];
      assert a == a[..4120] + a[4120..] && b == a[..4120] + b[4120..];
      BurstBehind(a[..4120], p, a[4120..], b[4120..], i, n);
    }
  }

  lemma BurstInFront(a: seq<Byte>, b: seq<Byte>, p: seq<Byte>, q: seq<Byte>, i: nat, n: nat)
    requires DifferWithin(a + p, b + p, i, n) && |a| == |b| && i + n <= 8 * |a|
    ensures DifferWithin(a + q, b + q, i, n)
  {
    hide ByteBits;
    ByteBitsJoin(a, p);
    ByteBitsJoin(b, p);
    ByteBitsJoin(a, q);
    ByteBitsJoin(b, q);
    var x, y, r := ByteBits(a), ByteBits(b), ByteBits(q);
    assert (x + r)[..i] == ByteBits(a + p)[..i] && (y + r)[..i] == ByteBits(b + p)[..i];
    TailSame(x, y, ByteBits(p), r, i + n);
    assert (a + q)[..|a|] == a && (b + q)[..|a|] == b;
  }

  lemma TailSame(x: seq<bool>, y: seq<bool>, p: seq<bool>, r: seq<bool>, k: nat)
    requires |x| == |y| && k <= |x| && (x + p)[k..] == (y + p)[k..]
    ensures (x + r)[k..] == (y + r)[k..]
  {
    assert x[k..] == (x + p)[k..][..|x| - k] && y[k..] == (y + p)[k..][..|x| - k];
    assert (x + r)[k..] == x[k..] + r && (y + r)[k..] == y[k..] + r;
  }

  lemma BurstBehind(p: seq<Byte>, q: seq<Byte>, a: seq<Byte>, b: seq<Byte>, i: nat, n: nat)
    requires DifferWithin(p + a, p + b, i, n) && |p| == |q| && 8 * |p| <= i
    ensures DifferWithin(q + a, q + b, i, n)
  {
    hide ByteBits;
    ByteBitsJoin(p, a);
    ByteBitsJoin(p, b);
    ByteBitsJoin(q, a);
    ByteBitsJoin(q, b);
    var m := 8 * |p|;
    HeadSame(ByteBits(p), ByteBits(q), ByteBits(a), ByteBits(b), i);
    assert (ByteBits(q) + ByteBits(a))[i + n..] == (ByteBits(p) + ByteBits(a))[i + n..];
    assert (ByteBits(q) + ByteBits(b))[i + n..] == (ByteBits(p) + ByteBits(b))[i + n..];
    assert (q + a)[|q|..] == a && (q + b)[|q|..] == b;
  }

  lemma HeadSame(p: seq<bool>, q: seq<bool>, x: seq<bool>, y: seq<bool>, k: nat)
    requires |p| == |q| <= k <= |p| + |x| && |x| == |y| && (p + x)[..k] == (p + y)[..k]
    ensures (q + x)[..k] == (q + y)[..k]
  {
    assert x[..k - |p|] == (p + x)[..k][|p|..] && y[..k - |p|] == (p + y)[..k][|p|..];
    assert (q + x)[..k] == q + x[..k - |p|] && (q + y)[..k] == q + y[..k - |p|];
  }

  /** A damaged image whose two fields are intact has another CRC than the one stored. */
  lemma DataBurstRejected(image: seq<Byte>, damaged: seq<Byte>, i: nat, n: nat, rest: seq<Byte>)
    requires 4120 <= |image| < 0x1_0000_0000 && n <= 32 && DifferWithin(Stamped(image), damaged, i, n)
    requires i + n <= 8 * 4112 || 8 * 4120 <= i
    ensures CheckFlashCrc(damaged + rest) == Some(false)
  {
    hide ByteBits, WordBytes, Update, CheckFlashCrc, Number, WithFields;
    var size, val, good := |image|, Number(ImageCrc(image)), Stamped(image);
    BurstOutsideFields(good, damaged, i, n);
    FieldsReplaced(image, size, val, 0, 0);
    BurstChangesCrc(0xffffffff, WithFields(good, 0, 0), WithFields(damaged, 0, 0), i, n);
    if Number(ImageCrc(damaged)) == val {
      NumberInjective(ImageCrc(damaged), ImageCrc(image));
    }
    SameFields(image, damaged, size, val);
    CheckDecides(damaged, val, rest);
  }

  lemma SameFields(image: seq<Byte>, other: seq<Byte>, size: nat, val: nat)
    requires |image| == |other| >= 4120 && WithFields(image, size, val)[4112..4120] == other[4112..4120]
    ensures other == WithFields(other, size, val)
  {
    hide WordBytes;
    assert WithFields(image, size, val)[4112..4120] == WordBytes(size) + WordBytes(val);
    assert other == other[..4112] + other[4112..4120] + other[4120..];
  }

  lemma WordUndoesRead(s: seq<Byte>)
    requires |s| == 4
    ensures ReadWord(s) < 0x1_0000_0000 && WordBytes(ReadWord(s)) == s
  {
    var a, b, c, d := s[0] as nat, s[1] as nat, s[2] as nat, s[3] as nat;
    var v := ReadWord(s);
    DivIs(v, 65536, c + 256 * d, a + 256 * b);
    DivIs(v, 16777216, d, a + 256 * b + 65536 * c);
    assert v / 256 == b + 256 * (c + 256 * d) && v % 256 == a;
    LastDigit(b, c + 256 * d);
    LastDigit(c, d);
  }

  lemma LastDigit(a: Byte, m: nat)
    ensures (a + 256 * m) % 256 == a
  {
  }

  /** Damage inside the CRC word leaves an image with another word in that field. */
  lemma OtherWord(image: seq<Byte>, damaged: seq<Byte>, size: nat, val: nat, i: nat, n: nat) returns (other: nat)
    requires |image| >= 4120 && DifferWithin(WithFields(image, size, val), damaged, i, n)
    requires 8 * 4116 <= i && i + n <= 8 * 4120
    ensures other < 0x1_0000_0000 && other != val && damaged == WithFields(image, size, other)
  {
    hide ByteBits, WordBytes, ReadWord, WithFields;
    var good := WithFields(image, size, val);
    BytesBefore(good, damaged, i, n, 4116);
    BytesAfter(good, damaged, i, n, 4120);
    WordUndoesRead(damaged[4116..4120]);
    other := ReadWord(damaged[4116..4120]);
    FieldsCut(image, size, val);
    Rejoined(damaged, image, size, other);
  }

  lemma FieldsCut(image: seq<Byte>, size: nat, val: nat)
    requires |image| >= 4120
    ensures WithFields(image, size, val)[..4116] == image[..4112] + WordBytes(size)
    ensures WithFields(image, size, val)[4120..] == image[4120..]
  {
    hide WordBytes;
  }

  lemma Rejoined(s: seq<Byte>, image: seq<Byte>, size: nat, val: nat)
    requires |s| == |image| >= 4120 && s[..4116] == image[..4112] + WordBytes(size)
    requires s[4116..4120] == WordBytes(val) && s[4120..] == image[4120..]
    ensures s == WithFields(image, size, val)
  {
    hide WordBytes;
    assert s == s[..4116] + s[4116..4120] + s[4120..];
  }

  lemma WordBurstRejected(image: seq<Byte>, damaged: seq<Byte>, i: nat, n: nat, rest: seq<Byte>)
    requires 4120 <= |image| < 0x1_0000_0000 && DifferWithin(Stamped(image), damaged, i, n)
    requires 8 * 4116 <= i && i + n <= 8 * 4120
    ensures CheckFlashCrc(damaged + rest) == Some(false)
  {
    hide ByteBits, WordBytes, Update, CheckFlashCrc, Number, WithFields, ImageCrc;
    var other := OtherWord(image, damaged, |image|, Number(ImageCrc(image)), i, n);
    CheckDecides(image, other, rest);
  }

  /** The device rejects an image damaged by a burst of at most 32 bits in front of its two fields, within the CRC
      word or behind it. */
  lemma BurstRejected(image: seq<Byte>, damaged: seq<Byte>, i: nat, n: nat, rest: seq<Byte>)
    requires 4120 <= |image| < 0x1_0000_0000 && n <= 32 && DifferWithin(Stamped(image), damaged, i, n)
    requires i + n <= 8 * 4112 || (8 * 4116 <= i && i + n <= 8 * 4120) || 8 * 4120 <= i
    ensures CheckFlashCrc(damaged + rest) == Some(false)
  {
    hide ByteBits, WordBytes, Update, CheckFlashCrc, Number, WithFields;
    if i + n <= 8 * 4112 || 8 * 4120 <= i {
      DataBurstRejected(image, damaged, i, n, rest);
    } else {
      WordBurstRejected(image, damaged, i, n, rest);
    }
  }
}
