/** The 1-bit canvas of Adafruit_GFX: pixels and fast lines under four rotations. */
module Canvas {
  import opened Basics
  import opened Circle
  import opened Line

  // ------------------------------------------------------------ bits of a buffer

  /** `0x80 >> j` */
  function Mask(j: nat): bv8
    requires j < 8
  {
    if j == 0 then 0x80 else if j == 1 then 0x40 else if j == 2 then 0x20 else if j == 3 then 0x10
    else if j == 4 then 0x08 else if j == 5 then 0x04 else if j == 6 then 0x02 else 0x01
  }

  function Bit(b: bv8, j: nat): bool
    requires j < 8
  {
    b & Mask(j) != 0
  }

  /** `b |= mask` or `b &= ~mask` */
  function Colour(b: bv8, mask: bv8, on: bool): bv8 {
    if on then b | mask else b & !mask
  }

  /** Masks count the bits of a byte from the most significant one. */
  lemma BitIsDigit(b: bv8, j: nat)
    requires j < 8
    ensures Bit(b, j) <==> (b >> (7 - j)) & 1 == 1
  {
    if j == 0 { } else if j == 1 { } else if j == 2 { } else if j == 3 { }
    else if j == 4 { } else if j == 5 { } else if j == 6 { } else { }
  }

  lemma ColourBits(b: bv8, mask: bv8, on: bool, j: nat)
    requires j < 8
    ensures Bit(Colour(b, mask, on), j) == if Bit(mask, j) then on else Bit(b, j)
  {
  }

  lemma MaskBits(i: nat, j: nat)
    requires i < 8 && j < 8
    ensures Bit(Mask(i), j) == (i == j) && !Bit(0, j) && Bit(0xFF, j)
  {
  }

  lemma JoinBits(a: bv8, b: bv8, j: nat)
    requires j < 8
    ensures Bit(a | b, j) == (Bit(a, j) || Bit(b, j))
  {
  }

  lemma SameBits(a: bv8, b: bv8)
    requires forall j: nat :: j < 8 ==> Bit(a, j) == Bit(b, j)
    ensures a == b
  {
    assert Bit(a, 0) == Bit(b, 0) && Bit(a, 1) == Bit(b, 1) && Bit(a, 2) == Bit(b, 2) && Bit(a, 3) == Bit(b, 3);
    assert Bit(a, 4) == Bit(b, 4) && Bit(a, 5) == Bit(b, 5) && Bit(a, 6) == Bit(b, 6) && Bit(a, 7) == Bit(b, 7);
    EightBits(a, b);
  }

  lemma EightBits(a: bv8, b: bv8)
    requires (a & 0x80 != 0) == (b & 0x80 != 0) && (a & 0x40 != 0) == (b & 0x40 != 0)
    requires (a & 0x20 != 0) == (b & 0x20 != 0) && (a & 0x10 != 0) == (b & 0x10 != 0)
    requires (a & 0x08 != 0) == (b & 0x08 != 0) && (a & 0x04 != 0) == (b & 0x04 != 0)
    requires (a & 0x02 != 0) == (b & 0x02 != 0) && (a & 0x01 != 0) == (b & 0x01 != 0)
    ensures a == b
  {
  }

  /** Bit `p` of a buffer, most significant bit of the first byte first. */
  function BitAt(buf: seq<bv8>, p: nat): bool
    requires p < 8 * |buf|
  {
    Bit(buf[p / 8], p % 8)
  }

  /** The bits in `set` have the colour, all others are as before. */
  ghost predicate Painted(before: seq<bv8>, after: seq<bv8>, bits: set<int>, on: bool) {
    && |after| == |before|
    && forall p: nat {:trigger BitAt(after, p)} :: p < 8 * |before| ==>
         BitAt(after, p) == if p in bits then on else BitAt(before, p)
  }

  /** Which bits are painted determines the buffer. */
  lemma PaintedUnique(before: seq<bv8>, a: seq<bv8>, b: seq<bv8>, bits: set<int>, on: bool)
    requires Painted(before, a, bits, on) && Painted(before, b, bits, on)
    ensures a == b
  {
    hide Bit;
    forall k | 0 <= k < |a| ensures a[k] == b[k] {
      forall j: nat | j < 8 ensures Bit(a[k], j) == Bit(b[k], j) {
        assert BitAt(a, 8 * k + j) == BitAt(b, 8 * k + j);
      }
      SameBits(a[k], b[k]);
    }
  }

  lemma PaintedTwice(a: seq<bv8>, b: seq<bv8>, c: seq<bv8>, x: set<int>, y: set<int>, on: bool)
    requires Painted(a, b, x, on) && Painted(b, c, y, on)
    ensures Painted(a, c, x + y, on)
  {
    hide BitAt;
  }

  lemma PaintedNothing(a: seq<bv8>, on: bool)
    ensures Painted(a, a, {}, on)
  {
  }

  /** `n` bits from `p` on, `step` apart. */
  function Strip(p: int, step: int, n: nat): set<int> {
    if n == 0 then {} else Strip(p, step, n - 1) + {p + (n - 1) * step}
  }

  lemma {:induction false} StripIsRun(p: int, n: nat)
    ensures forall q :: q in Strip(p, 1, n) <==> p <= q < p + n
  {
    if n > 0 {
      StripIsRun(p, n - 1);
    }
  }

  lemma {:induction false} StripJoin(p: int, step: int, m: nat, n: nat)
    ensures Strip(p, step, m) + Strip(p + m * step, step, n) == Strip(p, step, m + n)
  {
    if n > 0 {
      StripJoin(p, step, m, n - 1);
      assert p + m * step + (n - 1) * step == p + (m + n - 1) * step;
    }
  }

  lemma StrideNext(y: int, s: int)
    ensures (y + 1) * s == y * s + s
  {
  }

  lemma StripOne(p: int, step: int)
    ensures Strip(p, step, 1) == {p}
  {
    assert Strip(p, step, 0) == {};
  }

  lemma StepBack(p: int, step: int, n: int)
    ensures p - (n - 1) * step + 1 * step == p - (n - 2) * step && p + (n - 1) * -step == p - (n - 1) * step
  {
  }

  lemma {:induction false} StripReverse(p: int, step: int, n: nat)
    requires n > 0
    ensures Strip(p, -step, n) == Strip(p - (n - 1) * step, step, n)
    decreases n
  {
    hide Strip;
    if n == 1 {
      StripOne(p, -step);
      StripOne(p, step);
    } else {
      StripReverse(p, step, n - 1);
      StripNext(p, -step, n - 1);
      var q := p - (n - 1) * step;
      StripJoin(q, step, 1, n - 1);
      StripOne(q, step);
      StepBack(p, step, n);
    }
  }

  /** The bits of a mask are those from `start` to `end - 1`. */
  ghost predicate HasBits(mask: bv8, start: nat, end: nat) {
    forall j: nat :: j < 8 ==> Bit(mask, j) == (start <= j < end)
  }

  /** Painting through a mask. */
  lemma PaintedByte(before: seq<bv8>, k: nat, mask: bv8, start: nat, end: nat, on: bool)
    requires k < |before| && start <= end <= 8
    requires HasBits(mask, start, end)
    ensures Painted(before, before[k := Colour(before[k], mask, on)], Strip(8 * k + start, 1, end - start), on)
  {
    hide Bit, Colour, Strip;
    var after := before[k := Colour(before[k], mask, on)];
    StripIsRun(8 * k + start, end - start);
    forall p: nat | p < 8 * |before|
      ensures BitAt(after, p) == if p in Strip(8 * k + start, 1, end - start) then on else BitAt(before, p)
    {
      ColourBits(before[k], mask, on, p % 8);
    }
  }

  // ------------------------------------------------------------ the canvas

  class GfxCanvas1 {
    const WIDTH: nat
    const HEIGHT: nat
    var rotation: nat
    const buffer: array<bv8>

    ghost predicate Valid()
      reads this
    {
      0 < WIDTH <= 32767 && 0 < HEIGHT <= 32767 && rotation < 4 && buffer.Length == RowBytes() * HEIGHT
    }

    /** An unrotated canvas, all bits off; its size in bytes is a uint16. */
    constructor (w: nat, h: nat)
      requires 0 < w <= 32767 && 0 < h <= 32767 && (w + 7) / 8 * h <= 65535
      ensures Valid() && fresh(buffer) && WIDTH == w && HEIGHT == h && rotation == 0
      ensures forall p: nat {:trigger BitAt(buffer[..], p)} :: p < 8 * buffer.Length ==> !BitAt(buffer[..], p)
    {
      WIDTH, HEIGHT, rotation := w, h, 0;
      buffer := new bv8[(w + 7) / 8 * h](_ => 0);
      new;
      hide Bit;
      forall p: nat | p < 8 * buffer.Length ensures !BitAt(buffer[..], p) {
        MaskBits(0, p % 8);
      }
    }

    function RowBytes(): nat {
      (WIDTH + 7) / 8
    }

    /** `_width` and `_height`: swapped when the canvas is turned on its side. */
    function Width(): nat
      reads this
    {
      if rotation % 2 == 0 then WIDTH else HEIGHT
    }

    function Height(): nat
      reads this
    {
      if rotation % 2 == 0 then HEIGHT else WIDTH
    }

    /** The bit of a pixel in unrotated coordinates. */
    function Position(x: int, y: int): int {
      x + y * (8 * RowBytes())
    }

    /** The bit of a pixel in rotated coordinates. */
    function RawPosition(x: int, y: int): int
      reads this
    {
      if rotation == 0 then Position(x, y)
      else if rotation == 1 then Position(WIDTH - 1 - y, x)
      else if rotation == 2 then Position(WIDTH - 1 - x, HEIGHT - 1 - y)
      else Position(y, HEIGHT - 1 - x)
    }

    /** One step to the right, down, to the left or up on the unrotated canvas, as a distance in bits. */
    function Heading(r: nat): int {
      if r % 4 == 0 then 1 else if r % 4 == 1 then 8 * RowBytes() else if r % 4 == 2 then -1 else -8 * RowBytes()
    }

    /** A rotation by `r` is `r` quarter turns clockwise: the origin goes from corner to corner, and a step to the right
        becomes a step down, then to the left, then up; a step down is always one turn ahead. */
    lemma QuarterTurns(x: int, y: int)
      requires Valid()
      ensures RawPosition(0, 0)
           == if rotation == 0 then Position(0, 0) else if rotation == 1 then Position(WIDTH - 1, 0)
              else if rotation == 2 then Position(WIDTH - 1, HEIGHT - 1) else Position(0, HEIGHT - 1)
      ensures RawPosition(x + 1, y) == RawPosition(x, y) + Heading(rotation)
      ensures RawPosition(x, y + 1) == RawPosition(x, y) + Heading(rotation + 1)
    {
      StrideNext(x, 8 * RowBytes());
      StrideNext(y, 8 * RowBytes());
      StrideNext(HEIGHT - 2 - x, 8 * RowBytes());
      StrideNext(HEIGHT - 2 - y, 8 * RowBytes());
    }

    /** What `drawPixel` paints: nothing off the canvas. */
    function PixelBits(p: Pixel): set<int>
      reads this
    {
      if p.x < 0 || p.y < 0 || p.x >= Width() || p.y >= Height() then {} else {RawPosition(p.x, p.y)}
    }

    /** What a list of pixels paints. */
    function Touched(pixels: seq<Pixel>): set<int>
      reads this
    {
      if |pixels| == 0 then {} else Touched(pixels[..|pixels| - 1]) + PixelBits(pixels[|pixels| - 1])
    }

    lemma PositionInside(x: int, y: int)
      requires Valid() && 0 <= x < WIDTH && 0 <= y < HEIGHT
      ensures 0 <= Position(x, y) < 8 * buffer.Length
      ensures Position(x, y) / 8 == x / 8 + y * RowBytes() && Position(x, y) % 8 == x % 8
    {
      var s := RowBytes();
      assert y * (8 * s) == 8 * (y * s);
      RowFits(y, HEIGHT, s);
    }

    method DrawPixel(px: int, py: int, color: nat)
      requires Valid()
      modifies buffer
      ensures Painted(old(buffer[..]), buffer[..], PixelBits(Pixel(px, py)), color > 0)
    {
      hide Colour, Bit, BitAt;
      if px < 0 || py < 0 || px >= Width() || py >= Height() {
        PaintedNothing(buffer[..], color > 0);
        return;
      }
      var x, y := px, py;
      if rotation == 1 {
        x, y := WIDTH - 1 - y, x;
      } else if rotation == 2 {
        x, y := WIDTH - 1 - x, HEIGHT - 1 - y;
      } else if rotation == 3 {
        x, y := y, HEIGHT - 1 - x;
      }
      PositionInside(x, y);
      var ptr := x / 8 + y * RowBytes();
      PaintOne(buffer[..], ptr, x % 8, color > 0);
      buffer[ptr] := Colour(buffer[ptr], Mask(x % 8), color > 0);
    }

    /** `getRawPixel` */
    method GetRawPixel(x: int, y: int) returns (on: bool)
      requires Valid()
      ensures if 0 <= x < WIDTH && 0 <= y < HEIGHT
        then 0 <= Position(x, y) < 8 * buffer.Length && on == BitAt(buffer[..], Position(x, y)) else !on
    {
      hide Mask, Position;
      if x < 0 || y < 0 || x >= WIDTH || y >= HEIGHT {
        return false;
      }
      PositionInside(x, y);
      return buffer[x / 8 + y * RowBytes()] & Mask(x % 8) != 0;
    }

    /** `getPixel`: the bit that `drawPixel` paints; off the canvas nothing is set. */
    method GetPixel(px: int, py: int) returns (on: bool)
      requires Valid()
      ensures PixelBits(Pixel(px, py)) == {} ==> !on
      ensures forall p: nat {:trigger BitAt(buffer[..], p)} ::
        p < 8 * buffer.Length && p in PixelBits(Pixel(px, py)) ==>
        on == BitAt(buffer[..], p)
    {
      hide BitAt, Position;
      var x, y := px, py;
      if rotation == 1 {
        x, y := WIDTH - 1 - y, x;
      } else if rotation == 2 {
        x, y := WIDTH - 1 - x, HEIGHT - 1 - y;
      } else if rotation == 3 {
        x, y := y, HEIGHT - 1 - x;
      }
      on := GetRawPixel(x, y);
    }

    /** The base class: a line pixel by pixel. */
    method WriteLine(x0: int, y0: int, x1: int, y1: int, color: nat)
      requires Valid() && NoWrap(x0, y0, x1, y1)
      modifies buffer
      ensures Painted(old(buffer[..]), buffer[..], Touched(LinePixels(x0, y0, x1, y1)), color > 0)
    {
      hide Painted, LinePixels, NoWrap;
      var pixels := Line.WriteLine(x0, y0, x1, y1);
      ghost var before := buffer[..];
      PaintedNothing(before, color > 0);
      for i := 0 to |pixels|
        invariant Painted(before, buffer[..], Touched(pixels[..i]), color > 0)
      {
        ghost var now := buffer[..];
        DrawPixel(pixels[i].x, pixels[i].y, color);
        PaintedTwice(before, now, buffer[..], Touched(pixels[..i]), PixelBits(pixels[i]), color > 0);
        assert pixels[..i + 1][..i] == pixels[..i];
      }
      assert pixels[..|pixels|] == pixels;
    }

    /** `drawFastRawVLine`: one bit per row, through a pointer that moves on by a row. */
    method DrawFastRawVLine(x: int, y: int, h: int, color: nat)
      requires Valid() && 0 <= x < WIDTH && 0 <= y && 0 < h && y + h <= HEIGHT
      modifies buffer
      ensures Painted(old(buffer[..]), buffer[..], Strip(Position(x, y), 8 * RowBytes(), h), color > 0)
    {
      hide Painted, Colour, Bit, Mask, Strip;
      var rowBytes := RowBytes();
      PositionInside(x, y);
      var ptr := x / 8 + y * rowBytes;
      ghost var before, p, step := buffer[..], Position(x, y), 8 * rowBytes;
      PaintedNothing(before, color > 0);
      StripNone(p, step);
      for i := 0 to h
        invariant ptr == x / 8 + (y + i) * rowBytes && 0 <= i <= h
        invariant Painted(before, buffer[..], Strip(p, step, i), color > 0)
      {
        ghost var now := buffer[..];
        PositionInside(x, y + i);
        PositionDown(x, y, i);
        PaintOne(now, ptr, x % 8, color > 0);
        buffer[ptr] := Colour(buffer[ptr], Mask(x % 8), color > 0);
        PaintedTwice(before, now, buffer[..], Strip(p, step, i), {p + i * step}, color > 0);
        StripNext(p, step, i);
        assert (y + i + 1) * rowBytes == (y + i) * rowBytes + rowBytes;
        ptr := ptr + rowBytes;
      }
    }

    lemma PositionDown(x: int, y: int, i: int)
      ensures Position(x, y + i) == Position(x, y) + i * (8 * RowBytes())
    {
      var s := 8 * RowBytes();
      assert (y + i) * s == y * s + i * s;
    }

    /** `memset` of whole bytes. */
    method SetBytes(ptr: nat, n: nat, on: bool)
      requires ptr + n <= buffer.Length
      modifies buffer
      ensures Painted(old(buffer[..]), buffer[..], Strip(8 * ptr, 1, 8 * n), on)
    {
      hide Bit, Strip;
      ghost var before := buffer[..];
      forall k | 0 <= k < n {
        buffer[ptr + k] := if on then 0xFF else 0x00;
      }
      StripIsRun(8 * ptr, 8 * n);
      forall p: nat | p < 8 * |before|
        ensures BitAt(buffer[..], p) == if p in Strip(8 * ptr, 1, 8 * n) then on else BitAt(before, p)
      {
        MaskBits(0, p % 8);
        if 8 * ptr <= p < 8 * ptr + 8 * n {
          assert buffer[ptr + (p / 8 - ptr)] == if on then 0xFF else 0x00;
        }
      }
    }

    /** The first, partly filled byte: its bits from `start` on, as many as there are. */
    method StartByte(ptr: nat, start: nat, w: nat, on: bool) returns (remaining: nat)
      requires ptr < buffer.Length && 0 < start < 8
      modifies buffer
      ensures remaining <= w && w - remaining <= 8 - start && (remaining > 0 ==> w - remaining == 8 - start)
      ensures Painted(old(buffer[..]), buffer[..], Strip(8 * ptr + start, 1, w - remaining), on)
    {
      hide Bit, Colour, Painted, Mask, HasBits, Strip;
      ghost var before := buffer[..];
      var mask: bv8 := 0;
      remaining := w;
      var i := start;
      NoBits(start);
      while i < 8 && remaining > 0
        invariant start <= i <= 8 && remaining <= w && i - start == w - remaining
        invariant HasBits(mask, start, i) && buffer[..] == before
      {
        AddMask(mask, start, i);
        mask := mask | Mask(i);
        i, remaining := i + 1, remaining - 1;
      }
      PaintedByte(before, ptr, mask, start, i, on);
      buffer[ptr] := Colour(buffer[ptr], mask, on);
      assert buffer[..] == before[ptr := Colour(before[ptr], mask, on)];
    }

    /** The last, partly filled byte. */
    method EndByte(ptr: nat, bits: nat, on: bool)
      requires ptr < buffer.Length && bits < 8
      modifies buffer
      ensures Painted(old(buffer[..]), buffer[..], Strip(8 * ptr, 1, bits), on)
    {
      hide Bit, Colour, Painted, Mask, HasBits, Strip;
      ghost var before := buffer[..];
      var mask: bv8 := 0;
      NoBits(0);
      for i := 0 to bits
        invariant HasBits(mask, 0, i) && buffer[..] == before
      {
        AddMask(mask, 0, i);
        mask := mask | Mask(i);
      }
      PaintedByte(before, ptr, mask, 0, bits, on);
      buffer[ptr] := Colour(buffer[ptr], mask, on);
      assert buffer[..] == before[ptr := Colour(before[ptr], mask, on)];
    }

    /** The rest of `drawFastRawHLine`: from a byte boundary on. */
    method FromBoundary(ptr: nat, remaining: nat, on: bool)
      requires 0 < remaining && 8 * ptr + remaining <= 8 * buffer.Length
      modifies buffer
      ensures Painted(old(buffer[..]), buffer[..], Strip(8 * ptr, 1, remaining), on)
    {
      hide Painted, Strip;
      var whole, last := remaining / 8, remaining % 8;
      ghost var before := buffer[..];
      SetBytes(ptr, whole, on);
      if last > 0 {
        ghost var filled := buffer[..];
        EndByte(ptr + whole, last, on);
        PaintedTwice(before, filled, buffer[..], Strip(8 * ptr, 1, 8 * whole), Strip(8 * (ptr + whole), 1, last), on);
        StripJoin(8 * ptr, 1, 8 * whole, last);
      }
    }

    /** `drawFastRawHLine`: a partial byte, whole bytes, a partial byte. */
    method DrawFastRawHLine(x: int, y: int, w: int, color: nat)
      requires Valid() && 0 <= x && 0 < w && x + w <= WIDTH && 0 <= y < HEIGHT
      modifies buffer
      ensures Painted(old(buffer[..]), buffer[..], Strip(Position(x, y), 1, w), color > 0)
    {
      hide Painted, Strip, Position;
      var ptr := x / 8 + y * RowBytes();
      var remaining := w;
      ghost var before, p := buffer[..], Position(x, y);
      RowRoom(x, y, w);
      if x % 8 > 0 {
        remaining := StartByte(ptr, x % 8, w, color > 0);
        ptr := ptr + 1;
      }
      if remaining > 0 {
        ghost var now, n := buffer[..], w - remaining;
        FromBoundary(ptr, remaining, color > 0);
        if n > 0 {
          PaintedTwice(before, now, buffer[..], Strip(p, 1, n), Strip(8 * ptr, 1, remaining), color > 0);
          StripJoin(p, 1, n, remaining);
        }
      }
    }

    lemma RowRoom(x: int, y: int, w: int)
      requires Valid() && 0 <= x && 0 < w && x + w <= WIDTH && 0 <= y < HEIGHT
      ensures x / 8 + y * RowBytes() < buffer.Length && 0 <= y * RowBytes()
      ensures Position(x, y) == 8 * (x / 8 + y * RowBytes()) + x % 8
      ensures Position(x, y) + w <= 8 * buffer.Length
    {
      var s := RowBytes();
      RowFits(y, HEIGHT, s);
      assert y * (8 * s) == 8 * (y * s);
    }

    // ------------------------------------------------------------ fast lines

    /** How the bit moves from one pixel of a line to the next. */
    function Direction(vertical: bool): int
      reads this
    {
      var s := 8 * RowBytes();
      if rotation == 0 then (if vertical then s else 1)
      else if rotation == 1 then (if vertical then -1 else s)
      else if rotation == 2 then (if vertical then 0 - s else -1)
      else if vertical then 1 else 0 - s
    }

    lemma RawStep(x: int, y: int, vertical: bool, i: int)
      requires rotation < 4
      ensures RawPosition(if vertical then x else x + i, if vertical then y + i else y)
           == RawPosition(x, y) + i * Direction(vertical)
    {
      var s := 8 * RowBytes();
      Distribute(x, i, s);
      Distribute(y, i, s);
      Distribute(HEIGHT - 1 - x, -i, s);
      Distribute(HEIGHT - 1 - y, -i, s);
      assert i * (0 - s) == -i * s;
    }

    /** Pixels on the canvas are a strip of bits. */
    lemma {:induction false} TouchedInside(x: int, y: int, vertical: bool, n: nat)
      requires rotation < 4 && n > 0
      requires 0 <= x && 0 <= y
        && (if vertical then x < Width() && y + n <= Height() else x + n <= Width() && y < Height())
      ensures Touched(Along(x, y, vertical, n)) == Strip(RawPosition(x, y), Direction(vertical), n)
      decreases n
    {
      hide RawPosition, Direction;
      RawStep(x, y, vertical, n - 1);
      assert Along(x, y, vertical, n)[..n - 1] == Along(x, y, vertical, n - 1);
      if n == 1 {
        assert Along(x, y, vertical, 0) == [];
      } else {
        TouchedInside(x, y, vertical, n - 1);
      }
    }

    /** Pixels off the canvas leave only the part of the line inside `lo` to `hi - 1`. */
    lemma {:induction false} Clipped(x: int, y: int, vertical: bool, n: nat)
      ensures var hi := if vertical then Height() else Width();
        var across, along := if vertical then x else y, if vertical then y else x;
        var breadth := if vertical then Width() else Height();
        var from, to := if along < 0 then 0 else along, if along + n > hi then hi else along + n;
        Touched(Along(x, y, vertical, n)) ==
          if across < 0 || across >= breadth || from >= to then {}
          else Touched(Along(if vertical then x else from, if vertical then from else y, vertical, to - from))
      decreases n
    {
      hide RawPosition, Touched, Along;
      var along := if vertical then y else x;
      NothingTouched(x, y, vertical);
      if n > 0 {
        Clipped(x, y, vertical, n - 1);
        LastTouched(x, y, vertical, n);
        if along < 0 && along + n > 0 {
          NothingTouched(if vertical then x else 0, if vertical then 0 else y, vertical);
          LastTouched(if vertical then x else 0, if vertical then 0 else y, vertical, along + n);
        }
      }
    }

    lemma NothingTouched(x: int, y: int, vertical: bool)
      ensures Touched(Along(x, y, vertical, 0)) == {}
    {
    }

    lemma LastTouched(x: int, y: int, vertical: bool, n: nat)
      requires n > 0
      ensures Touched(Along(x, y, vertical, n))
           == Touched(Along(x, y, vertical, n - 1))
             + PixelBits(if vertical then Pixel(x, y + n - 1) else Pixel(x + n - 1, y))
    {
      assert Along(x, y, vertical, n)[..n - 1] == Along(x, y, vertical, n - 1);
    }

    /** What is left of a line after clipping, as bits. */
    lemma ClippedStrip(x: int, y: int, vertical: bool, n: nat, from: int, to: int)
      requires Valid() && n > 0
      requires var hi := if vertical then Height() else Width();
        var along := if vertical then y else x;
        from == (if along < 0 then 0 else along) && to == (if along + n > hi then hi else along + n)
      ensures var cross, breadth := if vertical then x else y, if vertical then Width() else Height();
        var line := LinePixels(x, y, if vertical then x else x + n - 1, if vertical then y + n - 1 else y);
        Touched(line) ==
          if cross < 0 || cross >= breadth || from >= to then {}
          else Strip(RawPosition(if vertical then x else from, if vertical then from else y), Direction(vertical),
            to - from)
    {
      hide RawPosition, Touched, Along, LinePixels, Direction, Strip;
      var cross, breadth := if vertical then x else y, if vertical then Width() else Height();
      LineIsAlong(x, y, vertical, n);
      Clipped(x, y, vertical, n);
      if 0 <= cross < breadth && from < to {
        TouchedInside(if vertical then x else from, if vertical then from else y, vertical, to - from);
      }
    }

    /** `drawFastVLine`: the same bits as the base class would paint pixel by pixel, and no other. */
    method DrawFastVLine(px: int, py: int, height: int, color: nat)
      requires Valid() && height > 0
      modifies buffer
      ensures Painted(old(buffer[..]), buffer[..], Touched(LinePixels(px, py, px, py + height - 1)), color > 0)
    {
      hide Painted, LinePixels, Touched, Strip, Position;
      var x, y, h := px, py, height;
      ClippedStrip(px, py, true, height, if y < 0 then 0 else y, if y + h > Height() then Height() else y + h);
      if x < 0 || x >= Width() || y >= Height() || y + h - 1 < 0 {
        PaintedNothing(buffer[..], color > 0);
        return;
      }
      if y < 0 {
        h, y := h + y, 0;
      }
      if y + h > Height() {
        h := Height() - y;
      }
      StripReverse(RawPosition(x, y), if rotation == 1 then 1 else 8 * RowBytes(), h);
      if rotation == 0 {
        DrawFastRawVLine(x, y, h, color);
      } else if rotation == 1 {
        x, y := WIDTH - 1 - y, x;
        PositionAt(x, y, 1, h);
        x := x - (h - 1);
        DrawFastRawHLine(x, y, h, color);
      } else if rotation == 2 {
        x, y := WIDTH - 1 - x, HEIGHT - 1 - y;
        PositionAt(x, y, 1, h);
        y := y - (h - 1);
        DrawFastRawVLine(x, y, h, color);
      } else if rotation == 3 {
        x, y := y, HEIGHT - 1 - x;
        DrawFastRawHLine(x, y, h, color);
      }
    }

    /** `drawFastHLine` */
    method DrawFastHLine(px: int, py: int, width: int, color: nat)
      requires Valid() && width > 0
      modifies buffer
      ensures Painted(old(buffer[..]), buffer[..], Touched(LinePixels(px, py, px + width - 1, py)), color > 0)
    {
      hide Painted, LinePixels, Touched, Strip, Position;
      var x, y, w := px, py, width;
      ClippedStrip(px, py, false, width, if x < 0 then 0 else x, if x + w > Width() then Width() else x + w);
      if y < 0 || y >= Height() || x >= Width() || x + w - 1 < 0 {
        PaintedNothing(buffer[..], color > 0);
        return;
      }
      if x < 0 {
        w, x := w + x, 0;
      }
      if x + w >= Width() {
        w := Width() - x;
      }
      StripReverse(RawPosition(x, y), if rotation == 2 then 1 else 8 * RowBytes(), w);
      if rotation == 0 {
        DrawFastRawHLine(x, y, w, color);
      } else if rotation == 1 {
        x, y := WIDTH - 1 - y, x;
        DrawFastRawVLine(x, y, w, color);
      } else if rotation == 2 {
        x, y := WIDTH - 1 - x, HEIGHT - 1 - y;
        PositionAt(x, y, 1, w);
        x := x - (w - 1);
        DrawFastRawHLine(x, y, w, color);
      } else if rotation == 3 {
        x, y := y, HEIGHT - 1 - x;
        PositionAt(x, y, 1, w);
        y := y - (w - 1);
        DrawFastRawVLine(x, y, w, color);
      }
    }

    /** The bit `n - 1` pixels further left or up. */
    lemma PositionAt(x: int, y: int, step: int, n: int)
      requires step == 1
      ensures Position(x - (n - 1), y) == Position(x, y) - (n - 1) * step
      ensures Position(x, y - (n - 1)) == Position(x, y) - (n - 1) * (8 * RowBytes())
    {
      Distribute(y, 0 - (n - 1), 8 * RowBytes());
    }

    /** Fast lines and the base class's lines leave the same buffer. */
    lemma FastEqualsBase(before: seq<bv8>, fast: seq<bv8>, base: seq<bv8>, x0: int, y0: int, x1: int, y1: int, on: bool)
      requires Painted(before, fast, Touched(LinePixels(x0, y0, x1, y1)), on)
      requires Painted(before, base, Touched(LinePixels(x0, y0, x1, y1)), on)
      ensures fast == base
    {
      hide LinePixels;
      PaintedUnique(before, fast, base, Touched(LinePixels(x0, y0, x1, y1)), on);
    }
  }

  /** `n` pixels to the right or down. */
  function Along(x: int, y: int, vertical: bool, n: nat): seq<Pixel> {
    seq(n, i requires 0 <= i < n => if vertical then Pixel(x, y + i) else Pixel(x + i, y))
  }

  lemma Distribute(a: int, b: int, s: int)
    ensures (a + b) * s == a * s + b * s
  {
  }

  /** The base class draws axis-parallel lines straight. */
  lemma LineIsAlong(x: int, y: int, vertical: bool, n: nat)
    requires n > 0
    ensures LinePixels(x, y, if vertical then x else x + n - 1, if vertical then y + n - 1 else y)
      == Along(x, y, vertical, n)
  {
    var dx := n - 1;
    forall k: nat | k <= dx ensures Sideways(dx, 0, k) == 0 {
      if dx > 0 {
        DivIs(k * 0 + dx - 1 - dx / 2, dx, 0, dx - 1 - dx / 2);
      }
    }
  }

  lemma NoBits(start: nat)
    ensures HasBits(0, start, start)
  {
  }

  lemma AddMask(mask: bv8, start: nat, i: nat)
    requires i < 8 && start <= i && HasBits(mask, start, i)
    ensures HasBits(mask | Mask(i), start, i + 1)
  {
    hide Bit, Mask;
    var more := mask | Mask(i);
    forall j: nat | j < 8 ensures Bit(more, j) == (start <= j < i + 1) {
      JoinBits(mask, Mask(i), j);
      MaskBits(i, j);
    }
  }

  lemma StripNone(p: int, step: int)
    ensures Strip(p, step, 0) == {}
  {
  }

  lemma StripNext(p: int, step: int, n: nat)
    ensures Strip(p, step, n + 1) == Strip(p, step, n) + {p + n * step}
  {
  }

  lemma RowFits(y: int, h: int, s: nat)
    requires 0 <= y < h
    ensures 0 <= y * s && y * s + s <= h * s
  {
    assert (h - 1 - y) * s >= 0;
    assert h * s == (h - 1 - y) * s + y * s + s;
  }

  lemma PaintOne(before: seq<bv8>, k: nat, j: nat, on: bool)
    requires k < |before| && j < 8
    ensures Painted(before, before[k := Colour(before[k], Mask(j), on)], {8 * k + j}, on)
  {
    hide Colour, Bit, Mask;
    var mask := Mask(j);
    forall i: nat | i < 8 ensures Bit(mask, i) == (j <= i < j + 1) {
      MaskBits(j, i);
    }
    PaintedByte(before, k, Mask(j), j, j + 1, on);
    StripOne(8 * k + j, 1);
  }
}
