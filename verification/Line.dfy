/** Bresenham's line of Adafruit_GFX (`writeLine`). */
module Line {
  import opened Basics
  import opened Circle

  /** Nothing wraps in the int16 variables of `writeLine`. */
  predicate NoWrap(x0: int, y0: int, x1: int, y1: int) {
    && -32767 <= x0 <= 32766 && -32767 <= y0 <= 32766 && -32767 <= x1 <= 32766 && -32767 <= y1 <= 32766
    && Abs(x1 - x0) <= 32767 && Abs(y1 - y0) <= 32767
  }

  /** The line in its own direction: `a` runs along the longer side from `a0`, `b` across it from `b0`. */
  datatype Run = Run(steep: bool, a0: int, b0: int, dx: nat, dy: nat, down: bool)

  function RunOf(x0: int, y0: int, x1: int, y1: int): (run: Run)
    ensures run.dy <= run.dx
  {
    var steep := Abs(y1 - y0) > Abs(x1 - x0);
    var a0, b0 := if steep then y0 else x0, if steep then x0 else y0;
    var a1, b1 := if steep then y1 else x1, if steep then x1 else y1;
    if a0 > a1 then Run(steep, a1, b1, a0 - a1, Abs(b0 - b1), b1 >= b0)
    else Run(steep, a0, b0, a1 - a0, Abs(b1 - b0), b0 >= b1)
  }

  /** The number of sideways steps in the first `k` steps. */
  function Sideways(dx: nat, dy: nat, k: nat): int {
    if dx == 0 then 0 else (k * dy + dx - 1 - dx / 2) / dx
  }

  function PixelAt(run: Run, k: nat): Pixel {
    var m := Sideways(run.dx, run.dy, k);
    var a, b := run.a0 + k, if run.down then run.b0 - m else run.b0 + m;
    if run.steep then Pixel(b, a) else Pixel(a, b)
  }

  /** The pixels of a line in the order they are written. */
  function LinePixels(x0: int, y0: int, x1: int, y1: int): (pixels: seq<Pixel>)
    ensures |pixels| == 1 + if Abs(y1 - y0) > Abs(x1 - x0) then Abs(y1 - y0) else Abs(x1 - x0)
  {
    var run := RunOf(x0, y0, x1, y1);
    seq(run.dx + 1, k requires 0 <= k < run.dx + 1 => PixelAt(run, k))
  }

  /** `err` and the sideways steps taken determine each other. */
  lemma ErrDecides(dx: nat, dy: nat, k: nat, m: int, err: int)
    requires dx > 0 && 0 <= err < dx && err == dx / 2 - k * dy + m * dx
    ensures m == Sideways(dx, dy, k)
  {
    var n := k * dy + dx - 1 - dx / 2;
    assert n == m * dx + (dx - 1 - err);
    DivIs(n, dx, m, dx - 1 - err);
  }

  /** `err` after `k` steps, `m` of them sideways. */
  predicate ErrIs(dx: nat, dy: nat, k: nat, m: int, err: int) {
    && 0 <= err && (dx > 0 ==> err < dx) && (dx == 0 ==> err == 0 && m == 0)
    && err == dx / 2 - k * dy + m * dx
  }

  lemma ErrFits(dx: nat, dy: nat, k: nat, m: int, err: int)
    requires dy <= dx <= 32767 && ErrIs(dx, dy, k, m, err)
    ensures Int16(err) && Int16(err - dy) && (dx == 0 ==> err - dy == 0)
  {
  }

  lemma ErrStart(dx: nat, dy: nat)
    requires dy <= dx
    ensures ErrIs(dx, dy, 0, 0, dx / 2)
  {
  }

  lemma SidewaysStep(dx: nat, dy: nat, k: nat, m: int, err: int)
    requires dy <= dx && ErrIs(dx, dy, k, m, err)
    ensures err - dy >= 0 ==> ErrIs(dx, dy, k + 1, m, err - dy)
    ensures err - dy < 0 ==> ErrIs(dx, dy, k + 1, m + 1, err - dy + dx)
  {
    assert (k + 1) * dy == k * dy + dy && (m + 1) * dx == m * dx + dx;
  }

  method WriteLine(x0: int, y0: int, x1: int, y1: int) returns (pixels: seq<Pixel>)
    requires NoWrap(x0, y0, x1, y1)
    ensures pixels == LinePixels(x0, y0, x1, y1)
  {
    hide PixelAt, ErrIs, Abs, NoWrap;
    ghost var run := RunOf(x0, y0, x1, y1);
    var a0, b0, a1, b1 := x0, y0, x1, y1;
    var steep := Abs(b1 - b0) > Abs(a1 - a0);
    if steep {
      a0, b0 := b0, a0;
      a1, b1 := b1, a1;
    }
    if a0 > a1 {
      a0, a1 := a1, a0;
      b0, b1 := b1, b0;
    }
    AbsIs(b1 - b0);
    var dx, dy := a1 - a0, Abs(b1 - b0);
    var err := dx / 2;
    var ystep := if b0 < b1 then 1 else -1;
    pixels := [];
    ghost var m := 0;
    RunIs(x0, y0, x1, y1);
    ErrStart(dx, dy);
    while a0 <= a1
      invariant a0 == run.a0 + |pixels| && a1 == run.a0 + dx && a0 <= a1 + 1
      invariant b0 == (if run.down then run.b0 - m else run.b0 + m)
      invariant ErrIs(dx, dy, |pixels|, m, err)
      invariant forall k :: 0 <= k < |pixels| ==> pixels[k] == PixelAt(run, k)
      decreases a1 - a0
    {
      NextPixel(run, |pixels|, m, err);
      SidewaysStep(dx, dy, |pixels|, m, err);
      ErrFits(dx, dy, |pixels|, m, err);
      if steep {
        pixels := pixels + [Pixel(b0, a0)];
      } else {
        pixels := pixels + [Pixel(a0, b0)];
      }
      err := err - dy;
      assert Int16(err);
      if err < 0 {
        b0 := b0 + ystep;
        err := err + dx;
        m := m + 1;
      }
      a0 := a0 + 1;
    }
  }

  lemma AbsIs(v: int)
    ensures Abs(v) == if v < 0 then 0 - v else v
  {
  }

  lemma RunIs(x0: int, y0: int, x1: int, y1: int)
    requires NoWrap(x0, y0, x1, y1)
    ensures RunOf(x0, y0, x1, y1).dx <= 32767
  {
  }

  lemma NextPixel(run: Run, k: nat, m: int, err: int)
    requires ErrIs(run.dx, run.dy, k, m, err)
    ensures var b := if run.down then run.b0 - m else run.b0 + m;
      PixelAt(run, k) == if run.steep then Pixel(b, run.a0 + k) else Pixel(run.a0 + k, b)
  {
    if run.dx > 0 {
      ErrDecides(run.dx, run.dy, k, m, err);
    }
  }

  /** A line drawn from either end is the same line, pixel by pixel. */
  lemma Reversible(x0: int, y0: int, x1: int, y1: int)
    ensures LinePixels(x0, y0, x1, y1) == LinePixels(x1, y1, x0, y0)
  {
  }

  /** The line leads from one end to the other. */
  lemma Endpoints(x0: int, y0: int, x1: int, y1: int)
    ensures var pixels := LinePixels(x0, y0, x1, y1);
      var first, last := pixels[0], pixels[|pixels| - 1];
      || (first == Pixel(x0, y0) && last == Pixel(x1, y1))
      || (first == Pixel(x1, y1) && last == Pixel(x0, y0))
  {
    var run := RunOf(x0, y0, x1, y1);
    SidewaysEnds(run.dx, run.dy);
  }

  lemma SidewaysEnds(dx: nat, dy: nat)
    requires dy <= dx
    ensures Sideways(dx, dy, 0) == 0 && Sideways(dx, dy, dx) == dy
  {
    if dx > 0 {
      DivIs(dx - 1 - dx / 2, dx, 0, dx - 1 - dx / 2);
      DivIs(dx * dy + dx - 1 - dx / 2, dx, dy, dx - 1 - dx / 2);
    }
  }

  /** After `k` steps along the longer side the line is within half a pixel of the true line. */
  lemma Accuracy(dx: nat, dy: nat, k: nat)
    ensures dx > 0 ==> -(dx as int) <= 2 * (Sideways(dx, dy, k) * dx - k * dy) <= dx
  {
    if dx > 0 {
      var n := k * dy + dx - 1 - dx / 2;
      assert n == (n / dx) * dx + n % dx;
    }
  }

  /** Neighbouring pixels touch: one step along, at most one across, always the same way. */
  lemma Connected(dx: nat, dy: nat, k: nat)
    requires dy <= dx
    ensures 0 <= Sideways(dx, dy, k + 1) - Sideways(dx, dy, k) <= 1
  {
    if dx > 0 {
      var n := k * dy + dx - 1 - dx / 2;
      var q, rest := n / dx, n % dx;
      assert n == q * dx + rest && (k + 1) * dy + dx - 1 - dx / 2 == n + dy;
      if rest + dy < dx {
        DivIs(n + dy, dx, q, rest + dy);
      } else {
        assert (q + 1) * dx == q * dx + dx;
        DivIs(n + dy, dx, q + 1, rest + dy - dx);
      }
    }
  }
}
