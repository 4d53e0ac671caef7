/** Midpoint circles of Adafruit_GFX: outline, filled circle and rounded rectangle. */
module Circle {
  import opened Basics

  datatype Pixel = Pixel(x: int, y: int)

  /** A call of `writeFastVLine`: column, top and height. */
  datatype VLine = VLine(x: int, y: int, h: int)

  /** The variables of the loop, inside and after it. */
  predicate Midpoint(r: nat, x: nat, y: nat, f: int, ddFx: int, ddFy: int) {
    && y <= r && x <= y + 1 && ddFx == 2 * x + 1 && ddFy == -2 * y
    && f == (x + 1) * (x + 1) + y * y - y - r * r
    && 2 * x + 1 - 2 * y <= f <= 2 * x + 1 && (x <= y && r > 0 ==> f <= 2 * x)
  }

  /** Of all integers, `y` is nearest to the height of the true circle over `x`. */
  predicate Nearest(r: nat, x: nat, y: nat) {
    y * y - y < r * r - x * x <= y * y + y
  }

  lemma SquareNext(v: int)
    ensures (v + 1) * (v + 1) == v * v + 2 * v + 1
  {
  }

  lemma MidpointStart(r: nat)
    ensures Midpoint(r, 0, r, 1 - r, 1, -2 * r)
  {
  }

  /** One turn of the loop. */
  lemma MidpointStep(r: nat, x: nat, y: nat, f: int, ddFx: int, ddFy: int)
    requires Midpoint(r, x, y, f, ddFx, ddFy) && x < y
    ensures f >= 0 ==> Midpoint(r, x + 1, y - 1, f + (ddFy + 2) + (ddFx + 2), ddFx + 2, ddFy + 2)
    ensures f < 0 ==> Midpoint(r, x + 1, y, f + (ddFx + 2), ddFx + 2, ddFy)
  {
    SquareNext(x + 1);
    SquareNext(y - 1);
  }

  /** The int16 variables of the loop hold their values. */
  lemma MidpointFits(r: nat, x: nat, y: nat, f: int, ddFx: int, ddFy: int)
    requires Midpoint(r, x, y, f, ddFx, ddFy) && r <= 16383
    ensures Int16(f) && Int16(ddFx) && Int16(ddFy) && (x < y && f >= 0 ==> Int16(f + (ddFy + 2)))
  {
  }

  /** Points of the loop lie on the circle as closely as integers allow. */
  lemma MidpointNear(r: nat, x: nat, y: nat, f: int, ddFx: int, ddFy: int)
    requires Midpoint(r, x, y, f, ddFx, ddFy)
    ensures y <= r && x <= y + 1 && Abs(x * x + y * y - r * r) <= y
    ensures x <= y && r > 0 ==> Nearest(r, x, y)
  {
    SquareNext(x);
  }

  /** There is only one nearest height. */
  lemma NearestUnique(r: nat, x: nat, y: nat, z: nat)
    requires Nearest(r, x, y) && Nearest(r, x, z)
    ensures y == z
  {
    if y < z {
      Monotone(y, z);
    } else if z < y {
      Monotone(z, y);
    }
  }

  lemma Monotone(y: nat, z: nat)
    requires y < z
    ensures y * y + y <= z * z - z
  {
    assert z * z - z == (z - 1) * z;
    assert (y + 1) * y <= (z - 1) * z;
  }

  // ------------------------------------------------------------ the outline

  /** A point of the octant: on the circle within `y`, and the nearest one up to the diagonal. */
  predicate IsNear(r: nat, x: nat, y: nat) {
    Abs(x * x + y * y - r * r) <= y && (x <= y ==> Nearest(r, x, y))
  }

  ghost predicate AreNear(r: nat, points: seq<(nat, nat)>) {
    && (forall k :: 0 <= k < |points| ==> points[k].0 == k + 1 && IsNear(r, k + 1, points[k].1))
    && (forall k :: 0 <= k < |points| - 1 ==> points[k].0 < points[k].1)
  }

  /** What one octant of the loop visits: one point for each x, until the diagonal is reached or just passed. */
  ghost predicate IsOctant(r: nat, points: seq<(nat, nat)>) {
    && AreNear(r, points)
    && (if |points| == 0 then r == 0 else points[|points| - 1].1 <= |points| <= points[|points| - 1].1 + 1)
  }

  /** The eight reflections of a point. */
  function Eight(x0: int, y0: int, x: int, y: int): seq<Pixel> {
    [Pixel(x0 + x, y0 + y), Pixel(x0 - x, y0 + y), Pixel(x0 + x, y0 - y), Pixel(x0 - x, y0 - y),
     Pixel(x0 + y, y0 + x), Pixel(x0 - y, y0 + x), Pixel(x0 + y, y0 - x), Pixel(x0 - y, y0 - x)]
  }

  function Reflected(x0: int, y0: int, points: seq<(nat, nat)>): seq<Pixel> {
    if |points| == 0 then []
    else Reflected(x0, y0, points[..|points| - 1]) + Eight(x0, y0, points[|points| - 1].0, points[|points| - 1].1)
  }

  function AxisPixels(x0: int, y0: int, r: nat): seq<Pixel> {
    [Pixel(x0, y0 + r), Pixel(x0, y0 - r), Pixel(x0 + r, y0), Pixel(x0 - r, y0)]
  }

  /** The four pixels on the axes and the reflections of the points of an octant. */
  ghost predicate IsOutline(x0: int, y0: int, r: nat, pixels: seq<Pixel>) {
    exists points :: IsOctant(r, points) && pixels == AxisPixels(x0, y0, r) + Reflected(x0, y0, points)
  }

  /** `drawCircle`: the pixels written. */
  method DrawCircle(x0: int, y0: int, r: nat) returns (pixels: seq<Pixel>)
    requires r <= 16383 && Int16(x0 - r) && Int16(x0 + r) && Int16(y0 - r) && Int16(y0 + r)
    ensures IsOutline(x0, y0, r, pixels)
  {
    hide Midpoint, Nearest, Abs, Reflected, IsNear;
    var f, ddFx, ddFy, x, y: int := 1 - r, 1, -2 * r, 0, r;
    ghost var axes := AxisPixels(x0, y0, r);
    pixels := [Pixel(x0, y0 + r), Pixel(x0, y0 - r), Pixel(x0 + r, y0), Pixel(x0 - r, y0)];
    ghost var points: seq<(nat, nat)> := [];
    MidpointStart(r);
    NothingReflected(x0, y0);
    while x < y
      invariant 0 <= x && 0 <= y && Midpoint(r, x, y, f, ddFx, ddFy)
      invariant |points| == x && AreNear(r, points)
      invariant if x > 0 then points[x - 1] == (x, y) && x <= y + 1 else y == r
      invariant pixels == axes + Reflected(x0, y0, points)
      decreases y - x
    {
      MidpointStep(r, x, y, f, ddFx, ddFy);
      MidpointFits(r, x, y, f, ddFx, ddFy);
      if f >= 0 {
        y, ddFy := y - 1, ddFy + 2;
        f := f + ddFy;
        assert Int16(f);
      }
      x, ddFx := x + 1, ddFx + 2;
      f := f + ddFx;
      MidpointFits(r, x, y, f, ddFx, ddFy);
      assert Int16(f) && Int16(ddFx) && Int16(ddFy);
      PointIsNear(r, x, y, f, ddFx, ddFy);
      ReflectedNext(x0, y0, points, x, y);
      points := points + [(x, y)];
      pixels := pixels + Eight(x0, y0, x, y);
    }
  }

  lemma PointIsNear(r: nat, x: nat, y: nat, f: int, ddFx: int, ddFy: int)
    requires Midpoint(r, x, y, f, ddFx, ddFy) && x > 0
    ensures IsNear(r, x, y) && x <= y + 1
  {
    MidpointNear(r, x, y, f, ddFx, ddFy);
  }

  lemma NothingReflected(x0: int, y0: int)
    ensures Reflected(x0, y0, []) == []
  {
  }

  lemma ReflectedNext(x0: int, y0: int, points: seq<(nat, nat)>, x: nat, y: nat)
    ensures Reflected(x0, y0, points + [(x, y)]) == Reflected(x0, y0, points) + Eight(x0, y0, x, y)
  {
    assert (points + [(x, y)])[..|points|] == points;
  }

  // ------------------------------------------------------------ filled shapes

  /** How often column `c` is drawn. */
  function Count(lines: seq<VLine>, c: int): nat {
    if |lines| == 0 then 0 else Count(lines[..|lines| - 1], c) + (if lines[|lines| - 1].x == c then 1 else 0)
  }

  /** `h` is the height of the outline over column `c`: up to the diagonal the nearest height; beyond it the last
      x for which the outline is at `c`. */
  predicate IsHeight(r: nat, c: nat, h: nat) {
    if c <= h then Nearest(r, c, h) else Nearest(r, h, c) && !Nearest(r, h + 1, c)
  }

  /** A column of a filled quarter: centred on the middle line of height `delta + 1`. */
  predicate IsColumn(x0: int, y0: int, r: nat, delta: int, l: VLine) {
    && 1 <= Abs(l.x - x0) <= r && l.y <= y0 && IsHeight(r, Abs(l.x - x0), y0 - l.y)
    && l.h == 2 * (y0 - l.y) + delta + 1
  }

  /** Column `c` at distance 1 to `d` or `e + 1` to `r` of the centre, on a side that is wanted. */
  function Drawn(x0: int, right: bool, left: bool, d: nat, e: nat, r: nat, c: int): nat {
    if right && (1 <= c - x0 <= d || e < c - x0 <= r) then 1
    else if left && (1 <= x0 - c <= d || e < x0 - c <= r) then 1 else 0
  }

  ghost predicate Covers(lines: seq<VLine>, x0: int, right: bool, left: bool, d: nat, e: nat, r: nat) {
    forall c :: Count(lines, c) == Drawn(x0, right, left, d, e, r, c)
  }

  /** The two columns at distance `k`, where wanted. */
  function Pair(x0: int, right: bool, left: bool, k: nat, top: int, h: int): seq<VLine> {
    (if right then [VLine(x0 + k, top, h)] else []) + (if left then [VLine(x0 - k, top, h)] else [])
  }

  lemma CountPair(lines: seq<VLine>, x0: int, right: bool, left: bool, k: nat, top: int, h: int, c: int)
    requires k > 0
    ensures Count(lines + Pair(x0, right, left, k, top, h), c)
         == Count(lines, c) + (if (right && c == x0 + k) || (left && c == x0 - k) then 1 else 0)
  {
    var a := if right then [VLine(x0 + k, top, h)] else [];
    var b := if left then [VLine(x0 - k, top, h)] else [];
    CountJoin(lines, a + b, c);
    CountJoin(a, b, c);
    CountOne(VLine(x0 + k, top, h), c);
    CountOne(VLine(x0 - k, top, h), c);
  }

  lemma ExtendFront(lines: seq<VLine>, x0: int, right: bool, left: bool, d: nat, e: nat, r: nat, top: int, h: int)
    requires Covers(lines, x0, right, left, d, e, r) && d < e <= r
    ensures Covers(lines + Pair(x0, right, left, d + 1, top, h), x0, right, left, d + 1, e, r)
  {
    hide Count, Pair;
    var more := lines + Pair(x0, right, left, d + 1, top, h);
    forall c ensures Count(more, c) == Drawn(x0, right, left, d + 1, e, r, c) {
      CountPair(lines, x0, right, left, d + 1, top, h, c);
    }
  }

  lemma ExtendBack(lines: seq<VLine>, x0: int, right: bool, left: bool, d: nat, e: nat, r: nat, top: int, h: int)
    requires Covers(lines, x0, right, left, d, e, r) && d < e <= r
    ensures Covers(lines + Pair(x0, right, left, e, top, h), x0, right, left, d, e - 1, r)
  {
    hide Count, Pair;
    var more := lines + Pair(x0, right, left, e, top, h);
    forall c ensures Count(more, c) == Drawn(x0, right, left, d, e - 1, r, c) {
      CountPair(lines, x0, right, left, e, top, h, c);
    }
  }

  ghost predicate AreColumns(x0: int, y0: int, r: nat, delta: int, lines: seq<VLine>) {
    forall i :: 0 <= i < |lines| ==> IsColumn(x0, y0, r, delta, lines[i])
  }

  lemma PairColumns(x0: int, y0: int, r: nat, delta: int, right: bool, left: bool, c: nat, h: nat)
    requires 1 <= c <= r && IsHeight(r, c, h)
    ensures AreColumns(x0, y0, r, delta, Pair(x0, right, left, c, y0 - h, 2 * h + delta + 1))
  {
    hide IsHeight;
  }

  lemma NothingCovered(x0: int, right: bool, left: bool, r: nat)
    ensures Covers([], x0, right, left, 0, r, r)
  {
  }

  lemma MidpointHeight(r: nat, x: nat, y: nat, f: int, ddFx: int, ddFy: int)
    requires Midpoint(r, x, y, f, ddFx, ddFy)
    ensures x <= y && r > 0 ==> IsHeight(r, x, y)
    ensures x < y && f >= 0 ==> IsHeight(r, y, x)
  {
    SquareNext(x);
  }

  /** `fillCircleHelper`; `right` and `left` are the two bits of `corners`.  Every column at a distance from 1 to
      `r` is drawn once on each wanted side, with the height of the outline. */
  method FillCircleHelper(x0: int, y0: int, r: nat, right: bool, left: bool, delta: int) returns (lines: seq<VLine>)
    requires r <= 16383 && (right ==> Int16(x0 + r)) && (left ==> Int16(x0 - r)) && Int16(y0 - r)
    requires Int16(delta + 1) && Int16(2 * r + delta + 1)
    ensures AreColumns(x0, y0, r, delta, lines) && Covers(lines, x0, right, left, r, r, r)
  {
    hide Midpoint, IsColumn, IsHeight, Covers, Pair;
    var f, ddFx, ddFy, x, y: int := 1 - r, 1, -2 * r, 0, r;
    var px, py := x, y;
    var d1 := delta + 1;
    lines := [];
    MidpointStart(r);
    NothingCovered(x0, right, left, r);
    while x < y
      invariant 0 <= x && 0 <= y <= r && x <= y + 1 && Midpoint(r, x, y, f, ddFx, ddFy) && px == x && py == y
      invariant AreColumns(x0, y0, r, delta, lines)
      invariant Covers(lines, x0, right, left, if x <= y then x else y, y, r)
      decreases y - x
    {
      MidpointStep(r, x, y, f, ddFx, ddFy);
      MidpointFits(r, x, y, f, ddFx, ddFy);
      MidpointHeight(r, x, y, f, ddFx, ddFy);
      if f >= 0 {
        y, ddFy := y - 1, ddFy + 2;
        f := f + ddFy;
        assert Int16(f);
      }
      x, ddFx := x + 1, ddFx + 2;
      f := f + ddFx;
      MidpointFits(r, x, y, f, ddFx, ddFy);
      assert Int16(f) && Int16(ddFx) && Int16(ddFy);
      MidpointHeight(r, x, y, f, ddFx, ddFy);
      if x < y + 1 {
        PairColumns(x0, y0, r, delta, right, left, x, y);
        ExtendFront(lines, x0, right, left, px, py, r, y0 - y, 2 * y + d1);
        lines := lines + Pair(x0, right, left, x, y0 - y, 2 * y + d1);
      }
      if y != py {
        PairColumns(x0, y0, r, delta, right, left, py, px);
        ExtendBack(lines, x0, right, left, if x <= y then x else y, py, r, y0 - px, 2 * px + d1);
        lines := lines + Pair(x0, right, left, py, y0 - px, 2 * px + d1);
        py := y;
      }
      px := x;
    }
    AllCovered(lines, x0, right, left, y, r);
  }

  lemma AllCovered(lines: seq<VLine>, x0: int, right: bool, left: bool, d: nat, r: nat)
    requires Covers(lines, x0, right, left, d, d, r) && d <= r
    ensures Covers(lines, x0, right, left, r, r, r)
  {
    hide Count;
  }

  lemma {:induction false} CountJoin(a: seq<VLine>, b: seq<VLine>, c: int)
    ensures Count(a + b, c) == Count(a, c) + Count(b, c)
  {
    if |b| == 0 {
      assert a + b == a;
    } else {
      CountJoin(a, b[..|b| - 1], c);
      assert (a + b)[..|a + b| - 1] == a + b[..|b| - 1];
    }
  }

  /** `fillCircle`: every column from `x0 - r` to `x0 + r` is drawn exactly once. */
  method FillCircle(x0: int, y0: int, r: nat) returns (lines: seq<VLine>)
    requires r <= 16383 && Int16(x0 - r) && Int16(x0 + r) && Int16(y0 - r)
    ensures forall c :: Count(lines, c) == if x0 - r <= c <= x0 + r then 1 else 0
    ensures |lines| > 0 && lines[0] == VLine(x0, y0 - r, 2 * r + 1) && AreColumns(x0, y0, r, 0, lines[1..])
  {
    hide AreColumns, Count;
    var middle := [VLine(x0, y0 - r, 2 * r + 1)];
    var sides := FillCircleHelper(x0, y0, r, true, true, 0);
    lines := middle + sides;
    assert lines[1..] == sides;
    forall c ensures Count(lines, c) == if x0 - r <= c <= x0 + r then 1 else 0 {
      CountJoin(middle, sides, c);
      CountOne(middle[0], c);
    }
  }

  lemma CountOne(l: VLine, c: int)
    ensures Count([l], c) == if l.x == c then 1 else 0
  {
    assert [l][..0] == [];
  }

  lemma SquareOrder(a: nat, b: nat)
    requires a <= b
    ensures a * a <= b * b
  {
    assert b * b - a * a == (b - a) * (b + a);
  }

  /** The conditions on the height of a filled column leave one value: fill and outline agree. */
  lemma HeightUnique(r: nat, c: nat, h: nat, g: nat)
    requires 1 <= c <= r && IsHeight(r, c, h) && IsHeight(r, c, g)
    ensures h == g
  {
    if c <= h && c <= g {
      NearestUnique(r, c, h, g);
    } else if h < c && g < c {
      if h < g {
        LastOfLevel(r, c, h, g);
      } else if g < h {
        LastOfLevel(r, c, g, h);
      }
    } else if g < c {
      OneSideOfDiagonal(r, c, h, g);
    } else {
      OneSideOfDiagonal(r, c, g, h);
    }
  }

  lemma LastOfLevel(r: nat, c: nat, h: nat, g: nat)
    requires h < g && Nearest(r, h, c) && Nearest(r, g, c)
    ensures Nearest(r, h + 1, c)
  {
    SquareOrder(h, h + 1);
    SquareOrder(h + 1, g);
  }

  lemma OneSideOfDiagonal(r: nat, c: nat, h: nat, g: nat)
    requires g < c <= h && Nearest(r, c, h) && Nearest(r, g, c)
    ensures Nearest(r, g + 1, c)
  {
    SquareNext(h - 1);
    SquareNext(h - 2);
    if c < h {
      SquareOrder(g, h - 2);
    } else if g + 1 < c {
      SquareOrder(g, h - 2);
    }
  }

  // ------------------------------------------------------------ rounded rectangle

  /** `fillRect`: one line for each column. */
  method FillRect(x: int, y: int, w: int, h: int) returns (lines: seq<VLine>)
    requires Int16(x) && Int16(y) && Int16(w) && Int16(h) && Int16(x + w)
    ensures forall c :: Count(lines, c) == if x <= c < x + w then 1 else 0
    ensures forall i :: 0 <= i < |lines| ==> lines[i].y == y && lines[i].h == h
  {
    hide Count;
    lines := [];
    var i := x;
    assert forall c :: Count([], c) == 0 by { CountNone(); }
    while i < x + w
      invariant x <= i && (i <= x + w || i == x)
      invariant forall c :: Count(lines, c) == if x <= c < i then 1 else 0
      invariant forall k :: 0 <= k < |lines| ==> lines[k].y == y && lines[k].h == h
    {
      var l := VLine(i, y, h);
      CountPush(lines, l);
      lines := lines + [l];
      i := i + 1;
    }
  }

  lemma CountNone()
    ensures forall c :: Count([], c) == 0
  {
  }

  lemma CountPush(lines: seq<VLine>, l: VLine)
    ensures forall c :: Count(lines + [l], c) == Count(lines, c) + (if l.x == c then 1 else 0)
  {
    assert (lines + [l])[..|lines|] == lines;
  }

  /** As far from the top edge as from the bottom edge. */
  predicate Centred(y: int, h: int, l: VLine) {
    l.y >= y && l.y - y == (y + h) - (l.y + l.h)
  }

  lemma ColumnsCentred(x0: int, y: int, h: int, r: nat, lines: seq<VLine>)
    requires 2 * r <= h && AreColumns(x0, y + r, r, h - 2 * r - 1, lines)
    ensures forall i :: 0 <= i < |lines| ==> Centred(y, h, lines[i])
  {
    forall i | 0 <= i < |lines| ensures Centred(y, h, lines[i]) {
      HeightBound(r, Abs(lines[i].x - x0), y + r - lines[i].y);
    }
  }

  lemma HeightBound(r: nat, c: nat, h: nat)
    requires 1 <= c && IsHeight(r, c, h)
    ensures h <= r
  {
    var x, y := if c <= h then c else h, if c <= h then h else c;
    if h > r {
      SquareOrder(r + 1, h);
      SquareNext(r);
      if c <= h {
        SquareOrder(1, c);
        TooHigh(r, c, h);
      } else {
        SquareOrder(r + 1, c);
        TooHigh(r, h, c);
      }
    }
  }

  lemma TooHigh(r: nat, x: nat, y: nat)
    requires y > r && x > 0
    ensures !Nearest(r, x, y)
  {
    SquareOrder(1, x);
    assert y * y - y == (y - 1) * y;
    assert (y - 1) * y >= r * (r + 1);
  }

  /** `fillRoundRect`: every column from `x` to `x + w - 1` is drawn exactly once, centred. */
  method FillRoundRect(x: int, y: int, w: int, h: int, radius: nat) returns (lines: seq<VLine>)
    requires 1 <= w <= 32767 && 1 <= h <= 32767 && Int16(x) && Int16(y) && Int16(x + w) && Int16(y + h)
    ensures forall c :: Count(lines, c) == if x <= c < x + w then 1 else 0
    ensures forall i :: 0 <= i < |lines| ==> Centred(y, h, lines[i])
  {
    hide Count, AreColumns;
    var maxRadius := (if w < h then w else h) / 2;
    var r := if radius > maxRadius then maxRadius else radius;
    var middle := FillRect(x + r, y, w - 2 * r, h);
    var right := FillCircleHelper(x + w - r - 1, y + r, r, true, false, h - 2 * r - 1);
    var left := FillCircleHelper(x + r, y + r, r, false, true, h - 2 * r - 1);
    lines := middle + right + left;
    ColumnsCentred(x + w - r - 1, y, h, r, right);
    ColumnsCentred(x + r, y, h, r, left);
    forall c ensures Count(lines, c) == if x <= c < x + w then 1 else 0 {
      CountJoin(middle + right, left, c);
      CountJoin(middle, right, c);
    }
  }
}
