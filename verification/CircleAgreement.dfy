/** A circle and the disc of the same radius have the same edge. */
module CircleAgreement {
  import opened Basics
  import opened Circle

  /** A point of the octant that is past the diagonal is the last one and lies just below it. */
  lemma PastDiagonal(r: nat, points: seq<(nat, nat)>, k: nat)
    requires IsOctant(r, points) && k < |points| && points[k].1 < points[k].0
    ensures k == |points| - 1 && points[k] == (k + 1, k)
  {
  }

  /** No column up to the diagonal is missing from the octant. */
  lemma ReachesColumn(r: nat, points: seq<(nat, nat)>, x: nat, y: nat)
    requires IsOctant(r, points) && 1 <= x <= y && r > 0 && Nearest(r, x, y)
    ensures x <= |points|
  {
    var n := |points|;
    if n < x {
      var last := points[n - 1].1;
      assert IsNear(r, n, last);
      SquareOrder(n + 1, x);
      ProductOrder(n + 1, y);
      SquareNext(n);
      SquareNext(n - 1);
    }
  }

  lemma ProductOrder(a: nat, b: nat)
    requires 1 <= a <= b
    ensures a * a - a <= b * b - b
  {
    assert b * b - b == b * (b - 1) && a * a - a == a * (a - 1);
    MulOrder(a, b, b - 1);
    MulOrder(a - 1, b - 1, a);
  }

  /** Up to the diagonal the octant has the nearest height. */
  lemma OctantAt(r: nat, points: seq<(nat, nat)>, x: nat, y: nat)
    requires IsOctant(r, points) && 1 <= x <= y && r > 0 && Nearest(r, x, y)
    ensures x <= |points| && points[x - 1] == (x, y)
  {
    ReachesColumn(r, points, x, y);
    var z := points[x - 1].1;
    assert points[x - 1].0 == x && IsNear(r, x, z);
    if x <= z {
      NearestUnique(r, x, y, z);
    } else {
      PastDiagonal(r, points, x - 1);
      ProductOrder(x, y);
      SquareNext(x - 1);
    }
  }

  /** The filled column at distance `c` ends at a point of the octant: its own, or a mirrored one. */
  lemma HeightIsOctant(r: nat, points: seq<(nat, nat)>, c: nat, h: nat)
    requires IsOctant(r, points) && 1 <= c <= r && IsHeight(r, c, h)
    ensures c <= h ==> c <= |points| && points[c - 1] == (c, h)
    ensures 0 < h < c ==> h <= |points| && points[h - 1] == (h, c)
    ensures h == 0 ==> c == r
  {
    if c <= h {
      OctantAt(r, points, c, h);
    } else if h > 0 {
      OctantAt(r, points, h, c);
    } else {
      AtAxis(r, c);
    }
  }

  lemma AtAxis(r: nat, c: nat)
    requires 1 <= c <= r && Nearest(r, 0, c)
    ensures c == r
  {
    if c < r {
      SquareOrder(c + 1, r);
      SquareNext(c);
    }
  }

  /** No point of the octant over column `c` is higher than the filled column. */
  lemma PointBelow(r: nat, points: seq<(nat, nat)>, c: nat, h: nat)
    requires IsOctant(r, points) && 1 <= c <= r && IsHeight(r, c, h) && c <= |points|
    ensures points[c - 1].1 <= h
  {
    var z := points[c - 1].1;
    assert points[c - 1].0 == c && IsNear(r, c, z);
    if c <= h {
      OctantAt(r, points, c, h);
    } else if c <= z {
      OneSideOfDiagonal(r, c, z, h);
    } else if h < z {
      PastDiagonal(r, points, c - 1);
      SquareOrder(h + 1, c - 1);
      SquareNext(c - 1);
    }
  }

  /** Nor is a mirrored one. */
  lemma MirrorBelow(r: nat, points: seq<(nat, nat)>, c: nat, h: nat, k: nat)
    requires IsOctant(r, points) && 1 <= c <= r && IsHeight(r, c, h) && k < |points| && points[k].1 == c
    ensures points[k].0 <= h
  {
    var x := points[k].0;
    assert IsNear(r, x, c);
    if h < x {
      SquareOrder(h + 1, x);
      SquareNext(h);
      if h < c {
        if x <= c {
          LastOfLevel(r, c, h, x);
        } else {
          PastDiagonal(r, points, k);
          SquareNext(c);
          SquareOrder(h, c - 1);
          SquareNext(c - 1);
        }
      }
    }
  }

  // ------------------------------------------------------------ pixels

  lemma {:induction false} ReflectedHas(x0: int, y0: int, points: seq<(nat, nat)>, k: nat, p: Pixel)
    requires k < |points| && p in Eight(x0, y0, points[k].0, points[k].1)
    ensures p in Reflected(x0, y0, points)
  {
    if k < |points| - 1 {
      hide Eight;
      ReflectedHas(x0, y0, points[..|points| - 1], k, p);
    }
  }

  lemma {:induction false} ReflectedOnly(x0: int, y0: int, points: seq<(nat, nat)>, p: Pixel) returns (k: nat)
    requires p in Reflected(x0, y0, points)
    ensures k < |points| && p in Eight(x0, y0, points[k].0, points[k].1)
  {
    hide Eight;
    k := |points| - 1;
    if p !in Eight(x0, y0, points[k].0, points[k].1) {
      k := ReflectedOnly(x0, y0, points[..|points| - 1], p);
    }
  }

  /** A column whose two ends are drawn and that contains all pixels over it. */
  ghost predicate EndsAt(pixels: seq<Pixel>, l: VLine) {
    && Pixel(l.x, l.y) in pixels && Pixel(l.x, l.y + l.h - 1) in pixels
    && forall p :: p in pixels && p.x == l.x ==> l.y <= p.y <= l.y + l.h - 1
  }

  lemma PixelInside(x0: int, y0: int, r: nat, points: seq<(nat, nat)>, c: nat, h: nat, p: Pixel)
    requires IsOctant(r, points) && 1 <= c <= r && IsHeight(r, c, h) && Abs(p.x - x0) == c
    requires p in AxisPixels(x0, y0, r) + Reflected(x0, y0, points)
    ensures Abs(p.y - y0) <= h
  {
    hide IsHeight, Reflected, IsOctant;
    if p !in AxisPixels(x0, y0, r) {
      var k := ReflectedOnly(x0, y0, points, p);
      PixelOfPoint(x0, y0, r, points, c, h, k, p);
    }
  }

  lemma PixelOfPoint(x0: int, y0: int, r: nat, points: seq<(nat, nat)>, c: nat, h: nat, k: nat, p: Pixel)
    requires IsOctant(r, points) && 1 <= c <= r && IsHeight(r, c, h) && Abs(p.x - x0) == c
    requires k < |points| && p in Eight(x0, y0, points[k].0, points[k].1)
    ensures Abs(p.y - y0) <= h
  {
    hide IsHeight, IsNear;
    assert points[k].0 == k + 1;
    var x, y := points[k].0, points[k].1;
    if x == c {
      PointBelow(r, points, c, h);
    }
    if y == c {
      MirrorBelow(r, points, c, h, k);
    }
    PixelIs(x0, y0, x, y, p);
  }

  lemma PixelIs(x0: int, y0: int, x: nat, y: nat, p: Pixel)
    requires p in Eight(x0, y0, x, y)
    ensures (Abs(p.x - x0) == x && Abs(p.y - y0) == y) || (Abs(p.x - x0) == y && Abs(p.y - y0) == x)
  {
  }

  lemma EndsDrawn(x0: int, y0: int, r: nat, points: seq<(nat, nat)>, c: nat, h: nat, x: int)
    requires IsOctant(r, points) && 1 <= c <= r && IsHeight(r, c, h) && (x == x0 + c || x == x0 - c)
    ensures var pixels := AxisPixels(x0, y0, r) + Reflected(x0, y0, points);
      Pixel(x, y0 - h) in pixels && Pixel(x, y0 + h) in pixels
  {
    hide Reflected;
    HeightIsOctant(r, points, c, h);
    if h > 0 {
      var k := if c <= h then c - 1 else h - 1;
      ReflectedHas(x0, y0, points, k, Pixel(x, y0 - h));
      ReflectedHas(x0, y0, points, k, Pixel(x, y0 + h));
    } else {
      var axes := AxisPixels(x0, y0, r);
      assert axes[2] == Pixel(x0 + c, y0) && axes[3] == Pixel(x0 - c, y0);
    }
  }

  /** Each column of a filled half circle ends at the outline and contains all outline pixels over it. */
  lemma ColumnEnds(x0: int, y0: int, r: nat, pixels: seq<Pixel>, l: VLine)
    requires IsOutline(x0, y0, r, pixels) && IsColumn(x0, y0, r, 0, l)
    ensures EndsAt(pixels, l)
  {
    hide IsHeight, Reflected, IsOctant;
    var points: seq<(nat, nat)> :| IsOctant(r, points) && pixels == AxisPixels(x0, y0, r) + Reflected(x0, y0, points);
    var c, h := Abs(l.x - x0), y0 - l.y;
    EndsDrawn(x0, y0, r, points, c, h, l.x);
    forall p | p in pixels && p.x == l.x ensures l.y <= p.y <= l.y + l.h - 1 {
      PixelInside(x0, y0, r, points, c, h, p);
    }
  }

  /** So does the middle column. */
  lemma MiddleEnds(x0: int, y0: int, r: nat, pixels: seq<Pixel>)
    requires IsOutline(x0, y0, r, pixels)
    ensures EndsAt(pixels, VLine(x0, y0 - r, 2 * r + 1))
  {
    hide Reflected, IsOctant;
    var points: seq<(nat, nat)> :| IsOctant(r, points) && pixels == AxisPixels(x0, y0, r) + Reflected(x0, y0, points);
    var axes := AxisPixels(x0, y0, r);
    assert axes[1] == Pixel(x0, y0 - r) && axes[0] == Pixel(x0, y0 + r);
    forall p | p in pixels && p.x == x0 ensures y0 - r <= p.y <= y0 + r {
      if p !in axes {
        var k := ReflectedOnly(x0, y0, points, p);
        OctantHeights(r, points, k);
        PixelIs(x0, y0, points[k].0, points[k].1, p);
      }
    }
  }

  /** Points of the octant stay within the radius. */
  lemma OctantHeights(r: nat, points: seq<(nat, nat)>, k: nat)
    requires IsOctant(r, points) && k < |points|
    ensures 1 <= points[k].0 <= r && points[k].1 <= r
  {
    var x, y := points[k].0, points[k].1;
    assert points[k].0 == k + 1 && IsNear(r, x, y);
    if x <= y && y > r {
      TooHigh(r, x, y);
    } else if y < x {
      PastDiagonal(r, points, k);
      if x > r {
        SquareOrder(r + 1, x);
        SquareOrder(r, y);
        SquareNext(r);
        SquareNext(y);
      }
    }
  }

  /** `drawCircle` and `fillCircle` with the same arguments: in every column of the disc the top and the bottom
      pixel are the topmost and the lowest pixel of the circle. */
  lemma CircleIsEdgeOfDisc(x0: int, y0: int, r: nat, pixels: seq<Pixel>, lines: seq<VLine>, i: nat)
    requires IsOutline(x0, y0, r, pixels) && i < |lines|
    requires lines[0] == VLine(x0, y0 - r, 2 * r + 1) && AreColumns(x0, y0, r, 0, lines[1..])
    ensures EndsAt(pixels, lines[i])
  {
    hide IsColumn, IsOutline, EndsAt;
    if i == 0 {
      MiddleEnds(x0, y0, r, pixels);
    } else {
      assert lines[i] == lines[1..][i - 1];
      ColumnEnds(x0, y0, r, pixels, lines[i]);
    }
  }
}
