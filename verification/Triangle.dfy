/** Scan conversion of filled triangles (`fillTriangle`). */
module Triangle {
  import opened Basics

  datatype Vertex = Vertex(x: int, y: int)

  /** A call of `writeFastHLine`: left end, line and width. */
  datatype HLine = HLine(x: int, y: int, w: int)

  /** C's division, which truncates toward zero. */
  function Quot(n: int, d: int): int
    requires d > 0
  {
    if n >= 0 then n / d else -(-n / d)
  }

  /** The crossing of line `y` with the edge from `p` to `q`, as the comments in the source write it. */
  function Crossing(p: Vertex, q: Vertex, y: int): int
    requires p.y < q.y
  {
    p.x + Quot((q.x - p.x) * (y - p.y), q.y - p.y)
  }

  /** The line at `y` of a triangle with `v0`, `v1`, `v2` from top to bottom. */
  function Span(v0: Vertex, v1: Vertex, v2: Vertex, y: int): HLine
    requires v0.y <= v1.y <= v2.y && v0.y < v2.y && v0.y <= y <= v2.y
  {
    var a := if v1.y == v2.y || y < v1.y then Crossing(v0, v1, y) else Crossing(v1, v2, y);
    var b := Crossing(v0, v2, y);
    HLine(Min(a, b), y, Max(a, b) - Min(a, b) + 1)
  }

  /** All lines of the triangle, top to bottom; a flat one is a single line. */
  function Spans(v0: Vertex, v1: Vertex, v2: Vertex): (s: seq<HLine>)
    requires v0.y <= v1.y <= v2.y
    ensures |s| == v2.y - v0.y + 1
  {
    if v0.y == v2.y then
      var left, right := Min(v0.x, Min(v1.x, v2.x)), Max(v0.x, Max(v1.x, v2.x));
      [HLine(left, v0.y, right - left + 1)]
    else seq(v2.y - v0.y + 1, k requires 0 <= k < v2.y - v0.y + 1 => Span(v0, v1, v2, v0.y + k))
  }

  predicate NoWrap(p: Vertex, q: Vertex) {
    && -32767 <= p.x <= 32766 && -32767 <= p.y <= 32766
    && Abs(q.x - p.x) <= 32766 && Abs(q.y - p.y) <= 32766
  }

  lemma MulNext(d: int, t: int)
    ensures d * (t + 1) == d * t + d && d * 0 == 0
  {
  }

  /** The lines of the triangle with these vertices in some order from top to bottom. */
  ghost predicate FillsTriangle(lines: seq<HLine>, p: Vertex, q: Vertex, r: Vertex) {
    exists v0: Vertex, v1: Vertex, v2: Vertex ::
      && v0.y <= v1.y <= v2.y && multiset{v0, v1, v2} == multiset{p, q, r}
      && lines == Spans(v0, v1, v2)
  }

  /** The three swaps at the start of `fillTriangle`. */
  method SortByLine(p: Vertex, q: Vertex, r: Vertex) returns (v0: Vertex, v1: Vertex, v2: Vertex)
    ensures v0.y <= v1.y <= v2.y && multiset{v0, v1, v2} == multiset{p, q, r}
  {
    v0, v1, v2 := p, q, r;
    if v0.y > v1.y {
      v0, v1 := v1, v0;
    }
    if v1.y > v2.y {
      v2, v1 := v1, v2;
    }
    if v0.y > v1.y {
      v0, v1 := v1, v0;
    }
  }

  /** All pairs of vertices are as close as the pairs of the arguments. */
  lemma SortedNoWrap(p: Vertex, q: Vertex, r: Vertex, v0: Vertex, v1: Vertex, v2: Vertex)
    requires multiset{v0, v1, v2} == multiset{p, q, r} && NoWrap(p, q) && NoWrap(q, r) && NoWrap(r, p)
    ensures NoWrap(v0, v1) && NoWrap(v1, v2) && NoWrap(v2, v0)
  {
    var m := multiset{p, q, r};
    assert v0 in m && v1 in m && v2 in m;
  }

  /** The lines are drawn for the vertices in the order of their lines, whatever the order of the arguments. */
  method FillTriangle(p: Vertex, q: Vertex, r: Vertex)
    returns (lines: seq<HLine>)
    requires NoWrap(p, q) && NoWrap(q, r) && NoWrap(r, p)
    ensures FillsTriangle(lines, p, q, r)
  {
    hide Span, Crossing, Spans, NoWrap;
    var v0, v1, v2 := SortByLine(p, q, r);
    SortedNoWrap(p, q, r, v0, v1, v2);
    if v0.y == v2.y {
      var a, b := v0.x, v0.x;
      if v1.x < a {
        a := v1.x;
      } else if v1.x > b {
        b := v1.x;
      }
      if v2.x < a {
        a := v2.x;
      } else if v2.x > b {
        b := v2.x;
      }
      lines := [HLine(a, v0.y, b - a + 1)];
      FlatSpans(v0, v1, v2);
    } else {
      lines := FillRows(v0, v1, v2);
    }
    assert lines == Spans(v0, v1, v2);
  }

  lemma FlatSpans(v0: Vertex, v1: Vertex, v2: Vertex)
    requires v0.y == v1.y == v2.y
    ensures var left, right := Min(v0.x, Min(v1.x, v2.x)), Max(v0.x, Max(v1.x, v2.x));
      Spans(v0, v1, v2) == [HLine(left, v0.y, right - left + 1)]
  {
  }

  /** The two loops of `fillTriangle`. */
  method FillRows(v0: Vertex, v1: Vertex, v2: Vertex) returns (lines: seq<HLine>)
    requires v0.y <= v1.y <= v2.y && v0.y < v2.y && NoWrap(v0, v1) && NoWrap(v1, v2) && NoWrap(v2, v0)
    ensures lines == Spans(v0, v1, v2)
  {
    hide Span, NoWrap;
    var dx01, dy01, dx02, dy02 := v1.x - v0.x, v1.y - v0.y, v2.x - v0.x, v2.y - v0.y;
    var dx12, dy12 := v2.x - v1.x, v2.y - v1.y;
    var sa, sb := 0, 0;
    var last := if v1.y == v2.y then v1.y else v1.y - 1;
    lines := [];
    var y := v0.y;
    MulNext(dx01, 0);
    MulNext(dx02, 0);
    while y <= last
      invariant v0.y <= y <= last + 1 && |lines| == y - v0.y
      invariant sa == dx01 * (y - v0.y) && sb == dx02 * (y - v0.y)
      invariant forall k :: 0 <= k < |lines| ==> lines[k] == Span(v0, v1, v2, v0.y + k)
    {
      UpperSpan(v0, v1, v2, y);
      UpperFits(v0, v1, v2, y);
      MulNext(dx01, y - v0.y);
      MulNext(dx02, y - v0.y);
      var a, b := v0.x + Quot(sa, dy01), v0.x + Quot(sb, dy02);
      assert Int16(a) && Int16(b);
      sa, sb := sa + dx01, sb + dx02;
      assert Int32(sa) && Int32(sb);
      if a > b {
        a, b := b, a;
      }
      assert Int16(b - a + 1);
      lines := lines + [HLine(a, y, b - a + 1)];
      y := y + 1;
    }
    sa, sb := dx12 * (y - v1.y), dx02 * (y - v0.y);
    MiddleFits(v0, v1, v2, y);
    assert Int32(sa) && Int32(sb);
    while y <= v2.y
      invariant last + 1 <= y <= v2.y + 1 && |lines| == y - v0.y
      invariant sa == dx12 * (y - v1.y) && sb == dx02 * (y - v0.y)
      invariant forall k :: 0 <= k < |lines| ==> lines[k] == Span(v0, v1, v2, v0.y + k)
    {
      LowerSpan(v0, v1, v2, y);
      LowerFits(v0, v1, v2, y);
      MulNext(dx12, y - v1.y);
      MulNext(dx02, y - v0.y);
      var a, b := v1.x + Quot(sa, dy12), v0.x + Quot(sb, dy02);
      assert Int16(a) && Int16(b);
      sa, sb := sa + dx12, sb + dx02;
      assert Int32(sa) && Int32(sb);
      if a > b {
        a, b := b, a;
      }
      assert Int16(b - a + 1);
      lines := lines + [HLine(a, y, b - a + 1)];
      y := y + 1;
    }
  }

  /** The sum for an edge stays an int32 and the crossing an int16, also one line below the edge. */
  lemma EdgeFits(p: Vertex, q: Vertex, y: int)
    requires NoWrap(p, q) && Int16(q.x) && p.y < q.y && p.y <= y <= q.y
    ensures Int32((q.x - p.x) * (y - p.y)) && Int32((q.x - p.x) * (y + 1 - p.y)) && Int16(Crossing(p, q, y))
  {
    hide Crossing;
    CrossingBetween(p, q, y);
    ProductFits(q.x - p.x, y - p.y);
    ProductFits(q.x - p.x, y + 1 - p.y);
  }

  lemma ProductFits(d: int, t: nat)
    requires -32766 <= d <= 32766 && t <= 32767
    ensures Int32(d * t)
  {
    MulOrder(d, 32766, t);
    MulOrder(-32766, d, t);
  }

  lemma UpperFits(v0: Vertex, v1: Vertex, v2: Vertex, y: int)
    requires v0.y <= v1.y <= v2.y && v0.y < v2.y && v0.y <= y <= (if v1.y == v2.y then v1.y else v1.y - 1)
    requires NoWrap(v0, v1) && NoWrap(v1, v2) && NoWrap(v2, v0)
    ensures v0.y < v1.y && Int16(Crossing(v0, v1, y)) && Int16(Crossing(v0, v2, y))
    ensures Abs(Crossing(v0, v1, y) - Crossing(v0, v2, y)) <= 32766
    ensures Int32((v1.x - v0.x) * (y + 1 - v0.y)) && Int32((v2.x - v0.x) * (y + 1 - v0.y))
  {
    hide Crossing;
    CrossingBetween(v0, v1, y);
    CrossingBetween(v0, v2, y);
    EdgeFits(v0, v1, y);
    EdgeFits(v0, v2, y);
  }

  lemma MiddleFits(v0: Vertex, v1: Vertex, v2: Vertex, y: int)
    requires v0.y <= v1.y <= v2.y && y == (if v1.y == v2.y then v1.y + 1 else v1.y)
    requires NoWrap(v0, v1) && NoWrap(v1, v2) && NoWrap(v2, v0)
    ensures Int32((v2.x - v1.x) * (y - v1.y)) && Int32((v2.x - v0.x) * (y - v0.y))
  {
    ProductFits(v2.x - v1.x, y - v1.y);
    ProductFits(v2.x - v0.x, y - v0.y);
  }

  lemma LowerFits(v0: Vertex, v1: Vertex, v2: Vertex, y: int)
    requires v0.y <= v1.y < v2.y && v1.y <= y <= v2.y
    requires NoWrap(v0, v1) && NoWrap(v1, v2) && NoWrap(v2, v0)
    ensures Int16(Crossing(v1, v2, y)) && Int16(Crossing(v0, v2, y))
    ensures Abs(Crossing(v1, v2, y) - Crossing(v0, v2, y)) <= 32766
    ensures Int32((v2.x - v1.x) * (y + 1 - v1.y)) && Int32((v2.x - v0.x) * (y + 1 - v0.y))
  {
    hide Crossing;
    CrossingBetween(v1, v2, y);
    CrossingBetween(v0, v2, y);
    EdgeFits(v1, v2, y);
    EdgeFits(v0, v2, y);
  }

  lemma UpperSpan(v0: Vertex, v1: Vertex, v2: Vertex, y: int)
    requires v0.y <= v1.y <= v2.y && v0.y < v2.y && v0.y <= y <= (if v1.y == v2.y then v1.y else v1.y - 1)
    ensures v0.y < v1.y
    ensures var a := v0.x + Quot((v1.x - v0.x) * (y - v0.y), v1.y - v0.y);
      var b := v0.x + Quot((v2.x - v0.x) * (y - v0.y), v2.y - v0.y);
      Span(v0, v1, v2, y) == HLine(Min(a, b), y, Max(a, b) - Min(a, b) + 1)
  {
    hide Quot;
  }

  lemma LowerSpan(v0: Vertex, v1: Vertex, v2: Vertex, y: int)
    requires v0.y <= v1.y < v2.y && v1.y <= y <= v2.y
    ensures var a := v1.x + Quot((v2.x - v1.x) * (y - v1.y), v2.y - v1.y);
      var b := v0.x + Quot((v2.x - v0.x) * (y - v0.y), v2.y - v0.y);
      Span(v0, v1, v2, y) == HLine(Min(a, b), y, Max(a, b) - Min(a, b) + 1)
  {
    hide Quot;
  }

  // ------------------------------------------------------------ what the lines cover

  lemma QuotBetween(d: int, t: int, n: int)
    requires 0 <= t <= n && n > 0
    ensures d >= 0 ==> 0 <= Quot(d * t, n) <= d
    ensures d <= 0 ==> d <= Quot(d * t, n) <= 0
    ensures t == 0 ==> Quot(d * t, n) == 0
    ensures t == n ==> Quot(d * t, n) == d
  {
    var e: nat := if d < 0 then -d else d;
    Scaled(e, t, n);
    assert d < 0 ==> d * t == -(e * t);
  }

  lemma Scaled(e: nat, t: nat, n: nat)
    requires t <= n && n > 0
    ensures 0 <= e * t && 0 <= e * t / n <= e && (t == 0 ==> e * t / n == 0) && (t == n ==> e * t / n == e)
  {
    var q, rest := e * t / n, e * t % n;
    assert e * t == q * n + rest;
    MulOrder(t, n, e);
    MulOrder(e + 1, q, n);
    assert (e + 1) * n == e * n + n;
    if t == n {
      MulOrder(q + 1, e, n);
      assert (q + 1) * n == q * n + n;
    }
  }

  lemma CrossingBetween(p: Vertex, q: Vertex, y: int)
    requires p.y < q.y && p.y <= y <= q.y
    ensures Min(p.x, q.x) <= Crossing(p, q, y) <= Max(p.x, q.x)
    ensures Crossing(p, q, p.y) == p.x && Crossing(p, q, q.y) == q.x
  {
    QuotBetween(q.x - p.x, y - p.y, q.y - p.y);
    QuotBetween(q.x - p.x, 0, q.y - p.y);
    QuotBetween(q.x - p.x, q.y - p.y, q.y - p.y);
  }

  /** A crossing is less than a pixel from the true edge. */
  lemma CrossingAccurate(p: Vertex, q: Vertex, y: int)
    requires p.y < q.y
    ensures var error := (Crossing(p, q, y) - p.x) * (q.y - p.y) - (q.x - p.x) * (y - p.y); Abs(error) < q.y - p.y
  {
    var n, d := (q.x - p.x) * (y - p.y), q.y - p.y;
    var m := if n >= 0 then n else -n;
    assert m == (m / d) * d + m % d;
    assert n < 0 ==> Quot(n, d) * d == -((m / d) * d);
  }

  /** A crossing never lies further from the start of its edge than the true edge does. */
  lemma CrossingTowardsStart(p: Vertex, q: Vertex, y: int)
    requires p.y < q.y
    ensures Abs(Crossing(p, q, y) - p.x) * (q.y - p.y) <= Abs((q.x - p.x) * (y - p.y))
  {
    hide Quot, Abs;
    QuotTowardsZero((q.x - p.x) * (y - p.y), q.y - p.y);
  }

  lemma QuotTowardsZero(n: int, d: nat)
    requires d > 0
    ensures Abs(Quot(n, d)) * d <= Abs(n)
  {
    var m := Abs(n);
    assert m == (m / d) * d + m % d;
    assert Abs(Quot(n, d)) == m / d;
  }

  predicate Covers(l: HLine, v: Vertex) {
    l.y == v.y && l.x <= v.x < l.x + l.w
  }

  /** Every line from the top to the bottom vertex is drawn once, inside the horizontal extent of the triangle,
      and the lines cover the three vertices. */
  lemma TriangleCovered(v0: Vertex, v1: Vertex, v2: Vertex, k: nat)
    requires v0.y <= v1.y <= v2.y && k <= v2.y - v0.y
    ensures var s := Spans(v0, v1, v2);
      && s[k].y == v0.y + k && s[k].w >= 1
      && Min(v0.x, Min(v1.x, v2.x)) <= s[k].x && s[k].x + s[k].w - 1 <= Max(v0.x, Max(v1.x, v2.x))
      && Covers(s[0], v0) && Covers(s[v1.y - v0.y], v1) && Covers(s[v2.y - v0.y], v2)
  {
    hide Crossing;
    if v0.y < v2.y {
      SpanInside(v0, v1, v2, v0.y + k);
      SpanCorners(v0, v1, v2);
    }
  }

  lemma SpanInside(v0: Vertex, v1: Vertex, v2: Vertex, y: int)
    requires v0.y <= v1.y <= v2.y && v0.y < v2.y && v0.y <= y <= v2.y
    ensures var s := Span(v0, v1, v2, y);
      && s.y == y && s.w >= 1
      && Min(v0.x, Min(v1.x, v2.x)) <= s.x && s.x + s.w - 1 <= Max(v0.x, Max(v1.x, v2.x))
  {
    hide Crossing;
    CrossingBetween(v0, v2, y);
    if v1.y == v2.y || y < v1.y {
      CrossingBetween(v0, v1, y);
    } else {
      CrossingBetween(v1, v2, y);
    }
  }

  lemma SpanCorners(v0: Vertex, v1: Vertex, v2: Vertex)
    requires v0.y <= v1.y <= v2.y && v0.y < v2.y
    ensures Covers(Span(v0, v1, v2, v0.y), v0) && Covers(Span(v0, v1, v2, v1.y), v1)
      && Covers(Span(v0, v1, v2, v2.y), v2)
  {
    hide Crossing;
    CrossingBetween(v0, v2, v0.y);
    if v1.y == v2.y {
      CrossingBetween(v0, v1, v1.y);
    } else {
      CrossingBetween(v1, v2, v1.y);
    }
  }
}
