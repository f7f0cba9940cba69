/** How close the flattened curve of kernel/source/ssfn.h:425-439 is to the curve: every line end
  * lies within six units, three eighths of a pixel, of the point of the cubic at its place. */
module Curves {
  import opened Bits
  import opened Outline

  /** The cubic with the coordinates p, q, r, s at k of n steps, scaled by n * n * n. */
  function Bernstein(p: int, q: int, r: int, s: int, n: nat, k: nat): int
    requires k <= n
  {
    p * ((n - k) * (n - k) * (n - k)) + 3 * q * ((n - k) * (n - k) * k) + 3 * r * ((n - k) * k * k) + s * (k * k * k)
  }

  function BernsteinX(c: Cubic, n: nat, k: nat): int
    requires k <= n
  {
    Bernstein(c.p0.x, c.p1.x, c.p2.x, c.p3.x, n, k)
  }

  function BernsteinY(c: Cubic, n: nat, k: nat): int
    requires k <= n
  {
    Bernstein(c.p0.y, c.p1.y, c.p2.y, c.p3.y, n, k)
  }

  // ---------- one halving ----------

  /** A midpoint is exact but for truncation. */
  lemma MidIsMiddle(a: Point, b: Point)
    ensures -1 <= 2 * Mid(a, b).x - (a.x + b.x) <= 1
    ensures -1 <= 2 * Mid(a, b).y - (a.y + b.y) <= 1
  {
  }

  /** The point that a curve is divided at is the curve's middle but for truncation. */
  lemma CentreIsMiddle(c: Cubic)
    ensures -12 <= 8 * Centre(c).x - (c.p0.x + 3 * c.p1.x + 3 * c.p2.x + c.p3.x) <= 12
    ensures -12 <= 8 * Centre(c).y - (c.p0.y + 3 * c.p1.y + 3 * c.p2.y + c.p3.y) <= 12
  {
    hide Half;
    var m0, m1, m2 := Mid(c.p0, c.p1), Mid(c.p1, c.p2), Mid(c.p2, c.p3);
    MidIsMiddle(c.p0, c.p1);
    MidIsMiddle(c.p1, c.p2);
    MidIsMiddle(c.p2, c.p3);
    MidIsMiddle(m0, m1);
    MidIsMiddle(m1, m2);
    MidIsMiddle(Mid(m0, m1), Mid(m1, m2));
  }

  /** The weights of a point on the left half, and on the right half, j and k steps from its ends. */
  lemma HalfWeights(j: nat, k: nat)
    ensures var t, a, b, c, d := 2 * j + k, j * j * j, j * j * k, j * k * k, k * k * k;
            t * t * t == 8 * a + 12 * b + 6 * c + d && t * t * k == 4 * b + 4 * c + d && t * k * k == 2 * c + d
    ensures var t, a, b, c, d := j + 2 * k, j * j * j, j * j * k, j * k * k, k * k * k;
            j * j * t == a + 2 * b && j * t * t == a + 4 * b + 4 * c && t * t * t == a + 6 * b + 12 * c + 8 * d
  {
  }

  /** The halves of the exact curve, scaled by 8. */
  lemma ExactHalves(p: int, q: int, r: int, s: int, m: nat, k: nat)
    requires k <= m
    ensures Bernstein(8 * p, 4 * (p + q), 2 * (p + 2 * q + r), p + 3 * q + 3 * r + s, m, k) ==
            Bernstein(p, q, r, s, 2 * m, k)
    ensures Bernstein(p + 3 * q + 3 * r + s, 2 * (q + 2 * r + s), 4 * (r + s), 8 * s, m, k) ==
            Bernstein(p, q, r, s, 2 * m, m + k)
  {
    var j := m - k;
    HalfWeights(j, k);
    assert 2 * m - k == 2 * j + k && m + k == j + 2 * k && 2 * m - (m + k) == j;
    Linear(p, q, r, s, j * j * j, j * j * k, j * k * k, k * k * k);
  }

  lemma Linear(p: int, q: int, r: int, s: int, a: int, b: int, c: int, d: int)
    ensures 8 * p * a + 3 * (4 * (p + q)) * b + 3 * (2 * (p + 2 * q + r)) * c + (p + 3 * q + 3 * r + s) * d ==
            p * (8 * a + 12 * b + 6 * c + d) + 3 * q * (4 * b + 4 * c + d) + 3 * r * (2 * c + d) + s * d
    ensures (p + 3 * q + 3 * r + s) * a + 3 * (2 * (q + 2 * r + s)) * b + 3 * (4 * (r + s)) * c + 8 * s * d ==
            p * a + 3 * q * (a + 2 * b) + 3 * r * (a + 4 * b + 4 * c) + s * (a + 6 * b + 12 * c + 8 * d)
  {
  }

  /** A curve is below another one whose coordinates are all larger. */
  lemma BernsteinMonotone(p: int, q: int, r: int, s: int, p': int, q': int, r': int, s': int, n: nat, k: nat)
    requires k <= n && p <= p' && q <= q' && r <= r' && s <= s'
    ensures Bernstein(p, q, r, s, n, k) <= Bernstein(p', q', r', s', n, k)
  {
    var j := n - k;
    Scaled(p, p', j * j * j);
    Scaled(3 * q, 3 * q', j * j * k);
    Scaled(3 * r, 3 * r', j * k * k);
    Scaled(s, s', k * k * k);
  }

  lemma Scaled(a: int, b: int, w: nat)
    requires a <= b
    ensures a * w <= b * w
  {
  }

  lemma BernsteinShifted(p: int, q: int, r: int, s: int, e: int, n: nat, k: nat)
    requires k <= n
    ensures Bernstein(p + e, q + e, r + e, s + e, n, k) == Bernstein(p, q, r, s, n, k) + e * (n * n * n)
  {
  }

  lemma BernsteinScaled(p: int, q: int, r: int, s: int, n: nat, k: nat)
    requires k <= n
    ensures Bernstein(8 * p, 8 * q, 8 * r, 8 * s, n, k) == 8 * Bernstein(p, q, r, s, n, k)
  {
  }

  /** Two numbers that differ by at most e. */
  ghost predicate Near(a: int, b: int, e: int) {
    a - e <= b <= a + e
  }

  lemma BernsteinNear(p: int, q: int, r: int, s: int, p': int, q': int, r': int, s': int, e: nat, n: nat, k: nat)
    requires k <= n && Near(8 * p, p', e) && Near(8 * q, q', e) && Near(8 * r, r', e) && Near(8 * s, s', e)
    ensures Near(8 * Bernstein(p, q, r, s, n, k), Bernstein(p', q', r', s', n, k), e * (n * n * n))
  {
    hide Bernstein;
    BernsteinScaled(p, q, r, s, n, k);
    BernsteinMonotone(8 * p - e, 8 * q - e, 8 * r - e, 8 * s - e, p', q', r', s', n, k);
    BernsteinMonotone(p', q', r', s', 8 * p + e, 8 * q + e, 8 * r + e, 8 * s + e, n, k);
    BernsteinShifted(8 * p, 8 * q, 8 * r, 8 * s, e, n, k);
    BernsteinShifted(8 * p, 8 * q, 8 * r, 8 * s, 0 - e, n, k);
    assert (0 - e) * (n * n * n) == 0 - e * (n * n * n);
  }

  /** One coordinate of the two halves. */
  lemma HalvesNear(p: int, q: int, r: int, s: int, m0: int, m1: int, m2: int, m3: int, m4: int, m5: int, m: nat, k: nat)
    requires k <= m && Near(2 * m0, p + q, 1) && Near(2 * m1, q + r, 1) && Near(2 * m2, r + s, 1)
    requires Near(2 * m3, m0 + m1, 1) && Near(2 * m4, m1 + m2, 1) && Near(2 * m5, m3 + m4, 1)
    ensures Near(8 * Bernstein(p, m0, m3, m5, m, k), Bernstein(p, q, r, s, 2 * m, k), 12 * (m * m * m))
    ensures Near(8 * Bernstein(m5, m4, m2, s, m, k), Bernstein(p, q, r, s, 2 * m, m + k), 12 * (m * m * m))
  {
    hide Bernstein;
    ExactHalves(p, q, r, s, m, k);
    BernsteinNear(p, m0, m3, m5, 8 * p, 4 * (p + q), 2 * (p + 2 * q + r), p + 3 * q + 3 * r + s, 12, m, k);
    BernsteinNear(m5, m4, m2, s, p + 3 * q + 3 * r + s, 2 * (q + 2 * r + s), 4 * (r + s), 8 * s, 12, m, k);
  }

  /** A half of the curve as it is computed is near the half of the curve. */
  lemma HalvesFollow(c: Cubic, m: nat, k: nat)
    requires k <= m
    ensures Near(8 * BernsteinX(LeftHalf(c), m, k), BernsteinX(c, 2 * m, k), 12 * (m * m * m))
    ensures Near(8 * BernsteinY(LeftHalf(c), m, k), BernsteinY(c, 2 * m, k), 12 * (m * m * m))
    ensures Near(8 * BernsteinX(RightHalf(c), m, k), BernsteinX(c, 2 * m, m + k), 12 * (m * m * m))
    ensures Near(8 * BernsteinY(RightHalf(c), m, k), BernsteinY(c, 2 * m, m + k), 12 * (m * m * m))
  {
    hide Bernstein, Mid, Half;
    var m0, m1, m2 := Mid(c.p0, c.p1), Mid(c.p1, c.p2), Mid(c.p2, c.p3);
    var m3, m4 := Mid(m0, m1), Mid(m1, m2);
    var m5 := Mid(m3, m4);
    MidIsMiddle(c.p0, c.p1);
    MidIsMiddle(c.p1, c.p2);
    MidIsMiddle(c.p2, c.p3);
    MidIsMiddle(m0, m1);
    MidIsMiddle(m1, m2);
    MidIsMiddle(m3, m4);
    HalvesNear(c.p0.x, c.p1.x, c.p2.x, c.p3.x, m0.x, m1.x, m2.x, m3.x, m4.x, m5.x, m, k);
    HalvesNear(c.p0.y, c.p1.y, c.p2.y, c.p3.y, m0.y, m1.y, m2.y, m3.y, m4.y, m5.y, m, k);
  }

  // ---------- the whole curve ----------

  /** How many sixteenths of the whole curve a part at recursion depth l spans. */
  function Span(l: nat): nat
    requires l <= 4
  {
    if l == 0 then 16 else if l == 1 then 8 else if l == 2 then 4 else if l == 3 then 2 else 1
  }

  function Shifted(s: seq<nat>, d: nat): (r: seq<nat>)
    ensures |r| == |s| && forall i | 0 <= i < |s| :: r[i] == s[i] + d
  {
    seq(|s|, i requires 0 <= i < |s| => s[i] + d)
  }

  /** The places on the curve, in sixteenths of the whole one, of the line ends drawn for a part of
    * it. */
  function Places(c: Cubic, l: nat): seq<nat>
    requires l <= 4
    decreases 4 - l
  {
    (if l < 4 && c.p0 != c.p3 then
       Places(LeftHalf(c), l + 1) + Shifted(Places(RightHalf(c), l + 1), Span(l + 1))
     else [])
    + (if l > 0 then [Span(l)] else [])
  }

  function Cube(l: nat): nat
    requires l <= 4
  {
    if l == 0 then 4096 else if l == 1 then 512 else if l == 2 then 64 else if l == 3 then 8 else 1
  }

  /** Line end q lies within 6 - 3 * l / 2 units of place k of the part c at depth l. */
  ghost predicate OnCurve(c: Cubic, l: nat, q: Point, k: nat)
    requires l <= 4
  {
    && k <= Span(l)
    && Near(2 * Cube(l) * q.x, 2 * BernsteinX(c, Span(l), k), 3 * (4 - l) * Cube(l))
    && Near(2 * Cube(l) * q.y, 2 * BernsteinY(c, Span(l), k), 3 * (4 - l) * Cube(l))
  }

  lemma LeftOnCurve(c: Cubic, l: nat, q: Point, k: nat)
    requires l < 4 && OnCurve(LeftHalf(c), l + 1, q, k)
    ensures OnCurve(c, l, q, k)
  {
    hide BernsteinX, BernsteinY, LeftHalf, RightHalf;
    HalvesFollow(c, Span(l + 1), k);
  }

  lemma RightOnCurve(c: Cubic, l: nat, q: Point, k: nat)
    requires l < 4 && OnCurve(RightHalf(c), l + 1, q, k)
    ensures OnCurve(c, l, q, Span(l + 1) + k)
  {
    hide BernsteinX, BernsteinY, LeftHalf, RightHalf;
    HalvesFollow(c, Span(l + 1), k);
  }

  /** The line ends e lie at the places a of the part c at depth l. */
  ghost predicate AllOnCurve(c: Cubic, l: nat, e: seq<Point>, a: seq<nat>)
    requires l <= 4
  {
    |a| == |e| && forall i | 0 <= i < |e| :: OnCurve(c, l, e[i], a[i])
  }

  lemma LeftAllOnCurve(c: Cubic, l: nat, e: seq<Point>, a: seq<nat>)
    requires l < 4 && AllOnCurve(LeftHalf(c), l + 1, e, a)
    ensures AllOnCurve(c, l, e, a)
  {
    hide OnCurve, LeftHalf;
    forall i | 0 <= i < |e| ensures OnCurve(c, l, e[i], a[i]) {
      LeftOnCurve(c, l, e[i], a[i]);
    }
  }

  lemma RightAllOnCurve(c: Cubic, l: nat, e: seq<Point>, a: seq<nat>)
    requires l < 4 && AllOnCurve(RightHalf(c), l + 1, e, a)
    ensures AllOnCurve(c, l, e, Shifted(a, Span(l + 1)))
  {
    hide OnCurve, RightHalf;
    forall i | 0 <= i < |e| ensures OnCurve(c, l, e[i], Shifted(a, Span(l + 1))[i]) {
      RightOnCurve(c, l, e[i], a[i]);
    }
  }

  lemma JoinOnCurve(c: Cubic, l: nat, e: seq<Point>, a: seq<nat>, f: seq<Point>, b: seq<nat>)
    requires l <= 4 && AllOnCurve(c, l, e, a) && AllOnCurve(c, l, f, b)
    ensures AllOnCurve(c, l, e + f, a + b)
  {
    hide OnCurve;
  }

  lemma EndAlone(c: Cubic, l: nat)
    requires l <= 4
    ensures AllOnCurve(c, l, [c.p3], [Span(l)])
  {
    assert OnCurve(c, l, c.p3, Span(l));
  }

  lemma NoneOnCurve(c: Cubic, l: nat)
    requires l <= 4
    ensures AllOnCurve(c, l, [], [])
  {
  }

  /** Every line end of a part lies near its place. */
  lemma {:induction false} PartEndsOnCurve(c: Cubic, l: nat)
    requires l <= 4
    ensures AllOnCurve(c, l, Ends(c, l), Places(c, l))
    decreases 4 - l
  {
    hide AllOnCurve, OnCurve, LeftHalf, RightHalf, Span;
    var parts: seq<Point>, places: seq<nat> := [], [];
    NoneOnCurve(c, l);
    if l < 4 && c.p0 != c.p3 {
      var e, f := Ends(LeftHalf(c), l + 1), Ends(RightHalf(c), l + 1);
      var a, b := Places(LeftHalf(c), l + 1), Places(RightHalf(c), l + 1);
      PartEndsOnCurve(LeftHalf(c), l + 1);
      PartEndsOnCurve(RightHalf(c), l + 1);
      LeftAllOnCurve(c, l, e, a);
      RightAllOnCurve(c, l, f, b);
      parts, places := e + f, a + Shifted(b, Span(l + 1));
      JoinOnCurve(c, l, e, a, f, Shifted(b, Span(l + 1)));
    }
    EndAlone(c, l);
    JoinOnCurve(c, l, parts, places, [c.p3], [Span(l)]);
    assert Ends(c, l) == parts + if l > 0 then [c.p3] else [];
    assert Places(c, l) == places + if l > 0 then [Span(l)] else [];
    assert l == 0 ==> Ends(c, l) == parts && Places(c, l) == places;
  }

  /** Every line end of a curve lies within six units of the curve's point at its place. */
  lemma EndsOnCurve(c: Cubic, i: nat)
    requires i < |Ends(c, 0)|
    ensures |Places(c, 0)| == |Ends(c, 0)| && Places(c, 0)[i] <= 16
    ensures -6 * 4096 <= 4096 * Ends(c, 0)[i].x - BernsteinX(c, 16, Places(c, 0)[i]) <= 6 * 4096
    ensures -6 * 4096 <= 4096 * Ends(c, 0)[i].y - BernsteinY(c, 16, Places(c, 0)[i]) <= 6 * 4096
  {
    hide Ends, Places, Bernstein;
    PartEndsOnCurve(c, 0);
    assert OnCurve(c, 0, Ends(c, 0)[i], Places(c, 0)[i]);
  }

  // ---------- the places ----------

  /** In order, above lo and up to hi. */
  ghost predicate Ascending(s: seq<nat>, lo: nat, hi: nat) {
    && (forall i, j | 0 <= i < j < |s| :: s[i] <= s[j])
    && forall i | 0 <= i < |s| :: lo < s[i] <= hi
  }

  lemma AscendingConcat(a: seq<nat>, b: seq<nat>, lo: nat, mid: nat, hi: nat)
    requires Ascending(a, lo, mid) && Ascending(b, mid, hi) && lo <= mid <= hi
    ensures Ascending(a + b, lo, hi)
  {
  }

  lemma AscendingShifted(a: seq<nat>, n: nat)
    requires Ascending(a, 0, n)
    ensures Ascending(Shifted(a, n), n, 2 * n)
  {
  }

  lemma AscendingEnd(a: seq<nat>, hi: nat)
    requires Ascending(a, 0, hi) && hi > 0
    ensures Ascending(a + [hi], 0, hi)
  {
  }

  /** The line ends follow the curve: their places never go back, and the last one is its end. */
  lemma {:induction false} PlacesAscend(c: Cubic, l: nat)
    requires l <= 4
    ensures Ascending(Places(c, l), 0, Span(l))
    ensures l > 0 ==> |Places(c, l)| > 0 && Places(c, l)[|Places(c, l)| - 1] == Span(l)
    decreases 4 - l
  {
    hide LeftHalf, RightHalf, Ascending;
    var parts: seq<nat> := [];
    assert Ascending(parts, 0, Span(l)) by {
      AscendingNone(Span(l));
    }
    if l < 4 && c.p0 != c.p3 {
      var n, a, b := Span(l + 1), Places(LeftHalf(c), l + 1), Places(RightHalf(c), l + 1);
      PlacesAscend(LeftHalf(c), l + 1);
      PlacesAscend(RightHalf(c), l + 1);
      AscendingShifted(b, n);
      AscendingConcat(a, Shifted(b, n), 0, n, 2 * n);
      parts := a + Shifted(b, n);
    }
    AscendingEnd(parts, Span(l));
    assert Places(c, l) == parts + if l > 0 then [Span(l)] else [];
    assert l == 0 ==> Places(c, l) == parts;
  }

  lemma AscendingNone(hi: nat)
    ensures Ascending([], 0, hi)
  {
  }

  /** No part of the curve that is divided begins where it ends. */
  ghost predicate Open(c: Cubic, l: nat)
    decreases 4 - l
  {
    l >= 4 || (c.p0 != c.p3 && Open(LeftHalf(c), l + 1) && Open(RightHalf(c), l + 1))
  }

  /** Then a line end is drawn for every sixteenth of it. */
  lemma {:induction false} PlacesComplete(c: Cubic, l: nat, k: nat)
    requires l <= 4 && Open(c, l) && 0 < k <= Span(l)
    ensures k in Places(c, l)
    decreases 4 - l
  {
    hide LeftHalf, RightHalf;
    if l < 4 {
      var n, a, b := Span(l + 1), Places(LeftHalf(c), l + 1), Places(RightHalf(c), l + 1);
      if k <= n {
        PlacesComplete(LeftHalf(c), l + 1, k);
        assert k in a;
      } else {
        PlacesComplete(RightHalf(c), l + 1, k - n);
        var i :| 0 <= i < |b| && b[i] == k - n;
        assert Shifted(b, n)[i] == k;
      }
      assert k in a + Shifted(b, n);
    }
  }

  // ---------- quadratic curves ----------

  /** A quadratic curve is drawn as the cubic whose control points lie halfway to its own. */
  lemma QuadControls(from: Point, q: Point, a: Point)
    ensures var c := CubicOf(from, Quad(q, a));
            && c.p0 == from && c.p3 == q
            && -1 <= 2 * c.p1.x - (from.x + a.x) <= 1 && -1 <= 2 * c.p1.y - (from.y + a.y) <= 1
            && -1 <= 2 * c.p2.x - (a.x + q.x) <= 1 && -1 <= 2 * c.p2.y - (a.y + q.y) <= 1
  {
  }

  /** That is not the quadratic curve, whose control points would lie two thirds of the way: for one
    * 320 units high the middle is 40 units too low. */
  lemma QuadIsFlatter()
    ensures var from, a, q := Point(0, 0), Point(160, 320), Point(320, 0);
            && BernsteinY(CubicOf(from, Quad(q, a)), 16, 8) == 120 * 4096
            && from.y + 2 * a.y + q.y == 4 * 160
  {
  }

  /** A cubic curve is drawn with its own control points. */
  lemma CurveControls(from: Point, q: Point, a: Point, b: Point)
    ensures CubicOf(from, Curve(q, a, b)) == Cubic(from, a, b, q)
  {
  }

  // ---------- pixels ----------

  /** A coordinate is rounded to the nearest pixel. */
  lemma PixelIsNearest(v: int)
    ensures 16 * Pixel(v) - 8 <= v < 16 * Pixel(v) + 8
  {
  }

  /** Coordinates below 65536 are stored as they are. */
  lemma StoredExactly(q: Point)
    requires 0 <= q.x < 0x1_0000 && 0 <= q.y < 0x1_0000
    ensures Stored(q) == q
  {
  }

  /** A line end is dropped iff it leaves the grid or rounds to the pixel that the pen is at;
    * otherwise the pen moves there. */
  lemma LineDropped(pen: Pen, w: int, h: int, q: Point)
    ensures var pts := (if |pen.pts| == 0 then [Stored(pen.start)] else pen.pts) + [Stored(q)];
            LineTo(pen, w, h, q) == pen || LineTo(pen, w, h, q) == Pen(pts, q, pen.start)
    ensures |LineTo(pen, w, h, q).pts| == |pen.pts| <==>
              || q.x < 0 || q.x >= w || q.y < 0 || q.y >= h
              || ((q.x + 8) / 16 == (pen.last.x + 8) / 16 && (q.y + 8) / 16 == (pen.last.y + 8) / 16)
  {
  }

  /** The closing line is drawn iff the pen is away from the start, and goes there. */
  lemma ClosingLine(pen: Pen)
    ensures pen.start == pen.last ==> Close(pen) == pen.pts
    ensures pen.start != pen.last ==> Close(pen) == pen.pts + [Stored(pen.start)]
  {
  }
}
