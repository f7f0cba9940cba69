/** The outline of a glyph contour in fixed-point coordinates (kernel/source/ssfn.h:399-439 and
  * 1090-1109): line ends that are kept, Bezier curves flattened by repeated halving, and the
  * closing line. */
module Outline {
  import opened Bits

  datatype Point = Point(x: int, y: int)

  /** The pen: the points stored so far, the end of the last stored line, and the start. */
  datatype Pen = Pen(pts: seq<Point>, last: Point, start: Point)

  /** The pixel of a coordinate with four fractional bits, rounded. */
  function Pixel(v: int): int {
    (v + 8) / 16
  }

  predicate SamePixel(a: Point, b: Point) {
    Pixel(a.x) == Pixel(b.x) && Pixel(a.y) == Pixel(b.y)
  }

  predicate InGrid(q: Point, w: int, h: int) {
    0 <= q.x < w && 0 <= q.y < h
  }

  /** A point as two 16-bit unsigned values. */
  function Stored(q: Point): Point {
    Point(q.x % 0x1_0000, q.y % 0x1_0000)
  }

  /** `_ssfn_l`: a line to q is kept if q is in the grid and in another pixel. */
  function LineTo(pen: Pen, w: int, h: int, q: Point): Pen {
    if !InGrid(q, w, h) || SamePixel(pen.last, q) then pen
    else Pen((if |pen.pts| == 0 then [Stored(pen.start)] else pen.pts) + [Stored(q)], q, pen.start)
  }

  function LinesTo(pen: Pen, w: int, h: int, qs: seq<Point>): Pen {
    if |qs| == 0 then pen else LineTo(LinesTo(pen, w, h, qs[..|qs| - 1]), w, h, qs[|qs| - 1])
  }

  lemma {:induction false} LinesToConcat(pen: Pen, w: int, h: int, a: seq<Point>, b: seq<Point>)
    ensures LinesTo(pen, w, h, a + b) == LinesTo(LinesTo(pen, w, h, a), w, h, b)
    decreases |b|
  {
    if |b| == 0 {
      assert a + b == a;
    } else {
      LinesToConcat(pen, w, h, a, b[..|b| - 1]);
      assert (a + b)[..|a + b| - 1] == a + b[..|b| - 1];
    }
  }

  // ---------- Bezier curves ----------

  /** Half of v, rounded towards zero. */
  function Half(v: int): int {
    if v >= 0 then v / 2 else -((-v) / 2)
  }

  function Mid(a: Point, b: Point): Point {
    Point(Half(b.x - a.x) + a.x, Half(b.y - a.y) + a.y)
  }

  datatype Cubic = Cubic(p0: Point, p1: Point, p2: Point, p3: Point)

  function Centre(c: Cubic): Point {
    Mid(Mid(Mid(c.p0, c.p1), Mid(c.p1, c.p2)), Mid(Mid(c.p1, c.p2), Mid(c.p2, c.p3)))
  }

  function LeftHalf(c: Cubic): Cubic {
    Cubic(c.p0, Mid(c.p0, c.p1), Mid(Mid(c.p0, c.p1), Mid(c.p1, c.p2)), Centre(c))
  }

  function RightHalf(c: Cubic): Cubic {
    Cubic(Centre(c), Mid(Mid(c.p1, c.p2), Mid(c.p2, c.p3)), Mid(c.p2, c.p3), c.p3)
  }

  const DEPTH := 4

  /** The line ends that `_ssfn_b` passes to `_ssfn_l` at recursion depth l, in order. */
  function Ends(c: Cubic, l: nat): seq<Point>
    requires l <= DEPTH
    decreases DEPTH - l
  {
    (if l < DEPTH && c.p0 != c.p3 then Ends(LeftHalf(c), l + 1) + Ends(RightHalf(c), l + 1) else [])
    + (if l > 0 then [c.p3] else [])
  }

  /** At most 30 line ends for a whole curve. */
  lemma {:induction false} EndsAreFew(c: Cubic, l: nat)
    requires l <= DEPTH
    ensures |Ends(c, l)| <= 2 * Pow2(DEPTH - l) - (if l == 0 then 2 else 1)
    decreases DEPTH - l
  {
    hide LeftHalf, RightHalf;
    if l < DEPTH && c.p0 != c.p3 {
      EndsAreFew(LeftHalf(c), l + 1);
      EndsAreFew(RightHalf(c), l + 1);
    }
    PowMonotone(0, DEPTH - l);
  }

  lemma AtMostThirty(c: Cubic)
    ensures |Ends(c, 0)| <= 30
  {
    EndsAreFew(c, 0);
    assert Pow2(2) == 4;
  }

  datatype Box = Box(x0: int, x1: int, y0: int, y1: int)

  predicate InBox(q: Point, b: Box) {
    b.x0 <= q.x <= b.x1 && b.y0 <= q.y <= b.y1
  }

  predicate CubicInBox(c: Cubic, b: Box) {
    InBox(c.p0, b) && InBox(c.p1, b) && InBox(c.p2, b) && InBox(c.p3, b)
  }

  /** Truncated halving stays between its ends. */
  lemma MidInBox(a: Point, q: Point, b: Box)
    requires InBox(a, b) && InBox(q, b)
    ensures InBox(Mid(a, q), b)
  {
  }

  /** Every line end lies in any box around the four control points. */
  lemma {:induction false} EndsInBox(c: Cubic, l: nat, b: Box)
    requires l <= DEPTH && CubicInBox(c, b)
    ensures forall k | 0 <= k < |Ends(c, l)| :: InBox(Ends(c, l)[k], b)
    decreases DEPTH - l
  {
    HalvesInBox(c, b);
    hide LeftHalf, RightHalf, InBox;
    if l < DEPTH && c.p0 != c.p3 {
      EndsInBox(LeftHalf(c), l + 1, b);
      EndsInBox(RightHalf(c), l + 1, b);
    }
  }

  lemma HalvesInBox(c: Cubic, b: Box)
    requires CubicInBox(c, b)
    ensures CubicInBox(LeftHalf(c), b) && CubicInBox(RightHalf(c), b)
  {
    hide Mid, InBox;
    var m0, m1, m2 := Mid(c.p0, c.p1), Mid(c.p1, c.p2), Mid(c.p2, c.p3);
    MidInBox(c.p0, c.p1, b);
    MidInBox(c.p1, c.p2, b);
    MidInBox(c.p2, c.p3, b);
    MidInBox(m0, m1, b);
    MidInBox(m1, m2, b);
    MidInBox(Mid(m0, m1), Mid(m1, m2), b);
  }

  /** A curve that starts where the pen is leaves it in the pixel of the curve's end, if that is
    * in the grid. */
  lemma CurveReachesItsEnd(pen: Pen, w: int, h: int, c: Cubic)
    requires pen.last == c.p0 && InGrid(c.p3, w, h)
    ensures SamePixel(LinesTo(pen, w, h, Ends(c, 0)).last, c.p3)
  {
    var qs := Ends(c, 0);
    if c.p0 != c.p3 {
      LastEnd(RightHalf(c), 1);
      var rs := Ends(RightHalf(c), 1);
      assert qs == Ends(LeftHalf(c), 1) + rs;
      assert qs[|qs| - 1] == c.p3;
    }
  }

  lemma LastEnd(c: Cubic, l: nat)
    requires 0 < l <= DEPTH
    ensures |Ends(c, l)| > 0 && Ends(c, l)[|Ends(c, l)| - 1] == c.p3
  {
  }

  // ---------- contours ----------

  datatype Command = Move(q: Point) | Line(q: Point) | Quad(q: Point, a: Point) | Curve(q: Point, a: Point, b: Point)

  /** The cubic that a command draws from `from`; a quadratic curve's control points lie halfway
    * to its own. */
  function CubicOf(from: Point, c: Command): Cubic
    requires c.Quad? || c.Curve?
  {
    match c
    case Quad(q, a) =>
      Cubic(from, Mid(from, a), Point(Half(q.x - a.x) + a.x, Half(a.y - q.y) + q.y), q)
    case Curve(q, a, b) => Cubic(from, a, b, q)
  }

  function Draw(pen: Pen, w: int, h: int, c: Command): Pen {
    if c.Move? then Pen(pen.pts, c.q, c.q)
    else if c.Line? then LineTo(pen, w, h, c.q)
    else LinesTo(pen, w, h, Ends(CubicOf(pen.last, c), 0))
  }

  function DrawAll(pen: Pen, w: int, h: int, cs: seq<Command>): Pen {
    if |cs| == 0 then pen else Draw(DrawAll(pen, w, h, cs[..|cs| - 1]), w, h, cs[|cs| - 1])
  }

  /** A contour that starts with a move. */
  function Contour(start: Point, w: int, h: int, cs: seq<Command>): Pen {
    DrawAll(Pen([], start, start), w, h, cs)
  }

  ghost predicate NoMoves(cs: seq<Command>) {
    forall i | 0 <= i < |cs| :: !cs[i].Move?
  }

  /** The closing line, if the last line did not end at the start. */
  function Close(pen: Pen): seq<Point> {
    if pen.start != pen.last then pen.pts + [Stored(pen.start)] else pen.pts
  }

  /** The pen after drawing without a move on top of `pts`: nothing was kept, or the points begin
    * where they began, at the pen's start if there were none, and end at its last point. */
  ghost predicate Drawn(pts: seq<Point>, pen: Pen) {
    if pen.pts == pts then pen.last == pen.start
    else
      && |pen.pts| > |pts| && |pen.pts| >= 2
      && pen.pts[0] == (if |pts| == 0 then Stored(pen.start) else pts[0])
      && pen.pts[|pen.pts| - 1] == Stored(pen.last)
  }

  lemma {:induction false} LinesDrawn(pts: seq<Point>, pen: Pen, w: int, h: int, qs: seq<Point>)
    requires Drawn(pts, pen)
    ensures Drawn(pts, LinesTo(pen, w, h, qs)) && LinesTo(pen, w, h, qs).start == pen.start
    decreases |qs|
  {
    if |qs| > 0 {
      LinesDrawn(pts, pen, w, h, qs[..|qs| - 1]);
    }
  }

  lemma {:induction false} AllDrawn(pts: seq<Point>, q: Point, w: int, h: int, cs: seq<Command>)
    requires NoMoves(cs)
    ensures var pen := DrawAll(Pen(pts, q, q), w, h, cs);
            Drawn(pts, pen) && pen.start == q
    decreases |cs|
  {
    if |cs| > 0 {
      AllDrawn(pts, q, w, h, cs[..|cs| - 1]);
      var pen := DrawAll(Pen(pts, q, q), w, h, cs[..|cs| - 1]);
      var c := cs[|cs| - 1];
      if !c.Line? {
        LinesDrawn(pts, pen, w, h, Ends(CubicOf(pen.last, c), 0));
      }
    }
  }

  lemma {:induction false} DrawAllConcat(pen: Pen, w: int, h: int, a: seq<Command>, b: seq<Command>)
    ensures DrawAll(pen, w, h, a + b) == DrawAll(DrawAll(pen, w, h, a), w, h, b)
    decreases |b|
  {
    hide Draw;
    if |b| == 0 {
      assert a + b == a;
    } else {
      DrawAllConcat(pen, w, h, a, b[..|b| - 1]);
      assert (a + b)[..|a + b| - 1] == a + b[..|b| - 1];
    }
  }

  ghost predicate Closed(pts: seq<Point>) {
    |pts| > 0 ==> pts[0] == pts[|pts| - 1]
  }

  /** The path handed to the filler is closed if the contour's first command is its only move. */
  lemma ContourIsClosed(start: Point, w: int, h: int, cs: seq<Command>)
    requires NoMoves(cs)
    ensures Closed(Close(Contour(start, w, h, cs)))
  {
    hide DrawAll, Stored;
    AllDrawn([], start, w, h, cs);
  }

  /** A move keeps the points and forgets the pen. */
  lemma FromMove(start: Point, w: int, h: int, cs: seq<Command>, m: nat)
    requires m < |cs| && cs[m].Move?
    ensures var q := cs[m].q;
            Contour(start, w, h, cs) == DrawAll(Pen(Contour(start, w, h, cs[..m]).pts, q, q), w, h, cs[m + 1..])
  {
    hide Ends, LineTo, LinesTo;
    var pen0 := Pen([], start, start);
    assert cs == cs[..m + 1] + cs[m + 1..];
    DrawAllConcat(pen0, w, h, cs[..m + 1], cs[m + 1..]);
    assert cs[..m + 1][..m] == cs[..m];
  }

  /** Where the path of a contour with further moves begins and ends: at the first point that was
    * kept before the last move, and at that move's target if a line was kept after it. */
  lemma PathEnds(start: Point, w: int, h: int, cs: seq<Command>, m: nat)
    requires m < |cs| && cs[m].Move? && NoMoves(cs[m + 1..])
    ensures var before, all := Contour(start, w, h, cs[..m]).pts, Contour(start, w, h, cs);
            var pts := Close(all);
            if |before| == 0 then Closed(pts)
            else
              && |pts| > 0 && pts[0] == before[0]
              && pts[|pts| - 1] == if all.pts != before then Stored(cs[m].q) else before[|before| - 1]
  {
    hide DrawAll, Stored;
    FromMove(start, w, h, cs, m);
    AllDrawn(Contour(start, w, h, cs[..m]).pts, cs[m].q, w, h, cs[m + 1..]);
  }

  /** With further moves, the last of them decides.  It does no harm if no line was kept before
    * it.  If lines were kept before and after it, the path is closed iff that move goes back to
    * its first point; if only before, iff those lines end where they began. */
  lemma LastMoveDecides(start: Point, w: int, h: int, cs: seq<Command>, m: nat)
    requires m < |cs| && cs[m].Move? && NoMoves(cs[m + 1..])
    ensures var before, all := Contour(start, w, h, cs[..m]).pts, Contour(start, w, h, cs);
            Closed(Close(all)) <==>
              || |before| == 0
              || (if all.pts != before then before[0] == Stored(cs[m].q) else Closed(before))
  {
    hide DrawAll, Stored, Close, NoMoves;
    PathEnds(start, w, h, cs, m);
  }

  /** A path of five points that a second move leaves open, so that the filler gets it. */
  lemma SecondMoveLeavesOpen()
    ensures Close(Contour(Point(0, 0), 512, 512, ZigzagThenMove())) == ZigzagPath() && !Closed(ZigzagPath())
  {
    var pen0, cs := Pen([], Point(0, 0), Point(0, 0)), ZigzagThenMove();
    assert DrawAll(pen0, 512, 512, cs[..0]) == pen0;
    forall i | 0 <= i < |cs| ensures cs[..i + 1][..i] == cs[..i] {}
    assert DrawAll(pen0, 512, 512, cs[..1]) == Draw(DrawAll(pen0, 512, 512, cs[..0]), 512, 512, cs[0]);
    assert DrawAll(pen0, 512, 512, cs[..2]) == Draw(DrawAll(pen0, 512, 512, cs[..1]), 512, 512, cs[1]);
    assert DrawAll(pen0, 512, 512, cs[..3]) == Draw(DrawAll(pen0, 512, 512, cs[..2]), 512, 512, cs[2]);
    assert DrawAll(pen0, 512, 512, cs[..4]) == Draw(DrawAll(pen0, 512, 512, cs[..3]), 512, 512, cs[3]);
    assert cs[..5] == cs;
  }

  function ZigzagThenMove(): seq<Command> {
    [Line(Point(160, 0)), Line(Point(160, 160)), Line(Point(320, 0)), Line(Point(320, 160)), Move(Point(0, 320))]
  }

  function ZigzagPath(): seq<Point> {
    [Point(0, 0), Point(160, 0), Point(160, 160), Point(320, 0), Point(320, 160)]
  }

  // ---------- a full path ----------

  /** The n-th end of lines that go up and down. */
  function UpOrDown(n: nat): Point {
    if n % 2 == 1 then Point(0, 160) else Point(0, 0)
  }

  function UpAndDown(n: nat): seq<Command> {
    seq(n, i requires 0 <= i => Line(UpOrDown(i + 1)))
  }

  function UpAndDownPath(n: nat): (pts: seq<Point>)
    ensures |pts| == n && forall i | 0 <= i < n :: pts[i] == UpOrDown(i)
  {
    seq(n, i requires 0 <= i => UpOrDown(i))
  }

  /** All n of them are kept, behind the start. */
  lemma {:induction false} UpAndDownKept(n: nat)
    ensures Contour(Point(0, 0), 512, 512, UpAndDown(n))
         == Pen(if n == 0 then [] else UpAndDownPath(n + 1), UpOrDown(n), Point(0, 0))
  {
    if n > 0 {
      UpAndDownKept(n - 1);
      assert UpAndDown(n)[..n - 1] == UpAndDown(n - 1);
      assert UpAndDownPath(n + 1) == UpAndDownPath(n) + [UpOrDown(n)];
      assert UpAndDownPath(1) == [Point(0, 0)];
    }
  }

  // ---------- the path in memory ----------

  /** Pairs of coordinates as points. */
  function Pairs(a: seq<nat>): seq<Point> {
    if |a| < 2 then [] else Pairs(a[..|a| - 2]) + [Point(a[|a| - 2], a[|a| - 1])]
  }

  lemma PairsSnoc(a: seq<nat>, x: nat, y: nat)
    requires |a| % 2 == 0
    ensures Pairs(a + [x, y]) == Pairs(a) + [Point(x, y)]
  {
    assert (a + [x, y])[..|a|] == a;
  }

  /** The part of the renderer's context that a contour is built in. */
  class Path {
    var p: array<nat>  // 16-bit values; its length is the field ap
    var np: nat
    var mx: int
    var my: int
    var lx: int
    var ly: int

    /** np is even and within the capacity, which grows by 512. */
    ghost predicate Valid()
      reads this
    {
      np % 2 == 0 && np <= p.Length && p.Length % 512 == 0
    }

    /** The path has never been longer than it is. */
    ghost predicate Tight()
      reads this
    {
      p.Length < np + 512
    }

    ghost function Abstract(): Pen
      requires Valid()
      reads this, p
    {
      Pen(Pairs(p[..np]), Point(lx, ly), Point(mx, my))
    }

    constructor ()
      ensures Valid() && Tight() && Abstract() == Pen([], Point(0, 0), Point(0, 0)) && fresh(p)
    {
      p := new nat[0];
      np, mx, my, lx, ly := 0, 0, 0, 0, 0;
    }

    /** The start of a contour, and a move. */
    method MoveTo(x: int, y: int)
      requires Valid()
      modifies this
      ensures Valid() && p == old(p) && np == old(np) && Abstract() == Draw(old(Abstract()), 0, 0, Move(Point(x, y)))
    {
      mx, my, lx, ly := x, y, x, y;
    }

    /** Stores a point; the caller has made room. */
    method Put(x: int, y: int)
      requires Valid() && np + 2 <= p.Length
      modifies this`np, p
      ensures Valid() && np == old(np) + 2
      ensures Pairs(p[..np]) == Pairs(old(p[..np])) + [Stored(Point(x, y))]
    {
      ghost var a := p[..np];
      p[np] := x % 0x1_0000;
      p[np + 1] := y % 0x1_0000;
      np := np + 2;
      assert p[..np] == a + [(x % 0x1_0000) as nat, y % 0x1_0000];
      PairsSnoc(a, x % 0x1_0000, y % 0x1_0000);
    }

    /** `_ssfn_l`.  Allocation is taken to succeed. */
    method L(w: int, h: int, x: int, y: int)
      requires Valid()
      modifies this, p
      ensures Valid() && Abstract() == LineTo(old(Abstract()), w, h, Point(x, y))
      ensures p == old(p) || fresh(p)
      ensures old(Tight()) ==> Tight()
    {
      hide Pairs, Stored;
      if x < 0 || y < 0 || x >= w || y >= h || (Pixel(lx) == Pixel(x) && Pixel(ly) == Pixel(y)) {
        return;
      }
      if p.Length <= np {
        Grow(np + 512);
      }
      AddPoint(x, y);
      lx, ly := x, y;
    }

    /** Stores the start before the first point, and the point. */
    method AddPoint(x: int, y: int)
      requires Valid() && np < p.Length
      modifies this`np, p
      ensures Valid() && np > old(np)
      ensures var pts := Pairs(old(p[..np]));
              Pairs(p[..np]) == (if |pts| == 0 then [Stored(Point(mx, my))] else pts) + [Stored(Point(x, y))]
    {
      hide Pairs, Stored;
      PairsEmpty(p[..np]);
      if np == 0 {
        Put(mx, my);
      }
      Put(x, y);
    }

    /** Reallocates the path. */
    method Grow(n: nat)
      requires Valid() && np <= n && n % 512 == 0
      modifies this`p
      ensures Valid() && fresh(p) && p.Length == n && p[..np] == old(p[..np])
    {
      var q := new nat[n];
      var k := 0;
      while k < np
        invariant 0 <= k <= np && p == old(p) && forall j | 0 <= j < k :: q[j] == p[j]
      {
        q[k] := p[k];
        k := k + 1;
      }
      p := q;
    }

    /** `_ssfn_b`: flattens a cubic curve at recursion depth l. */
    method B(w: int, h: int, c: Cubic, l: nat)
      requires Valid() && l <= DEPTH
      modifies this, p
      ensures Valid() && Abstract() == LinesTo(old(Abstract()), w, h, Ends(c, l))
      ensures p == old(p) || fresh(p)
      ensures old(Tight()) ==> Tight()
      decreases DEPTH - l
    {
      hide LeftHalf, RightHalf, Ends, LinesTo, LineTo;
      ghost var pen := Abstract();
      if l < DEPTH && (c.p0.x != c.p3.x || c.p0.y != c.p3.y) {
        B(w, h, LeftHalf(c), l + 1);
        B(w, h, RightHalf(c), l + 1);
      }
      if l > 0 {
        L(w, h, c.p3.x, c.p3.y);
      }
      CurveStep(pen, w, h, c, l);
    }

    /** The closing line; it is written without a test for room, which NoRoomToClose says when it
      * is missing. */
    method ClosePath()
      requires Valid() && (mx != lx || my != ly ==> np + 2 <= p.Length)
      modifies this`np, p
      ensures Valid() && Pairs(p[..np]) == Close(old(Abstract()))
    {
      if mx != lx || my != ly {
        Put(mx, my);
      }
    }
  }

  /** On a path that has never been longer, there is no room for the closing line iff its points
    * are a multiple of 256. */
  lemma NoRoomToClose(path: Path)
    requires path.Valid() && path.Tight()
    ensures path.np + 2 > path.p.Length <==> |path.Abstract().pts| % 256 == 0
  {
    PairsLength(path.p[..path.np]);
  }

  lemma {:induction false} PairsLength(a: seq<nat>)
    ensures |Pairs(a)| == |a| / 2
  {
    if |a| >= 2 {
      PairsLength(a[..|a| - 2]);
    }
  }

  /** A contour without a move that fills the path up and leaves the pen away from its start. */
  lemma FullOpenPath()
    ensures var pen := Contour(Point(0, 0), 512, 512, UpAndDown(255));
            NoMoves(UpAndDown(255)) && |pen.pts| == 256 && pen.start != pen.last
  {
    UpAndDownKept(255);
  }

  /** The line ends of a curve, drawn half by half. */
  lemma CurveStep(pen: Pen, w: int, h: int, c: Cubic, l: nat)
    requires l <= DEPTH
    ensures var halves := if l < DEPTH && c.p0 != c.p3
                            then LinesTo(LinesTo(pen, w, h, Ends(LeftHalf(c), l + 1)), w, h, Ends(RightHalf(c), l + 1))
                            else pen;
            LinesTo(pen, w, h, Ends(c, l)) == if l > 0 then LineTo(halves, w, h, c.p3) else halves
  {
    hide LeftHalf, RightHalf, LineTo;
    var ab := if l < DEPTH && c.p0 != c.p3 then Ends(LeftHalf(c), l + 1) + Ends(RightHalf(c), l + 1) else [];
    if l < DEPTH && c.p0 != c.p3 {
      LinesToConcat(pen, w, h, Ends(LeftHalf(c), l + 1), Ends(RightHalf(c), l + 1));
    }
    if l > 0 {
      assert Ends(c, l) == ab + [c.p3];
      assert Ends(c, l)[..|ab|] == ab;
    } else {
      assert Ends(c, l) == ab;
    }
  }

  lemma PairsEmpty(a: seq<nat>)
    requires |a| % 2 == 0
    ensures |Pairs(a)| == 0 <==> |a| == 0
  {
  }
}
