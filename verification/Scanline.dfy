/** The scanline filler of a closed contour (kernel/source/ssfn.h:1113-1136): the crossings of
  * one scanline are collected in order, and pixels between pairs of them are filled. */
module Scanline {
  import opened Bits
  import opened Outline

  const R_ENTRIES := 640

  /** The half-open test: the edge from a to b passes the height y. */
  predicate Crosses(a: Point, b: Point, y: int) {
    (a.y < y && b.y >= y) || (b.y < y && a.y >= y)
  }

  /** Division rounded towards zero. */
  function Div(a: int, b: int): int
    requires b != 0
  {
    if (a >= 0) == (b > 0) then Abs(a) / Abs(b) else -(Abs(a) / Abs(b))
  }

  function Abs(a: int): nat {
    if a >= 0 then a else -a
  }

  /** Where the edge meets the height y, still in fixed point. */
  function Meet(a: Point, b: Point, y: int): int {
    if a.y / 16 == b.y / 16 then (a.x + b.x) / 2
    else a.x + Div((y - a.y) * (b.x - a.x), b.y - a.y)
  }

  /** The crossings of the height y by the first n edges of a path, as pixel columns shifted by
    * the slant of an italic style. */
  function Crossings(pts: seq<Point>, y: int, slant: int, n: nat): seq<int>
    requires n < |pts| || n == 0
  {
    if n == 0 then []
    else
      var column := Meet(pts[n - 1], pts[n], y) / 16 + slant;
      Crossings(pts, y, slant, n - 1) + (if Crosses(pts[n - 1], pts[n], y) then [column] else [])
  }

  // ---------- parity ----------

  /** A path is above or below the scanline; each crossing changes side. */
  lemma {:induction false} CrossingsChangeSide(pts: seq<Point>, y: int, slant: int, n: nat)
    requires n < |pts|
    ensures |Crossings(pts, y, slant, n)| % 2 == if (pts[0].y < y) == (pts[n].y < y) then 0 else 1
  {
    hide Meet;
    if n > 0 {
      CrossingsChangeSide(pts, y, slant, n - 1);
    }
  }

  /** A closed path crosses every scanline an even number of times. */
  lemma ClosedPathCrossesEvenly(pts: seq<Point>, y: int, slant: int)
    requires |pts| > 0 && pts[0] == pts[|pts| - 1]
    ensures |Crossings(pts, y, slant, |pts| - 1)| % 2 == 0
  {
    CrossingsChangeSide(pts, y, slant, |pts| - 1);
  }

  /** All crossings of a height by a path. */
  function AllCrossings(pts: seq<Point>, y: int, slant: int): seq<int> {
    Crossings(pts, y, slant, if |pts| == 0 then 0 else |pts| - 1)
  }

  /** From the contour's commands to the filler: every scanline of the path that a contour with
    * one leading move produces is crossed an even number of times. */
  lemma ContourCrossesEvenly(start: Point, w: int, h: int, cs: seq<Command>, y: int, slant: int)
    requires NoMoves(cs)
    ensures |AllCrossings(Close(Contour(start, w, h, cs)), y, slant)| % 2 == 0
  {
    ContourIsClosed(start, w, h, cs);
    var pts := Close(Contour(start, w, h, cs));
    if |pts| > 0 {
      ClosedPathCrossesEvenly(pts, y, slant);
    }
  }

  /** With further moves, a scanline is crossed an even number of times iff no line was kept before
    * the last of them, or the path begins and ends on the same side of it. */
  lemma LastMoveCrossings(start: Point, w: int, h: int, cs: seq<Command>, m: nat, y: int, slant: int)
    requires m < |cs| && cs[m].Move? && NoMoves(cs[m + 1..])
    ensures var before, all := Contour(start, w, h, cs[..m]).pts, Contour(start, w, h, cs);
            |AllCrossings(Close(all), y, slant)| % 2 == 0 <==>
              || |before| == 0
              || (before[0].y < y) == ((if all.pts != before then Stored(cs[m].q) else before[|before| - 1]).y < y)
  {
    hide DrawAll, Stored, Close, NoMoves, Crossings;
    PathEnds(start, w, h, cs, m);
    var pts := Close(Contour(start, w, h, cs));
    if |pts| > 0 {
      CrossingsChangeSide(pts, y, slant, |pts| - 1);
    } else {
      NoCrossings(pts, y, slant);
    }
  }

  /** The open path of SecondMoveLeavesOpen is long enough for the filler and crossed three times. */
  lemma OpenPathCrossesOddly()
    ensures var pts := Close(Contour(Point(0, 0), 512, 512, ZigzagThenMove()));
            2 * |pts| > 4 && |AllCrossings(pts, 80, 0)| == 3
  {
    SecondMoveLeavesOpen();
    var pts := ZigzagPath();
    assert |Crossings(pts, 80, 0, 0)| == 0;
    assert |Crossings(pts, 80, 0, 1)| == 0;
    assert |Crossings(pts, 80, 0, 2)| == 1;
    assert |Crossings(pts, 80, 0, 3)| == 2;
    assert |Crossings(pts, 80, 0, 4)| == 3;
  }

  /** A crossing lies between the ends of its edge. */
  lemma MeetBetweenEnds(a: Point, b: Point, y: int)
    requires Crosses(a, b, y)
    ensures (if a.x <= b.x then a.x else b.x) <= Meet(a, b, y) <= (if a.x <= b.x then b.x else a.x)
  {
    if a.y / 16 != b.y / 16 {
      hide Div;
      var n, d, dx := y - a.y, b.y - a.y, b.x - a.x;
      assert Meet(a, b, y) == a.x + Div(n * dx, d);
      if d > 0 {
        FractionOf(n, d, dx);
      } else {
        FractionOf(-n, -d, dx);
        NegateProduct(n, dx);
        DivSigns(n * dx, d);
      }
    }
  }

  lemma NegateProduct(n: int, m: int)
    ensures -n * m == -(n * m)
  {
  }

  lemma DivSigns(a: int, b: int)
    requires b < 0
    ensures Div(a, b) == Div(-a, -b)
  {
  }

  /** n/d of dx, for n between 0 and d, lies between 0 and dx. */
  lemma FractionOf(n: int, d: int, dx: int)
    requires 0 <= n <= d && d > 0
    ensures if dx >= 0 then 0 <= Div(n * dx, d) <= dx else dx <= Div(n * dx, d) <= 0
  {
    hide Div;
    var m := Abs(dx);
    MulMonotone(n, d, m);
    DivBound(n * m, d, m);
    if dx >= 0 {
      DivOfPositive(n * m, d);
    } else {
      NegateProduct(n, m);
      assert n * dx == 0 - n * m;
      DivOfNegative(n * m, d);
    }
  }

  lemma DivOfPositive(a: nat, d: nat)
    requires d > 0
    ensures Div(a, d) == a / d
  {
  }

  lemma DivOfNegative(a: nat, d: nat)
    requires d > 0
    ensures Div(0 - a, d) == 0 - a / d
  {
    if a == 0 {
      assert a / d == 0;
    }
  }

  lemma {:induction false} MulMonotone(n: nat, d: nat, m: nat)
    requires n <= d
    ensures 0 <= n * m <= d * m
  {
    if m > 0 {
      MulMonotone(n, d, m - 1);
      assert n * m == n * (m - 1) + n && d * m == d * (m - 1) + d;
    }
  }

  lemma DivBound(a: nat, d: nat, m: nat)
    requires d > 0 && a <= d * m
    ensures a / d <= m
  {
    if a / d > m {
      assert a / d >= m + 1;
      assert d * (a / d) >= d * (m + 1) by {
        MulMonotone(m + 1, a / d, d);
      }
    }
  }

  // ---------- the columns ----------

  /** The scanline y meets the line through a and b at m: the midpoint, if a and b lie in one row of
    * pixels, and else the intersection, rounded from there towards a. */
  ghost predicate MeetsAt(a: Point, b: Point, y: int, m: int) {
    if a.y / 16 == b.y / 16 then 2 * m <= a.x + b.x < 2 * m + 2
    else
      var exact, drawn := (y - a.y) * (b.x - a.x), (m - a.x) * (b.y - a.y);
      Distance(drawn, exact) < Distance(a.y, b.y) && Distance(drawn, 0) <= Distance(exact, 0)
  }

  function Distance(a: int, b: int): nat {
    if a <= b then b - a else a - b
  }

  /** There is only one such m. */
  lemma MeetsOnce(a: Point, b: Point, y: int, m: int, n: int)
    requires MeetsAt(a, b, y, m) && MeetsAt(a, b, y, n)
    ensures m == n
  {
    if a.y / 16 != b.y / 16 {
      hide Distance;
      var d := b.y - a.y;
      Multiple(m - a.x, d);
      Multiple(n - a.x, d);
      Multiple(m - n, d);
      assert (m - n) * d == (m - a.x) * d - (n - a.x) * d;
      SameDistance(a.y, b.y);
      MultiplesNear((m - a.x) * d, (n - a.x) * d, (y - a.y) * (b.x - a.x), d);
    }
  }

  lemma SameDistance(a: int, b: int)
    ensures Distance(a, b) == Distance(b - a, 0)
  {
  }

  /** Two multiples of d, both between zero and e and nearer to e than d, differ by less than d. */
  lemma MultiplesNear(u: int, v: int, e: int, d: int)
    requires u == 0 || Distance(u, 0) >= Distance(d, 0)
    requires v == 0 || Distance(v, 0) >= Distance(d, 0)
    requires Distance(u, e) < Distance(d, 0) && Distance(u, 0) <= Distance(e, 0)
    requires Distance(v, e) < Distance(d, 0) && Distance(v, 0) <= Distance(e, 0)
    ensures Distance(u - v, 0) < Distance(d, 0)
  {
  }

  /** A multiple of d is zero or at least as far from zero as d. */
  lemma Multiple(k: int, d: int)
    ensures k == 0 ==> k * d == 0
    ensures k != 0 ==> Distance(k * d, 0) >= Distance(d, 0)
  {
    if d >= 0 {
      MulGrows(k, d);
    } else {
      MulGrows(k, -d);
      assert k * (-d) == -(k * d);
    }
  }

  lemma MeetMeets(a: Point, b: Point, y: int)
    requires Crosses(a, b, y)
    ensures MeetsAt(a, b, y, Meet(a, b, y))
  {
    if a.y / 16 != b.y / 16 {
      Truncated((y - a.y) * (b.x - a.x), b.y - a.y);
    }
  }

  /** A quotient times the divisor has the sign of the dividend. */
  lemma SignedProduct(a: int, b: int)
    requires b != 0
    ensures Div(a, b) * b == if a >= 0 then Abs(a) / Abs(b) * Abs(b) else 0 - Abs(a) / Abs(b) * Abs(b)
  {
    var q := Abs(a) / Abs(b);
    hide Abs;
    if (a >= 0) == (b > 0) {
      assert Div(a, b) == q;
    } else {
      assert Div(a, b) == -q;
    }
    AbsIs(b);
    NegateProduct(q, b);
    NegateProduct(q, -b);
    assert q * (-b) == -(q * b);
  }

  lemma AbsIs(b: int)
    ensures Abs(b) == if b >= 0 then b else -b
  {
  }

  /** The quotient rounded towards zero. */
  lemma Truncated(a: int, b: int)
    requires b != 0
    ensures Distance(Div(a, b) * b, a) < Distance(b, 0) && Distance(Div(a, b) * b, 0) <= Distance(a, 0)
  {
    hide Div, Abs, Distance;
    AbsPositive(b);
    SignedProduct(a, b);
    WholeAndRest(Abs(a), Abs(b));
    RoundedTowardsZero(a, b, Div(a, b) * b, Abs(a) / Abs(b) * Abs(b), Abs(a) % Abs(b));
  }

  lemma AbsPositive(b: int)
    requires b != 0
    ensures Abs(b) > 0
  {
  }

  lemma WholeAndRest(a: nat, d: nat)
    requires d > 0
    ensures a == a / d * d + a % d && 0 <= a / d * d && a % d < d
  {
    NonNegative(a / d, d);
  }

  lemma RoundedTowardsZero(a: int, b: int, product: int, whole: int, rest: int)
    requires Abs(a) == whole + rest && 0 <= whole && 0 <= rest < Abs(b)
    requires product == if a >= 0 then whole else 0 - whole
    ensures Distance(product, a) < Distance(b, 0) && Distance(product, 0) <= Distance(a, 0)
  {
  }

  lemma NonNegative(q: nat, d: nat)
    ensures q * d >= 0
  {
  }

  /** The edge from point i of the path passes the height y: exactly one of its ends is above. */
  ghost predicate Passes(pts: seq<Point>, i: int, y: int) {
    0 <= i < |pts| - 1 && ((pts[i].y < y) != (pts[i + 1].y < y))
  }

  /** The pixel column in which an edge meets the scanline, before slanting. */
  ghost predicate InColumn(a: Point, b: Point, y: int, column: int) {
    exists m :: MeetsAt(a, b, y, m) && 16 * column <= m < 16 * column + 16
  }

  /** The column in which some edge of the path that passes the scanline meets it. */
  ghost predicate IsColumn(pts: seq<Point>, y: int, column: int) {
    exists i: nat :: Passes(pts, i, y) && InColumn(pts[i], pts[i + 1], y, column)
  }

  /** The crossings are the columns in which the edges that pass the scanline meet it, one for each
    * and in their order. */
  lemma {:induction false} CrossingsAreColumns(pts: seq<Point>, y: int, slant: int, n: nat) returns (edges: seq<nat>)
    requires n < |pts|
    ensures |edges| == |Crossings(pts, y, slant, n)|
    ensures forall i: nat | i < n :: i in edges <==> Passes(pts, i, y)
    ensures forall j, k | 0 <= j < k < |edges| :: edges[j] < edges[k]
    ensures forall j | 0 <= j < |edges| ::
              edges[j] < n && InColumn(pts[edges[j]], pts[edges[j] + 1], y, Crossings(pts, y, slant, n)[j] - slant)
  {
    edges := [];
    if n > 0 {
      var before := CrossingsAreColumns(pts, y, slant, n - 1);
      edges := before;
      if Crosses(pts[n - 1], pts[n], y) {
        MeetMeets(pts[n - 1], pts[n], y);
        hide Meet, MeetsAt;
        edges := before + [n - 1];
        assert InColumn(pts[n - 1], pts[n], y, Meet(pts[n - 1], pts[n], y) / 16);
      }
    }
  }

  /** Whatever is among the crossings is such a column. */
  lemma CrossingIsColumn(pts: seq<Point>, y: int, slant: int, v: int)
    requires v in AllCrossings(pts, y, slant)
    ensures IsColumn(pts, y, v - slant)
  {
    hide Crossings, InColumn;
    if |pts| == 0 {
      NoCrossings(pts, y, slant);
    } else {
      var edges := CrossingsAreColumns(pts, y, slant, |pts| - 1);
      var j :| 0 <= j < |edges| && AllCrossings(pts, y, slant)[j] == v;
      assert edges[j] in edges && Passes(pts, edges[j], y);
    }
  }

  // ---------- insertion ----------

  ghost predicate Sorted(r: seq<int>) {
    forall i, j | 0 <= i < j < |r| :: r[i] <= r[j]
  }

  /** s with x put in at place k. */
  function With(s: seq<int>, k: nat, x: int): seq<int>
    requires k <= |s|
  {
    s[..k] + [x] + s[k..]
  }

  lemma WithSorted(s: seq<int>, k: nat, x: int)
    requires Sorted(s) && k <= |s| && (forall j | 0 <= j < k :: s[j] < x) && (k < |s| ==> x <= s[k])
    ensures Sorted(With(s, k, x))
  {
    var w := With(s, k, x);
    forall i | 0 <= i < |w| ensures w[i] == if i < k then s[i] else if i == k then x else s[i - 1] {
    }
    hide With;
    assert forall j | k <= j < |s| :: s[k] <= s[j];
  }

  lemma WithContents(s: seq<int>, k: nat, x: int)
    requires k <= |s|
    ensures multiset(With(s, k, x)) == multiset(s) + multiset{x}
  {
    assert s == s[..k] + s[k..];
  }

  /** Inserts x into the sorted first n entries of r: before the first that is not smaller. */
  method Insert(r: array<int>, n: nat, x: int)
    requires n < r.Length && Sorted(r[..n])
    modifies r
    ensures Sorted(r[..n + 1]) && multiset(r[..n + 1]) == multiset(old(r[..n])) + multiset{x}
  {
    hide Sorted, With;
    ghost var s := r[..n];
    var k := 0;
    while k < n && x > r[k]
      invariant 0 <= k <= n && r[..n] == s && forall j | 0 <= j < k :: r[j] < x
    {
      k := k + 1;
    }
    assert forall j | 0 <= j < k :: s[j] < x by {
      assert forall j | 0 <= j < n :: s[j] == r[j];
    }
    WithSorted(s, k, x);
    WithContents(s, k, x);
    ShiftIn(r, n, k, x);
  }

  /** Moves the entries from place k on up by one and stores x there. */
  method ShiftIn(r: array<int>, n: nat, k: nat, x: int)
    requires k <= n < r.Length
    modifies r
    ensures r[..n + 1] == With(old(r[..n]), k, x)
  {
    ghost var s := r[..n];
    var l := n;
    while l > k
      invariant k <= l <= n
      invariant forall j | 0 <= j < l :: r[j] == s[j]
      invariant forall j | l < j <= n :: r[j] == s[j - 1]
    {
      r[l] := r[l - 1];
      l := l - 1;
    }
    r[k] := x;
    assert forall j | 0 <= j <= n :: r[j] == if j < k then s[j] else if j == k then x else s[j - 1];
  }

  /** The fix-up of an odd number of crossings drops the last but one. */
  function FixedUp(s: seq<int>): seq<int> {
    if |s| > 1 && |s| % 2 == 1 then s[..|s| - 2] + [s[|s| - 1]] else s
  }

  lemma ClosedIsNotFixed(pts: seq<Point>, y: int, slant: int, s: seq<int>)
    requires Closed(pts) && |s| == |AllCrossings(pts, y, slant)|
    ensures |s| % 2 == 0 && FixedUp(s) == s
  {
    hide Crossings;
    if |pts| > 0 {
      ClosedPathCrossesEvenly(pts, y, slant);
    } else {
      NoCrossings(pts, y, slant);
    }
  }

  lemma ColumnsFixedUp(pts: seq<Point>, y: int, slant: int, s: seq<int>)
    requires multiset(s) == multiset(AllCrossings(pts, y, slant))
    ensures forall k | 0 <= k < |FixedUp(s)| :: IsColumn(pts, y, FixedUp(s)[k] - slant)
    ensures |s| > 1 && |s| % 2 == 1 ==>
              && |FixedUp(s)| == |s| - 1 && FixedUp(s)[..|s| - 2] == s[..|s| - 2] && FixedUp(s)[|s| - 2] == s[|s| - 1]
    ensures |s| <= 1 || |s| % 2 == 0 ==> FixedUp(s) == s
  {
    hide Crossings, IsColumn, AllCrossings;
    forall k | 0 <= k < |FixedUp(s)| ensures IsColumn(pts, y, FixedUp(s)[k] - slant) {
      var v := FixedUp(s)[k];
      assert v in s;
      assert v in multiset(s);
      assert v in AllCrossings(pts, y, slant);
      CrossingIsColumn(pts, y, slant, v);
    }
  }

  lemma {:induction false} CrossingsGrow(pts: seq<Point>, y: int, slant: int, m: nat, n: nat)
    requires m <= n < |pts|
    ensures |Crossings(pts, y, slant, m)| <= |Crossings(pts, y, slant, n)|
  {
    if m < n {
      CrossingsGrow(pts, y, slant, m, n - 1);
    }
  }

  /** The fix-up of an odd number of crossings. */
  method FixUp(r: array<int>, nr: nat) returns (nr': nat)
    requires nr <= r.Length
    modifies r
    ensures nr' <= nr && r[..nr'] == FixedUp(old(r[..nr]))
  {
    nr' := nr;
    if nr > 1 && nr % 2 == 1 {
      r[nr - 2] := r[nr - 1];
      nr' := nr - 1;
    }
  }

  /** The body of the loop over the edges. */
  method AddEdge(pts: seq<Point>, i: nat, y: int, slant: int, r: array<int>, nr: nat) returns (nr': nat)
    requires i + 1 < |pts| && |Crossings(pts, y, slant, i + 1)| <= r.Length && nr <= r.Length
    requires nr == |Crossings(pts, y, slant, i)| && Sorted(r[..nr])
    requires multiset(r[..nr]) == multiset(Crossings(pts, y, slant, i))
    modifies r
    ensures nr' == |Crossings(pts, y, slant, i + 1)| && Sorted(r[..nr'])
    ensures multiset(r[..nr']) == multiset(Crossings(pts, y, slant, i + 1))
  {
    hide Sorted, Crosses, Meet;
    nr' := nr;
    ghost var before := Crossings(pts, y, slant, i);
    if Crosses(pts[i], pts[i + 1], y) {
      var column := Meet(pts[i], pts[i + 1], y) / 16 + slant;
      assert Crossings(pts, y, slant, i + 1) == before + [column];
      Insert(r, nr, column);
      nr' := nr + 1;
    } else {
      assert Crossings(pts, y, slant, i + 1) == before;
    }
  }

  /** A scanline is crossed by each line at most once. */
  lemma {:induction false} CrossedOncePerLine(pts: seq<Point>, y: int, slant: int, n: nat)
    requires n < |pts|
    ensures |Crossings(pts, y, slant, n)| <= n
  {
    if n > 0 {
      CrossedOncePerLine(pts, y, slant, n - 1);
    }
  }

  /** So up to 641 points there is room for its crossings in the 640 entries that the filler has. */
  lemma RoomForCrossings(pts: seq<Point>, y: int, slant: int)
    requires 0 < |pts| <= R_ENTRIES + 1
    ensures |AllCrossings(pts, y, slant)| <= |pts| - 1 <= R_ENTRIES
  {
    CrossedOncePerLine(pts, y, slant, |pts| - 1);
  }

  lemma {:induction false} UpAndDownCrossed(m: nat, n: nat)
    requires n < m
    ensures |Crossings(UpAndDownPath(m), 80, 0, n)| == n
  {
    hide Meet;
    if n > 0 {
      UpAndDownCrossed(m, n - 1);
      var pts := UpAndDownPath(m);
      assert pts[n - 1] == UpOrDown(n - 1) && pts[n] == UpOrDown(n);
    }
  }

  /** Lines that go up and down come back to the start after an even number, without a move, and each
    * of them crosses the middle. */
  lemma UpAndDownCloses(n: nat)
    requires n > 0 && n % 2 == 0
    ensures NoMoves(UpAndDown(n))
    ensures |AllCrossings(Close(Contour(Point(0, 0), 512, 512, UpAndDown(n))), 80, 0)| == n
  {
    hide Contour, Crossings;
    UpAndDownKept(n);
    UpAndDownCrossed(n + 1, n);
  }

  /** So a closed contour of 642 lines has more crossings than the filler has entries. */
  lemma NoRoomForCrossings()
    ensures NoMoves(UpAndDown(642))
    ensures |AllCrossings(Close(Contour(Point(0, 0), 512, 512, UpAndDown(642))), 80, 0)| == 642 > R_ENTRIES
  {
    hide Contour, Close, AllCrossings, UpAndDown, NoMoves;
    UpAndDownCloses(642);
  }

  /** What is left to do when the crossings are collected. */
  method Finish(pts: seq<Point>, y: int, slant: int, r: array<int>, n: nat) returns (nr: nat, ghost s: seq<int>)
    requires n <= r.Length && multiset(r[..n]) == multiset(AllCrossings(pts, y, slant))
    requires n == |AllCrossings(pts, y, slant)|
    modifies r
    ensures s == old(r[..n]) && nr <= r.Length && r[..nr] == FixedUp(s)
    ensures Closed(pts) ==> nr % 2 == 0 && r[..nr] == s
    ensures forall k | 0 <= k < nr :: IsColumn(pts, y, r[k] - slant)
    ensures |s| > 1 && |s| % 2 == 1 ==> nr == |s| - 1 && r[..nr][..nr - 1] == s[..nr - 1] && r[nr - 1] == s[nr]
    ensures |s| <= 1 || |s| % 2 == 0 ==> r[..nr] == s
  {
    hide AllCrossings, Closed, FixedUp, IsColumn;
    s := r[..n];
    nr := FixUp(r, n);
    ColumnsFixedUp(pts, y, slant, s);
    assert forall k | 0 <= k < nr :: r[k] == FixedUp(s)[k];
    if Closed(pts) {
      ClosedIsNotFixed(pts, y, slant, s);
    }
  }

  /** Collects the crossings of one scanline, for which r has room, sorted as s, and fixes them up if
    * their number is odd, which never happens on a closed path. */
  method Collect(pts: seq<Point>, y: int, slant: int, r: array<int>) returns (nr: nat, ghost s: seq<int>)
    requires |AllCrossings(pts, y, slant)| <= r.Length
    modifies r
    ensures Sorted(s) && multiset(s) == multiset(AllCrossings(pts, y, slant)) && |s| == |AllCrossings(pts, y, slant)|
    ensures nr <= r.Length && r[..nr] == FixedUp(s)
    ensures Closed(pts) ==> nr % 2 == 0 && r[..nr] == s
    ensures forall k | 0 <= k < nr :: IsColumn(pts, y, r[k] - slant)
    ensures |s| > 1 && |s| % 2 == 1 ==> nr == |s| - 1 && r[..nr][..nr - 1] == s[..nr - 1] && r[nr - 1] == s[nr]
    ensures |s| <= 1 || |s| % 2 == 0 ==> r[..nr] == s
  {
    hide Sorted, Crossings, Closed, FixedUp, IsColumn;
    nr := 0;
    var i := 0;
    NoCrossings(pts, y, slant);
    NoneSorted(r[..0]);
    while i + 1 < |pts|
      invariant 0 <= i && (|pts| > 0 ==> i < |pts|) && (|pts| == 0 ==> i == 0)
      invariant nr == |Crossings(pts, y, slant, i)| <= r.Length && Sorted(r[..nr])
      invariant multiset(r[..nr]) == multiset(Crossings(pts, y, slant, i))
    {
      CrossingsGrow(pts, y, slant, i + 1, |pts| - 1);
      nr := AddEdge(pts, i, y, slant, r, nr);
      i := i + 1;
    }
    nr, s := Finish(pts, y, slant, r, nr);
  }

  lemma NoCrossings(pts: seq<Point>, y: int, slant: int)
    ensures Crossings(pts, y, slant, 0) == []
  {
  }

  lemma NoneSorted(s: seq<int>)
    requires |s| == 0
    ensures Sorted(s)
  {
  }
}
