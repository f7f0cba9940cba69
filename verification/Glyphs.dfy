/** What the console renderer of kernel/source/ssfn.h:1510-1535 shows, pixel by pixel: column l and
  * row r of a glyph stand at the pixel (x + l, y + r), x and y being the cursor. */
module Glyphs {
  import opened Bits
  import opened Console

  /** Column l of row r of the glyph lies on the screen, which n pixels make up. */
  ghost predicate OnScreen(c: Canvas, n: nat, l: nat, r: nat) {
    c.x + l < c.w <= c.s && c.y + r < c.h && (c.y + r) * c.s + (c.x + l) < n
  }

  /** Every such pixel exists. */
  lemma PixelExists(c: Canvas, n: nat, l: nat, r: nat)
    requires Usable(c, n) && c.x + l < c.w && c.y + r < c.h
    ensures OnScreen(c, n, l, r)
  {
    RowOnScreen(c, n, r, l);
  }

  function Larger(a: nat, b: nat): nat {
    if a < b then b else a
  }

  /** Bit b of the bitmap at address `at` is set. */
  ghost predicate BitSet(d: seq<Byte>, at: nat, b: int) {
    0 <= b && at + b / 8 < |d| && And(d[at + b / 8], Pow2(b % 8)) != 0
  }

  lemma NonNegative(a: nat, b: nat)
    ensures a * b >= 0
  {
  }

  lemma BitSetIsOne(d: seq<Byte>, at: nat, b: nat)
    ensures BitSet(d, at, b) <==> BitmapBit(d, at, b) == 1
  {
    hide And, Shl;
    if at + b / 8 < |d| {
      AndBit(d[at + b / 8], b % 8);
    }
  }

  // ---------- rows ----------

  /** A pixel of row r lies among the visible k columns of row `row` iff that is its row and its
    * column is one of them. */
  lemma InRow(c: Canvas, n: nat, row: nat, k: nat, l: nat, r: nat)
    requires OnScreen(c, n, l, r)
    ensures var i := (c.y + r) * c.s + (c.x + l);
            && (RowStart(c, row) <= i < RowStart(c, row) + Visible(c, k) <==> row == r && l < k)
            && (row == r ==> i - RowStart(c, row) == l)
  {
    RowsBetween(c, row, r);
    if r > row {
      MulLe(1, r - row, c.s);
    } else if r < row {
      MulLe(1, row - r, c.s);
      assert (r - row) * c.s == -((row - r) * c.s);
    }
  }

  lemma FillRowAt(c: Canvas, P: seq<nat>, row: nat, width: nat, l: nat, r: nat)
    requires OnScreen(c, |P|, l, r)
    ensures var i := (c.y + r) * c.s + (c.x + l);
            FillRow(c, P, row, width)[i] == if row == r && l < width then c.bg else P[i]
  {
    InRow(c, |P|, row, width, l, r);
    hide RowStart, Visible;
  }

  lemma BitRowAt(c: Canvas, d: seq<Byte>, at: nat, P: seq<nat>, row: nat, k: nat, b: nat, l: nat, r: nat)
    requires OnScreen(c, |P|, l, r)
    ensures var i := (c.y + r) * c.s + (c.x + l);
            BitRow(c, d, at, P, row, k, b)[i] ==
              if row == r && l < k then Paint(c, P[i], BitmapBit(d, at, b + l)) else P[i]
  {
    InRow(c, |P|, row, k, l, r);
    hide RowStart, Visible, BitmapBit, Paint;
  }

  /** Where drawing from row `row` down to row `limit` stops: there, or at the end of the screen. */
  function Stop(c: Canvas, row: nat, limit: nat): nat {
    if row >= limit || c.y + row >= c.h then row else if c.y + limit <= c.h then limit else c.h - c.y
  }

  lemma {:induction false} FillRowsAt(c: Canvas, P: seq<nat>, row: nat, limit: nat, width: nat, l: nat, r: nat)
    requires OnScreen(c, |P|, l, r)
    ensures var i := (c.y + r) * c.s + (c.x + l);
            FillRows(c, P, row, limit, width).0[i] == if row <= r < limit && l < width then c.bg else P[i]
    ensures FillRows(c, P, row, limit, width).1 == Stop(c, row, limit)
    decreases limit - row
  {
    hide FillRow;
    if row < limit && c.y + row < c.h {
      FillRowAt(c, P, row, width, l, r);
      FillRowsAt(c, FillRow(c, P, row, width), row + 1, limit, width, l, r);
    }
  }

  /** q is the row of the bitmap that row r of the glyph shows. */
  lemma {:induction false} BitRowsAt(c: Canvas, d: seq<Byte>, at: nat, P: seq<nat>, row: nat, k: nat, j: nat, r0: nat,
      l: nat, r: nat, q: int)
    requires OnScreen(c, |P|, l, r) && r0 <= j && q == r0 + r - row
    ensures var i := (c.y + r) * c.s + (c.x + l);
            BitRows(c, d, at, P, row, k, j, r0).0[i] ==
              if r0 <= q < j && l < k then Paint(c, P[i], BitmapBit(d, at, q * k + l)) else P[i]
    ensures BitRows(c, d, at, P, row, k, j, r0).1 == Stop(c, row, row + (j - r0))
    decreases j - r0
  {
    hide BitRow, BitmapBit, Paint;
    if r0 < j && c.y + row < c.h {
      BitRowAt(c, d, at, P, row, k, r0 * k, l, r);
      BitRowsAt(c, d, at, BitRow(c, d, at, P, row, k, r0 * k), row + 1, k, j, r0 + 1, l, r, q);
    }
  }

  // ---------- transparent background ----------

  /** The fragment has a set bit for column l of row r. */
  ghost predicate Lit(d: seq<Byte>, f: Fragment, l: nat, r: nat) {
    f.Bitmap? && f.top <= r < f.top + f.j && l < f.k && BitSet(d, f.at, (r - f.top) * f.k + l)
  }

  lemma LitFragment(c: Canvas, d: seq<Byte>, f: Fragment, P: seq<nat>, row: nat, width: nat, l: nat, r: nat)
    requires OnScreen(c, |P|, l, r) && c.bg == 0
    ensures var i := (c.y + r) * c.s + (c.x + l);
            DrawFragment(c, d, f, P, row, width).0[i] == if Lit(d, f, l, r) then c.fg else P[i]
  {
    hide BitRows, BitSet, BitmapBit;
    if f.Bitmap? {
      BitRowsAt(c, d, f.at, P, f.top, f.k, f.j, 0, l, r, r - f.top);
      if f.top <= r < f.top + f.j && l < f.k {
        NonNegative(r - f.top, f.k);
        BitSetIsOne(d, f.at, (r - f.top) * f.k + l);
      }
    }
  }

  lemma {:induction false} LitFragments(c: Canvas, d: seq<Byte>, fs: seq<Fragment>, P: seq<nat>, width: nat, l: nat,
      r: nat)
    requires OnScreen(c, |P|, l, r) && c.bg == 0
    ensures var i := (c.y + r) * c.s + (c.x + l);
            DrawFragments(c, d, fs, P, width).0[i] ==
              if exists n :: 0 <= n < |fs| && Lit(d, fs[n], l, r) then c.fg else P[i]
  {
    hide DrawFragment, Lit;
    if |fs| > 0 {
      var front, last := fs[..|fs| - 1], |fs| - 1;
      LitFragments(c, d, front, P, width, l, r);
      var (P1, row1) := DrawFragments(c, d, front, P, width);
      LitFragment(c, d, fs[last], P1, row1, width, l, r);
      if n :| 0 <= n < |front| && Lit(d, front[n], l, r) {
        assert Lit(d, fs[n], l, r);
      }
      if n :| 0 <= n < |fs| && Lit(d, fs[n], l, r) && n != last {
        assert Lit(d, front[n], l, r);
      }
    }
  }

  /** On a transparent background a pixel shows the foreground iff some fragment has a bit set for
    * it, each fragment standing at its own top row, and keeps its value otherwise. */
  lemma TransparentGlyph(c: Canvas, d: seq<Byte>, fs: seq<Fragment>, P: seq<nat>, width: nat, height: nat, l: nat,
      r: nat)
    requires OnScreen(c, |P|, l, r) && c.bg == 0
    ensures DrawGlyph(c, d, fs, P, width, height)[(c.y + r) * c.s + (c.x + l)] ==
              if exists n :: 0 <= n < |fs| && Lit(d, fs[n], l, r) then c.fg else P[(c.y + r) * c.s + (c.x + l)]
  {
    hide DrawFragments, Lit;
    LitFragments(c, d, fs, P, width, l, r);
  }

  // ---------- opaque background ----------

  /** The first row behind all of the fragments. */
  function NextFree(fs: seq<Fragment>): nat {
    if |fs| == 0 then 0
    else
      var row, f := NextFree(fs[..|fs| - 1]), fs[|fs| - 1];
      if f.Bitmap? then Larger(row, f.top) + f.j else row
  }

  /** The row that fragment n is drawn from: its top row, or the first row that is still free. */
  function FirstRowOf(fs: seq<Fragment>, n: nat): nat
    requires n < |fs| && fs[n].Bitmap?
  {
    Larger(NextFree(fs[..n]), fs[n].top)
  }

  /** Fragment n is drawn in row r. */
  ghost predicate Covers(fs: seq<Fragment>, n: int, r: nat) {
    0 <= n < |fs| && fs[n].Bitmap? && FirstRowOf(fs, n) <= r < FirstRowOf(fs, n) + fs[n].j
  }

  lemma {:induction false} NextFreeGrows(fs: seq<Fragment>, n: nat)
    requires n < |fs| && fs[n].Bitmap?
    ensures FirstRowOf(fs, n) + fs[n].j <= NextFree(fs)
  {
    if n < |fs| - 1 {
      NextFreeGrows(fs[..|fs| - 1], n);
      assert fs[..|fs| - 1][..n] == fs[..n];
    }
  }

  /** What column l of row r shows of a bitmap that is drawn from row `first` on, q being the pixel
    * before. */
  ghost function BitmapPixel(c: Canvas, d: seq<Byte>, f: Fragment, first: nat, l: nat, r: nat, q: nat): nat
    requires f.Bitmap? && first <= r
  {
    if l >= f.k then q else if BitSet(d, f.at, (r - first) * f.k + l) then c.fg else c.bg
  }

  /** What an opaque glyph shows in column l of row r, q being the pixel before, once its fragments
    * are drawn and the background down to row `filled`. */
  ghost predicate Shows(c: Canvas, d: seq<Byte>, fs: seq<Fragment>, width: nat, filled: nat, l: nat, r: nat, q: nat,
      v: nat) {
    && (forall n: nat | Covers(fs, n, r) :: v == BitmapPixel(c, d, fs[n], FirstRowOf(fs, n), l, r, q))
    && ((forall n: nat :: !Covers(fs, n, r)) ==> v == if r < filled && l < width then c.bg else q)
  }

  /** One bitmap, from the pixels before it. */
  lemma OpaqueFragment(c: Canvas, d: seq<Byte>, f: Fragment, P: seq<nat>, row: nat, width: nat, l: nat, r: nat)
    requires OnScreen(c, |P|, l, r) && c.bg != 0 && f.Bitmap?
    ensures var i, row1 := (c.y + r) * c.s + (c.x + l), Stop(c, row, f.top);
            && DrawFragment(c, d, f, P, row, width).1 == Stop(c, row1, row1 + f.j)
            && DrawFragment(c, d, f, P, row, width).0[i] ==
                 if row1 <= r < row1 + f.j then BitmapPixel(c, d, f, row1, l, r, P[i])
                 else if row <= r < f.top && l < width then c.bg else P[i]
  {
    hide FillRows, BitRows, BitSet, BitmapBit;
    FillRowsAt(c, P, row, f.top, width, l, r);
    var (P1, row1) := FillRows(c, P, row, f.top, width);
    BitRowsAt(c, d, f.at, P1, row1, f.k, f.j, 0, l, r, r - row1);
    if row1 <= r < row1 + f.j && l < f.k {
      NonNegative(r - row1, f.k);
      BitSetIsOne(d, f.at, (r - row1) * f.k + l);
    }
  }

  /** Fragments before the last cover what they cover without it. */
  lemma CoversBefore(fs: seq<Fragment>, n: nat, r: nat)
    requires n + 1 < |fs|
    ensures Covers(fs, n, r) <==> Covers(fs[..|fs| - 1], n, r)
    ensures fs[n].Bitmap? ==> FirstRowOf(fs, n) == FirstRowOf(fs[..|fs| - 1], n)
    ensures Covers(fs, n, r) ==> r < NextFree(fs[..|fs| - 1])
  {
    var front := fs[..|fs| - 1];
    assert front[..n] == fs[..n] && front[n] == fs[n];
    if fs[n].Bitmap? {
      NextFreeGrows(front, n);
    }
  }

  /** The row that drawing stands at, which the end of the screen holds back. */
  function RowAt(c: Canvas, free: nat): nat {
    if c.y + free <= c.h || c.y >= c.h then free else c.h - c.y
  }

  /** On the screen the rows are those that the fragments ask for. */
  lemma RowsOnScreen(c: Canvas, free: nat, top: nat, j: nat, r: nat)
    requires c.y + r < c.h
    ensures var row := RowAt(c, free);
            var row1, first := Stop(c, row, top), Larger(free, top);
            && (row <= r <==> free <= r) && (first <= r ==> row1 == first)
            && (row1 <= r < row1 + j <==> first <= r < first + j)
  {
  }

  lemma OpaqueStep(c: Canvas, d: seq<Byte>, fs: seq<Fragment>, width: nat, l: nat, r: nat, q: nat, v1: nat, v: nat)
    requires |fs| > 0 && fs[|fs| - 1].Bitmap? && c.y + r < c.h
    requires Shows(c, d, fs[..|fs| - 1], width, NextFree(fs[..|fs| - 1]), l, r, q, v1)
    requires var f, row := fs[|fs| - 1], RowAt(c, NextFree(fs[..|fs| - 1]));
             var row1 := Stop(c, row, f.top);
             v == if row1 <= r < row1 + f.j then BitmapPixel(c, d, f, row1, l, r, v1)
                  else if row <= r < f.top && l < width then c.bg else v1
    ensures Shows(c, d, fs, width, NextFree(fs), l, r, q, v)
  {
    hide BitmapPixel, NextFree, RowAt, Stop, FirstRowOf, Shows;
    NextFreeIs(fs);
    var front, f := fs[..|fs| - 1], fs[|fs| - 1];
    LastFirstRow(fs);
    RowsOnScreen(c, NextFree(front), f.top, f.j, r);
    PrefixCovers(fs, r);
    if Covers(fs, |fs| - 1, r) {
      StepCovered(c, d, fs, width, l, r, q, v1, v);
    } else {
      StepUncovered(c, d, fs, width, l, r, q, v1, v);
    }
  }

  lemma LastFirstRow(fs: seq<Fragment>)
    requires |fs| > 0 && fs[|fs| - 1].Bitmap?
    ensures FirstRowOf(fs, |fs| - 1) == Larger(NextFree(fs[..|fs| - 1]), fs[|fs| - 1].top)
  {
  }

  /** All of CoversBefore. */
  lemma PrefixCovers(fs: seq<Fragment>, r: nat)
    requires |fs| > 0
    ensures forall n: nat | n + 1 < |fs| ::
              && (Covers(fs, n, r) <==> Covers(fs[..|fs| - 1], n, r))
              && (fs[n].Bitmap? ==> FirstRowOf(fs, n) == FirstRowOf(fs[..|fs| - 1], n))
              && (Covers(fs, n, r) ==> r < NextFree(fs[..|fs| - 1]))
  {
    hide Covers, FirstRowOf, NextFree;
    forall n: nat | n + 1 < |fs|
      ensures Covers(fs, n, r) <==> Covers(fs[..|fs| - 1], n, r)
      ensures fs[n].Bitmap? ==> FirstRowOf(fs, n) == FirstRowOf(fs[..|fs| - 1], n)
      ensures Covers(fs, n, r) ==> r < NextFree(fs[..|fs| - 1])
    {
      CoversBefore(fs, n, r);
    }
  }

  /** What fragments before the last cover was not free for it. */
  lemma PrefixCovered(fs: seq<Fragment>, n: nat, r: nat)
    requires n + 1 < |fs| && fs[|fs| - 1].Bitmap? && (Covers(fs, n, r) || Covers(fs[..|fs| - 1], n, r))
    ensures !Covers(fs, |fs| - 1, r)
  {
    hide NextFree;
    CoversBefore(fs, n, r);
    LastFirstRow(fs);
  }

  /** The last fragment covers the row: no other one does, and the row was free. */
  lemma StepCovered(c: Canvas, d: seq<Byte>, fs: seq<Fragment>, width: nat, l: nat, r: nat, q: nat, v1: nat, v: nat)
    requires |fs| > 0 && Covers(fs, |fs| - 1, r)
    requires Shows(c, d, fs[..|fs| - 1], width, NextFree(fs[..|fs| - 1]), l, r, q, v1)
    requires var f, first := fs[|fs| - 1], FirstRowOf(fs, |fs| - 1);
             v == BitmapPixel(c, d, f, first, l, r, v1)
    ensures Shows(c, d, fs, width, NextFree(fs), l, r, q, v)
  {
    hide BitmapPixel, NextFree, FirstRowOf;
    var front := fs[..|fs| - 1];
    LastFirstRow(fs);
    PrefixCovers(fs, r);
    if n: nat :| Covers(front, n, r) {
      PrefixCovered(fs, n, r);
    }
    assert v1 == q;
    forall n: nat | Covers(fs, n, r) ensures n == |fs| - 1 {
      if n < |fs| - 1 {
        PrefixCovered(fs, n, r);
      }
    }
  }

  /** The last fragment does not cover the row. */
  lemma StepUncovered(c: Canvas, d: seq<Byte>, fs: seq<Fragment>, width: nat, l: nat, r: nat, q: nat, v1: nat, v: nat)
    requires |fs| > 0 && fs[|fs| - 1].Bitmap? && !Covers(fs, |fs| - 1, r)
    requires Shows(c, d, fs[..|fs| - 1], width, NextFree(fs[..|fs| - 1]), l, r, q, v1)
    requires v == if NextFree(fs[..|fs| - 1]) <= r < fs[|fs| - 1].top && l < width then c.bg else v1
    ensures Shows(c, d, fs, width, NextFree(fs), l, r, q, v)
  {
    hide BitmapPixel, NextFree, FirstRowOf;
    var front := fs[..|fs| - 1];
    NextFreeIs(fs);
    LastFirstRow(fs);
    PrefixCovers(fs, r);
    if n: nat :| Covers(front, n, r) {
      assert Covers(fs, n, r);
    }
  }

  lemma NextFreeIs(fs: seq<Fragment>)
    requires |fs| > 0
    ensures var row, f := NextFree(fs[..|fs| - 1]), fs[|fs| - 1];
            NextFree(fs) == if f.Bitmap? then Larger(row, f.top) + f.j else row
  {
  }

  lemma {:induction false} OpaqueFragments(c: Canvas, d: seq<Byte>, fs: seq<Fragment>, P: seq<nat>, width: nat,
      l: nat, r: nat)
    requires OnScreen(c, |P|, l, r) && c.bg != 0
    ensures var i := (c.y + r) * c.s + (c.x + l);
            Shows(c, d, fs, width, NextFree(fs), l, r, P[i], DrawFragments(c, d, fs, P, width).0[i])
    ensures DrawFragments(c, d, fs, P, width).1 == RowAt(c, NextFree(fs))
  {
    hide DrawFragment, BitmapPixel, Shows;
    if |fs| == 0 {
      NothingShown(c, d, fs, width, l, r, P[(c.y + r) * c.s + (c.x + l)]);
    } else {
      var front, f := fs[..|fs| - 1], fs[|fs| - 1];
      OpaqueFragments(c, d, front, P, width, l, r);
      var (P1, row1) := DrawFragments(c, d, front, P, width);
      var i := (c.y + r) * c.s + (c.x + l);
      NextFreeIs(fs);
      hide NextFree;
      match f
      case Other =>
        OtherShown(c, d, fs, width, l, r, P[i], P1[i]);
        OtherDrawn(c, d, P1, row1, width);
      case Bitmap(top, k, j, at) =>
        OpaqueFragment(c, d, f, P1, row1, width, l, r);
        OpaqueStep(c, d, fs, width, l, r, P[i], P1[i], DrawFragment(c, d, f, P1, row1, width).0[i]);
    }
  }

  lemma OtherDrawn(c: Canvas, d: seq<Byte>, P: seq<nat>, row: nat, width: nat)
    ensures DrawFragment(c, d, Other, P, row, width) == (P, row)
  {
  }

  lemma NothingShown(c: Canvas, d: seq<Byte>, fs: seq<Fragment>, width: nat, l: nat, r: nat, q: nat)
    requires |fs| == 0
    ensures Shows(c, d, fs, width, 0, l, r, q, q)
  {
  }

  lemma OtherShown(c: Canvas, d: seq<Byte>, fs: seq<Fragment>, width: nat, l: nat, r: nat, q: nat, v: nat)
    requires |fs| > 0 && fs[|fs| - 1].Other?
    requires Shows(c, d, fs[..|fs| - 1], width, NextFree(fs[..|fs| - 1]), l, r, q, v)
    ensures Shows(c, d, fs, width, NextFree(fs), l, r, q, v)
  {
    hide BitmapPixel, NextFree;
    NextFreeIs(fs);
    forall n: nat | n + 1 < |fs|
      ensures Covers(fs, n, r) <==> Covers(fs[..|fs| - 1], n, r)
      ensures fs[n].Bitmap? ==> FirstRowOf(fs, n) == FirstRowOf(fs[..|fs| - 1], n)
    {
      CoversBefore(fs, n, r);
    }
  }

  /** On an opaque background a pixel in a row of a fragment shows that fragment's bit, foreground or
    * background, in its k columns and is left alone beside them; every other pixel of the cell, down
    * to `height` or the last fragment's end, shows the background. */
  lemma OpaqueGlyph(c: Canvas, d: seq<Byte>, fs: seq<Fragment>, P: seq<nat>, width: nat, height: nat, l: nat, r: nat)
    requires OnScreen(c, |P|, l, r) && c.bg != 0
    ensures var i := (c.y + r) * c.s + (c.x + l);
            Shows(c, d, fs, width, Larger(NextFree(fs), height), l, r, P[i], DrawGlyph(c, d, fs, P, width, height)[i])
  {
    hide DrawFragments, BitmapPixel, FillRows, NextFree;
    OpaqueFragments(c, d, fs, P, width, l, r);
    var (P1, row1) := DrawFragments(c, d, fs, P, width);
    FillRowsAt(c, P1, row1, height, width, l, r);
    forall n: nat | Covers(fs, n, r) ensures r < NextFree(fs) {
      NextFreeGrows(fs, n);
    }
  }

  // ---------- one bitmap ----------

  lemma OneTransparent(c: Canvas, d: seq<Byte>, f: Fragment, P: seq<nat>, width: nat, height: nat, l: nat, r: nat,
      i: nat)
    requires OnScreen(c, |P|, l, r) && i == (c.y + r) * c.s + (c.x + l) && f.Bitmap? && c.bg == 0
    ensures DrawGlyph(c, d, [f], P, width, height)[i] ==
              if f.top <= r < f.top + f.j && l < f.k && BitSet(d, f.at, (r - f.top) * f.k + l) then c.fg else P[i]
  {
    hide DrawGlyph, BitSet, Lit;
    TransparentGlyph(c, d, [f], P, width, height, l, r);
    OneLit(d, [f], l, r);
    LitIs(d, f, l, r);
  }

  lemma OneOpaque(c: Canvas, d: seq<Byte>, f: Fragment, P: seq<nat>, width: nat, height: nat, l: nat, r: nat, i: nat)
    requires OnScreen(c, |P|, l, r) && i == (c.y + r) * c.s + (c.x + l) && f.Bitmap? && c.bg != 0
    ensures DrawGlyph(c, d, [f], P, width, height)[i] ==
              if f.top <= r < f.top + f.j then BitmapPixel(c, d, f, f.top, l, r, P[i])
              else if r < Larger(f.top + f.j, height) && l < width then c.bg else P[i]
  {
    hide DrawGlyph, BitSet, Shows, NextFree, BitmapPixel;
    OpaqueGlyph(c, d, [f], P, width, height, l, r);
    OneCovers([f], r);
    OneShown(c, d, [f], width, Larger(f.top + f.j, height), l, r, P[i], DrawGlyph(c, d, [f], P, width, height)[i]);
  }

  /** A glyph of one bitmap of k columns and j rows: the bitmap stands at its top row, its set bits
    * show the foreground and the others the background, and so does the rest of the cell; a
    * background of 0 is transparent. */
  lemma OneBitmap(c: Canvas, d: seq<Byte>, top: nat, k: nat, j: nat, at: nat, P: seq<nat>, width: nat, height: nat,
      l: nat, r: nat, i: nat)
    requires OnScreen(c, |P|, l, r) && i == (c.y + r) * c.s + (c.x + l)
    ensures var v := DrawGlyph(c, d, [Bitmap(top, k, j, at)], P, width, height)[i];
            if top <= r < top + j && l < k then
              v == if BitSet(d, at, (r - top) * k + l) then c.fg else if c.bg == 0 then P[i] else c.bg
            else if c.bg == 0 || top <= r < top + j then v == P[i]
            else v == if r < Larger(top + j, height) && l < width then c.bg else P[i]
  {
    hide DrawGlyph, BitSet;
    if c.bg == 0 {
      OneTransparent(c, d, Bitmap(top, k, j, at), P, width, height, l, r, i);
    } else {
      OneOpaque(c, d, Bitmap(top, k, j, at), P, width, height, l, r, i);
    }
  }

  lemma LitIs(d: seq<Byte>, f: Fragment, l: nat, r: nat)
    requires f.Bitmap?
    ensures Lit(d, f, l, r) <==> f.top <= r < f.top + f.j && l < f.k && BitSet(d, f.at, (r - f.top) * f.k + l)
  {
  }

  lemma OneShown(c: Canvas, d: seq<Byte>, fs: seq<Fragment>, width: nat, filled: nat, l: nat, r: nat, q: nat, v: nat)
    requires |fs| == 1 && fs[0].Bitmap? && Shows(c, d, fs, width, filled, l, r, q, v)
    ensures var f := fs[0];
            v == if f.top <= r < f.top + f.j then BitmapPixel(c, d, f, f.top, l, r, q)
                 else if r < filled && l < width then c.bg else q
  {
    hide BitmapPixel, NextFree, FirstRowOf;
    OneCovers(fs, r);
    assert Covers(fs, 0, r) || forall n: nat :: !Covers(fs, n, r);
  }

  lemma OneLit(d: seq<Byte>, fs: seq<Fragment>, l: nat, r: nat)
    requires |fs| == 1
    ensures (exists n :: 0 <= n < |fs| && Lit(d, fs[n], l, r)) <==> Lit(d, fs[0], l, r)
  {
    hide Lit;
  }

  lemma OneCovers(fs: seq<Fragment>, r: nat)
    requires |fs| == 1 && fs[0].Bitmap?
    ensures NextFree(fs) == fs[0].top + fs[0].j && FirstRowOf(fs, 0) == fs[0].top
    ensures Covers(fs, 0, r) <==> fs[0].top <= r < fs[0].top + fs[0].j
    ensures forall n: nat :: Covers(fs, n, r) ==> n == 0
  {
    assert fs[..0] == [] && NextFree([]) == 0;
  }
}
