/** The console renderer's drawing of one glyph (kernel/source/ssfn.h:1510-1537): the bits of
  * each bitmap fragment, row by row, clipped to the screen.  A pixel (X, Y) has index
  * Y * s + X. */
module Console {
  import opened Bits

  /** The destination: pixels per line, size, colours (background 0 is transparent) and cursor. */
  datatype Canvas = Canvas(s: nat, w: nat, h: nat, fg: nat, bg: nat, x: nat, y: nat)

  ghost predicate Usable(c: Canvas, n: nat) {
    0 < c.w <= c.s && 0 < c.h && c.h * c.s <= n
  }

  /** How many of `width` columns from the cursor on lie on the screen. */
  function Visible(c: Canvas, width: nat): nat {
    if c.x + width <= c.w then width else if c.x <= c.w then c.w - c.x else 0
  }

  /** The index of the cursor's column in row `row` of the glyph. */
  function RowStart(c: Canvas, row: nat): nat {
    (c.y + row) * c.s + c.x
  }

  /** Bit b of the bitmap at address `at`, least significant bit of each byte first. */
  function BitmapBit(d: seq<Byte>, at: nat, b: nat): nat {
    if at + b / 8 < |d| then BitOf(d[at + b / 8], b % 8) else 0
  }

  function Paint(c: Canvas, prior: nat, bit: nat): nat {
    if bit == 1 then c.fg else if c.bg != 0 then c.bg else prior
  }

  function Choose(b: bool, x: nat, y: nat): nat {
    if b then x else y
  }

  // ---------- rows ----------

  /** The pixels after a row of the background. */
  ghost function FillRow(c: Canvas, P: seq<nat>, row: nat, width: nat): (r: seq<nat>)
    ensures |r| == |P|
  {
    seq(|P|, i requires 0 <= i < |P| =>
      Choose(RowStart(c, row) <= i < RowStart(c, row) + Visible(c, width), c.bg, P[i]))
  }

  /** The pixels after a row of k bits from bit b on. */
  ghost function BitRow(c: Canvas, d: seq<Byte>, at: nat, P: seq<nat>, row: nat, k: nat, b: nat): (r: seq<nat>)
    ensures |r| == |P|
  {
    seq(|P|, i requires 0 <= i < |P| =>
      if RowStart(c, row) <= i < RowStart(c, row) + Visible(c, k)
      then Paint(c, P[i], BitmapBit(d, at, b + i - RowStart(c, row))) else P[i])
  }

  /** Rows of the background up to row `limit`, as far as the screen reaches. */
  ghost function FillRows(c: Canvas, P: seq<nat>, row: nat, limit: nat, width: nat): (r: (seq<nat>, nat))
    ensures |r.0| == |P| && row <= r.1
    decreases limit - row
  {
    if row < limit && c.y + row < c.h then FillRows(c, FillRow(c, P, row, width), row + 1, limit, width) else (P, row)
  }

  /** The rows of a bitmap k columns wide from its r-th of j rows on. */
  ghost function BitRows(c: Canvas, d: seq<Byte>, at: nat, P: seq<nat>, row: nat, k: nat, j: nat,
      r: nat): (res: (seq<nat>, nat))
    ensures |res.0| == |P| && row <= res.1
    decreases j - r
  {
    if r < j && c.y + row < c.h
      then BitRows(c, d, at, BitRow(c, d, at, P, row, k, r * k), row + 1, k, j, r + 1) else (P, row)
  }

  /** A fragment of a glyph: a bitmap of k columns and j rows whose top row is `top`; anything
    * else is passed over. */
  datatype Fragment = Other | Bitmap(top: nat, k: nat, j: nat, at: nat)

  /** The pixels and the current row after one fragment. */
  ghost function DrawFragment(c: Canvas, d: seq<Byte>, f: Fragment, P: seq<nat>, row: nat,
      width: nat): (r: (seq<nat>, nat))
    ensures |r.0| == |P|
  {
    match f
    case Other => (P, row)
    case Bitmap(top, k, j, at) =>
      var (P1, row1) := if c.bg != 0 then FillRows(c, P, row, top, width) else (P, top);
      BitRows(c, d, at, P1, row1, k, j, 0)
  }

  ghost function DrawFragments(c: Canvas, d: seq<Byte>, fs: seq<Fragment>, P: seq<nat>,
      width: nat): (r: (seq<nat>, nat))
    ensures |r.0| == |P|
  {
    if |fs| == 0 then (P, 0)
    else
      var (P1, row1) := DrawFragments(c, d, fs[..|fs| - 1], P, width);
      DrawFragment(c, d, fs[|fs| - 1], P1, row1, width)
  }

  /** The whole glyph, `width` by `height` pixels. */
  ghost function DrawGlyph(c: Canvas, d: seq<Byte>, fs: seq<Fragment>, P: seq<nat>, width: nat,
      height: nat): (r: seq<nat>)
    ensures |r| == |P|
  {
    var (P1, row1) := DrawFragments(c, d, fs, P, width);
    if c.bg != 0 then FillRows(c, P1, row1, height, width).0 else P1
  }

  // ---------- clipping ----------

  /** Pixel i lies on the screen, not left of or above the cursor. */
  ghost predicate InClip(c: Canvas, i: nat)
    requires c.s > 0
  {
    c.x <= i % c.s < c.w && c.y <= i / c.s < c.h
  }

  ghost predicate OnlyClip(c: Canvas, P: seq<nat>, P': seq<nat>)
    requires c.s > 0
  {
    |P'| == |P| && forall i: nat | i < |P| && !InClip(c, i) :: P'[i] == P[i]
  }

  /** The visible part of a row on the screen lies in the clip rectangle. */
  lemma RowInClip(c: Canvas, row: nat, width: nat, i: nat)
    requires 0 < c.w <= c.s && c.y + row < c.h
    requires RowStart(c, row) <= i < RowStart(c, row) + Visible(c, width)
    ensures InClip(c, i)
  {
    var q, r := c.y + row, i - (c.y + row) * c.s;
    assert c.x <= r < c.w;
    DivModIs(i, q, c.s, r);
  }

  lemma DivModIs(i: nat, q: nat, m: nat, r: nat)
    requires r < m && i == q * m + r
    ensures i % m == r && i / m == q
  {
    ModIs(i, q, m, r);
    assert (i / m - q) * m == 0 by {
      assert (i / m - q) * m == (i / m) * m - q * m;
    }
    MulGrows(i / m - q, m);
  }

  lemma FillRowClips(c: Canvas, P: seq<nat>, row: nat, width: nat)
    requires 0 < c.w <= c.s && c.y + row < c.h
    ensures OnlyClip(c, P, FillRow(c, P, row, width))
  {
    forall i: nat | i < |P| && !InClip(c, i) ensures FillRow(c, P, row, width)[i] == P[i] {
      if RowStart(c, row) <= i < RowStart(c, row) + Visible(c, width) {
        RowInClip(c, row, width, i);
      }
    }
  }

  lemma BitRowClips(c: Canvas, d: seq<Byte>, at: nat, P: seq<nat>, row: nat, k: nat, b: nat)
    requires 0 < c.w <= c.s && c.y + row < c.h
    ensures OnlyClip(c, P, BitRow(c, d, at, P, row, k, b))
  {
    forall i: nat | i < |P| && !InClip(c, i) ensures BitRow(c, d, at, P, row, k, b)[i] == P[i] {
      if RowStart(c, row) <= i < RowStart(c, row) + Visible(c, k) {
        RowInClip(c, row, k, i);
      }
    }
  }

  lemma {:induction false} FillRowsClip(c: Canvas, P: seq<nat>, row: nat, limit: nat, width: nat)
    requires 0 < c.w <= c.s
    ensures OnlyClip(c, P, FillRows(c, P, row, limit, width).0)
    decreases limit - row
  {
    hide InClip, FillRow;
    if row < limit && c.y + row < c.h {
      FillRowClips(c, P, row, width);
      FillRowsClip(c, FillRow(c, P, row, width), row + 1, limit, width);
    }
  }

  lemma {:induction false} BitRowsClip(c: Canvas, d: seq<Byte>, at: nat, P: seq<nat>, row: nat, k: nat, j: nat, r: nat)
    requires 0 < c.w <= c.s
    ensures OnlyClip(c, P, BitRows(c, d, at, P, row, k, j, r).0)
    decreases j - r
  {
    hide InClip, BitRow;
    if r < j && c.y + row < c.h {
      BitRowClips(c, d, at, P, row, k, r * k);
      BitRowsClip(c, d, at, BitRow(c, d, at, P, row, k, r * k), row + 1, k, j, r + 1);
    }
  }

  lemma {:induction false} FragmentsClip(c: Canvas, d: seq<Byte>, fs: seq<Fragment>, P: seq<nat>, width: nat)
    requires 0 < c.w <= c.s
    ensures OnlyClip(c, P, DrawFragments(c, d, fs, P, width).0)
  {
    hide InClip, FillRows, BitRows;
    if |fs| > 0 {
      FragmentsClip(c, d, fs[..|fs| - 1], P, width);
      var (P1, row1) := DrawFragments(c, d, fs[..|fs| - 1], P, width);
      match fs[|fs| - 1]
      case Other =>
      case Bitmap(top, k, j, at) =>
        FillRowsClip(c, P1, row1, top, width);
        var (P2, row2) := if c.bg != 0 then FillRows(c, P1, row1, top, width) else (P1, top);
        BitRowsClip(c, d, at, P2, row2, k, j, 0);
    }
  }

  /** No glyph changes a pixel outside the clip rectangle. */
  lemma GlyphClips(c: Canvas, d: seq<Byte>, fs: seq<Fragment>, P: seq<nat>, width: nat, height: nat)
    requires 0 < c.w <= c.s
    ensures OnlyClip(c, P, DrawGlyph(c, d, fs, P, width, height))
  {
    hide InClip, FillRows, DrawFragments;
    FragmentsClip(c, d, fs, P, width);
    var (P1, row1) := DrawFragments(c, d, fs, P, width);
    FillRowsClip(c, P1, row1, height, width);
  }

  // ---------- exact contents of a bitmap ----------

  /** Rows before the current one are not touched again. */
  lemma {:induction false} BitRowsKeepsAbove(c: Canvas, d: seq<Byte>, at: nat, P: seq<nat>, row: nat, k: nat, j: nat,
      r: nat, i: nat)
    requires i < |P| && i < RowStart(c, row)
    ensures BitRows(c, d, at, P, row, k, j, r).0[i] == P[i]
    decreases j - r
  {
    if r < j && c.y + row < c.h {
      assert RowStart(c, row + 1) == RowStart(c, row) + c.s by {
        assert (c.y + row + 1) * c.s == (c.y + row) * c.s + c.s;
      }
      BitRowsKeepsAbove(c, d, at, BitRow(c, d, at, P, row, k, r * k), row + 1, k, j, r + 1, i);
    }
  }

  /** Row r, column l of a bitmap that is drawn from row `row` on shows bit r * k + l, if it is on
    * the screen. */
  lemma {:induction false} BitmapShown(c: Canvas, d: seq<Byte>, at: nat, P: seq<nat>, row: nat, k: nat, j: nat,
      r0: nat, r: nat, l: nat)
    requires c.w <= c.s && r0 <= r < j && l < k && c.x + l < c.w && c.y + row + (r - r0) < c.h
    requires RowStart(c, row + (r - r0)) + l < |P|
    ensures var i := RowStart(c, row + (r - r0)) + l;
            BitRows(c, d, at, P, row, k, j, r0).0[i] == Paint(c, P[i], BitmapBit(d, at, r * k + l))
    decreases r - r0
  {
    var i := RowStart(c, row + (r - r0)) + l;
    var next := BitRow(c, d, at, P, row, k, r0 * k);
    assert RowStart(c, row + 1) == RowStart(c, row) + c.s by {
      assert (c.y + row + 1) * c.s == (c.y + row) * c.s + c.s;
    }
    if r == r0 {
      assert next[i] == Paint(c, P[i], BitmapBit(d, at, r * k + l));
      BitRowsKeepsAbove(c, d, at, next, row + 1, k, j, r0 + 1, i);
    } else {
      BitmapShown(c, d, at, next, row + 1, k, j, r0 + 1, r, l);
      RowsAscend(c, row + 1, row + (r - r0));
      assert next[i] == P[i];
    }
  }

  lemma {:induction false} RowsAscend(c: Canvas, m: nat, n: nat)
    requires m <= n
    ensures RowStart(c, m) <= RowStart(c, n)
    decreases n
  {
    if m < n {
      RowsAscend(c, m, n - 1);
      assert (c.y + n) * c.s == (c.y + n - 1) * c.s + c.s;
    }
  }

  /** The scaling renderer's random access (lines 1152-1161) looks at the same bit, since rows
    * are whole bytes. */
  lemma RandomAccessSameBit(d: seq<Byte>, at: nat, r: nat, k: nat, l: nat)
    requires k % 8 == 0 && at + (r * k + l) / 8 < |d|
    ensures And(d[at + (r * k + l) / 8], Pow2(l % 8)) != 0 <==> BitmapBit(d, at, r * k + l) == 1
  {
    var b := r * k + l;
    assert b % 8 == l % 8 by {
      WholeBytes(r, k / 8, l);
      assert r * k == r * (k / 8) * 8;
    }
    AndBit(d[at + b / 8], l % 8);
  }

  lemma WholeBytes(r: nat, n: nat, l: nat)
    ensures (r * n * 8 + l) % 8 == l % 8
  {
    var q := r * n;
    assert (q * 8 + l) % 8 == l % 8;
  }

  // ---------- the renderer ----------

  /** The walking mask m and byte address `frg` stand at bit b of the bitmap at `at`; after the
    * last bit of a byte the mask has run out of it. */
  ghost predicate StandsAt(at: nat, b: nat, frg: nat, m: nat) {
    || (frg == at + b / 8 && m == Pow2(b % 8))
    || (b > 0 && b % 8 == 0 && frg + 1 == at + b / 8 && m == 256)
  }

  lemma NextBit(at: nat, b: nat, frg: nat, m: nat)
    requires StandsAt(at, b, frg, m) && m <= 0x80
    ensures frg == at + b / 8 && m == Pow2(b % 8)
    ensures StandsAt(at, b + 1, frg, 2 * m)
  {
    PowerTable();
    if b % 8 == 7 {
      assert (b + 1) % 8 == 0 && (b + 1) / 8 == b / 8 + 1;
      assert Pow2(8) == 2 * Pow2(7);
    } else {
      assert (b + 1) % 8 == b % 8 + 1 && (b + 1) / 8 == b / 8;
      assert Pow2(b % 8 + 1) == 2 * Pow2(b % 8);
    }
  }

  lemma MaskOverflows(at: nat, b: nat, frg: nat, m: nat)
    requires StandsAt(at, b, frg, m)
    ensures m > 0x80 <==> m == 256
    ensures m == 256 ==> StandsAt(at, b, frg + 1, 1)
  {
    PowerTable();
    PowMonotone(b % 8, 7);
  }

  class Screen {
    const pixels: array<nat>
    var cv: Canvas

    ghost predicate Valid()
      reads this
    {
      Usable(cv, pixels.Length)
    }

    constructor (pixels: array<nat>, cv: Canvas)
      requires Usable(cv, pixels.Length)
      ensures Valid() && this.pixels == pixels && this.cv == cv
    {
      this.pixels := pixels;
      this.cv := cv;
    }

    /** One row of a bitmap: o is the index of its first pixel.  The cursor is not negative. */
    method DrawBitRow(d: seq<Byte>, ghost at: nat, o: nat, k: nat, frg0: nat, m0: nat, ghost row: nat, ghost b: nat)
      returns (frg: nat, m: nat)
      requires Valid() && cv.y + row < cv.h && o == RowStart(cv, row)
      requires StandsAt(at, b, frg0, m0) && at + (b + k + 7) / 8 <= |d|
      modifies pixels
      ensures StandsAt(at, b + k, frg, m)
      ensures pixels[..] == BitRow(cv, d, at, old(pixels[..]), row, k, b)
    {
      hide Shl, And, BitRow, StandsAt, BitmapBit;
      ghost var P := pixels[..];
      NoColumns(cv, d, at, P, row, b);
      frg, m := frg0, m0;
      var p, l := o, 0;
      while l < k
        invariant 0 <= l <= k && p == o + l && StandsAt(at, b + l, frg, m)
        invariant pixels[..] == BitRow(cv, d, at, P, row, l, b)
      {
        MaskOverflows(at, b + l, frg, m);
        if m > 0x80 {
          frg := frg + 1;
          m := 1;
        }
        NextBit(at, b + l, frg, m);
        if cv.x + l < cv.w {
          RowOnScreen(cv, pixels.Length, row, l);
          BitTested(d, at, b + l, frg, m);
          if And(d[frg], m) != 0 {
            pixels[p] := cv.fg;
          } else if cv.bg != 0 {
            pixels[p] := cv.bg;
          }
        }
        BitRowGrows(cv, d, at, P, row, l, b, pixels[..]);
        l := l + 1;
        p := p + 1;
        m := 2 * m;
      }
    }

    /** The rows of one bitmap. */
    method DrawBitRows(d: seq<Byte>, at: nat, k: nat, j: nat, row0: nat, o0: nat) returns (row: nat, o: nat)
      requires Valid() && o0 == RowStart(cv, row0) && k % 8 == 0 && at + j * (k / 8) <= |d|
      modifies pixels
      ensures (pixels[..], row) == BitRows(cv, d, at, old(pixels[..]), row0, k, j, 0) && o == RowStart(cv, row)
    {
      hide BitRow, StandsAt;
      ghost var all := BitRows(cv, d, at, pixels[..], row0, k, j, 0);
      row, o := row0, o0;
      var frg, m, left := at, 1, j;
      ghost var r := 0;
      BitmapStarts(at, k);
      while left > 0 && cv.y + row < cv.h
        invariant left + r == j && o == RowStart(cv, row) && StandsAt(at, r * k, frg, m)
        invariant BitRows(cv, d, at, pixels[..], row, k, j, r) == all
        decreases left
      {
        RowFits(at, r, k, j, |d|);
        frg, m := DrawBitRow(d, at, o, k, frg, m, row, r * k);
        assert (r + 1) * k == r * k + k;
        NextRow(cv, row);
        left, row, o := left - 1, row + 1, o + cv.s;
        r := r + 1;
      }
    }

    /** One row of the background. */
    method FillOneRow(width: nat, o: nat, ghost row: nat)
      requires Valid() && cv.y + row < cv.h && o == RowStart(cv, row)
      modifies pixels
      ensures pixels[..] == FillRow(cv, old(pixels[..]), row, width)
    {
      ghost var P := pixels[..];
      var p, j := o, 0;
      while j < width && cv.x + j < cv.w
        invariant 0 <= j <= width && p == o + j && (j > 0 ==> cv.x + j <= cv.w)
        invariant pixels[..] == FillRow(cv, P, row, j)
      {
        RowOnScreen(cv, pixels.Length, row, j);
        pixels[p] := cv.bg;
        assert pixels[..] == FillRow(cv, P, row, j + 1);
        j := j + 1;
        p := p + 1;
      }
      assert pixels[..] == FillRow(cv, P, row, width);
    }

    /** Rows of the background down to row `limit`. */
    method FillDown(width: nat, limit: nat, row0: nat, o0: nat) returns (row: nat, o: nat)
      requires Valid() && o0 == RowStart(cv, row0)
      modifies pixels
      ensures (pixels[..], row) == FillRows(cv, old(pixels[..]), row0, limit, width) && o == RowStart(cv, row)
    {
      hide FillRow;
      ghost var all := FillRows(cv, pixels[..], row0, limit, width);
      row, o := row0, o0;
      while row < limit && cv.y + row < cv.h
        invariant o == RowStart(cv, row) && FillRows(cv, pixels[..], row, limit, width) == all
        decreases limit - row
      {
        FillOneRow(width, o, row);
        NextRow(cv, row);
        row, o := row + 1, o + cv.s;
      }
    }

    /** The drawing part of `ssfn_putc`, from the decoded fragments of a glyph. */
    method PutGlyph(d: seq<Byte>, fs: seq<Fragment>, width: nat, height: nat, dx: nat, dy: nat)
      requires Valid() && forall i | 0 <= i < |fs| :: FragmentFits(fs[i], |d|)
      modifies pixels, this`cv
      ensures pixels[..] == DrawGlyph(old(cv), d, fs, old(pixels[..]), width, height)
      ensures OnlyClip(old(cv), old(pixels[..]), pixels[..])
      ensures cv == old(cv).(x := old(cv).x + dx, y := old(cv).y + dy)
    {
      hide FillRows, BitRows, OnlyClip, RowStart;
      ghost var P := pixels[..];
      var row := 0;
      FirstRow(cv);
      var o := cv.y * cv.s + cv.x;
      var i := 0;
      while i < |fs|
        invariant 0 <= i <= |fs| && o == RowStart(cv, row)
        invariant (pixels[..], row) == DrawFragments(cv, d, fs[..i], P, width)
        invariant cv == old(cv)
      {
        assert fs[..i + 1][..i] == fs[..i];
        row, o := PutFragment(d, fs[i], width, row, o);
        i := i + 1;
      }
      assert fs[..|fs|] == fs;
      if cv.bg != 0 {
        row, o := FillDown(width, height, row, o);
      }
      GlyphClips(cv, d, fs, P, width, height);
      cv := cv.(x := cv.x + dx, y := cv.y + dy);
    }

    /** One fragment: the rows above it, and its own. */
    method PutFragment(d: seq<Byte>, f: Fragment, width: nat, row0: nat, o0: nat) returns (row: nat, o: nat)
      requires Valid() && o0 == RowStart(cv, row0) && FragmentFits(f, |d|)
      modifies pixels
      ensures (pixels[..], row) == DrawFragment(cv, d, f, old(pixels[..]), row0, width) && o == RowStart(cv, row)
    {
      hide FillRows, BitRows, RowStart;
      row, o := row0, o0;
      if f.Bitmap? {
        if cv.bg != 0 {
          row, o := FillDown(width, f.top, row, o);
        } else {
          RowsBetween(cv, row, f.top);
          o := o + (f.top - row) * cv.s;
          row := f.top;
        }
        row, o := DrawBitRows(d, f.at, f.k, f.j, row, o);
      }
    }
  }

  lemma NoColumns(c: Canvas, d: seq<Byte>, at: nat, P: seq<nat>, row: nat, b: nat)
    ensures BitRow(c, d, at, P, row, 0, b) == P
  {
  }

  lemma BitTested(d: seq<Byte>, at: nat, b: nat, frg: nat, m: nat)
    requires frg == at + b / 8 < |d| && m == Pow2(b % 8)
    ensures And(d[frg], m) != 0 <==> BitmapBit(d, at, b) == 1
  {
    hide Shl, And;
    AndBit(d[frg], b % 8);
  }

  /** The bits of a bitmap, whose rows are whole bytes, lie in the font. */
  ghost predicate FragmentFits(f: Fragment, n: nat) {
    f.Bitmap? ==> f.k % 8 == 0 && f.at + f.j * (f.k / 8) <= n
  }

  lemma BitmapStarts(at: nat, k: nat)
    ensures StandsAt(at, 0 * k, at, 1)
  {
  }

  lemma RowFits(at: nat, r: nat, k: nat, j: nat, n: nat)
    requires r < j && k % 8 == 0 && at + j * (k / 8) <= n
    ensures at + (r * k + k + 7) / 8 <= n
  {
    var q := k / 8;
    assert r * k + k == 8 * ((r + 1) * q);
    MulLe(r + 1, j, q);
  }

  lemma NextRow(c: Canvas, row: nat)
    ensures RowStart(c, row + 1) == RowStart(c, row) + c.s
  {
    assert (c.y + row + 1) * c.s == (c.y + row) * c.s + c.s;
  }

  lemma FirstRow(c: Canvas)
    ensures RowStart(c, 0) == c.y * c.s + c.x
  {
  }

  lemma RowsBetween(c: Canvas, m: nat, n: nat)
    ensures RowStart(c, n) == RowStart(c, m) + (n - m) * c.s
  {
    assert (c.y + n) * c.s == (c.y + m) * c.s + (n - m) * c.s;
  }

  lemma RowOnScreen(c: Canvas, n: nat, row: nat, l: nat)
    requires Usable(c, n) && c.y + row < c.h && c.x + l < c.w
    ensures RowStart(c, row) + l < n
  {
    var q := c.y + row;
    assert q * c.s + c.s == (q + 1) * c.s;
    MulLe(q + 1, c.h, c.s);
  }

  lemma MulLe(a: nat, b: nat, m: nat)
    requires a <= b
    ensures a * m <= b * m
  {
    assert b * m == a * m + (b - a) * m;
  }

  /** One more column of a row. */
  lemma BitRowGrows(c: Canvas, d: seq<Byte>, at: nat, P: seq<nat>, row: nat, l: nat, b: nat, Q: seq<nat>)
    requires |Q| == |P| && (c.x + l < c.w ==> RowStart(c, row) + l < |P|)
    requires var R := BitRow(c, d, at, P, row, l, b);
             var i := RowStart(c, row) + l;
             Q == if c.x + l < c.w then R[i := Paint(c, R[i], BitmapBit(d, at, b + l))] else R
    ensures Q == BitRow(c, d, at, P, row, l + 1, b)
  {
  }
}
