/** The tables for match lengths and distances (kernel/source/ssfn.h:619-622), and that they
  * are the ones that the construction rule of section 3.2.5 of RFC 1951 gives. */
module MatchTables {
  import opened Bits
  import opened Rfc1951

  const LENGTH_BASE: seq<nat> :=
    [3, 4, 5, 6, 7, 8, 9, 10, 11, 13, 15, 17, 19, 23, 27, 31, 35, 43, 51, 59, 67, 83, 99, 115, 131, 163, 195, 227,
      258, 0, 0]
  const LENGTH_EXTRA: seq<nat> :=
    [0, 0, 0, 0, 0, 0, 0, 0, 1, 1, 1, 1, 2, 2, 2, 2, 3, 3, 3, 3, 4, 4, 4, 4, 5, 5, 5, 5, 0, 0, 0]
  const DIST_BASE: seq<nat> :=
    [1, 2, 3, 4, 5, 7, 9, 13, 17, 25, 33, 49, 65, 97, 129, 193, 257, 385, 513, 769, 1025, 1537, 2049, 3073, 4097, 6145,
     8193, 12289, 16385, 24577, 0, 0]
  const DIST_EXTRA: seq<nat> :=
    [0, 0, 0, 0, 1, 1, 2, 2, 3, 3, 4, 4, 5, 5, 6, 6, 7, 7, 8, 8, 9, 9, 10, 10, 11, 11, 12, 12, 13, 13, 0, 0]

  const POWERS: seq<nat> := [1, 2, 4, 8, 16, 32, 64, 128, 256, 512, 1024, 2048, 4096, 8192]

  /** Length code 4 * q + r in closed form. */
  lemma {:induction false} LengthClosedForm(q: nat, r: nat)
    requires 1 <= q <= 6 && r < 4
    ensures LengthBase(4 * q + r) == 3 + Shl(4 + r, q - 1) && LengthExtra(4 * q + r) == q - 1
    decreases q, r
  {
    assert (4 * q + r) / 4 == q;
    if r > 0 {
      LengthClosedForm(q, r - 1);
      ShlAdd(3 + r, 1, q - 1);
    } else if q > 1 {
      LengthClosedForm(q - 1, 3);
      ShlAdd(7, 1, q - 2);
      ShlDouble(4, q - 2);
    } else {
      assert LengthBase(0) == 3 && LengthBase(1) == 4 && LengthBase(2) == 5 && LengthBase(3) == 6;
    }
  }

  /** Distance code 2 * q + r in closed form. */
  lemma {:induction false} DistClosedForm(q: nat, r: nat)
    requires 1 <= q && r < 2
    ensures DistBase(2 * q + r) == 1 + Shl(2 + r, q - 1) && DistExtra(2 * q + r) == q - 1
    decreases q, r
  {
    assert (2 * q + r) / 2 == q;
    if r > 0 {
      DistClosedForm(q, 0);
      ShlAdd(2, 1, q - 1);
    } else if q > 1 {
      DistClosedForm(q - 1, 1);
      ShlAdd(3, 1, q - 2);
      ShlDouble(2, q - 2);
    } else {
      assert DistBase(0) == 1 && DistBase(1) == 2;
    }
  }

  /** The tables of lengths and distances are those of section 3.2.5 of RFC 1951. */
  lemma LengthTable(c: nat)
    requires c <= 28
    ensures LENGTH_BASE[c] == LengthBase(c) && LENGTH_EXTRA[c] == LengthExtra(c) <= 5
  {
    hide LengthBase;
    if c == 28 {
      LastLength();
    } else if c < 4 {
      FirstLengths(c);
    } else {
      MiddleLengths(c);
    }
  }

  lemma MiddleLengths(c: nat)
    requires 4 <= c <= 27
    ensures LENGTH_BASE[c] == LengthBase(c) && LENGTH_EXTRA[c] == LengthExtra(c) <= 5
  {
    hide LengthBase;
    LengthClosedForm(c / 4, c % 4);
    ShlRow(4 + c % 4, c / 4 - 1);
    LengthRows(c);
  }

  lemma LastLength()
    ensures LengthBase(28) == 258
  {
  }

  lemma FirstLengths(c: nat)
    requires c < 4
    ensures LengthBase(c) == 3 + c
  {
    assert LengthBase(0) == 3 && LengthBase(1) == 4 && LengthBase(2) == 5 && LengthBase(3) == 6;
  }

  lemma LengthRows(c: nat)
    requires c <= 27
    ensures LENGTH_EXTRA[c] == (if c < 4 then 0 else c / 4 - 1)
    ensures LENGTH_BASE[c] == (if c < 4 then 3 + c else 3 + (4 + c % 4) * POWERS[c / 4 - 1])
  {
  }

  lemma DistTable(c: nat)
    requires c <= 29
    ensures DIST_BASE[c] == DistBase(c) >= 1 && DIST_EXTRA[c] == DistExtra(c) <= 13
  {
    hide DistBase, DistRow;
    DistRows(c);
    DistBaseRow(c);
  }

  function DistRow(c: nat): nat
    requires c <= 29
  {
    if c < 2 then 1 + c else 1 + (2 + c % 2) * POWERS[c / 2 - 1]
  }

  lemma DistBaseRow(c: nat)
    requires c <= 29
    ensures DistBase(c) == DistRow(c) >= 1
  {
    if c < 2 {
      assert DistBase(0) == 1 && DistBase(1) == 2;
    } else {
      LaterDistances(c);
    }
  }

  lemma LaterDistances(c: nat)
    requires 2 <= c <= 29
    ensures DistBase(c) == DistRow(c) >= 1
  {
    hide DistBase;
    DistClosedForm(c / 2, c % 2);
    ShlRow(2 + c % 2, c / 2 - 1);
    assert POWERS[c / 2 - 1] >= 0;
  }

  lemma ShlRow(v: nat, n: nat)
    requires n <= 13
    ensures Shl(v, n) == v * POWERS[n]
  {
    ShlTable(v);
    assert Shl(v, 10) == 2 * Shl(v, 9);
    assert Shl(v, 11) == 2 * Shl(v, 10);
    assert Shl(v, 12) == 2 * Shl(v, 11);
    assert Shl(v, 13) == 2 * Shl(v, 12);
  }

  lemma DistRows(c: nat)
    requires c <= 29
    ensures DIST_EXTRA[c] == (if c < 2 then 0 else c / 2 - 1)
    ensures DIST_BASE[c] == DistRow(c)
  {
    hide DistRow;
    DistExtraRows(c);
    if c < 16 {
      DistRowsBelow16(c);
    } else {
      DistRowsFrom16(c);
    }
  }

  lemma DistExtraRows(c: nat)
    requires c <= 29
    ensures DIST_EXTRA[c] == if c < 2 then 0 else c / 2 - 1
  {
  }

  lemma DistRowsBelow16(c: nat)
    requires c < 16
    ensures DIST_BASE[c] == DistRow(c)
  {
  }

  lemma DistRowsFrom16(c: nat)
    requires 16 <= c <= 29
    ensures DIST_BASE[c] == DistRow(c)
  {
  }
}
