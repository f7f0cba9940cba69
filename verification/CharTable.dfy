/** The character table of a font (kernel/source/ssfn.h:386-395; the console renderer repeats
  * the same loop at lines 1488-1493).  Entries cover the code points in order: a byte 0xFF skips
  * 65536 of them, two bytes from 0xC0 on skip up to 16128, one byte from 0x80 on skips up to 64,
  * and anything else is the record of one glyph, 6 bytes and 5 or 6 more per fragment. */
module CharTable {
  import opened Bits
  import opened Common

  const CODE_POINTS := 0x110000

  predicate IsGlyph(b: Byte) {
    b < 0x80
  }

  /** How many bytes the entry at a takes, if its header is there. */
  function EntrySize(d: seq<Byte>, a: nat): nat
    requires a + 1 < |d|
  {
    if d[a] == 0xFF then 1
    else if d[a] >= 0xC0 then 2
    else if d[a] >= 0x80 then 1
    else RecordSize(d[a], d[a + 1])
  }

  /** A glyph record with n fragments; bit 6 of its first byte chooses their width. */
  function RecordSize(b: nat, n: nat): nat {
    6 + n * (if b >= 0x40 then 6 else 5)
  }

  function WideWidth(hi: nat, lo: nat): nat {
    256 * hi + lo + 1
  }

  /** How many code points the entry at a covers. */
  function EntryWidth(d: seq<Byte>, a: nat): nat
    requires a + 1 < |d|
  {
    if d[a] == 0xFF then 0x1_0000
    else if d[a] >= 0xC0 then WideWidth(d[a] % 64, d[a + 1])
    else if d[a] >= 0x80 then d[a] % 64 + 1
    else 1
  }

  /** The table from address a on covers the code points from i on. */
  ghost predicate Table(d: seq<Byte>, a: nat, i: nat)
    decreases CODE_POINTS - i
  {
    i >= CODE_POINTS || (a + 1 < |d| && Table(d, a + EntrySize(d, a), i + EntryWidth(d, a)))
  }

  /** The address of the k-th entry, and the sum of the widths before it. */
  ghost function Entry(d: seq<Byte>, a: nat, k: nat): Option<(nat, nat)> {
    if k == 0 then Some((a, 0))
    else match Entry(d, a, k - 1)
         case None => None
         case Some((b, i)) =>
           if i < CODE_POINTS && b + 1 < |d| then Some((b + EntrySize(d, b), i + EntryWidth(d, b))) else None
  }

  /** The k-th entry is the record of code point u and stands at address p. */
  ghost predicate GlyphAt(d: seq<Byte>, a: nat, k: nat, u: nat, p: nat) {
    Entry(d, a, k) == Some((p, u)) && u < CODE_POINTS && p < |d| && IsGlyph(d[p])
  }

  lemma {:induction false} EntriesAdvance(d: seq<Byte>, a: nat, j: nat, k: nat)
    requires j < k && Entry(d, a, k).Some?
    ensures Entry(d, a, j).Some? && Entry(d, a, j).value.1 < Entry(d, a, k).value.1
    decreases k
  {
    if j < k - 1 {
      EntriesAdvance(d, a, j, k - 1);
    }
  }

  /** A code point has at most one record. */
  lemma GlyphUnique(d: seq<Byte>, a: nat, j: nat, k: nat, u: nat, p: nat, q: nat)
    requires GlyphAt(d, a, j, u, p) && GlyphAt(d, a, k, u, q)
    ensures j == k && p == q
  {
    if j < k {
      EntriesAdvance(d, a, j, k);
    } else if k < j {
      EntriesAdvance(d, a, k, j);
    }
  }

  /** The scan: the address of the record of code point u, or none. */
  method Scan(d: seq<Byte>, a: nat, u: nat) returns (r: Option<nat>)
    requires Table(d, a, 0)
    ensures match r
            case Some(p) => exists k: nat :: GlyphAt(d, a, k, u, p)
            case None => forall k: nat, p: nat :: !GlyphAt(d, a, k, u, p)
  {
    hide Entry, EntrySize, EntryWidth, And, Shl, Or;
    var ptr: nat, i: nat := a, 0;
    ghost var k := 0;
    FirstEntry(d, a);
    while i < CODE_POINTS
      invariant Entry(d, a, k) == Some((ptr, i)) && Table(d, ptr, i)
      invariant forall j: nat, p: nat | j < k :: !GlyphAt(d, a, j, u, p)
      decreases CODE_POINTS - i
    {
      NextEntry(d, a, k);
      ByteFields(d[ptr]);
      ghost var ptr0 := ptr;
      if d[ptr] == 0xFF {
        i := i + 65535;
        ptr := ptr + 1;
      } else if And(d[ptr], 0xC0) == 0xC0 {
        WideSkip(And(d[ptr], 0x3F), d[ptr + 1]);
        var j := Or(Shl(And(d[ptr], 0x3F), 8), d[ptr + 1]);
        i := i + j;
        ptr := ptr + 2;
      } else if And(d[ptr], 0xC0) == 0x80 {
        var j := And(d[ptr], 0x3F);
        i := i + j;
        ptr := ptr + 1;
      } else {
        if i == u {
          assert GlyphAt(d, a, k, u, ptr);
          return Some(ptr);
        }
        var n: nat := d[ptr + 1];
        ptr := ptr + 6 + n * (if And(d[ptr], 0x40) != 0 then 6 else 5);
      }
      i := i + 1;
      EntryShape(d, ptr0);
      k := k + 1;
    }
    forall j: nat, p: nat ensures !GlyphAt(d, a, j, u, p) {
      if j > k && GlyphAt(d, a, j, u, p) {
        EntriesAdvance(d, a, k, j);
      }
    }
    return None;
  }

  lemma FirstEntry(d: seq<Byte>, a: nat)
    ensures Entry(d, a, 0) == Some((a, 0))
  {
  }

  lemma NextEntry(d: seq<Byte>, a: nat, k: nat)
    requires Entry(d, a, k).Some? && Entry(d, a, k).value.1 < CODE_POINTS
    requires Table(d, Entry(d, a, k).value.0, Entry(d, a, k).value.1)
    ensures var (b, i) := Entry(d, a, k).value;
            && b + 1 < |d| && Entry(d, a, k + 1) == Some((b + EntrySize(d, b), i + EntryWidth(d, b)))
            && Table(d, b + EntrySize(d, b), i + EntryWidth(d, b)) && EntryWidth(d, b) > 0
  {
  }

  /** The entry at a, in numbers. */
  lemma EntryShape(d: seq<Byte>, a: nat)
    requires a + 1 < |d|
    ensures EntrySize(d, a) ==
            if d[a] == 255 then 1 else if d[a] >= 192 then 2 else if d[a] >= 128 then 1
            else if d[a] >= 64 then 6 + 6 * (d[a + 1] as int) else 6 + 5 * (d[a + 1] as int)
    ensures EntryWidth(d, a) ==
            if d[a] == 255 then 65536 else if d[a] >= 192 then 256 * (d[a] as int - 192) + d[a + 1] as int + 1
            else if d[a] >= 128 then d[a] as int - 128 + 1 else 1
    ensures IsGlyph(d[a]) <==> d[a] < 128
  {
  }

  lemma WideSkip(hi: nat, lo: Byte)
    ensures Or(Shl(hi, 8), lo) + 1 == WideWidth(hi, lo)
  {
    hide Or;
    PowerTable();
    ShlTable(hi);
    OrComm(Shl(hi, 8), lo);
    OrDisjoint(lo, hi, 8);
  }
}
