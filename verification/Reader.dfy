/** The decompressor's state (`_ssfn__zbuf`, kernel/source/ssfn.h:536-547) and the part of
  * it that reads: the 32-bit bit buffer (lines 549-570) and the Huffman decoder
  * (lines 572-598).
  *
  * The input is followed by spare bytes because the bit buffer is filled ahead of need.
  * `stream` is the data proper and `buf` the data with what follows it in memory.
  */
module Reader {
  import opened Bits
  import opened Canonical
  import opened HuffmanTables
  import opened Rfc1951

  /** How far the bit buffer may run ahead of the data. */
  const SPARE_BYTES := 4

  /** The symbol whose code begins the 16-bit window of the buffered input is the symbol of
    * the stream, unless the stream is cut short there. */
  lemma MatchIsSymbol(L: seq<nat>, stream: seq<Byte>, buf: seq<Byte>, p: nat, i: nat)
    requires Lengths(L) && stream <= buf && !SymbolAt(L, stream, p).CutSymbol?
    requires Match(L, i, Msb(buf, p, 16))
    ensures SymbolAt(L, stream, p) == Symbol(i)
  {
    MsbShr(buf, p, L[i], 16);
    if SymbolAt(L, stream, p).Symbol? {
      SymbolIsMatch(L, stream, buf, p);
      MatchUnique(L, i, SymbolAt(L, stream, p).sym, Msb(buf, p, 16));
    } else {
      PrefixBits(stream, buf, p, L[i]);
      assert Coded(L, i, stream, p);
    }
  }

  lemma SymbolIsMatch(L: seq<nat>, stream: seq<Byte>, buf: seq<Byte>, p: nat)
    requires Lengths(L) && stream <= buf && SymbolAt(L, stream, p).Symbol?
    ensures Match(L, SymbolAt(L, stream, p).sym, Msb(buf, p, 16))
  {
    var z := SymbolAt(L, stream, p).sym;
    PrefixBits(stream, buf, p, L[z]);
    MsbShr(buf, p, L[z], 16);
  }

  /** A decoder may look 15 bits ahead into the bytes after the data: it sees the same symbol. */
  lemma SameSymbol(L: seq<nat>, stream: seq<Byte>, buf: seq<Byte>, p: nat)
    requires Lengths(L) && stream <= buf && p + MAX_BITS <= 8 * |buf| && !SymbolAt(L, stream, p).CutSymbol?
    ensures SymbolAt(L, buf, p) == SymbolAt(L, stream, p)
  {
    if SymbolAt(L, buf, p).Symbol? {
      SymbolIsMatch(L, buf, buf, p);
      MatchIsSymbol(L, stream, buf, p, SymbolAt(L, buf, p).sym);
    } else if SymbolAt(L, stream, p).Symbol? {
      SymbolIsMatch(L, stream, buf, p);
      MatchIsSymbol(L, buf, buf, p, SymbolAt(L, stream, p).sym);
    }
  }

  lemma NotCut(L: seq<nat>, s: seq<Byte>, p: nat)
    requires p + MAX_BITS <= 8 * |s|
    ensures !SymbolAt(L, s, p).CutSymbol?
  {
  }

  class BitReader {
    const buf: seq<Byte>
    ghost const stream: seq<Byte>
    var pos: nat          // zbuffer, as an index
    var numBits: nat
    var codeBuffer: nat

    /** The bit buffer holds exactly the numBits bits of the input that precede pos. */
    ghost predicate Ready()
      reads this
    {
      && stream <= buf && |stream| + SPARE_BYTES <= |buf|
      && pos <= |buf| && numBits <= 32 && numBits <= 8 * pos
      && codeBuffer < Pow2(numBits)
      && codeBuffer == Value(buf, 8 * pos - numBits, numBits)
    }

    /** The position of the next unread bit of the stream. */
    ghost function BitPos(): nat
      requires Ready()
      reads this
    {
      8 * pos - numBits
    }

    constructor (buf: seq<Byte>, ghost stream: seq<Byte>)
      requires stream <= buf && |stream| + SPARE_BYTES <= |buf|
      ensures this.buf == buf && this.stream == stream && Ready() && BitPos() == 0
    {
      this.buf := buf;
      this.stream := stream;
      pos, numBits, codeBuffer := 0, 0, 0;
    }

    method Get8() returns (b: Byte)
      requires pos < |buf|
      modifies this`pos
      ensures b == buf[old(pos)] && pos == old(pos) + 1
    {
      b := buf[pos];
      pos := pos + 1;
    }

    /** One round of the filling loop. */
    method FillByte()
      requires Ready() && numBits <= 24 && pos < |buf|
      modifies this`pos, this`numBits, this`codeBuffer
      ensures Ready() && BitPos() == old(BitPos()) && numBits == old(numBits) + 8
    {
      hide Value, Or, Shl;
      FilledValue(buf, pos, numBits);
      ghost var p := BitPos();
      var b := Get8();
      codeBuffer := Or(codeBuffer, Shl32(b, numBits));
      numBits := numBits + 8;
      assert 8 * pos - numBits == p;
    }

    method FillBits()
      requires Ready() && numBits <= 24 && BitPos() <= 8 * |stream|
      modifies this`pos, this`numBits, this`codeBuffer
      ensures Ready() && BitPos() == old(BitPos()) && 24 < numBits <= 32
    {
      FillByte();
      while numBits <= 24
        invariant Ready() && BitPos() == old(BitPos())
        decreases 32 - numBits
      {
        FillByte();
      }
    }

    /** Drops n bits that are in the bit buffer. */
    method Drop(n: nat)
      requires Ready() && n <= numBits
      modifies this`numBits, this`codeBuffer
      ensures Ready() && BitPos() == old(BitPos()) + n && numBits == old(numBits) - n
    {
      hide Value, Shr, Shl;
      DroppedValue(buf, pos, numBits, n);
      codeBuffer := Shr(codeBuffer, n);
      numBits := numBits - n;
    }

    /** Reads the next n bits, least significant first. */
    method Receive(n: nat) returns (k: nat)
      requires Ready() && n <= 16 && BitPos() + n <= 8 * |stream|
      modifies this`pos, this`numBits, this`codeBuffer
      ensures Ready() && BitPos() == old(BitPos()) + n
      ensures k == Value(stream, old(BitPos()), n)
      ensures old(numBits) >= n ==> pos == old(pos) && numBits == old(numBits) - n
    {
      hide Value, Shl, And;
      if numBits < n {
        FillBits();
      }
      ReceivedValue(stream, buf, BitPos(), numBits, n);
      k := And(codeBuffer, Pow2(n) - 1);
      Drop(n);
    }

    /** A base value plus the value of n extra bits, if there are any. */
    method ReceiveExtra(base: nat, n: nat) returns (v: nat)
      requires Ready() && n <= 16 && BitPos() + n <= 8 * |stream|
      modifies this`pos, this`numBits, this`codeBuffer
      ensures Ready() && BitPos() == old(BitPos()) + n
      ensures v == base + Value(stream, old(BitPos()), n)
    {
      v := base;
      if n > 0 {
        var extra := Receive(n);
        v := v + extra;
      }
    }

    /** Skips to the next byte boundary. */
    method AlignToByte()
      requires Ready() && 8 * ((BitPos() + 7) / 8) <= 8 * |stream|
      modifies this`pos, this`numBits, this`codeBuffer
      ensures Ready() && numBits % 8 == 0 && BitPos() == 8 * ((old(BitPos()) + 7) / 8)
    {
      hide And, Value, Shl;
      LowThree(numBits);
      BoundaryIsNear(pos, numBits);
      if And(numBits, 7) > 0 {
        var _ := Receive(And(numBits, 7));
      }
    }

    /** Takes the four header bytes of a stored block, first from the bit buffer and then from
      * the input, and leaves the bit buffer empty. */
    method DrainHeader(ghost i: nat) returns (header: array<Byte>)
      requires Ready() && numBits % 8 == 0 && BitPos() == 8 * i && i + 4 <= |stream|
      modifies this`pos, this`numBits, this`codeBuffer
      ensures Ready() && numBits == 0 && pos == i + 4
      ensures fresh(header) && header.Length == 4
      ensures forall j | 0 <= j < 4 :: header[j] == stream[i + j]
    {
      header := new Byte[4];
      var k := DrainBuffer(header, i, numBits / 8);
      while k < 4
        invariant Ready() && numBits == 0 && 0 <= k <= 4 && pos == i + k
        invariant forall j | 0 <= j < k :: header[j] == stream[i + j]
      {
        assert buf[pos] == stream[pos];
        header[k] := Get8();
        k := k + 1;
      }
    }

    /** The bytes that were fetched ahead: as many as the bit buffer holds. */
    method DrainBuffer(header: array<Byte>, ghost i: nat, ghost n: nat) returns (k: nat)
      requires Ready() && numBits == 8 * n && BitPos() == 8 * i && i + 4 <= |stream| && header.Length == 4
      modifies this`numBits, this`codeBuffer, header
      ensures Ready() && numBits == 0 && k == n <= 4 && pos == i + k
      ensures forall j | 0 <= j < k :: header[j] == stream[i + j]
    {
      hide And, Value, Shl;
      k := 0;
      while numBits > 0
        invariant Ready() && k <= n && numBits == 8 * (n - k) && pos == i + n
        invariant forall j | 0 <= j < k :: header[j] == stream[i + j]
        decreases n - k
      {
        LowByte(stream, buf, i + k, numBits, codeBuffer);
        var b := And(codeBuffer, 255);
        Drop(8);
        header[k] := b;
        k := k + 1;
      }
    }

    /** The n bytes at the read position. */
    method TakeBytes(n: nat) returns (data: seq<Byte>)
      requires Ready() && numBits == 0 && pos + n <= |stream|
      modifies this`pos
      ensures Ready() && BitPos() == old(BitPos()) + 8 * n && data == stream[old(pos)..old(pos) + n]
    {
      data := buf[pos..pos + n];
      pos := pos + n;
    }

    /** The canonical search, from the first length that the fast table does not cover. */
    method DecodeSlowPath(h: Huffman, ghost L: seq<nat>) returns (z: int)
      requires Ready() && numBits >= 16 && h.Valid() && h.Built(L)
      requires BitPos() + MAX_BITS <= 8 * |buf|
      requires forall i: nat :: !FastHit(L, i, Low(codeBuffer, 9))
      modifies this`numBits, this`codeBuffer
      ensures Ready() && Decoded(buf, L, old(BitPos()), z)
    {
      hide Value, Shl, Shr, Low, Rev, Msb, BitReverse, FastHit, SymbolAt, First, FirstSymbol, Limit, Count;
      ghost var p := BitPos();
      NotCut(L, buf, p);
      WindowReversed(buf, p, numBits);
      NoShortMatch(L, codeBuffer);
      var k := BitReverse(codeBuffer, 16);
      assert k == Msb(buf, p, 16);
      var s := FAST_BITS + 1;
      while k >= h.maxcode[s]
        invariant 10 <= s <= 16 && k >= Bound(L, s - 1)
        decreases 16 - s
      {
        s := s + 1;
      }
      if s == 16 {
        AboveAllBounds(L, buf, p);
        return -1;
      }
      ghost var i := SymbolBetweenBounds(L, buf, p, s);
      var b := Shr(k, 16 - s) - h.firstcode[s] + h.firstsymbol[s];
      assert b == Position(L, i);
      z := h.value[b];
      assert z == i;
      Drop(s);
    }

    /** Decodes one symbol, or returns -1 if no code stands at the read position.  The code may
      * begin in the data and end in the spare bytes; where the data decide, they do. */
    method HuffmanDecode(h: Huffman, ghost L: seq<nat>) returns (z: int)
      requires Ready() && BitPos() <= 8 * |stream| && h.Valid() && h.Built(L)
      modifies this`pos, this`numBits, this`codeBuffer
      ensures Ready() && Decoded(buf, L, old(BitPos()), z)
      ensures SymbolAt(L, stream, old(BitPos())).CutSymbol? || Decoded(stream, L, old(BitPos()), z)
    {
      hide Value, Shl, And, Shr, Low, SymbolAt;
      NotCut(L, buf, BitPos());
      if !SymbolAt(L, stream, BitPos()).CutSymbol? {
        SameSymbol(L, stream, buf, BitPos());
      }
      if numBits < 16 {
        FillBits();
      }
      LowNine(codeBuffer);
      var b := h.fast[And(codeBuffer, 511)];
      assert FastEntry(L, |L|, Low(codeBuffer, 9), b);
      if b != 0 {
        FastIsSymbol(L, buf, BitPos(), numBits, b);
        Drop(Shr(b, 9));
        return And(b, 511);
      }
      z := DecodeSlowPath(h, L);
    }

    /** z is the symbol that stood at bit position p of the data, and its code has been read; or z
      * is -1, there was none, and nothing has been read. */
    ghost predicate Decoded(data: seq<Byte>, L: seq<nat>, p: nat, z: int)
      requires Ready()
      reads this
    {
      match SymbolAt(L, data, p)
      case Symbol(i) => z == i && BitPos() == p + L[i]
      case NoSymbol => z == -1 && BitPos() == p
      case CutSymbol => false
    }
  }

  // ---------- the bit buffer ----------

  lemma FilledValue(buf: seq<Byte>, pos: nat, n: nat)
    requires pos < |buf| && n <= 24 && n <= 8 * pos
    ensures Or(Value(buf, 8 * pos - n, n), Shl32(buf[pos], n)) == Value(buf, 8 * pos - n, n + 8) < Pow2(n + 8)
  {
    hide Value, Or, Shl;
    var p := 8 * pos - n;
    var low, all, byte := Value(buf, p, n), Value(buf, p, n + 8), Value(buf, 8 * pos, 8);
    assert byte == buf[pos] by {
      ByteValue(buf, pos);
    }
    assert all == low + Shl(byte, n) by {
      ValueConcat(buf, p, n, 8);
      assert p + n == 8 * pos;
    }
    assert low < Pow2(n) by {
      ValueBelow(buf, p, n);
    }
    assert all < Pow2(n + 8) by {
      ValueBelow(buf, p, n + 8);
    }
    assert Pow2(n + 8) <= 0x1_0000_0000 by {
      PowMonotone(n + 8, 32);
      PowerTable();
    }
    FilledOr(low, byte, n);
  }

  lemma FilledOr(low: nat, byte: nat, n: nat)
    requires low < Pow2(n) && Shl(byte, n) < 0x1_0000_0000
    ensures Or(low, Shl32(byte, n)) == low + Shl(byte, n)
  {
    SmallMod(Shl(byte, n), 0x1_0000_0000);
    OrDisjoint(low, byte, n);
  }

  lemma ReceivedValue(stream: seq<Byte>, buf: seq<Byte>, p: nat, m: nat, n: nat)
    requires stream <= buf && n <= m && p + n <= 8 * |stream|
    ensures Pow2(n) >= 1 && And(Value(buf, p, m), Pow2(n) - 1) == Value(stream, p, n)
  {
    AndMask(Value(buf, p, m), n);
    ValueLow(buf, p, m, n);
    PrefixBits(stream, buf, p, n);
  }

  lemma DroppedValue(buf: seq<Byte>, pos: nat, m: nat, n: nat)
    requires n <= m <= 8 * pos
    ensures Shr(Value(buf, 8 * pos - m, m), n) == Value(buf, 8 * pos - (m - n), m - n) < Pow2(m - n)
  {
    ValueShr(buf, 8 * pos - m, m, n);
    ValueBelow(buf, 8 * pos - (m - n), m - n);
  }

  lemma LowThree(n: nat)
    ensures And(n, 7) == n % 8
  {
    hide And, Low;
    AndMask(n, 3);
    PowerTable();
    LowStep(n, 3);
    LowStep(n / 2, 2);
    LowStep(n / 4, 1);
    assert Low(n / 8, 0) == 0 by {
      LowNone(n / 8);
    }
    assert n == n % 2 + 2 * (n / 2 % 2) + 4 * (n / 4 % 2) + 8 * (n / 8);
  }

  lemma LowStep(v: nat, n: nat)
    requires n > 0
    ensures Low(v, n) == v % 2 + 2 * Low(v / 2, n - 1)
  {
  }

  lemma LowNone(v: nat)
    ensures Low(v, 0) == 0
  {
  }

  lemma BoundaryIsNear(pos: nat, n: nat)
    requires n <= 8 * pos
    ensures 8 * ((8 * pos - n + 7) / 8) == 8 * pos - n + n % 8
    ensures (n - n % 8) % 8 == 0
  {
    assert (8 * pos - n + 7) / 8 == pos - n / 8;
  }

  /** At a byte boundary the low byte of the bit buffer is the next byte of the data. */
  lemma LowByte(stream: seq<Byte>, buf: seq<Byte>, i: nat, n: nat, v: nat)
    requires stream <= buf && i < |stream| && n >= 8 && v == Value(buf, 8 * i, n)
    ensures And(v, 255) == stream[i]
  {
    AndMask(v, 8);
    PowerTable();
    ValueLow(buf, 8 * i, n, 8);
    ByteValue(buf, i);
  }

  /** Reversing the low 16 bits of the buffer gives the next 16 bits of the input as a code. */
  lemma WindowReversed(buf: seq<Byte>, p: nat, n: nat)
    requires n >= 16
    ensures BitReverse(Value(buf, p, n), 16) == Rev(Value(buf, p, n), 16) == Msb(buf, p, 16) < 0x1_0000
  {
    BitReverse16Correct(Value(buf, p, n));
    RevValue(buf, p, n, 16);
    MsbBelow(buf, p, 16);
    PowerTable();
  }

  lemma LowNine(v: nat)
    ensures And(v, 511) == Low(v, 9) < 512
  {
    AndMask(v, 9);
    PowerTable();
    LowBelow(v, 9);
  }

  /** A filled slot of the fast table holds the symbol of the input and its length. */
  lemma FastIsSymbol(L: seq<nat>, buf: seq<Byte>, p: nat, n: nat, b: nat)
    requires Lengths(L) && Kraft(L) && !SymbolAt(L, buf, p).CutSymbol?
    requires n >= 16 && b != 0 && FastEntry(L, |L|, Low(Value(buf, p, n), 9), b)
    ensures SymbolAt(L, buf, p) == Symbol(And(b, 511)) && Shr(b, 9) == L[And(b, 511)] <= 9
  {
    var i: nat :| i < |L| && FastHit(L, i, Low(Value(buf, p, n), 9)) && b == 512 * L[i] + i;
    UnpackFast(b, L[i], i);
    FastHitIsMatch(L, i, Value(buf, p, n));
    RevValue(buf, p, n, 16);
    MatchIsSymbol(L, buf, buf, p, i);
  }

  /** The canonical search stops at the length of the symbol. */
  lemma SymbolBetweenBounds(L: seq<nat>, buf: seq<Byte>, p: nat, s: nat) returns (i: nat)
    requires Lengths(L) && !SymbolAt(L, buf, p).CutSymbol?
    requires 1 <= s <= 15 && Bound(L, s - 1) <= Msb(buf, p, 16) < Bound(L, s)
    ensures i < |L| && L[i] == s && SymbolAt(L, buf, p) == Symbol(i)
    ensures Shr(Msb(buf, p, 16), 16 - s) - First(L, s) + FirstSymbol(L, s) == Position(L, i) < 288
  {
    i := BoundsGiveMatch(L, s, Msb(buf, p, 16));
    MatchIsSymbol(L, buf, buf, p, i);
    PositionRange(L, i);
  }

  /** When the fast table has no entry, the window lies above every code it covers. */
  lemma NoShortMatch(L: seq<nat>, v: nat)
    requires Lengths(L) && Kraft(L)
    requires forall i: nat :: !FastHit(L, i, Low(v, 9))
    ensures Rev(v, 16) >= Bound(L, 9)
  {
    NoMatchUpTo(L, v, 9);
  }

  lemma {:induction false} NoMatchUpTo(L: seq<nat>, v: nat, t: nat)
    requires Lengths(L) && Kraft(L) && t <= 9
    requires forall i: nat :: !FastHit(L, i, Low(v, 9))
    ensures Rev(v, 16) >= Bound(L, t)
  {
    if t == 0 {
      ShlZero(16);
    } else {
      NoMatchUpTo(L, v, t - 1);
      if Rev(v, 16) < Bound(L, t) {
        var i := BoundsGiveMatch(L, t, Rev(v, 16));
        FastHitIsMatch(L, i, v);
      }
    }
  }

  /** A window above every bound begins with no code. */
  lemma AboveAllBounds(L: seq<nat>, buf: seq<Byte>, p: nat)
    requires Lengths(L) && Msb(buf, p, 16) >= Bound(L, 15)
    ensures !SymbolAt(L, buf, p).Symbol?
  {
    if SymbolAt(L, buf, p).Symbol? {
      var i := SymbolAt(L, buf, p).sym;
      SymbolIsMatch(L, buf, buf, p);
      MatchBetweenBounds(L, i, Msb(buf, p, 16));
      BoundMonotone(L, L[i], 15);
    }
  }

  lemma UnpackFast(b: nat, s: nat, i: nat)
    requires b == 512 * s + i && i < 512
    ensures Shr(b, 9) == s && And(b, 511) == i
  {
    ShlTable(s);
    AndMask(b, 9);
    PowerTable();
    LowSmall(i, 9);
    LowOfSum(i, s, 9);
    ShrOfSum(i, s, 9);
  }

  lemma {:induction false} LowOfSum(a: nat, b: nat, n: nat)
    requires a < Pow2(n)
    ensures Low(a + Shl(b, n), n) == a
  {
    if n != 0 {
      LowOfSum(a / 2, b, n - 1);
      assert (a + Shl(b, n)) / 2 == a / 2 + Shl(b, n - 1);
    }
  }

  lemma {:induction false} ShrOfSum(a: nat, b: nat, n: nat)
    requires a < Pow2(n)
    ensures Shr(a + Shl(b, n), n) == b
  {
    if n != 0 {
      ShrOfSum(a / 2, b, n - 1);
      assert (a + Shl(b, n)) / 2 == a / 2 + Shl(b, n - 1);
    }
  }
}
