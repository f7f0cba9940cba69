/** The bit-level vocabulary of the decompressor (kernel/source/ssfn.h): C's shift and
  * mask operators on unsigned values, bit reversal, and a byte string read as a stream
  * of bits, least significant bit of each byte first.
  *
  * Shifts and masks are defined one bit at a time, so that every proof about them is an
  * induction that only ever multiplies and divides by two.
  */
module Bits {

  type Byte = b: nat | b < 256

  function Shl(v: nat, n: nat): nat {
    if n == 0 then v else 2 * Shl(v, n - 1)
  }

  function Pow2(n: nat): nat {
    Shl(1, n)
  }

  function Shr(v: nat, n: nat): nat {
    if n == 0 then v else Shr(v / 2, n - 1)
  }

  /** The low n bits of v. */
  function Low(v: nat, n: nat): nat {
    if n == 0 then 0 else v % 2 + 2 * Low(v / 2, n - 1)
  }

  /** Bit j of v. */
  function BitOf(v: nat, j: nat): nat {
    Shr(v, j) % 2
  }

  function And(a: nat, b: nat): nat {
    if a == 0 then 0 else (if a % 2 == 1 && b % 2 == 1 then 1 else 0) + 2 * And(a / 2, b / 2)
  }

  function Or(a: nat, b: nat): nat
    decreases a + b
  {
    if a == 0 && b == 0 then 0 else (if a % 2 == 1 || b % 2 == 1 then 1 else 0) + 2 * Or(a / 2, b / 2)
  }

  function Xor(a: nat, b: nat): nat
    decreases a + b
  {
    if a == 0 && b == 0 then 0 else (if a % 2 != b % 2 then 1 else 0) + 2 * Xor(a / 2, b / 2)
  }

  /** A left shift of a 32-bit unsigned value. */
  function Shl32(v: nat, n: nat): nat {
    Shl(v, n) % 0x1_0000_0000
  }

  /** The low n bits of v in the opposite order. */
  function Rev(v: nat, n: nat): nat {
    if n == 0 then 0 else 2 * Rev(v, n - 1) + BitOf(v, n - 1)
  }

  // ---------- shifts and masks ----------

  lemma {:induction false} ShlMonotone(a: nat, b: nat, n: nat)
    ensures a < b <==> Shl(a, n) < Shl(b, n)
  {
    if n != 0 {
      ShlMonotone(a, b, n - 1);
    }
  }

  lemma {:induction false} ShlShl(v: nat, m: nat, n: nat)
    ensures Shl(Shl(v, m), n) == Shl(v, m + n)
  {
    if n != 0 {
      ShlShl(v, m, n - 1);
    }
  }

  lemma {:induction false} ShlDouble(v: nat, n: nat)
    ensures Shl(2 * v, n) == 2 * Shl(v, n)
  {
    if n != 0 {
      ShlDouble(v, n - 1);
    }
  }

  lemma {:induction false} ShlAdd(a: nat, b: nat, n: nat)
    ensures Shl(a + b, n) == Shl(a, n) + Shl(b, n)
  {
    if n != 0 {
      ShlAdd(a, b, n - 1);
    }
  }

  lemma {:induction false} ShrShr(v: nat, m: nat, n: nat)
    ensures Shr(Shr(v, m), n) == Shr(v, m + n)
  {
    if m != 0 {
      ShrShr(v / 2, m - 1, n);
    }
  }

  lemma SmallMod(v: nat, m: nat)
    requires v < m
    ensures v % m == v
  {
  }

  /** Small shifts as products. */
  lemma ShlTable(v: nat)
    ensures Shl(v, 0) == v && Shl(v, 1) == 2 * v && Shl(v, 2) == 4 * v && Shl(v, 3) == 8 * v && Shl(v, 4) == 16 * v
    ensures Shl(v, 5) == 32 * v && Shl(v, 6) == 64 * v && Shl(v, 7) == 128 * v && Shl(v, 8) == 256 * v &&
            Shl(v, 9) == 512 * v
  {
    assert Shl(v, 0) == v;
    assert Shl(v, 1) == 2 * Shl(v, 0);
    assert Shl(v, 2) == 2 * Shl(v, 1);
    assert Shl(v, 3) == 2 * Shl(v, 2);
    assert Shl(v, 4) == 2 * Shl(v, 3);
    assert Shl(v, 5) == 2 * Shl(v, 4);
    assert Shl(v, 6) == 2 * Shl(v, 5);
    assert Shl(v, 7) == 2 * Shl(v, 6);
    assert Shl(v, 8) == 2 * Shl(v, 7);
    assert Shl(v, 9) == 2 * Shl(v, 8);
  }

  /** The powers of two that bound the fields of the format and the machine words. */
  lemma PowerTable()
    ensures Pow2(3) == 8 && Pow2(4) == 16 && Pow2(5) == 32 && Pow2(7) == 128 && Pow2(8) == 256 && Pow2(9) == 512
    ensures Pow2(15) == 0x8000 && Pow2(16) == 0x1_0000 && Pow2(32) == 0x1_0000_0000
  {
    ShlTable(1);
    ShlTable(256);
    ShlShl(1, 8, 7);
    ShlShl(1, 8, 8);
    ShlTable(0x1_0000);
    ShlShl(1, 16, 8);
    ShlTable(0x100_0000);
    ShlShl(1, 24, 8);
  }

  lemma {:induction false} PowMonotone(m: nat, n: nat)
    requires m <= n
    ensures 1 <= Pow2(m) <= Pow2(n)
  {
    if n != 0 {
      PowMonotone(if m == 0 then 0 else m - 1, n - 1);
    }
  }

  lemma {:induction false} ShrZero(n: nat)
    ensures Shr(0, n) == 0
  {
    if n != 0 {
      ShrZero(n - 1);
    }
  }

  /** Comparing with a shifted bound is comparing the shifted value. */
  lemma {:induction false} ShrBelow(k: nat, c: nat, n: nat)
    ensures Shr(k, n) < c <==> k < Shl(c, n)
  {
    if n != 0 {
      ShrBelow(k / 2, c, n - 1);
    }
  }

  lemma {:induction false} LowBelow(v: nat, n: nat)
    ensures Low(v, n) < Pow2(n)
  {
    if n != 0 {
      LowBelow(v / 2, n - 1);
    }
  }

  lemma {:induction false} LowSmall(v: nat, n: nat)
    requires v < Pow2(n)
    ensures Low(v, n) == v
  {
    if n != 0 {
      LowSmall(v / 2, n - 1);
    }
  }

  lemma {:induction false} LowLow(v: nat, m: nat, n: nat)
    requires n <= m
    ensures Low(Low(v, m), n) == Low(v, n)
  {
    if n != 0 {
      LowLow(v / 2, m - 1, n - 1);
    }
  }

  lemma ShrOfSmall(v: nat, m: nat, n: nat)
    requires v < Pow2(m + n)
    ensures Shr(v, n) < Pow2(m)
  {
    ShlShl(1, m, n);
    ShrBelow(v, Pow2(m), n);
  }

  lemma {:induction false} AndMask(v: nat, n: nat)
    ensures Pow2(n) >= 1 && And(v, Pow2(n) - 1) == Low(v, n)
  {
    ShlMonotone(0, 1, n);
    ShlZero(n);
    if n != 0 {
      AndMask(v / 2, n - 1);
      assert (Pow2(n) - 1) / 2 == Pow2(n - 1) - 1;
      if v == 0 {
        LowZero(n);
      }
    } else {
      AndZero(v);
    }
  }

  lemma {:induction false} ShlZero(n: nat)
    ensures Shl(0, n) == 0
  {
    if n != 0 {
      ShlZero(n - 1);
    }
  }

  lemma {:induction false} LowZero(n: nat)
    ensures Low(0, n) == 0
  {
    if n != 0 {
      LowZero(n - 1);
    }
  }

  lemma {:induction false} AndZero(v: nat)
    ensures And(v, 0) == 0
  {
    if v != 0 {
      AndZero(v / 2);
    }
  }

  /** Bits above position n do not meet a value below 2^n: the disjunction is a sum. */
  lemma {:induction false} OrDisjoint(a: nat, b: nat, n: nat)
    requires a < Pow2(n)
    ensures Or(a, Shl(b, n)) == a + Shl(b, n)
  {
    if n == 0 {
      OrZero(b);
    } else {
      OrDisjoint(a / 2, b, n - 1);
    }
  }

  /** Exclusive or with n ones is the ones' complement in n bits. */
  lemma {:induction false} XorOnes(v: nat, n: nat)
    requires v < Pow2(n)
    ensures Xor(v, Pow2(n) - 1) == Pow2(n) - 1 - v
  {
    if n != 0 {
      PowMonotone(0, n - 1);
      XorOnes(v / 2, n - 1);
      assert (Pow2(n) - 1) / 2 == Pow2(n - 1) - 1;
    }
  }

  lemma {:induction false} OrZero(b: nat)
    ensures Or(0, b) == b
  {
    if b != 0 {
      OrZero(b / 2);
    }
  }

  lemma {:induction false} OrComm(a: nat, b: nat)
    ensures Or(a, b) == Or(b, a)
    decreases a + b
  {
    if a != 0 || b != 0 {
      OrComm(a / 2, b / 2);
    }
  }

  /** Adding 2^n leaves the low n bits alone. */
  lemma {:induction false} LowStride(v: nat, n: nat)
    ensures Low(v + Pow2(n), n) == Low(v, n)
  {
    if n != 0 {
      LowStride(v / 2, n - 1);
      assert (v + Pow2(n)) / 2 == v / 2 + Pow2(n - 1);
    }
  }

  /** Two values with the same low n bits are at least 2^n apart. */
  lemma {:induction false} LowGap(v: nat, w: nat, n: nat)
    requires v < w && Low(v, n) == Low(w, n)
    ensures v + Pow2(n) <= w
  {
    if n != 0 {
      LowGap(v / 2, w / 2, n - 1);
    }
  }

  /** A mask that is zero below bit n looks at the bits from n on. */
  lemma {:induction false} AndShl(v: nat, m: nat, n: nat)
    ensures And(v, Shl(m, n)) == Shl(And(Shr(v, n), m), n)
  {
    if n != 0 {
      AndShl(v / 2, m, n - 1);
      if v == 0 {
        ShrZero(n - 1);
        ShlZero(n - 1);
      }
    }
  }

  /** A mask of one bit tests that bit. */
  lemma {:induction false} AndBit(v: nat, n: nat)
    ensures And(v, Pow2(n)) != 0 <==> BitOf(v, n) == 1
  {
    PowMonotone(0, n);
    if v == 0 {
      ShrZero(n);
    } else if n > 0 {
      AndBit(v / 2, n - 1);
      assert Pow2(n) / 2 == Pow2(n - 1) && Pow2(n) % 2 == 0;
    } else {
      AndZero(v / 2);
    }
  }

  lemma ShrTable(v: nat)
    ensures Shr(v, 0) == v && Shr(v, 6) == v / 64 && Shr(v, 7) == v / 128
  {
    hide Shr;
    ShrStep(v, 6);
    ShrStep(v / 2, 5);
    ShrStep(v / 4, 4);
    ShrStep(v / 8, 3);
    ShrStep(v / 16, 2);
    ShrStep(v / 32, 1);
    ShrStep(v, 7);
    ShrStep(v / 2, 6);
    ShrStep(v / 4, 5);
    ShrStep(v / 8, 4);
    ShrStep(v / 16, 3);
    ShrStep(v / 32, 2);
    ShrStep(v / 64, 1);
    ShrNone(v);
    ShrNone(v / 64);
    ShrNone(v / 128);
  }

  lemma ShrStep(v: nat, n: nat)
    requires n > 0
    ensures Shr(v, n) == Shr(v / 2, n - 1)
  {
  }

  lemma ShrNone(v: nat)
    ensures Shr(v, 0) == v
  {
  }

  lemma LowTable(v: nat)
    ensures Low(v, 1) == v % 2 && Low(v, 2) == v % 4 && Low(v, 6) == v % 64 && Low(v, 7) == v % 128
  {
    hide Low;
    LowMod(v, 1);
    LowMod(v, 2);
    LowMod(v, 6);
    LowMod(v, 7);
    ShlTable(1);
  }

  lemma {:induction false} LowMod(v: nat, n: nat)
    ensures Pow2(n) > 0 && Low(v, n) == v % Pow2(n)
  {
    PowMonotone(0, n);
    if n != 0 {
      LowMod(v / 2, n - 1);
      ModDouble(v, Pow2(n - 1));
    }
  }

  lemma ModDouble(v: nat, m: nat)
    requires m > 0
    ensures v % (2 * m) == v % 2 + 2 * (v / 2 % m)
  {
    var q, r := v / 2 / m, v / 2 % m;
    assert v / 2 == q * m + r;
    assert v == q * (2 * m) + (v % 2 + 2 * r);
    ModIs(v, q, 2 * m, v % 2 + 2 * r);
  }

  lemma ModIs(v: nat, q: nat, m: nat, r: nat)
    requires r < m && v == q * m + r
    ensures v % m == r
  {
    var q1, r1 := v / m, v % m;
    assert v == q1 * m + r1 && 0 <= r1 < m;
    assert (q1 - q) * m == r - r1 by {
      assert (q1 - q) * m == q1 * m - q * m;
    }
    MulGrows(q1 - q, m);
  }

  lemma MulGrows(d: int, m: nat)
    ensures d >= 1 ==> d * m >= m
    ensures d <= -1 ==> d * m <= -(m as int)
  {
    if d >= 1 {
      assert d * m == (d - 1) * m + m;
    } else if d <= -1 {
      assert d * m == (d + 1) * m - m;
    }
  }

  /** The masks that the font formats apply to a byte. */
  lemma ByteFields(b: Byte)
    ensures And(b, 0x7F) == b % 128 && And(b, 0x3F) == b % 64
    ensures And(b, 0x80) != 0 <==> b >= 128
    ensures And(b, 0x40) != 0 <==> b / 64 % 2 == 1
    ensures And(b, 0xC0) == 64 * (b / 64)
  {
    hide And, Low, Shr, Shl;
    ShlTable(1);
    ShlTable(3);
    ShrTable(b);
    LowTable(b);
    AndMask(b, 7);
    AndMask(b, 6);
    AndShl(b, 1, 7);
    AndShl(b, 1, 6);
    AndShl(b, 3, 6);
    AndMask(b / 128, 1);
    AndMask(b / 64, 1);
    AndMask(b / 64, 2);
    LowTable(b / 128);
    LowTable(b / 64);
    ShlTable(b / 128 % 2);
    ShlTable(b / 64 % 2);
    ShlTable(b / 64 % 4);
  }

  // ---------- reversal ----------

  lemma {:induction false} RevBelow(v: nat, n: nat)
    ensures Rev(v, n) < Pow2(n)
  {
    if n != 0 {
      RevBelow(v, n - 1);
    }
  }

  /** Dropping the last bits of a reversal reverses fewer bits. */
  lemma {:induction false} ShrRev(v: nat, n: nat, m: nat)
    requires n <= m
    ensures Shr(Rev(v, m), m - n) == Rev(v, n)
    decreases m - n
  {
    if n < m {
      ShrRev(v, n, m - 1);
      assert Rev(v, m) / 2 == Rev(v, m - 1);
    }
  }

  lemma BitOfRev(v: nat, n: nat, j: nat)
    requires j < n
    ensures BitOf(Rev(v, n), j) == BitOf(v, n - 1 - j)
  {
    hide Shr, Low;
    ShrRev(v, n - j, n);
    assert Rev(v, n - j) == 2 * Rev(v, n - j - 1) + BitOf(v, n - j - 1);
  }

  lemma {:induction false} LowByBits(v: nat, w: nat, n: nat)
    requires forall j: nat | j < n :: BitOf(v, j) == BitOf(w, j)
    ensures Low(v, n) == Low(w, n)
  {
    if n != 0 {
      assert BitOf(v, 0) == BitOf(w, 0);
      forall j: nat | j < n - 1 ensures BitOf(v / 2, j) == BitOf(w / 2, j) {
        assert BitOf(v, j + 1) == BitOf(w, j + 1);
      }
      LowByBits(v / 2, w / 2, n - 1);
    }
  }

  lemma {:induction false} BitsByLow(v: nat, w: nat, n: nat, j: nat)
    requires Low(v, n) == Low(w, n) && j < n
    ensures BitOf(v, j) == BitOf(w, j)
  {
    assert v % 2 == w % 2 && Low(v / 2, n - 1) == Low(w / 2, n - 1);
    if j != 0 {
      BitsByLow(v / 2, w / 2, n - 1, j - 1);
      assert BitOf(v, j) == BitOf(v / 2, j - 1);
      assert BitOf(w, j) == BitOf(w / 2, j - 1);
    }
  }

  lemma RevOfLow(v: nat, w: nat, n: nat)
    requires Low(v, n) == Low(w, n)
    ensures Rev(v, n) == Rev(w, n)
  {
    RevByBits(v, w, n, n);
  }

  lemma {:induction false} RevByBits(v: nat, w: nat, m: nat, n: nat)
    requires Low(v, n) == Low(w, n) && m <= n
    ensures Rev(v, m) == Rev(w, m)
  {
    if m != 0 {
      RevByBits(v, w, m - 1, n);
      BitsByLow(v, w, n, m - 1);
    }
  }

  lemma RevRev(v: nat, n: nat)
    ensures Rev(Rev(v, n), n) == Low(v, n)
  {
    RevBelow(Rev(v, n), n);
    LowSmall(Rev(Rev(v, n), n), n);
    forall j: nat | j < n ensures BitOf(Rev(Rev(v, n), n), j) == BitOf(v, j) {
      BitOfRev(Rev(v, n), n, j);
      BitOfRev(v, n, n - 1 - j);
    }
    LowByBits(Rev(Rev(v, n), n), v, n);
  }

  /** A value shows code c (of n bits) reversed in its low bits iff its reversal is c. */
  lemma RevMatches(v: nat, c: nat, n: nat)
    requires c < Pow2(n)
    ensures Low(v, n) == Rev(c, n) <==> Rev(v, n) == c
  {
    LowSmall(c, n);
    RevRev(c, n);
    RevRev(v, n);
    if Low(v, n) == Rev(c, n) {
      RevBelow(c, n);
      LowSmall(Rev(c, n), n);
      RevOfLow(v, Rev(c, n), n);
    }
  }

  // ---------- the bit stream ----------

  /** Bit q of the stream; bits past the end read as zero. */
  function Bit(s: seq<Byte>, q: nat): nat {
    if q / 8 < |s| then BitOf(s[q / 8], q % 8) else 0
  }

  /** The n bits from position p, first bit least significant (data elements). */
  function Value(s: seq<Byte>, p: nat, n: nat): nat
    decreases n
  {
    if n == 0 then 0 else Bit(s, p) + 2 * Value(s, p + 1, n - 1)
  }

  /** The n bits from position p, first bit most significant (Huffman codes). */
  function Msb(s: seq<Byte>, p: nat, n: nat): nat {
    if n == 0 then 0 else 2 * Msb(s, p, n - 1) + Bit(s, p + n - 1)
  }

  lemma {:induction false} ValueBelow(s: seq<Byte>, p: nat, n: nat)
    ensures Value(s, p, n) < Pow2(n)
    decreases n
  {
    if n != 0 {
      ValueBelow(s, p + 1, n - 1);
    }
  }

  lemma {:induction false} ValueLow(s: seq<Byte>, p: nat, m: nat, n: nat)
    requires n <= m
    ensures Low(Value(s, p, m), n) == Value(s, p, n)
    decreases n
  {
    if n != 0 {
      ValueLow(s, p + 1, m - 1, n - 1);
    }
  }

  lemma {:induction false} ValueShr(s: seq<Byte>, p: nat, m: nat, n: nat)
    requires n <= m
    ensures Shr(Value(s, p, m), n) == Value(s, p + n, m - n)
    decreases n
  {
    if n != 0 {
      ValueShr(s, p + 1, m - 1, n - 1);
    }
  }

  lemma {:induction false} ValueConcat(s: seq<Byte>, p: nat, m: nat, n: nat)
    ensures Value(s, p, m + n) == Value(s, p, m) + Shl(Value(s, p + m, n), m)
    decreases m
  {
    if m != 0 {
      ValueConcat(s, p + 1, m - 1, n);
    }
  }

  lemma ValueBit(s: seq<Byte>, p: nat, m: nat, j: nat)
    requires j < m
    ensures BitOf(Value(s, p, m), j) == Bit(s, p + j)
  {
    ValueShr(s, p, m, j);
  }

  /** Reversing a window of the stream reads it most significant bit first. */
  lemma {:induction false} RevValue(s: seq<Byte>, p: nat, m: nat, n: nat)
    requires n <= m
    ensures Rev(Value(s, p, m), n) == Msb(s, p, n)
  {
    if n != 0 {
      RevValue(s, p, m, n - 1);
      ValueBit(s, p, m, n - 1);
    }
  }

  lemma MsbShr(s: seq<Byte>, p: nat, n: nat, m: nat)
    requires n <= m
    ensures Shr(Msb(s, p, m), m - n) == Msb(s, p, n)
  {
    RevValue(s, p, m, m);
    RevValue(s, p, m, n);
    ShrRev(Value(s, p, m), n, m);
  }

  lemma {:induction false} MsbBelow(s: seq<Byte>, p: nat, n: nat)
    ensures Msb(s, p, n) < Pow2(n)
  {
    if n != 0 {
      MsbBelow(s, p, n - 1);
    }
  }

  lemma ByteValue(s: seq<Byte>, i: nat)
    requires i < |s|
    ensures Value(s, 8 * i, 8) == s[i]
  {
    BitsOfByte(s, i, 0);
  }

  lemma {:induction false} BitsOfByte(s: seq<Byte>, i: nat, j: nat)
    requires i < |s| && j <= 8
    ensures Value(s, 8 * i + j, 8 - j) == Shr(s[i], j)
    decreases 8 - j
  {
    var b := s[i];
    if j == 8 {
      ShrOfSmall(b, 0, 8);
    } else {
      BitsOfByte(s, i, j + 1);
      assert (8 * i + j) / 8 == i && (8 * i + j) % 8 == j;
      ShrShr(b, j, 1);
    }
  }

  /** Data after the end of a stream does not change the bits inside it. */
  lemma PrefixBits(s: seq<Byte>, t: seq<Byte>, p: nat, n: nat)
    requires s <= t && p + n <= 8 * |s|
    ensures Value(t, p, n) == Value(s, p, n)
    ensures Msb(t, p, n) == Msb(s, p, n)
  {
    PrefixValue(s, t, p, n);
    PrefixMsb(s, t, p, n);
  }

  lemma {:induction false} PrefixValue(s: seq<Byte>, t: seq<Byte>, p: nat, n: nat)
    requires s <= t && p + n <= 8 * |s|
    ensures Value(t, p, n) == Value(s, p, n)
    decreases n
  {
    if n != 0 {
      PrefixValue(s, t, p + 1, n - 1);
    }
  }

  lemma {:induction false} PrefixMsb(s: seq<Byte>, t: seq<Byte>, p: nat, n: nat)
    requires s <= t && p + n <= 8 * |s|
    ensures Msb(t, p, n) == Msb(s, p, n)
  {
    if n != 0 {
      PrefixMsb(s, t, p, n - 1);
    }
  }

  // ---------- the mask-and-swap reversal ----------

  /** One round of the swap: bits selected by hi move down by n, those selected by lo move up. */
  function SwapRound(v: nat, hi: nat, lo: nat, n: nat): nat {
    Or(Shr(And(v, hi), n), Shl(And(v, lo), n))
  }

  function BitReverse16(v: nat): nat {
    SwapRound(SwapRound(SwapRound(SwapRound(v, 0xAAAA, 0x5555, 1), 0xCCCC, 0x3333, 2), 0xF0F0, 0x0F0F, 4),
              0xFF00, 0x00FF, 8)
  }

  function BitReverse(v: nat, bits: nat): nat
    requires bits <= 16
  {
    Shr(BitReverse16(v), 16 - bits)
  }

  ghost predicate Set(v: nat, j: nat) {
    BitOf(v, j) == 1
  }

  lemma {:induction false} SetAnd(a: nat, b: nat, j: nat)
    ensures Set(And(a, b), j) <==> Set(a, j) && Set(b, j)
  {
    if a == 0 {
      ShrZero(j);
    } else if j != 0 {
      SetAnd(a / 2, b / 2, j - 1);
      assert And(a, b) / 2 == And(a / 2, b / 2);
    }
  }

  lemma {:induction false} SetOr(a: nat, b: nat, j: nat)
    ensures Set(Or(a, b), j) <==> Set(a, j) || Set(b, j)
  {
    if a == 0 && b == 0 {
      ShrZero(j);
    } else if j != 0 {
      SetOr(a / 2, b / 2, j - 1);
      assert Or(a, b) / 2 == Or(a / 2, b / 2);
      assert Set(Or(a, b), j) == Set(Or(a / 2, b / 2), j - 1);
    }
  }

  lemma {:induction false} SetShl(v: nat, n: nat, j: nat)
    ensures Set(Shl(v, n), j) <==> j >= n && Set(v, j - n)
  {
    if n != 0 && j != 0 {
      SetShl(v, n - 1, j - 1);
    }
  }

  lemma SetShr(v: nat, n: nat, j: nat)
    ensures Set(Shr(v, n), j) <==> Set(v, n + j)
  {
    ShrShr(v, n, j);
  }

  lemma SetSwapRound(v: nat, hi: nat, lo: nat, n: nat, j: nat)
    ensures Set(SwapRound(v, hi, lo, n), j)
       <==> (Set(v, n + j) && Set(hi, n + j)) || (j >= n && Set(v, j - n) && Set(lo, j - n))
  {
    SetOr(Shr(And(v, hi), n), Shl(And(v, lo), n), j);
    SetShr(And(v, hi), n, j);
    SetAnd(v, hi, n + j);
    SetShl(And(v, lo), n, j);
    if j >= n {
      SetAnd(v, lo, j - n);
    }
  }

  lemma SmallShifts(v: nat)
    ensures Shr(v, 1) == v / 2 && Shr(v, 2) == v / 4 && Shr(v, 3) == v / 8 && Shr(v, 4) == v / 16
  {
    assert Shr(v / 2, 1) == v / 4;
    assert Shr(v / 2, 2) == Shr(v / 4, 1) == v / 8;
    assert Shr(v / 2, 3) == Shr(v / 4, 2) == Shr(v / 8, 1) == v / 16;
  }

  /** Four digits of four bits each, least significant first. */
  function Nibbles(a: nat, b: nat, c: nat, d: nat): nat {
    a + 16 * (b + 16 * (c + 16 * d))
  }

  lemma {:induction false} BitOfDigits(a: nat, rest: nat, n: nat, j: nat)
    requires a < Pow2(n)
    ensures BitOf(a + Shl(rest, n), j) == if j < n then BitOf(a, j) else BitOf(rest, j - n)
  {
    if n != 0 && j != 0 {
      BitOfDigits(a / 2, rest, n - 1, j - 1);
    }
  }

  function Digit(a: nat, b: nat, c: nat, d: nat, i: nat): nat {
    if i == 0 then a else if i == 1 then b else if i == 2 then c else d
  }

  /** A 16-bit value is read four bits at a time. */
  lemma BitOfNibbles(a: nat, b: nat, c: nat, d: nat, q: nat, r: nat)
    requires a < 16 && b < 16 && c < 16 && d < 16 && q < 4 && r < 4
    ensures BitOf(Nibbles(a, b, c, d), 4 * q + r) == BitOf(Digit(a, b, c, d, q), r)
  {
    PowerTable();
    BitOfNibblePair(a, b + 16 * (c + 16 * d), 4 * q + r);
    if q >= 1 {
      BitOfNibblePair(b, c + 16 * d, 4 * (q - 1) + r);
    }
    if q >= 2 {
      BitOfNibblePair(c, d, 4 * (q - 2) + r);
    }
  }

  lemma BitOfNibblePair(a: nat, rest: nat, j: nat)
    requires a < 16
    ensures BitOf(a + 16 * rest, j) == if j < 4 then BitOf(a, j) else BitOf(rest, j - 4)
  {
    PowerTable();
    ShlTable(rest);
    BitOfDigits(a, rest, 4, j);
  }

  lemma NibbleBits(i: nat)
    requires i < 4
    ensures BitOf(0xA, i) == i % 2 && BitOf(0x5, i) == 1 - i % 2
    ensures BitOf(0xC, i) == i / 2 && BitOf(0x3, i) == 1 - i / 2
    ensures BitOf(0xF, i) == 1 && BitOf(0x0, i) == 0
  {
    assert i == 0 || i == 1 || i == 2 || i == 3;
    SmallShifts(0xA);
    SmallShifts(0x5);
    SmallShifts(0xC);
    SmallShifts(0x3);
    SmallShifts(0xF);
    ShrZero(i);
  }

  /** Bit j lies in the upper one of a pair of groups of n bits. */
  ghost predicate Upper(j: nat, n: nat) {
    if n == 1 then j % 2 == 1
    else if n == 2 then j / 2 % 2 == 1
    else if n == 4 then j / 4 % 2 == 1
    else j / 8 % 2 == 1
  }

  /** The masks of the round that swaps groups of n bits select alternate groups of 16 bits. */
  ghost predicate SwapMasks(hi: nat, lo: nat, n: nat) {
    && n in {1, 2, 4, 8}
    && (forall j: nat :: Set(hi, j) <==> j < 16 && Upper(j, n))
    && (forall j: nat :: Set(lo, j) <==> j < 16 && !Upper(j, n))
  }

  lemma MasksAlternate1()
    ensures SwapMasks(0xAAAA, 0x5555, 1)
  {
    forall j: nat
      ensures Set(0xAAAA, j) <==> j < 16 && Upper(j, 1)
      ensures Set(0x5555, j) <==> j < 16 && !Upper(j, 1)
    {
      if j < 16 {
        NibbleBits(j % 4);
        BitOfNibbles(0xA, 0xA, 0xA, 0xA, j / 4, j % 4);
        BitOfNibbles(0x5, 0x5, 0x5, 0x5, j / 4, j % 4);
      } else {
        NoHighBit(0xAAAA, j);
        NoHighBit(0x5555, j);
      }
    }
  }

  lemma MasksAlternate2()
    ensures SwapMasks(0xCCCC, 0x3333, 2)
  {
    forall j: nat
      ensures Set(0xCCCC, j) <==> j < 16 && Upper(j, 2)
      ensures Set(0x3333, j) <==> j < 16 && !Upper(j, 2)
    {
      if j < 16 {
        NibbleBits(j % 4);
        BitOfNibbles(0xC, 0xC, 0xC, 0xC, j / 4, j % 4);
        BitOfNibbles(0x3, 0x3, 0x3, 0x3, j / 4, j % 4);
      } else {
        NoHighBit(0xCCCC, j);
        NoHighBit(0x3333, j);
      }
    }
  }

  lemma MasksAlternate4()
    ensures SwapMasks(0xF0F0, 0x0F0F, 4)
  {
    forall j: nat
      ensures Set(0xF0F0, j) <==> j < 16 && Upper(j, 4)
      ensures Set(0x0F0F, j) <==> j < 16 && !Upper(j, 4)
    {
      if j < 16 {
        NibbleBits(j % 4);
        BitOfNibbles(0x0, 0xF, 0x0, 0xF, j / 4, j % 4);
        BitOfNibbles(0xF, 0x0, 0xF, 0x0, j / 4, j % 4);
      } else {
        NoHighBit(0xF0F0, j);
        NoHighBit(0x0F0F, j);
      }
    }
  }

  lemma MasksAlternate8()
    ensures SwapMasks(0xFF00, 0x00FF, 8)
  {
    forall j: nat
      ensures Set(0xFF00, j) <==> j < 16 && Upper(j, 8)
      ensures Set(0x00FF, j) <==> j < 16 && !Upper(j, 8)
    {
      if j < 16 {
        NibbleBits(j % 4);
        BitOfNibbles(0x0, 0x0, 0xF, 0xF, j / 4, j % 4);
        BitOfNibbles(0xF, 0xF, 0x0, 0x0, j / 4, j % 4);
      } else {
        NoHighBit(0xFF00, j);
        NoHighBit(0x00FF, j);
      }
    }
  }

  /** A value of at most 16 bits has no bit 16 or above. */
  lemma NoHighBit(v: nat, j: nat)
    requires v < 0x1_0000 && j >= 16
    ensures BitOf(v, j) == 0
  {
    PowerTable();
    ShrOfSmall(v, 0, 16);
    ShrShr(v, 16, j - 16);
    ShrZero(j - 16);
  }

  /** Where a round that swaps groups of n bits takes its bit j from. */
  function SwapIndex(j: nat, n: nat): nat {
    if n == 1 then (if j % 2 == 1 then j - 1 else j + 1)
    else if n == 2 then (if j / 2 % 2 == 1 then j - 2 else j + 2)
    else if n == 4 then (if j / 4 % 2 == 1 then j - 4 else j + 4)
    else if j / 8 % 2 == 1 then j - 8
    else j + 8
  }

  lemma RoundMovesBits(v: nat, hi: nat, lo: nat, n: nat, j: nat)
    requires SwapMasks(hi, lo, n)
    ensures Set(SwapRound(v, hi, lo, n), j) <==> j < 16 && Set(v, SwapIndex(j, n))
  {
    SetSwapRound(v, hi, lo, n, j);
    SwapTakesFrom(j, n);
    assert Set(hi, n + j) <==> n + j < 16 && Upper(n + j, n);
    if j >= n {
      assert Set(lo, j - n) <==> j - n < 16 && !Upper(j - n, n);
    }
  }

  lemma SwapTakesFrom(j: nat, n: nat)
    requires n in {1, 2, 4, 8}
    ensures if Upper(j, n) then j >= n && SwapIndex(j, n) == j - n && !Upper(j - n, n) && !Upper(n + j, n)
            else SwapIndex(j, n) == n + j && Upper(n + j, n) && (j >= n ==> Upper(j - n, n))
    ensures j < 16 <==> SwapIndex(j, n) < 16
  {
    if n == 1 {
    } else if n == 2 {
      SwapTakesFrom2(j);
    } else if n == 4 {
      SwapTakesFrom4(j);
    } else {
      SwapTakesFrom8(j);
    }
  }

  lemma SwapTakesFrom2(j: nat)
    ensures if Upper(j, 2) then j >= 2 && SwapIndex(j, 2) == j - 2 && !Upper(j - 2, 2) && !Upper(2 + j, 2)
            else SwapIndex(j, 2) == 2 + j && Upper(2 + j, 2) && (j >= 2 ==> Upper(j - 2, 2))
    ensures j < 16 <==> SwapIndex(j, 2) < 16
  {
    var q := j / 2;
    assert (2 + j) / 2 == q + 1;
    assert j >= 2 ==> (j - 2) / 2 == q - 1;
    assert j < 16 <==> q < 8;
  }

  lemma SwapTakesFrom4(j: nat)
    ensures if Upper(j, 4) then j >= 4 && SwapIndex(j, 4) == j - 4 && !Upper(j - 4, 4) && !Upper(4 + j, 4)
            else SwapIndex(j, 4) == 4 + j && Upper(4 + j, 4) && (j >= 4 ==> Upper(j - 4, 4))
    ensures j < 16 <==> SwapIndex(j, 4) < 16
  {
    var q := j / 4;
    assert (4 + j) / 4 == q + 1;
    assert j >= 4 ==> (j - 4) / 4 == q - 1;
    assert j < 16 <==> q < 4;
  }

  lemma SwapTakesFrom8(j: nat)
    ensures if Upper(j, 8) then j >= 8 && SwapIndex(j, 8) == j - 8 && !Upper(j - 8, 8) && !Upper(8 + j, 8)
            else SwapIndex(j, 8) == 8 + j && Upper(8 + j, 8) && (j >= 8 ==> Upper(j - 8, 8))
    ensures j < 16 <==> SwapIndex(j, 8) < 16
  {
    var q := j / 8;
    assert (8 + j) / 8 == q + 1;
    assert j >= 8 ==> (j - 8) / 8 == q - 1;
    assert j < 16 <==> q < 2;
  }

  /** The four exchanges together send position j to 15 - j. */
  lemma FourSwaps(j: nat)
    requires j < 16
    ensures SwapIndex(SwapIndex(SwapIndex(SwapIndex(j, 8), 4), 2), 1) == 15 - j
  {
    var a, b, c, d := j / 8, j / 4 % 2, j / 2 % 2, j % 2;
    assert j == 8 * a + 4 * b + 2 * c + d;
    Swap8(a, 4 * b + 2 * c + d);
    Swap4(1 - a, b, 2 * c + d);
    Swap2(2 * (1 - a) + (1 - b), c, d);
    Swap1(4 * (1 - a) + 2 * (1 - b) + (1 - c), d);
  }

  lemma Swap8(a: nat, r: nat)
    requires a < 2 && r < 8
    ensures SwapIndex(8 * a + r, 8) == 8 * (1 - a) + r
  {
    assert (8 * a + r) / 8 == a;
  }

  lemma Swap4(q: nat, b: nat, r: nat)
    requires b < 2 && r < 4
    ensures SwapIndex(8 * q + 4 * b + r, 4) == 8 * q + 4 * (1 - b) + r
  {
    assert (8 * q + 4 * b + r) / 4 == 2 * q + b;
  }

  lemma Swap2(q: nat, c: nat, r: nat)
    requires c < 2 && r < 2
    ensures SwapIndex(4 * q + 2 * c + r, 2) == 4 * q + 2 * (1 - c) + r
  {
    assert (4 * q + 2 * c + r) / 2 == 2 * q + c;
  }

  lemma Swap1(q: nat, d: nat)
    requires d < 2
    ensures SwapIndex(2 * q + d, 1) == 2 * q + (1 - d)
  {
  }

  lemma RoundsReverse(v: nat, j: nat)
    ensures Set(BitReverse16(v), j) <==> j < 16 && Set(v, 15 - j)
  {
    MasksAlternate1();
    MasksAlternate2();
    MasksAlternate4();
    MasksAlternate8();
    var v1 := SwapRound(v, 0xAAAA, 0x5555, 1);
    var v2 := SwapRound(v1, 0xCCCC, 0x3333, 2);
    var v3 := SwapRound(v2, 0xF0F0, 0x0F0F, 4);
    var j3 := SwapIndex(j, 8);
    var j2 := SwapIndex(j3, 4);
    var j1 := SwapIndex(j2, 2);
    RoundMovesBits(v3, 0xFF00, 0x00FF, 8, j);
    RoundMovesBits(v2, 0xF0F0, 0x0F0F, 4, j3);
    RoundMovesBits(v1, 0xCCCC, 0x3333, 2, j2);
    RoundMovesBits(v, 0xAAAA, 0x5555, 1, j1);
    if j < 16 {
      SwapTakesFrom(j, 8);
      SwapTakesFrom(j3, 4);
      SwapTakesFrom(j2, 2);
      FourSwaps(j);
    }
  }

  /** The four mask-and-swap rounds reverse the low 16 bits. */
  lemma BitReverse16Correct(v: nat)
    ensures BitReverse16(v) == Rev(v, 16)
  {
    forall j: nat ensures Set(BitReverse16(v), j) <==> j < 16 && Set(v, 15 - j) {
      RoundsReverse(v, j);
    }
    RevFromBits(BitReverse16(v), v);
  }

  lemma RevFromBits(r: nat, v: nat)
    requires forall j: nat :: Set(r, j) <==> j < 16 && Set(v, 15 - j)
    ensures r == Rev(v, 16)
  {
    forall j: nat | j >= 16 ensures BitOf(r, j) == 0 {
      assert !Set(r, j);
    }
    NoBitsAbove(r, 16);
    RevBelow(v, 16);
    LowSmall(Rev(v, 16), 16);
    forall j: nat | j < 16 ensures BitOf(r, j) == BitOf(Rev(v, 16), j) {
      BitOfRev(v, 16, j);
      assert Set(r, j) <==> Set(v, 15 - j);
    }
    LowByBits(r, Rev(v, 16), 16);
  }

  lemma {:induction false} NoBitsAbove(v: nat, n: nat)
    requires forall j: nat | j >= n :: BitOf(v, j) == 0
    ensures Low(v, n) == v
  {
    if n != 0 || v != 0 {
      assert n == 0 ==> BitOf(v, 0) == 0;
      var m := if n == 0 then 0 else n - 1;
      forall j: nat | j >= m ensures BitOf(v / 2, j) == 0 {
        assert BitOf(v, j + 1) == 0;
      }
      NoBitsAbove(v / 2, m);
    }
  }

  /** `_ssfn__bit_reverse` reverses its value within the given number of bits. */
  lemma BitReverseCorrect(v: nat, bits: nat)
    requires bits <= 16 && v < Pow2(bits)
    ensures BitReverse(v, bits) == Rev(v, bits)
  {
    BitReverse16Correct(v);
    RevBelow(v, 16);
    RevBelow(v, bits);
    LowSmall(Rev(v, bits), bits);
    ShlShl(1, bits, 16 - bits);
    ShrOfSmall(Rev(v, 16), bits, 16 - bits);
    LowSmall(Shr(Rev(v, 16), 16 - bits), bits);
    forall j: nat | j < bits ensures BitOf(Shr(Rev(v, 16), 16 - bits), j) == BitOf(Rev(v, bits), j) {
      ShrShr(Rev(v, 16), 16 - bits, j);
      BitOfRev(v, 16, 16 - bits + j);
      BitOfRev(v, bits, j);
    }
    LowByBits(Shr(Rev(v, 16), 16 - bits), Rev(v, bits), bits);
  }
}
