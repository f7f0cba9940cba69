/** The numbers of RFC 1951, as the decompressor of kernel/source/ssfn.h has them, stated without the
  * names that the reading of a stream gives them. */
module Numbers {
  import opened Bits
  import opened Canonical
  import opened Rfc1951
  import opened MatchTables
  import opened Output
  import opened Encoding

  // ---------- the code length code (section 3.2.7) ----------

  /** Field j of n three-bit fields at p, and 0 for those that are not there. */
  function FieldOf(s: seq<Byte>, p: nat, n: nat, j: nat): nat {
    if j < n then Value(s, p + 3 * j, 3) else 0
  }

  lemma {:induction false} FieldsByOrder(s: seq<Byte>, p: nat, n: nat)
    requires n <= 19
    ensures forall j | 0 <= j < 19 :: CodeLengthSizes(s, p, n)[CODE_LENGTH_ORDER[j]] == FieldOf(s, p, n, j)
  {
    hide Value;
    if n > 0 {
      FieldsByOrder(s, p, n - 1);
    }
  }

  /** The fields are the lengths of the symbols 16, 17, 18, 0, 8, 7, 9, 6, 10, 5, 11, 4, 12, 3, 13, 2,
    * 14, 1 and 15, in this order. */
  lemma FieldsLand(s: seq<Byte>, p: nat, n: nat)
    requires n <= 19
    ensures var C := CodeLengthSizes(s, p, n);
            && C[16] == FieldOf(s, p, n, 0) && C[17] == FieldOf(s, p, n, 1) && C[18] == FieldOf(s, p, n, 2)
            && C[0] == FieldOf(s, p, n, 3)
            && (forall k | 0 <= k <= 7 :: C[8 + k] == FieldOf(s, p, n, 4 + 2 * k))
            && (forall k | 0 <= k <= 6 :: C[7 - k] == FieldOf(s, p, n, 5 + 2 * k))
  {
    hide CodeLengthSizes, FieldOf;
    FieldsByOrder(s, p, n);
    var C := CodeLengthSizes(s, p, n);
    forall j | 0 <= j < 19 ensures C[CODE_LENGTH_ORDER[j]] == FieldOf(s, p, n, j) {}
    assert CODE_LENGTH_ORDER[0] == 16 && CODE_LENGTH_ORDER[1] == 17 && CODE_LENGTH_ORDER[2] == 18 &&
      CODE_LENGTH_ORDER[3] == 0;
    forall k | 0 <= k <= 7 ensures C[8 + k] == FieldOf(s, p, n, 4 + 2 * k) {
      assert CODE_LENGTH_ORDER[4 + 2 * k] == 8 + k;
    }
    forall k | 0 <= k <= 6 ensures C[7 - k] == FieldOf(s, p, n, 5 + 2 * k) {
      assert CODE_LENGTH_ORDER[5 + 2 * k] == 7 - k;
    }
  }

  /** Symbols up to 15 are lengths; 16 repeats the last length 3 to 6 times; 17 stands for 3 to 10
    * zeros and 18 for 11 to 138. */
  lemma RunsStandFor(s: seq<Byte>, p: nat, C: seq<nat>, total: nat, lens: seq<nat>, c: nat)
    requires |C| == 19 && Lengths(C) && |lens| < total && Short(lens) && SymbolAt(C, s, p) == Symbol(c)
    ensures c < 19
    ensures c < 16 ==> ReadLengths(s, p, C, total, lens) == ReadLengths(s, p + C[c], C, total, lens + [c])
    ensures c == 16 && |lens| == 0 && p + C[c] + 2 <= 8 * |s| ==> ReadLengths(s, p, C, total, lens) == LengthsBad
    ensures c == 16 && |lens| > 0 && p + C[c] + 2 <= 8 * |s| ==>
              var n := 3 + Value(s, p + C[c], 2);
              ReadLengths(s, p, C, total, lens) == if |lens| + n > total then LengthsBad
                else ReadLengths(s, p + C[c] + 2, C, total, lens + Repeat(lens[|lens| - 1], n))
    ensures c == 17 && p + C[c] + 3 <= 8 * |s| ==>
              var n := 3 + Value(s, p + C[c], 3);
              ReadLengths(s, p, C, total, lens) == if |lens| + n > total then LengthsBad
                else ReadLengths(s, p + C[c] + 3, C, total, lens + Repeat(0, n))
    ensures c == 18 && p + C[c] + 7 <= 8 * |s| ==>
              var n := 11 + Value(s, p + C[c], 7);
              ReadLengths(s, p, C, total, lens) == if |lens| + n > total then LengthsBad
                else ReadLengths(s, p + C[c] + 7, C, total, lens + Repeat(0, n))
  {
    hide SymbolAt, Value, ReadLengths, ReadRun;
    AtLength(s, p, C, total, lens);
    var p1 := p + C[c];
    if c >= 16 && p1 + RunBits(c) <= 8 * |s| && !(c == 16 && |lens| == 0) {
      AtRun(s, p1 + RunBits(c), C, total, lens, RunOf(c, lens), RunBase(c) + Value(s, p1, RunBits(c)));
    }
  }

  // ---------- the fixed codes (section 3.2.6) ----------

  lemma {:induction false} CountRun(L: seq<nat>, m: nat, n: nat, s: nat, l: nat)
    requires m <= n <= |L| && forall i | m <= i < n :: L[i] == l
    ensures Count(L, n, s) == Count(L, m, s) + if s == l then n - m else 0
    decreases n
  {
    if m < n {
      CountRun(L, m, n - 1, s, l);
    }
  }

  /** How many of the first n literal/length symbols have s bits. */
  lemma FixedCount(n: nat, s: nat)
    requires n <= 288
    ensures Count(FixedLengths(), n, s) ==
            (if s != 8 then 0 else (if n <= 144 then n else 144) + (if n <= 280 then 0 else n - 280))
            + (if s != 9 || n <= 144 then 0 else if n <= 256 then n - 144 else 112)
            + (if s != 7 || n <= 256 then 0 else if n <= 280 then n - 256 else 24)
  {
    var L := FixedLengths();
    hide Count;
    CountNone(L, s);
    CountRun(L, 0, if n <= 144 then n else 144, s, 8);
    if n > 144 {
      CountRun(L, 144, if n <= 256 then n else 256, s, 9);
    }
    if n > 256 {
      CountRun(L, 256, if n <= 280 then n else 280, s, 7);
    }
    if n > 280 {
      CountRun(L, 280, n, s, 8);
    }
  }

  lemma CountNone(L: seq<nat>, s: nat)
    ensures Count(L, 0, s) == 0
  {
  }

  /** The smallest fixed code of each length. */
  lemma FixedFirsts()
    ensures First(FixedLengths(), 7) == 0 && First(FixedLengths(), 8) == 48 && First(FixedLengths(), 9) == 400
  {
    hide Count, FixedLengths;
    var L := FixedLengths();
    assert |L| == 288 by {
      FixedSize();
    }
    NoCodesBelow(L, 7);
    FixedCount(288, 7);
    FixedCount(288, 8);
    assert Limit(L, 7) == 24 && First(L, 8) == 48;
    assert Limit(L, 8) == 200;
  }

  lemma FixedSize()
    ensures |FixedLengths()| == 288
  {
  }

  lemma {:induction false} NoCodesBelow(L: seq<nat>, s: nat)
    requires L == FixedLengths() && s <= 7
    ensures First(L, s) == 0
  {
    hide Count;
    if s > 0 {
      NoCodesBelow(L, s - 1);
      FixedCount(288, s - 1);
    }
  }

  /** The literal/length codes of section 3.2.6: 00110000 to 10111111 for 0 to 143, 110010000 to
    * 111111111 for 144 to 255, 0000000 to 0010111 for 256 to 279, 11000000 to 11000111 for 280 to
    * 287.  They use up all bit strings. */
  lemma FixedLiteralCodes(i: nat)
    requires i < 288
    ensures FixedLengths()[i] == (if i < 144 then 8 else if i < 256 then 9 else if i < 280 then 7 else 8)
    ensures Code(FixedLengths(), i) ==
            if i < 144 then 48 + i else if i < 256 then 400 + (i - 144) else if i < 280 then i - 256 else
              192 + (i - 280)
    ensures KraftSum(FixedLengths()) == 32768
  {
    FixedFirsts();
    FixedCount(i, FixedLengths()[i]);
    hide Count, First;
    FixedSums();
  }

  /** The distance codes are the 32 strings of five bits, in order. */
  lemma FixedDistanceCodes(i: nat)
    requires i < 32
    ensures FixedDistances()[i] == 5 && Code(FixedDistances(), i) == i && KraftSum(FixedDistances()) == 32768
  {
    var D := FixedDistances();
    FixedSums();
    CountNone(D, 5);
    CountRun(D, 0, i, 5, 5);
    NoDistanceBelow(D, 5);
    hide Count, First;
  }

  lemma {:induction false} NoDistanceBelow(D: seq<nat>, s: nat)
    requires D == FixedDistances() && s <= 5
    ensures First(D, s) == 0
  {
    hide Count;
    if s > 0 {
      NoDistanceBelow(D, s - 1);
      CountNone(D, s - 1);
      CountRun(D, 0, 32, s - 1, 5);
    }
  }

  lemma FixedSums()
    ensures KraftSum(FixedLengths()) == 32768 && KraftSum(FixedDistances()) == 32768
  {
    hide Shl;
    var L, D := FixedLengths(), FixedDistances();
    PowersOfWeights();
    KraftRun(L, 0, 144, 8);
    KraftRun(L, 144, 256, 9);
    KraftRun(L, 256, 280, 7);
    KraftRun(L, 280, 288, 8);
    KraftRun(D, 0, 32, 5);
    assert L[..288] == L && D[..32] == D && L[..0] == [] && D[..0] == [];
  }

  // ---------- canonical codes (section 3.2.2) ----------

  /** Codes of one length are consecutive, in the order of their symbols. */
  lemma {:induction false} CodesConsecutive(L: seq<nat>, i: nat, j: nat)
    requires i < j < |L| && L[i] == L[j] > 0 && forall k | i < k < j :: L[k] != L[i]
    ensures Code(L, j) == Code(L, i) + 1
  {
    CountGap(L, i + 1, j, L[i]);
  }

  lemma {:induction false} CountGap(L: seq<nat>, m: nat, n: nat, s: nat)
    requires m <= n <= |L| && forall k | m <= k < n :: L[k] != s
    ensures Count(L, n, s) == Count(L, m, s)
    decreases n
  {
    if m < n {
      CountGap(L, m, n - 1, s);
    }
  }

  /** Shorter codes precede longer ones: a longer code lies behind every string of its length that
    * begins with the shorter one. */
  lemma ShorterPrecede(L: seq<nat>, i: nat, j: nat)
    requires i < |L| && j < |L| && 0 < L[i] < L[j]
    ensures Shl(Code(L, i) + 1, L[j] - L[i]) <= Code(L, j)
  {
    RankBelow(L, i);
    LimitGrows(L, L[i], L[j] - 1);
    var n := L[j] - 1 - L[i];
    ShlOrdered(Code(L, i) + 1, Limit(L, L[i]), n);
  }

  lemma ShlOrdered(a: nat, b: nat, n: nat)
    requires a <= b
    ensures Shl(a, n) <= Shl(b, n)
  {
    if a < b {
      ShlMonotone(a, b, n);
    }
  }

  /** The first code of the smallest length is zero. */
  lemma {:induction false} FirstIsZero(L: seq<nat>, s: nat)
    requires forall i | 0 <= i < |L| :: L[i] == 0 || L[i] >= s
    ensures First(L, s) == 0
  {
    if s > 0 {
      FirstIsZero(L, s - 1);
      if s > 1 {
        CountNone(L, s - 1);
        CountGap(L, 0, |L|, s - 1);
      }
    }
  }

  // ---------- the font header ----------

  /** The declared size is the number that bytes 4 to 7 write, least significant first. */
  lemma DeclaredIsWritten(b: seq<Byte>, v: nat)
    requires |b| >= 8 && v < 0x1_0000_0000
    requires b[4] == v % 256 && b[5] == v / 256 % 256 && b[6] == v / 65536 % 256 && b[7] == v / 16777216
    ensures Declared(b) == v
  {
    var v1, v2 := v / 256, v / 65536;
    Divided(v, 256, 256);
    Divided(v, 65536, 256);
    assert v == 256 * v1 + v % 256;
    assert v1 == 256 * v2 + v1 % 256;
    assert v2 == 256 * (v / 16777216) + v2 % 256;
  }

  lemma Divided(v: nat, a: nat, b: nat)
    requires (a == 256 || a == 65536) && b == 256
    ensures v / a / b == v / (a * b)
  {
  }

  /** A font header begins with the letters S, F and N. */
  lemma MagicLetters(b: seq<Byte>)
    requires |b| >= 8
    ensures FontMagic(b) <==> b[..3] == [83, 70, 78]
  {
  }

  // ---------- blocks (section 3.2.3) ----------

  /** A block of kind 0 is stored, one of kind 1 has the fixed codes, one of kind 2 its own; there is
    * no kind 3.  The block is the last one iff the bit before its kind is set. */
  lemma BlockKinds(s: seq<Byte>, p: nat, o: Sink)
    requires p + 3 <= 8 * |s|
    ensures var kind, last := Value(s, p + 1, 2), Value(s, p, 1) == 1;
            var r := if kind == 0 then StoredBlock(s, p + 3, o)
                     else if kind == 1 then HuffmanBlock(s, p + 3, o, FixedLengths(), FixedDistances())
                     else if kind == 2 then DynamicBlock(s, p + 3, o)
                     else Bad(o);
            kind <= 3 && Blocks(s, p, o) == if r.Done? && !last then Blocks(s, r.p, r.out) else r
  {
    hide Value, StoredBlock, HuffmanBlock, DynamicBlock, Blocks;
    AtBlock(s, p, o);
    FixedCodes();
    ValueBelow(s, p, 1);
    ShlTable(1);
  }

  // ---------- lengths and distances (section 3.2.5) ----------

  /** Code 257 + c stands for lengths from the base on, and has so many extra bits. */
  lemma LengthNumbers(c: nat)
    requires c <= 28
    ensures LengthExtra(c) == if c < 4 || c == 28 then 0 else c / 4 - 1
    ensures LengthBase(c) ==
            if c < 4 then 3 + c else if c == 28 then 258 else 3 + Shl(4 + c % 4, c / 4 - 1)
  {
    hide LengthBase, Shl;
    LengthTable(c);
    if c == 28 {
      LastLength();
    } else if c < 4 {
      FirstLengths(c);
    } else {
      LengthClosedForm(c / 4, c % 4);
    }
  }

  lemma DistanceNumbers(c: nat)
    requires c <= 29
    ensures DistExtra(c) == if c < 2 then 0 else c / 2 - 1
    ensures DistBase(c) == if c < 2 then 1 + c else 1 + Shl(2 + c % 2, c / 2 - 1)
  {
    if c >= 2 {
      hide Shl;
      DistClosedForm(c / 2, c % 2);
    } else {
      assert DistBase(0) == 1 && Pow2(0) == 1;
    }
  }
}
