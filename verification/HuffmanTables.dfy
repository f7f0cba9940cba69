/** The Huffman decoding tables (`_ssfn__zhuffman`, kernel/source/ssfn.h:466-474) and their
  * construction (`_ssfn__zbuild_huffman`, lines 490-534). */
module HuffmanTables {
  import opened Bits
  import opened Canonical

  type Word = w: nat | w < 0x1_0000

  /** The entry of the fast table for window w once the first n symbols are entered. */
  ghost predicate FastEntry(L: seq<nat>, n: nat, w: nat, e: nat) {
    || (e == 0 && forall i: nat | i < n :: !FastHit(L, i, w))
    || exists i: nat | i < n :: FastHit(L, i, w) && e == 512 * L[i] + i
  }

  class Huffman {
    const fast: array<Word>         // 512 entries: length * 512 + symbol, or 0
    const firstcode: array<Word>    // 16 entries, by code length
    const maxcode: array<nat>       // 17 entries, by code length, left-aligned to 16 bits
    const firstsymbol: array<Word>  // 16 entries, by code length
    const size: array<Byte>         // 288 entries, by position
    const value: array<Word>        // 288 entries, by position
    ghost predicate Valid() {
      && fast.Length == 512 && firstcode.Length == 16 && maxcode.Length == 17
      && firstsymbol.Length == 16 && size.Length == 288 && value.Length == 288
      && fast != firstcode && fast != firstsymbol && fast != value
      && firstcode != firstsymbol && firstcode != value && firstsymbol != value
      && (maxcode as object) !in {fast as object, firstcode, firstsymbol, size, value}
      && (size as object) !in {fast as object, firstcode, firstsymbol, maxcode, value}
    }

    ghost function Repr(): set<object> {
      {fast as object, firstcode, maxcode, firstsymbol, size, value}
    }

    constructor ()
      ensures Valid() && fresh(Repr())
    {
      fast := new Word[512];
      firstcode := new Word[16];
      maxcode := new nat[17];
      firstsymbol := new Word[16];
      size := new Byte[288];
      value := new Word[288];
    }

    /** The per-length columns describe the code of L. */
    ghost predicate Columns(L: seq<nat>)
      requires Valid()
      reads firstcode, firstsymbol, maxcode
    {
      ColumnsBelow(L, 16) && maxcode[16] == 0x1_0000
    }

    ghost predicate ColumnsBelow(L: seq<nat>, n: nat)
      requires Valid() && n <= 16
      reads firstcode, firstsymbol, maxcode
    {
      && (forall s: nat | 1 <= s < n :: firstcode[s] == First(L, s))
      && (forall s: nat | 1 <= s < n :: firstsymbol[s] == FirstSymbol(L, s))
      && (forall s: nat | 1 <= s < n :: maxcode[s] == Bound(L, s))
    }

    /** The first n symbols are entered in the symbol table. */
    ghost predicate Symbols(L: seq<nat>, n: nat)
      requires Valid() && Lengths(L) && n <= |L|
      reads size, value
    {
      forall i: nat | i < n && L[i] > 0 ::
        Position(L, i) < 288 && value[Position(L, i)] == i && size[Position(L, i)] == L[i]
    }

    /** The first n symbols are entered in the fast table. */
    ghost predicate Fast(L: seq<nat>, n: nat)
      requires Valid()
      reads fast
    {
      forall w: nat | w < 512 :: FastEntry(L, n, w, fast[w])
    }

    /** All tables describe the code of L. */
    ghost predicate Built(L: seq<nat>)
      requires Valid()
      reads Repr()
    {
      Lengths(L) && Kraft(L) && Columns(L) && Symbols(L, |L|) && Fast(L, |L|)
    }

    /** Builds the tables for a list of code lengths; fails iff the list breaks the Kraft
      * inequality. */
    method Build(L: seq<nat>) returns (ok: bool)
      requires Valid() && Lengths(L)
      modifies Repr()
      ensures ok <==> Kraft(L)
      ensures ok ==> Built(L)
    {
      forall w | 0 <= w < 512 {
        fast[w] := 0;
      }
      var sizes := CountLengths(L);
      var i := 1;
      while i < 16
        invariant 1 <= i <= 16
      {
        if sizes[i] > Pow2(i) {
          KraftAtEveryLength(L, i);
          return false;
        }
        i := i + 1;
      }
      var nextCode := new nat[16];
      ok := AssignCodes(L, sizes, nextCode);
      if !ok {
        return false;
      }
      maxcode[16] := 0x1_0000;
      assert Columns(L);
      assert Fast(L, 0);
      EnterSymbols(L, nextCode);
    }

    /** The first loop: the number of codes of each length. */
    method CountLengths(L: seq<nat>) returns (sizes: array<nat>)
      requires Lengths(L)
      ensures fresh(sizes) && sizes.Length == 17
      ensures forall s: nat | s < 17 :: sizes[s] == Total(L, s)
    {
      sizes := new nat[17](_ => 0);
      var i := 0;
      while i < |L|
        invariant 0 <= i <= |L|
        invariant forall s: nat | s < 17 :: sizes[s] == Count(L, i, s)
      {
        sizes[L[i]] := sizes[L[i]] + 1;
        i := i + 1;
      }
      sizes[0] := 0;
    }

    /** The second loop: the first code, first symbol and code limit of each length. */
    method AssignCodes(L: seq<nat>, sizes: array<nat>, nextCode: array<nat>) returns (ok: bool)
      requires Valid() && Lengths(L)
      requires sizes.Length == 17 && nextCode.Length == 16 && sizes != nextCode
      requires (sizes as object) !in Repr() && (nextCode as object) !in Repr()
      requires forall s: nat | s < 17 :: sizes[s] == Total(L, s)
      modifies firstcode, firstsymbol, maxcode, nextCode
      ensures ok <==> Kraft(L)
      ensures ok ==> ColumnsBelow(L, 16)
      ensures ok ==> forall s: nat | 1 <= s < 16 :: nextCode[s] == First(L, s)
    {
      var code, k := 0, 0;
      var i := 1;
      while i < 16
        invariant 1 <= i <= 16
        invariant code == First(L, i) && k == FirstSymbol(L, i)
        invariant code <= Pow2(i)
        invariant ColumnsBelow(L, i)
        invariant forall s: nat | 1 <= s < i :: nextCode[s] == First(L, s)
      {
        nextCode[i] := code;
        if sizes[i] > 0 && code + sizes[i] - 1 >= Pow2(i) {
          KraftAtEveryLength(L, i);
          return false;
        }
        code, k := AssignLength(L, i, sizes[i], code, k);
        i := i + 1;
      }
      assert First(L, 16) == 2 * Limit(L, 15);
      assert Pow2(16) == 2 * Pow2(15);
      KraftAtEveryLength(L, 15);
      return true;
    }

    /** One length of the second loop. */
    method AssignLength(ghost L: seq<nat>, i: nat, n: nat, code: nat, k: nat) returns (code': nat, k': nat)
      requires Valid() && Lengths(L) && 1 <= i < 16
      requires n == Total(L, i) && code == First(L, i) && k == FirstSymbol(L, i) && code <= Pow2(i)
      requires code + n <= Pow2(i) && ColumnsBelow(L, i)
      modifies firstcode, firstsymbol, maxcode
      ensures code' == First(L, i + 1) <= Pow2(i + 1) && k' == FirstSymbol(L, i + 1)
      ensures ColumnsBelow(L, i + 1)
    {
      NextLength(L, i);
      firstcode[i] := code % 0x1_0000;
      firstsymbol[i] := k % 0x1_0000;
      maxcode[i] := Shl(code + n, 16 - i);
      code', k' := 2 * (code + n), k + n;
    }

    /** The last loop: enters every coded symbol in the symbol table and the fast table. */
    method EnterSymbols(L: seq<nat>, nextCode: array<nat>)
      requires Valid() && Lengths(L) && Kraft(L) && Columns(L) && Fast(L, 0)
      requires nextCode.Length == 16 && (nextCode as object) !in Repr()
      requires forall s: nat | 1 <= s < 16 :: nextCode[s] == First(L, s)
      modifies fast, size, value, nextCode
      ensures Columns(L) && Symbols(L, |L|) && Fast(L, |L|)
    {
      var i := 0;
      while i < |L|
        invariant 0 <= i <= |L|
        invariant Columns(L) && Symbols(L, i) && Fast(L, i)
        invariant forall s: nat | 1 <= s < 16 :: nextCode[s] == First(L, s) + Count(L, i, s)
      {
        var s := L[i];
        if s > 0 {
          EnterSymbol(L, i, nextCode[s] - firstcode[s] + firstsymbol[s]);
          EnterFast(L, i, s, nextCode[s]);
          nextCode[s] := nextCode[s] + 1;
        } else {
          KeepFast(L, i);
        }
        i := i + 1;
      }
    }

    method EnterFast(ghost L: seq<nat>, i: nat, s: nat, code: nat)
      requires Valid() && Lengths(L) && Kraft(L) && i < |L| && 1 <= s == L[i]
      requires code == Code(L, i) && Fast(L, i)
      modifies fast
      ensures Fast(L, i + 1)
    {
      FastValue(s, i);
      var fastv := Or(Shl(s, 9), i) % 0x1_0000;
      if s <= FAST_BITS {
        CodeFits(L, i);
        BitReverseCorrect(code, s);
        FillSlots(L, i, s, fastv, BitReverse(code, s));
      } else {
        KeepFast(L, i);
      }
    }

    method EnterSymbol(L: seq<nat>, i: nat, c: nat)
      requires Valid() && Lengths(L) && i < |L| && L[i] > 0
      requires c == Position(L, i) && Symbols(L, i)
      modifies size, value
      ensures Symbols(L, i + 1)
    {
      PositionRange(L, i);
      forall j: nat | j < i && L[j] > 0 ensures Position(L, j) != c {
        if Position(L, j) == c {
          PositionInjective(L, i, j);
        }
      }
      size[c] := L[i];
      value[c] := i;
    }

    /** The innermost loop: every slot whose low s bits are the reversed code. */
    method FillSlots(ghost L: seq<nat>, ghost i: nat, s: nat, fastv: Word, start: nat)
      requires Valid() && Lengths(L) && Kraft(L) && i < |L| && 1 <= s == L[i] <= FAST_BITS
      requires fastv == 512 * s + i && start == Rev(Code(L, i), s)
      requires Fast(L, i)
      modifies fast
      ensures Fast(L, i + 1)
    {
      RevBelow(Code(L, i), s);
      LowSmall(start, s);
      var j := start;
      forall w: nat | w < j ensures !FastHit(L, i, w) {
        if FastHit(L, i, w) {
          LowGap(w, start, s);
        }
      }
      while j < 512
        invariant Low(j, s) == start
        invariant forall w: nat | w < 512 && w < j :: FastEntry(L, i + 1, w, fast[w])
        invariant forall w: nat | j <= w < 512 :: FastEntry(L, i, w, fast[w])
      {
        assert FastHit(L, i, j);
        assert fast[j] == 0 by {
          SlotStillEmpty(L, i, j, fast[j]);
        }
        fast[j] := fastv;
        LowStride(j, s);
        forall w: nat | j < w < j + Pow2(s) ensures !FastHit(L, i, w) {
          if FastHit(L, i, w) {
            LowGap(j, w, s);
          }
        }
        ShlMonotone(0, 1, s);
        ShlZero(s);
        j := j + Pow2(s);
      }
    }

    /** A symbol without a short code leaves the fast table as it is. */
    lemma KeepFast(L: seq<nat>, i: nat)
      requires Valid() && Fast(L, i) && i < |L| && !(1 <= L[i] <= FAST_BITS)
      ensures Fast(L, i + 1)
    {
      forall w: nat | w < 512 ensures FastEntry(L, i + 1, w, fast[w]) {
        assert FastEntry(L, i, w, fast[w]);
        assert !FastHit(L, i, w);
      }
    }
  }

  /** Two symbols never fill the same slot. */
  lemma SlotStillEmpty(L: seq<nat>, i: nat, w: nat, e: nat)
    requires Lengths(L) && Kraft(L) && w < 512 && FastEntry(L, i, w, e) && FastHit(L, i, w)
    ensures e == 0
  {
    if e != 0 {
      var j: nat :| j < i && FastHit(L, j, w) && e == 512 * L[j] + j;
      FastHitUnique(L, i, j, w);
    }
  }

  /** What the second loop computes at length i, and that it fits the table's words. */
  lemma NextLength(L: seq<nat>, i: nat)
    requires Lengths(L) && 1 <= i < 16 && First(L, i) <= Pow2(i)
    ensures First(L, i) < 0x1_0000 && FirstSymbol(L, i) < 0x1_0000
    ensures Shl(First(L, i) + Total(L, i), 16 - i) == Bound(L, i)
    ensures 2 * (First(L, i) + Total(L, i)) == First(L, i + 1) && Pow2(i + 1) == 2 * Pow2(i)
    ensures FirstSymbol(L, i) + Total(L, i) == FirstSymbol(L, i + 1)
  {
    PowMonotone(i, 15);
    PowerTable();
    FirstSymbolMonotone(L, i, 16);
    FirstSymbolCounts(L, 16);
  }

  /** The fast table is exact: a slot holds the one symbol whose reversed code its low bits
    * show, and is empty iff there is none. */
  lemma FastTableExact(L: seq<nat>, w: nat, e: nat, i: nat)
    requires Lengths(L) && Kraft(L) && w < 512 && FastEntry(L, |L|, w, e)
    ensures FastHit(L, i, w) ==> e == 512 * L[i] + i
    ensures e == 0 <==> forall j: nat :: !FastHit(L, j, w)
  {
    if e != 0 {
      var j: nat :| j < |L| && FastHit(L, j, w) && e == 512 * L[j] + j;
      if FastHit(L, i, w) {
        FastHitUnique(L, i, j, w);
      }
    }
  }

  lemma FastValue(s: nat, i: nat)
    requires i < 512 && s < 16
    ensures Or(Shl(s, 9), i) % 0x1_0000 == 512 * s + i
  {
    assert Or(Shl(s, 9), i) == 512 * s + i by {
      FastOr(s, i);
    }
    SmallMod(512 * s + i, 0x1_0000);
  }

  lemma FastOr(s: nat, i: nat)
    requires i < 512
    ensures Or(Shl(s, 9), i) == 512 * s + i
  {
    assert Shl(s, 9) == 512 * s by {
      ShlTable(s);
    }
    assert Pow2(9) == 512 by {
      PowerTable();
    }
    OrComm(Shl(s, 9), i);
    OrDisjoint(i, s, 9);
  }
}
