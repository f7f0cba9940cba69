/** Canonical Huffman codes, as section 3.2.2 of RFC 1951 defines them from a list of code
  * lengths alone.  Symbol i has a code iff L[i] > 0; codes are compared with the most
  * significant bit first, so a 16-bit window k of the stream begins with the code of
  * symbol i iff the top L[i] bits of k are that code.
  */
module Canonical {
  import opened Bits

  const MAX_BITS := 15

  ghost predicate Short(lens: seq<nat>) {
    forall i | 0 <= i < |lens| :: lens[i] <= MAX_BITS
  }

  ghost predicate Lengths(L: seq<nat>) {
    |L| <= 288 && Short(L)
  }

  /** How many of the first n symbols have length s. */
  function Count(L: seq<nat>, n: nat, s: nat): (c: nat)
    requires n <= |L|
    ensures c <= n
  {
    if n == 0 then 0 else Count(L, n - 1, s) + (if L[n - 1] == s then 1 else 0)
  }

  /** How many symbols have a code of length s. */
  function Total(L: seq<nat>, s: nat): nat {
    if s == 0 then 0 else Count(L, |L|, s)
  }

  /** The smallest code of length s: step 2 of section 3.2.2. */
  function First(L: seq<nat>, s: nat): nat
    decreases s, 0
  {
    if s == 0 then 0 else 2 * Limit(L, s - 1)
  }

  /** One more than the largest code of length s. */
  function Limit(L: seq<nat>, s: nat): nat
    decreases s, 1
  {
    First(L, s) + Total(L, s)
  }

  /** The code of symbol i: step 3 of section 3.2.2. */
  function Code(L: seq<nat>, i: nat): nat
    requires i < |L|
  {
    First(L, L[i]) + Count(L, i, L[i])
  }

  /** The sum of 2^-L[i] over the coded symbols, scaled by 2^15. */
  function KraftSum(L: seq<nat>): nat {
    if |L| == 0 then 0
    else KraftSum(L[..|L| - 1]) + Weight(L[|L| - 1])
  }

  function Weight(l: nat): nat {
    if 1 <= l <= MAX_BITS then Pow2(MAX_BITS - l) else 0
  }

  /** The Kraft inequality: the lengths can be those of a prefix code. */
  predicate Kraft(L: seq<nat>) {
    KraftSum(L) <= Pow2(MAX_BITS)
  }

  // ---------- the Kraft sum counts codes ----------

  /** Limit restricted to the first n symbols. */
  function PartLimit(L: seq<nat>, n: nat, s: nat): nat
    requires n <= |L|
  {
    if s == 0 then 0 else 2 * PartLimit(L, n, s - 1) + Count(L, n, s)
  }

  lemma {:induction false} PartLimitAll(L: seq<nat>, s: nat)
    ensures PartLimit(L, |L|, s) == Limit(L, s)
  {
    if s != 0 {
      PartLimitAll(L, s - 1);
    }
  }

  lemma {:induction false} PartLimitStep(L: seq<nat>, n: nat, s: nat)
    requires n < |L|
    ensures PartLimit(L, n + 1, s) == PartLimit(L, n, s) + if 1 <= L[n] <= s then Pow2(s - L[n]) else 0
  {
    if s != 0 {
      PartLimitStep(L, n, s - 1);
    }
  }

  lemma {:induction false} PartLimitZero(L: seq<nat>, s: nat)
    ensures PartLimit(L, 0, s) == 0
  {
    if s != 0 {
      PartLimitZero(L, s - 1);
    }
  }

  lemma {:induction false} KraftSumCounts(L: seq<nat>, n: nat)
    requires Lengths(L) && n <= |L|
    ensures KraftSum(L[..n]) == PartLimit(L, n, MAX_BITS)
  {
    if n == 0 {
      PartLimitZero(L, MAX_BITS);
    } else {
      KraftSumCounts(L, n - 1);
      PartLimitStep(L, n - 1, MAX_BITS);
      assert L[..n][..n - 1] == L[..n - 1];
    }
  }

  /** The Kraft sum is the number of 15-bit strings taken up by the codes. */
  lemma KraftIsLimit(L: seq<nat>)
    requires Lengths(L)
    ensures KraftSum(L) == Limit(L, MAX_BITS)
  {
    KraftSumCounts(L, |L|);
    PartLimitAll(L, MAX_BITS);
    assert L[..|L|] == L;
  }

  /** Limits at least double from one length to the next. */
  lemma {:induction false} LimitGrows(L: seq<nat>, s: nat, t: nat)
    requires s <= t
    ensures Shl(Limit(L, s), t - s) <= Limit(L, t)
    decreases t - s
  {
    if s < t {
      LimitGrows(L, s, t - 1);
    }
  }

  /** The Kraft inequality holds iff at every length the codes fit in that many bits. */
  lemma KraftAtEveryLength(L: seq<nat>, s: nat)
    requires Lengths(L) && s <= MAX_BITS
    ensures Kraft(L) ==> Limit(L, s) <= Pow2(s)
    ensures Limit(L, MAX_BITS) <= Pow2(MAX_BITS) ==> Kraft(L)
  {
    KraftIsLimit(L);
    LimitGrows(L, s, MAX_BITS);
    ShlShl(1, s, MAX_BITS - s);
    ShlMonotone(Pow2(s), Limit(L, s), MAX_BITS - s);
  }

  // ---------- counting ----------

  lemma {:induction false} CountMonotone(L: seq<nat>, m: nat, n: nat, s: nat)
    requires m <= n <= |L|
    ensures Count(L, m, s) <= Count(L, n, s)
    decreases n
  {
    if m < n {
      CountMonotone(L, m, n - 1, s);
    }
  }

  /** The rank of a coded symbol among those of its length is below their number. */
  lemma RankBelow(L: seq<nat>, i: nat)
    requires i < |L| && L[i] > 0
    ensures Count(L, i, L[i]) < Total(L, L[i])
  {
    CountMonotone(L, i + 1, |L|, L[i]);
  }

  lemma RankStrict(L: seq<nat>, i: nat, j: nat)
    requires i < j < |L| && L[i] == L[j]
    ensures Count(L, i, L[i]) < Count(L, j, L[j])
  {
    CountMonotone(L, i + 1, j, L[i]);
  }

  /** The symbol with a given rank among those of length s. */
  lemma {:induction false} NthOfLength(L: seq<nat>, n: nat, s: nat, r: nat) returns (i: nat)
    requires n <= |L| && r < Count(L, n, s)
    ensures i < n && L[i] == s && Count(L, i, s) == r
  {
    if L[n - 1] == s && Count(L, n - 1, s) == r {
      i := n - 1;
    } else {
      i := NthOfLength(L, n - 1, s, r);
    }
  }

  // ---------- windows ----------

  /** The 16-bit window k begins with the code of symbol i. */
  ghost predicate Match(L: seq<nat>, i: nat, k: nat) {
    i < |L| && 1 <= L[i] <= 16 && Shr(k, 16 - L[i]) == Code(L, i)
  }

  /** The first 16-bit window above every code of length at most s. */
  function Bound(L: seq<nat>, s: nat): nat
    requires s <= 16
  {
    Shl(Limit(L, s), 16 - s)
  }

  lemma BoundStep(L: seq<nat>, s: nat)
    requires 1 <= s <= 16
    ensures Bound(L, s - 1) == Shl(First(L, s), 16 - s)
    ensures Bound(L, s - 1) <= Bound(L, s)
  {
    ShlDouble(Limit(L, s - 1), 16 - s);
    ShlMonotone(Limit(L, s), First(L, s), 16 - s);
  }

  lemma {:induction false} BoundMonotone(L: seq<nat>, s: nat, t: nat)
    requires s <= t <= 16
    ensures Bound(L, s) <= Bound(L, t)
    decreases t
  {
    if s < t {
      BoundMonotone(L, s, t - 1);
      BoundStep(L, t);
    }
  }

  /** A window begins with a code of length s iff it lies between two bounds. */
  lemma MatchBetweenBounds(L: seq<nat>, i: nat, k: nat)
    requires Match(L, i, k)
    ensures Bound(L, L[i] - 1) <= k < Bound(L, L[i])
  {
    var s := L[i];
    RankBelow(L, i);
    BoundStep(L, s);
    ShrBelow(k, Limit(L, s), 16 - s);
    ShrBelow(k, First(L, s), 16 - s);
  }

  lemma BoundsGiveMatch(L: seq<nat>, s: nat, k: nat) returns (i: nat)
    requires 1 <= s <= 16 && Bound(L, s - 1) <= k < Bound(L, s)
    ensures First(L, s) <= Shr(k, 16 - s) < Limit(L, s)
    ensures Match(L, i, k) && L[i] == s && Count(L, i, s) == Shr(k, 16 - s) - First(L, s)
  {
    BoundStep(L, s);
    ShrBelow(k, Limit(L, s), 16 - s);
    ShrBelow(k, First(L, s), 16 - s);
    i := NthOfLength(L, |L|, s, Shr(k, 16 - s) - First(L, s));
  }

  /** No window begins with two different codes: the code is prefix-free. */
  lemma MatchUnique(L: seq<nat>, i: nat, j: nat, k: nat)
    requires Match(L, i, k) && Match(L, j, k)
    ensures i == j
  {
    MatchBetweenBounds(L, i, k);
    MatchBetweenBounds(L, j, k);
    if L[i] < L[j] {
      BoundMonotone(L, L[i], L[j] - 1);
    } else if L[j] < L[i] {
      BoundMonotone(L, L[j], L[i] - 1);
    } else if i < j {
      RankStrict(L, i, j);
    } else if j < i {
      RankStrict(L, j, i);
    }
  }

  /** Codes of a list that satisfies the Kraft inequality fit in their lengths. */
  lemma CodeFits(L: seq<nat>, i: nat)
    requires Lengths(L) && Kraft(L) && i < |L| && L[i] > 0
    ensures Code(L, i) < Pow2(L[i])
  {
    RankBelow(L, i);
    KraftAtEveryLength(L, L[i]);
  }

  /** Prefix-freedom stated on the codes themselves: the longer of two different codes does
    * not begin with the shorter one. */
  lemma PrefixFree(L: seq<nat>, i: nat, j: nat)
    requires Lengths(L) && Kraft(L)
    requires i < |L| && j < |L| && 1 <= L[i] <= L[j] && i != j
    ensures Shr(Code(L, j), L[j] - L[i]) != Code(L, i)
  {
    if Shr(Code(L, j), L[j] - L[i]) == Code(L, i) {
      var k := Shl(Code(L, j), 16 - L[j]);
      ShrOfShl(Code(L, j), 16 - L[j]);
      ShrShr(k, 16 - L[j], L[j] - L[i]);
      assert Match(L, i, k) && Match(L, j, k);
      MatchUnique(L, i, j, k);
    }
  }

  lemma {:induction false} ShrOfShl(v: nat, n: nat)
    ensures Shr(Shl(v, n), n) == v
  {
    if n != 0 {
      ShrOfShl(v, n - 1);
    }
  }

  // ---------- positions in the symbol table ----------

  /** How many symbols have a code shorter than s. */
  function FirstSymbol(L: seq<nat>, s: nat): nat {
    if s == 0 then 0 else FirstSymbol(L, s - 1) + Total(L, s - 1)
  }

  /** The place of symbol i when coded symbols are ordered by code length, then by symbol. */
  function Position(L: seq<nat>, i: nat): nat
    requires i < |L|
  {
    FirstSymbol(L, L[i]) + Count(L, i, L[i])
  }

  function CountShorter(L: seq<nat>, n: nat, s: nat): (c: nat)
    requires n <= |L|
    ensures c <= n
  {
    if n == 0 then 0 else CountShorter(L, n - 1, s) + (if 1 <= L[n - 1] < s then 1 else 0)
  }

  lemma {:induction false} CountShorterStep(L: seq<nat>, n: nat, s: nat)
    requires n <= |L|
    ensures CountShorter(L, n, s + 1) == CountShorter(L, n, s) + if s == 0 then 0 else Count(L, n, s)
  {
    if n != 0 {
      CountShorterStep(L, n - 1, s);
    }
  }

  lemma {:induction false} FirstSymbolCounts(L: seq<nat>, s: nat)
    ensures FirstSymbol(L, s) == CountShorter(L, |L|, s)
  {
    if s == 0 {
      CountShorterZero(L, |L|);
    } else {
      FirstSymbolCounts(L, s - 1);
      CountShorterStep(L, |L|, s - 1);
    }
  }

  lemma {:induction false} CountShorterZero(L: seq<nat>, n: nat)
    requires n <= |L|
    ensures CountShorter(L, n, 0) == 0
  {
    if n != 0 {
      CountShorterZero(L, n - 1);
    }
  }

  lemma {:induction false} FirstSymbolMonotone(L: seq<nat>, s: nat, t: nat)
    requires s <= t
    ensures FirstSymbol(L, s) <= FirstSymbol(L, t)
    decreases t
  {
    if s < t {
      FirstSymbolMonotone(L, s, t - 1);
    }
  }

  lemma PositionRange(L: seq<nat>, i: nat)
    requires Lengths(L) && i < |L| && L[i] > 0
    ensures FirstSymbol(L, L[i]) <= Position(L, i) < FirstSymbol(L, L[i] + 1)
    ensures Position(L, i) < FirstSymbol(L, 16) <= |L|
  {
    RankBelow(L, i);
    FirstSymbolMonotone(L, L[i] + 1, 16);
    FirstSymbolCounts(L, 16);
  }

  lemma PositionInjective(L: seq<nat>, i: nat, j: nat)
    requires Lengths(L) && i < |L| && j < |L| && L[i] > 0 && L[j] > 0 && Position(L, i) == Position(L, j)
    ensures i == j
  {
    PositionRange(L, i);
    PositionRange(L, j);
    if L[i] < L[j] {
      FirstSymbolMonotone(L, L[i] + 1, L[j]);
    } else if L[j] < L[i] {
      FirstSymbolMonotone(L, L[j] + 1, L[i]);
    } else if i < j {
      RankStrict(L, i, j);
    } else if j < i {
      RankStrict(L, j, i);
    }
  }

  /** Every place below the number of coded symbols is taken: with PositionInjective, the
    * places are a bijection between the coded symbols and [0, FirstSymbol(L, 16)). */
  lemma {:induction false} PositionSurjective(L: seq<nat>, c: nat, s: nat) returns (i: nat)
    requires c < FirstSymbol(L, s)
    ensures i < |L| && 1 <= L[i] < s && Position(L, i) == c
  {
    if c < FirstSymbol(L, s - 1) {
      i := PositionSurjective(L, c, s - 1);
    } else {
      i := NthOfLength(L, |L|, s - 1, c - FirstSymbol(L, s - 1));
    }
  }

  // ---------- the fast table ----------

  const FAST_BITS := 9

  /** The 9-bit window w (first bit least significant) begins with the code of symbol i. */
  ghost predicate FastHit(L: seq<nat>, i: nat, w: nat) {
    i < |L| && 1 <= L[i] <= FAST_BITS && Low(w, L[i]) == Rev(Code(L, i), L[i])
  }

  /** A fast hit on the low bits is a match on the reversed 16-bit window. */
  lemma FastHitIsMatch(L: seq<nat>, i: nat, v: nat)
    requires Lengths(L) && Kraft(L) && i < |L| && 1 <= L[i] <= FAST_BITS
    ensures FastHit(L, i, Low(v, 9)) <==> Match(L, i, Rev(v, 16))
  {
    var s := L[i];
    CodeFits(L, i);
    LowLow(v, 9, s);
    RevMatches(v, Code(L, i), s);
    ShrRev(v, s, 16);
  }

  /** The slots filled for two different symbols are disjoint. */
  lemma FastHitUnique(L: seq<nat>, i: nat, j: nat, w: nat)
    requires Lengths(L) && Kraft(L) && w < 512 && FastHit(L, i, w) && FastHit(L, j, w)
    ensures i == j
  {
    PowerTable();
    LowSmall(w, 9);
    FastHitIsMatch(L, i, w);
    FastHitIsMatch(L, j, w);
    MatchUnique(L, i, j, Rev(w, 16));
  }
}
