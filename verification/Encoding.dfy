/** Well-formed DEFLATE data written out: what an encoder may produce under section 3.2 of
  * RFC 1951, block by block, and the proof that the reading of Rfc1951 gives every such
  * stream back its meaning.
  *
  * The encoder is as free as the format is.  It picks the blocks, the code lengths, the run
  * lengths they are sent with, and, for a match, any length code, distance code and extra bits.
  */
module Encoding {
  import opened Bits
  import opened Canonical
  import opened MatchTables
  import opened Rfc1951

  // ---------- bit strings ----------

  type Bit01 = b: nat | b < 2

  /** The string `bits` stands in the data at bit position p. */
  ghost predicate At(s: seq<Byte>, p: nat, bits: seq<Bit01>) {
    p + |bits| <= 8 * |s| && forall k: nat | k < |bits| :: Bit(s, p + k) == bits[k]
  }

  function CodeBits(c: nat, n: nat): (r: seq<Bit01>)
    ensures |r| == n
  {
    if n == 0 then [] else CodeBits(c / 2, n - 1) + [c % 2]
  }

  function FieldBits(v: nat, n: nat): (r: seq<Bit01>)
    ensures |r| == n
  {
    if n == 0 then [] else [v % 2] + FieldBits(v / 2, n - 1)
  }

  lemma AtSplit(s: seq<Byte>, p: nat, a: seq<Bit01>, b: seq<Bit01>)
    requires At(s, p, a + b)
    ensures At(s, p, a) && At(s, p + |a|, b)
  {
    forall k: nat | k < |a| ensures Bit(s, p + k) == a[k] {
      assert (a + b)[k] == a[k];
    }
    forall k: nat | k < |b| ensures Bit(s, p + |a| + k) == b[k] {
      assert (a + b)[|a| + k] == b[k];
    }
  }

  lemma {:induction false} CodeIsRead(s: seq<Byte>, p: nat, c: nat, n: nat)
    requires c < Pow2(n) && At(s, p, CodeBits(c, n))
    ensures Msb(s, p, n) == c
  {
    if n != 0 {
      AtSplit(s, p, CodeBits(c / 2, n - 1), [c % 2]);
      CodeIsRead(s, p, c / 2, n - 1);
      assert [c % 2][0] == c % 2;
      assert Bit(s, p + (n - 1) + 0) == c % 2;
    }
  }

  lemma {:induction false} FieldIsRead(s: seq<Byte>, p: nat, v: nat, n: nat)
    requires v < Pow2(n) && At(s, p, FieldBits(v, n))
    ensures Value(s, p, n) == v
    decreases n
  {
    if n != 0 {
      AtSplit(s, p, [v % 2], FieldBits(v / 2, n - 1));
      FieldIsRead(s, p + 1, v / 2, n - 1);
      assert [v % 2][0] == v % 2;
      assert Bit(s, p + 0) == v % 2;
    }
  }

  // ---------- symbols ----------

  ghost predicate HasCode(L: seq<nat>, i: nat) {
    i < |L| && L[i] > 0
  }

  function SymbolBits(L: seq<nat>, i: nat): seq<Bit01>
    requires i < |L|
  {
    CodeBits(Code(L, i), L[i])
  }

  lemma SymbolIsRead(L: seq<nat>, i: nat, s: seq<Byte>, p: nat)
    requires Lengths(L) && Kraft(L) && HasCode(L, i) && At(s, p, SymbolBits(L, i))
    ensures SymbolAt(L, s, p) == Symbol(i)
  {
    CodeFits(L, i);
    CodeIsRead(s, p, Code(L, i), L[i]);
    assert Coded(L, i, s, p);
    CodedUnique(L, i, SymbolAt(L, s, p).sym, s, p);
  }

  // ---------- compressed data ----------

  /** A literal byte, or a match given by its two codes and the values of their extra bits. */
  datatype Item = Literal(b: Byte) | Match(lc: nat, le: nat, dc: nat, de: nat)

  function MatchLength(i: Item): nat
    requires i.Match?
  {
    LengthBase(i.lc) + i.le
  }

  function MatchDistance(i: Item): nat
    requires i.Match?
  {
    DistBase(i.dc) + i.de
  }

  ghost predicate Encodable(i: Item, L: seq<nat>, D: seq<nat>) {
    match i
    case Literal(b) => HasCode(L, b)
    case Match(lc, le, dc, de) =>
      && lc <= 28 && dc <= 29 && HasCode(L, 257 + lc) && HasCode(D, dc)
      && le < Pow2(LengthExtra(lc)) && de < Pow2(DistExtra(dc))
  }

  function ItemBits(i: Item, L: seq<nat>, D: seq<nat>): seq<Bit01>
    requires if i.Literal? then i.b < |L| else 257 + i.lc < |L| && i.dc < |D|
  {
    match i
    case Literal(b) => SymbolBits(L, b)
    case Match(lc, le, dc, de) =>
      SymbolBits(L, 257 + lc) + (FieldBits(le, LengthExtra(lc)) + (SymbolBits(D, dc) + FieldBits(de, DistExtra(dc))))
  }

  /** A match reaches back into the output so far. */
  ghost predicate Playable(i: Item, o: Sink) {
    i.Match? ==> 1 <= MatchDistance(i) <= |o.bytes|
  }

  /** The output after one more item (section 3.2.3). */
  ghost function Play(i: Item, o: Sink): Sink
    requires Playable(i, o)
  {
    match i
    case Literal(b) => Grow(o, o.bytes + [b])
    case Match(_, _, _, _) => Grow(o, CopyMatch(o.bytes, MatchLength(i), MatchDistance(i)))
  }

  ghost predicate AllPlayable(items: seq<Item>, o: Sink) {
    |items| == 0 || (Playable(items[0], o) && AllPlayable(items[1..], Play(items[0], o)))
  }

  ghost function PlayAll(items: seq<Item>, o: Sink): Sink
    requires AllPlayable(items, o)
  {
    if |items| == 0 then o else PlayAll(items[1..], Play(items[0], o))
  }

  ghost predicate AllEncodable(items: seq<Item>, L: seq<nat>, D: seq<nat>) {
    HasCode(L, 256) && forall k | 0 <= k < |items| :: Encodable(items[k], L, D)
  }

  /** The items, and the end of the block. */
  ghost function ItemsBits(items: seq<Item>, L: seq<nat>, D: seq<nat>): seq<Bit01>
    requires AllEncodable(items, L, D)
  {
    if |items| == 0 then SymbolBits(L, 256) else ItemBits(items[0], L, D) + ItemsBits(items[1..], L, D)
  }

  ghost predicate Codes(L: seq<nat>, D: seq<nat>) {
    Lengths(L) && Lengths(D) && Kraft(L) && Kraft(D)
  }

  lemma LengthIsRead(lc: nat, le: nat, L: seq<nat>, D: seq<nat>, s: seq<Byte>, p: nat, o: Sink)
    requires Codes(L, D) && lc <= 28 && HasCode(L, 257 + lc) && le < Pow2(LengthExtra(lc))
    requires At(s, p, SymbolBits(L, 257 + lc)) && At(s, p + L[257 + lc], FieldBits(le, LengthExtra(lc)))
    ensures p + L[257 + lc] + LengthExtra(lc) <= 8 * |s|
    ensures HuffmanBlock(s, p, o, L, D)
         == MatchOf(s, p + L[257 + lc] + LengthExtra(lc), o, L, D, LengthBase(lc) + le)
  {
    hide SymbolAt, HuffmanBlock, MatchOf, Value, LengthBase, LengthExtra, Shl, At, FieldBits, SymbolBits, Kraft,
         Lengths;
    SymbolIsRead(L, 257 + lc, s, p);
    FieldIsRead(s, p + L[257 + lc], le, LengthExtra(lc));
    AtEnd(s, p + L[257 + lc], FieldBits(le, LengthExtra(lc)));
    AtSymbol(s, p, o, L, D);
  }

  lemma DistanceIsRead(i: Item, L: seq<nat>, D: seq<nat>, s: seq<Byte>, p: nat, o: Sink)
    requires Codes(L, D) && i.Match? && Playable(i, o) && i.dc <= 29 && HasCode(D, i.dc) && i.de < Pow2(DistExtra(i.dc))
    requires At(s, p, SymbolBits(D, i.dc)) && At(s, p + D[i.dc], FieldBits(i.de, DistExtra(i.dc)))
    ensures p + D[i.dc] + DistExtra(i.dc) <= 8 * |s|
    ensures MatchOf(s, p, o, L, D, MatchLength(i)) == HuffmanBlock(s, p + D[i.dc] + DistExtra(i.dc), Play(i, o), L, D)
  {
    hide SymbolAt, HuffmanBlock, MatchOf, Value, CopyMatch, LengthBase, DistBase, DistExtra, Shl, At, FieldBits,
         SymbolBits;
    hide Kraft, Lengths, Grow;
    SymbolIsRead(D, i.dc, s, p);
    FieldIsRead(s, p + D[i.dc], i.de, DistExtra(i.dc));
    AtEnd(s, p + D[i.dc], FieldBits(i.de, DistExtra(i.dc)));
    AtDistance(s, p, o, L, D, MatchLength(i));
  }

  lemma MatchIsRead(i: Item, L: seq<nat>, D: seq<nat>, s: seq<Byte>, p: nat, o: Sink)
    requires Codes(L, D) && i.Match? && Encodable(i, L, D) && Playable(i, o) && At(s, p, ItemBits(i, L, D))
    ensures HuffmanBlock(s, p, o, L, D) == HuffmanBlock(s, p + |ItemBits(i, L, D)|, Play(i, o), L, D)
  {
    hide HuffmanBlock, MatchOf, LengthBase, LengthExtra, DistBase, DistExtra, Shl, At, FieldBits, SymbolBits, Kraft,
         Lengths;
    hide Play, Playable;
    var c1, f1 := SymbolBits(L, 257 + i.lc), FieldBits(i.le, LengthExtra(i.lc));
    var c2, f2 := SymbolBits(D, i.dc), FieldBits(i.de, DistExtra(i.dc));
    assert ItemBits(i, L, D) == c1 + (f1 + (c2 + f2));
    hide ItemBits;
    SymbolWidth(L, 257 + i.lc);
    SymbolWidth(D, i.dc);
    AtSplit(s, p, c1, f1 + (c2 + f2));
    AtSplit(s, p + |c1|, f1, c2 + f2);
    AtSplit(s, p + |c1| + |f1|, c2, f2);
    assert |ItemBits(i, L, D)| == |c1| + |f1| + |c2| + |f2|;
    LengthIsRead(i.lc, i.le, L, D, s, p, o);
    DistanceIsRead(i, L, D, s, p + |c1| + |f1|, o);
  }

  lemma AtEnd(s: seq<Byte>, p: nat, bits: seq<Bit01>)
    requires At(s, p, bits)
    ensures p + |bits| <= 8 * |s|
  {
  }

  lemma SymbolWidth(L: seq<nat>, i: nat)
    requires i < |L|
    ensures |SymbolBits(L, i)| == L[i]
  {
  }

  lemma LiteralIsRead(b: Byte, L: seq<nat>, D: seq<nat>, s: seq<Byte>, p: nat, o: Sink)
    requires Codes(L, D) && HasCode(L, b) && At(s, p, SymbolBits(L, b))
    ensures HuffmanBlock(s, p, o, L, D) == HuffmanBlock(s, p + L[b], Grow(o, o.bytes + [b]), L, D)
  {
    hide SymbolAt, HuffmanBlock;
    SymbolIsRead(L, b, s, p);
    AtSymbol(s, p, o, L, D);
  }

  lemma EndIsRead(L: seq<nat>, D: seq<nat>, s: seq<Byte>, p: nat, o: Sink)
    requires Codes(L, D) && HasCode(L, 256) && At(s, p, SymbolBits(L, 256))
    ensures HuffmanBlock(s, p, o, L, D) == Done(p + L[256], o)
  {
    hide SymbolAt, HuffmanBlock;
    SymbolIsRead(L, 256, s, p);
    AtSymbol(s, p, o, L, D);
  }

  lemma ItemIsRead(i: Item, L: seq<nat>, D: seq<nat>, s: seq<Byte>, p: nat, o: Sink)
    requires Codes(L, D) && Encodable(i, L, D) && Playable(i, o) && At(s, p, ItemBits(i, L, D))
    ensures HuffmanBlock(s, p, o, L, D) == HuffmanBlock(s, p + |ItemBits(i, L, D)|, Play(i, o), L, D)
  {
    hide HuffmanBlock, At, SymbolBits;
    if i.Literal? {
      LiteralIsRead(i.b, L, D, s, p, o);
      SymbolWidth(L, i.b);
    } else {
      MatchIsRead(i, L, D, s, p, o);
    }
  }

  lemma AllEncodableTail(items: seq<Item>, L: seq<nat>, D: seq<nat>)
    requires AllEncodable(items, L, D) && |items| > 0
    ensures Encodable(items[0], L, D) && AllEncodable(items[1..], L, D)
  {
  }

  /** A compressed block is read back as what its items mean. */
  lemma {:induction false} ItemsAreRead(items: seq<Item>, L: seq<nat>, D: seq<nat>, s: seq<Byte>, p: nat, o: Sink)
    requires Codes(L, D) && AllEncodable(items, L, D) && AllPlayable(items, o)
    requires At(s, p, ItemsBits(items, L, D))
    ensures HuffmanBlock(s, p, o, L, D) == Done(p + |ItemsBits(items, L, D)|, PlayAll(items, o))
    decreases |items|
  {
    hide HuffmanBlock, At, ItemBits, SymbolBits, Play, Playable, Codes;
    if |items| == 0 {
      EndIsRead(L, D, s, p, o);
      SymbolWidth(L, 256);
    } else {
      var i := items[0];
      AllEncodableTail(items, L, D);
      AtSplit(s, p, ItemBits(i, L, D), ItemsBits(items[1..], L, D));
      ItemIsRead(i, L, D, s, p, o);
      ItemsAreRead(items[1..], L, D, s, p + |ItemBits(i, L, D)|, Play(i, o));
    }
  }

  lemma {:induction false} LengthHasCodeUpTo(len: nat, c: nat) returns (lc: nat, le: nat)
    requires c <= 27 && LengthBase(0) <= len < LengthBase(c) + Pow2(LengthExtra(c))
    ensures lc <= c && le < Pow2(LengthExtra(lc)) && LengthBase(lc) + le == len
  {
    if c == 0 || LengthBase(c) <= len {
      lc, le := c, len - LengthBase(c);
    } else {
      lc, le := LengthHasCodeUpTo(len, c - 1);
    }
  }

  lemma {:induction false} DistanceHasCodeUpTo(dist: nat, c: nat) returns (dc: nat, de: nat)
    requires 1 <= dist < DistBase(c) + Pow2(DistExtra(c))
    ensures dc <= c && de < Pow2(DistExtra(dc)) && DistBase(dc) + de == dist
  {
    if c == 0 || DistBase(c) <= dist {
      dc, de := c, dist - DistBase(c);
    } else {
      dc, de := DistanceHasCodeUpTo(dist, c - 1);
    }
  }

  /** Every match length from 3 to 258 has a length code and extra bits; 258 has its own. */
  lemma EveryLengthHasCode(len: nat) returns (lc: nat, le: nat)
    requires 3 <= len <= 258
    ensures lc <= 28 && le < Pow2(LengthExtra(lc)) && LengthBase(lc) + le == len
  {
    hide LengthBase, Shl;
    LengthTable(0);
    LengthTable(27);
    LengthTable(28);
    PowerTable();
    if len == 258 {
      lc, le := 28, 0;
      PowMonotone(0, 0);
    } else {
      lc, le := LengthHasCodeUpTo(len, 27);
    }
  }

  /** Every distance from 1 to 32768 has a distance code and extra bits. */
  lemma EveryDistanceHasCode(dist: nat) returns (dc: nat, de: nat)
    requires 1 <= dist <= 32768
    ensures dc <= 29 && de < Pow2(DistExtra(dc)) && DistBase(dc) + de == dist
  {
    hide DistBase, Shl;
    DistTable(29);
    ShlShl(1, 8, 5);
    ShlTable(256);
    PowerTable();
    dc, de := DistanceHasCodeUpTo(dist, 29);
  }

  // ---------- fixed codes ----------

  lemma FixedCodes()
    ensures Codes(FixedLengths(), FixedDistances())
    ensures forall i: nat | i < 288 :: HasCode(FixedLengths(), i)
    ensures forall i: nat | i < 32 :: HasCode(FixedDistances(), i)
  {
    hide Shl;
    var L, D := FixedLengths(), FixedDistances();
    PowerTable();
    PowersOfWeights();
    KraftRun(L, 0, 144, 8);
    KraftRun(L, 144, 256, 9);
    KraftRun(L, 256, 280, 7);
    KraftRun(L, 280, 288, 8);
    KraftRun(D, 0, 32, 5);
    assert L[..288] == L && D[..32] == D && L[..0] == [] && D[..0] == [];
  }

  lemma PowersOfWeights()
    ensures Pow2(7) == 128 && Pow2(6) == 64 && Pow2(8) == 256 && Pow2(10) == 1024
  {
    ShlTable(1);
    assert Pow2(10) == 2 * Pow2(9);
  }

  /** A run of equal lengths adds equal weights. */
  lemma {:induction false} KraftRun(L: seq<nat>, m: nat, n: nat, l: nat)
    requires m <= n <= |L| && 1 <= l <= MAX_BITS && forall i | m <= i < n :: L[i] == l
    ensures KraftSum(L[..n]) == KraftSum(L[..m]) + (n - m) * Pow2(MAX_BITS - l)
    decreases n
  {
    if m < n {
      KraftRun(L, m, n - 1, l);
      assert L[..n][..n - 1] == L[..n - 1];
      assert (n - m) * Pow2(MAX_BITS - l) == (n - 1 - m) * Pow2(MAX_BITS - l) + Pow2(MAX_BITS - l);
    }
  }

  // ---------- dynamic codes ----------

  /** What a code length symbol is sent for: one length, or a run given by its symbol (16, 17
    * or 18) and the value of its extra bits. */
  datatype LengthOp = OneLength(l: nat) | Run(c: nat, e: nat)

  ghost predicate OpFits(op: LengthOp, C: seq<nat>, total: nat, lens: seq<nat>) {
    && |lens| < total
    && match op
       case OneLength(l) => l < 16 && HasCode(C, l)
       case Run(c, e) =>
         && 16 <= c <= 18 && HasCode(C, c) && e < Pow2(RunBits(c))
         && (c == 16 ==> |lens| > 0) && |lens| + RunBase(c) + e <= total
  }

  function OpBits(op: LengthOp, C: seq<nat>): seq<Bit01>
    requires if op.OneLength? then op.l < |C| else op.c < |C|
  {
    match op
    case OneLength(l) => SymbolBits(C, l)
    case Run(c, e) => SymbolBits(C, c) + FieldBits(e, RunBits(c))
  }

  function ApplyOp(op: LengthOp, lens: seq<nat>): seq<nat>
    requires op.Run? && op.c == 16 ==> |lens| > 0
  {
    match op
    case OneLength(l) => lens + [l]
    case Run(c, e) => lens + Repeat(RunOf(c, lens), RunBase(c) + e)
  }

  /** The operations build exactly `total` lengths. */
  ghost predicate OpsFit(ops: seq<LengthOp>, C: seq<nat>, total: nat, lens: seq<nat>) {
    if |ops| == 0 then |lens| == total
    else OpFits(ops[0], C, total, lens) && OpsFit(ops[1..], C, total, ApplyOp(ops[0], lens))
  }

  ghost function ApplyAll(ops: seq<LengthOp>, C: seq<nat>, total: nat, lens: seq<nat>): seq<nat>
    requires OpsFit(ops, C, total, lens)
  {
    if |ops| == 0 then lens else ApplyAll(ops[1..], C, total, ApplyOp(ops[0], lens))
  }

  ghost function OpsBits(ops: seq<LengthOp>, C: seq<nat>, total: nat, lens: seq<nat>): seq<Bit01>
    requires OpsFit(ops, C, total, lens)
  {
    if |ops| == 0 then [] else OpBits(ops[0], C) + OpsBits(ops[1..], C, total, ApplyOp(ops[0], lens))
  }

  lemma ApplyOpShort(op: LengthOp, C: seq<nat>, total: nat, lens: seq<nat>)
    requires OpFits(op, C, total, lens) && Short(lens)
    ensures Short(ApplyOp(op, lens)) && |lens| < |ApplyOp(op, lens)| <= total
  {
  }

  lemma OpIsRead(op: LengthOp, C: seq<nat>, total: nat, lens: seq<nat>, s: seq<Byte>, p: nat)
    requires |C| == 19 && Lengths(C) && Kraft(C) && OpFits(op, C, total, lens) && Short(lens)
    requires At(s, p, OpBits(op, C))
    ensures |ApplyOp(op, lens)| <= total && Short(ApplyOp(op, lens))
    ensures ReadLengths(s, p, C, total, lens) == ReadLengths(s, p + |OpBits(op, C)|, C, total, ApplyOp(op, lens))
  {
    hide SymbolAt, Value, Shl, ReadLengths, ReadRun, At, SymbolBits, FieldBits, Kraft;
    ApplyOpShort(op, C, total, lens);
    AtLength(s, p, C, total, lens);
    match op
    case OneLength(l) =>
      SymbolIsRead(C, l, s, p);
      SymbolWidth(C, l);
    case Run(c, e) =>
      AtSplit(s, p, SymbolBits(C, c), FieldBits(e, RunBits(c)));
      SymbolIsRead(C, c, s, p);
      SymbolWidth(C, c);
      FieldIsRead(s, p + C[c], e, RunBits(c));
      AtEnd(s, p + C[c], FieldBits(e, RunBits(c)));
      AtRun(s, p + C[c] + RunBits(c), C, total, lens, RunOf(c, lens), RunBase(c) + e);
  }

  lemma NothingToRead(C: seq<nat>, total: nat, lens: seq<nat>, s: seq<Byte>, p: nat)
    requires |C| == 19 && Short(lens) && |lens| <= total
    ensures |lens| == total ==> ReadLengths(s, p, C, total, lens) == LengthsRead(p, lens)
  {
  }

  lemma {:induction false} OpsAreRead(ops: seq<LengthOp>, C: seq<nat>, total: nat, lens: seq<nat>, s: seq<Byte>, p: nat)
    requires |C| == 19 && Lengths(C) && Kraft(C) && OpsFit(ops, C, total, lens) && Short(lens)
    requires At(s, p, OpsBits(ops, C, total, lens)) && |lens| <= total
    ensures ReadLengths(s, p, C, total, lens)
         == LengthsRead(p + |OpsBits(ops, C, total, lens)|, ApplyAll(ops, C, total, lens))
    decreases |ops|
  {
    hide SymbolAt, At, OpBits, ApplyOp, Kraft, ReadLengths, ReadRun, HasCode, Lengths;
    assert |ops| == 0 ==> ReadLengths(s, p, C, total, lens) == LengthsRead(p, lens) by {
      NothingToRead(C, total, lens, s, p);
    }
    if |ops| > 0 {
      AtSplit(s, p, OpBits(ops[0], C), OpsBits(ops[1..], C, total, ApplyOp(ops[0], lens)));
      OpIsRead(ops[0], C, total, lens, s, p);
      OpsAreRead(ops[1..], C, total, ApplyOp(ops[0], lens), s, p + |OpBits(ops[0], C)|);
    }
  }

  /** The lengths of the code length code that the fields `f` of a header stand for. */
  function CodeLengthCode(f: seq<nat>): (C: seq<nat>)
    requires |f| <= 19
    ensures |C| == 19
  {
    if |f| == 0 then seq(19, _ => 0)
    else CodeLengthCode(f[..|f| - 1])[CODE_LENGTH_ORDER[|f| - 1] := f[|f| - 1]]
  }

  function FieldsBits(f: seq<nat>): (r: seq<Bit01>)
    ensures |r| == 3 * |f|
  {
    if |f| == 0 then [] else FieldsBits(f[..|f| - 1]) + FieldBits(f[|f| - 1], 3)
  }

  lemma {:induction false} FieldsAreRead(f: seq<nat>, s: seq<Byte>, p: nat)
    requires |f| <= 19 && (forall i | 0 <= i < |f| :: f[i] < 8) && At(s, p, FieldsBits(f))
    ensures CodeLengthSizes(s, p, |f|) == CodeLengthCode(f)
    decreases |f|
  {
    hide At, Value, FieldBits, Shl;
    if |f| > 0 {
      var g := f[..|f| - 1];
      AtSplit(s, p, FieldsBits(g), FieldBits(f[|f| - 1], 3));
      FieldsAreRead(g, s, p);
      PowerTable();
      FieldIsRead(s, p + 3 * |g|, f[|f| - 1], 3);
    }
  }

  /** The header of a dynamic block: code length fields, operations, and where the distance
    * lengths begin. */
  datatype Header = Header(fields: seq<nat>, ops: seq<LengthOp>, hlit: nat, hdist: nat)

  ghost predicate HeaderFits(h: Header) {
    && 4 <= |h.fields| <= 19 && (forall i | 0 <= i < |h.fields| :: h.fields[i] < 8)
    && 257 <= h.hlit <= 288 && 1 <= h.hdist <= 32
    && Kraft(CodeLengthCode(h.fields))
    && OpsFit(h.ops, CodeLengthCode(h.fields), h.hlit + h.hdist, [])
  }

  ghost function HeaderLengths(h: Header): seq<nat>
    requires HeaderFits(h)
  {
    ApplyAll(h.ops, CodeLengthCode(h.fields), h.hlit + h.hdist, [])
  }

  // ---------- every pair of codes has a header ----------

  /** One operation per length. */
  function Singles(lens: seq<nat>): seq<LengthOp> {
    seq(|lens|, i requires 0 <= i < |lens| => OneLength(lens[i]))
  }

  /** Nineteen code length codes of five bits each. */
  lemma {:induction false} FivesInOrder(n: nat)
    requires n <= 19
    ensures forall j | 0 <= j < n :: CodeLengthCode(Repeat(5, n))[CODE_LENGTH_ORDER[j]] == 5
  {
    if n > 0 {
      FivesInOrder(n - 1);
      assert Repeat(5, n)[..n - 1] == Repeat(5, n - 1);
    }
  }

  lemma AllFive()
    ensures CodeLengthCode(Repeat(5, 19)) == Repeat(5, 19) && Kraft(Repeat(5, 19))
  {
    hide CodeLengthCode, Shl;
    var C := CodeLengthCode(Repeat(5, 19));
    FivesInOrder(19);
    forall x | 0 <= x < 19 ensures C[x] == 5 {
      assert CODE_LENGTH_ORDER[[3, 17, 15, 13, 11, 9, 7, 5, 4, 6, 8, 10, 12, 14, 16, 18, 0, 1, 2][x]] == x;
    }
    KraftRun(C, 0, 19, 5);
    assert C[..19] == C && C[..0] == [];
    PowersOfWeights();
    PowerTable();
  }

  lemma {:induction false} SinglesFit(rest: seq<nat>, C: seq<nat>, total: nat, done: seq<nat>)
    requires |done| + |rest| == total && forall i | 0 <= i < |rest| :: rest[i] < 16 && HasCode(C, rest[i])
    ensures OpsFit(Singles(rest), C, total, done) && ApplyAll(Singles(rest), C, total, done) == done + rest
    decreases |rest|
  {
    if |rest| == 0 {
      assert done + rest == done;
    } else {
      SinglesFit(rest[1..], C, total, done + [rest[0]]);
      assert Singles(rest)[1..] == Singles(rest[1..]);
      assert done + [rest[0]] + rest[1..] == done + rest;
    }
  }

  /** Any two codes of the sizes that the format allows can be given in a dynamic header. */
  lemma EveryCodeHasHeader(L: seq<nat>, D: seq<nat>) returns (h: Header)
    requires Codes(L, D) && 257 <= |L| && 1 <= |D| <= 32
    ensures HeaderFits(h) && h.hlit == |L| && h.hdist == |D| && HeaderLengths(h) == L + D
  {
    hide CodeLengthCode, Kraft;
    AllFive();
    SinglesFit(L + D, Repeat(5, 19), |L| + |D|, []);
    assert [] + (L + D) == L + D;
    h := Header(Repeat(5, 19), Singles(L + D), |L|, |D|);
  }

  ghost function HeaderBits(h: Header): seq<Bit01>
    requires HeaderFits(h)
  {
    FieldBits(h.hlit - 257, 5) + (FieldBits(h.hdist - 1, 5) + (FieldBits(|h.fields| - 4, 4) + (FieldsBits(h.fields)
      + OpsBits(h.ops, CodeLengthCode(h.fields), h.hlit + h.hdist, []))))
  }

  lemma HeaderIsRead(h: Header, s: seq<Byte>, p: nat, o: Sink)
    requires HeaderFits(h) && At(s, p, HeaderBits(h))
    ensures |HeaderLengths(h)| == h.hlit + h.hdist
    ensures var L, D := HeaderLengths(h)[..h.hlit], HeaderLengths(h)[h.hlit..];
            Codes(L, D) ==> DynamicBlock(s, p, o) == HuffmanBlock(s, p + |HeaderBits(h)|, o, L, D)
  {
    hide At, Value, FieldBits, FieldsBits, CodeLengthSizes, CodeLengthCode, OpsBits, OpsFit, ApplyAll, Shl;
    hide DynamicBlock, HuffmanBlock, ReadLengths, Kraft;
    var f, total := h.fields, h.hlit + h.hdist;
    var C := CodeLengthCode(f);
    var b1, b2, b3, b4, b5 :=
      FieldBits(h.hlit - 257, 5), FieldBits(h.hdist - 1, 5), FieldBits(|f| - 4, 4), FieldsBits(f),
        OpsBits(h.ops, C, total, []);
    AtSplit(s, p, b1, b2 + (b3 + (b4 + b5)));
    AtSplit(s, p + 5, b2, b3 + (b4 + b5));
    AtSplit(s, p + 10, b3, b4 + b5);
    AtSplit(s, p + 14, b4, b5);
    PowerTable();
    FieldIsRead(s, p, h.hlit - 257, 5);
    FieldIsRead(s, p + 5, h.hdist - 1, 5);
    FieldIsRead(s, p + 10, |f| - 4, 4);
    FieldsAreRead(f, s, p + 14);
    AtEnd(s, p + 14 + |b4|, b5);
    OpsAreRead(h.ops, C, total, [], s, p + 14 + |b4|);
    AtHeader(s, p, o);
  }

  // ---------- stored data ----------

  function BytesBits(data: seq<Byte>): (r: seq<Bit01>)
    ensures |r| == 8 * |data|
  {
    if |data| == 0 then [] else FieldBits(data[0], 8) + BytesBits(data[1..])
  }

  lemma {:induction false} BytesAreRead(data: seq<Byte>, s: seq<Byte>, i: nat)
    requires At(s, 8 * i, BytesBits(data))
    ensures i + |data| <= |s| && s[i..i + |data|] == data
    decreases |data|
  {
    hide Value, FieldBits, Shl;
    if |data| > 0 {
      AtSplit(s, 8 * i, FieldBits(data[0], 8), BytesBits(data[1..]));
      BytesAreRead(data[1..], s, i + 1);
      PowerTable();
      FieldIsRead(s, 8 * i, data[0], 8);
      ByteValue(s, i);
    }
  }

  /** Padding to a byte boundary, the length, its complement, and the bytes. */
  function StoredBits(pad: seq<Bit01>, data: seq<Byte>): seq<Bit01>
    requires |data| < 0x1_0000
  {
    pad + (FieldBits(|data|, 16) + (FieldBits(0xFFFF - |data|, 16) + BytesBits(data)))
  }

  lemma WordIsRead(v: nat, s: seq<Byte>, i: nat)
    requires v < 0x1_0000 && At(s, 8 * i, FieldBits(v, 16))
    ensures i + 2 <= |s| && Le16(s[i], s[i + 1]) == v
  {
    hide Value, FieldBits, Shl;
    PowerTable();
    FieldIsRead(s, 8 * i, v, 16);
    ValueConcat(s, 8 * i, 8, 8);
    assert 8 * i + 8 == 8 * (i + 1);
    ByteValue(s, i);
    ByteValue(s, i + 1);
    ShlTable(s[i + 1]);
  }

  lemma StoredIsRead(pad: seq<Bit01>, data: seq<Byte>, s: seq<Byte>, p: nat, o: Sink)
    requires |data| < 0x1_0000 && |pad| < 8 && (p + |pad|) % 8 == 0 && At(s, p, StoredBits(pad, data))
    ensures StoredBlock(s, p, o) == Done(p + |StoredBits(pad, data)|, Grow(o, o.bytes + data))
  {
    hide At, FieldBits, BytesBits;
    var i := (p + 7) / 8;
    var n, m := FieldBits(|data|, 16), FieldBits(0xFFFF - |data|, 16);
    assert p + |pad| == 8 * i;
    AtSplit(s, p, pad, n + (m + BytesBits(data)));
    AtSplit(s, 8 * i, n, m + BytesBits(data));
    AtSplit(s, 8 * (i + 2), m, BytesBits(data));
    WordIsRead(|data|, s, i);
    WordIsRead(0xFFFF - |data|, s, i + 2);
    BytesAreRead(data, s, i + 4);
  }

  // ---------- streams ----------

  datatype Block =
    | Stored(pad: seq<Bit01>, data: seq<Byte>)
    | Fixed(items: seq<Item>)
    | Dynamic(h: Header, items: seq<Item>)

  /** The block is well formed at bit position p (of its data, after the three header bits)
    * with the output o before it. */
  ghost predicate BlockFits(b: Block, p: nat, o: Sink) {
    match b
    case Stored(pad, data) => |data| < 0x1_0000 && |pad| < 8 && (p + |pad|) % 8 == 0
    case Fixed(items) => AllEncodable(items, FixedLengths(), FixedDistances()) && AllPlayable(items, o)
    case Dynamic(h, items) =>
      HeaderFits(h) && |HeaderLengths(h)| == h.hlit + h.hdist &&
      var L, D := HeaderLengths(h)[..h.hlit], HeaderLengths(h)[h.hlit..];
      Codes(L, D) && AllEncodable(items, L, D) && AllPlayable(items, o)
  }

  ghost function BlockBits(b: Block, p: nat, o: Sink): seq<Bit01>
    requires BlockFits(b, p, o)
  {
    match b
    case Stored(pad, data) => StoredBits(pad, data)
    case Fixed(items) => ItemsBits(items, FixedLengths(), FixedDistances())
    case Dynamic(h, items) =>
      HeaderBits(h) + ItemsBits(items, HeaderLengths(h)[..h.hlit], HeaderLengths(h)[h.hlit..])
  }

  /** The output after the block. */
  ghost function Meaning(b: Block, p: nat, o: Sink): Sink
    requires BlockFits(b, p, o)
  {
    match b
    case Stored(pad, data) => Grow(o, o.bytes + data)
    case Fixed(items) => PlayAll(items, o)
    case Dynamic(h, items) => PlayAll(items, o)
  }

  function Kind(b: Block): nat {
    match b
    case Stored(_, _) => 0
    case Fixed(_) => 1
    case Dynamic(_, _) => 2
  }

  lemma BlockIsRead(b: Block, s: seq<Byte>, p: nat, o: Sink)
    requires BlockFits(b, p, o) && At(s, p, BlockBits(b, p, o))
    ensures OneBlock(s, p, o, Kind(b)) == Done(p + |BlockBits(b, p, o)|, Meaning(b, p, o))
  {
    hide At, DynamicBlock, HuffmanBlock, StoredBlock, ItemsBits, HeaderBits, HeaderFits, HeaderLengths, StoredBits;
    hide AllEncodable, AllPlayable, PlayAll, FixedLengths, FixedDistances, Kraft, Lengths;
    match b
    case Stored(pad, data) =>
      StoredIsRead(pad, data, s, p, o);
    case Fixed(items) =>
      FixedCodes();
      ItemsAreRead(items, FixedLengths(), FixedDistances(), s, p, o);
    case Dynamic(h, items) =>
      var L, D := HeaderLengths(h)[..h.hlit], HeaderLengths(h)[h.hlit..];
      AtSplit(s, p, HeaderBits(h), ItemsBits(items, L, D));
      HeaderIsRead(h, s, p, o);
      ItemsAreRead(items, L, D, s, p + |HeaderBits(h)|, o);
  }

  /** A nonempty sequence of blocks, each well formed where it stands. */
  ghost predicate StreamFits(blocks: seq<Block>, p: nat, o: Sink)
    decreases |blocks|
  {
    && |blocks| > 0 && BlockFits(blocks[0], p + 3, o)
    && (|blocks| > 1 ==>
          StreamFits(blocks[1..], p + 3 + |BlockBits(blocks[0], p + 3, o)|, Meaning(blocks[0], p + 3, o)))
  }

  ghost function StreamBits(blocks: seq<Block>, p: nat, o: Sink): seq<Bit01>
    requires StreamFits(blocks, p, o)
    decreases |blocks|
  {
    hide BlockFits, BlockBits, Meaning;
    var bits := BlockBits(blocks[0], p + 3, o);
    if |blocks| == 1 then [1] + (FieldBits(Kind(blocks[0]), 2) + bits)
    else [0] + (FieldBits(Kind(blocks[0]), 2) +
                (bits + StreamBits(blocks[1..], p + 3 + |bits|, Meaning(blocks[0], p + 3, o))))
  }

  ghost function StreamMeaning(blocks: seq<Block>, p: nat, o: Sink): Sink
    requires StreamFits(blocks, p, o)
    decreases |blocks|
  {
    hide BlockFits, BlockBits, Meaning;
    var bits := BlockBits(blocks[0], p + 3, o);
    if |blocks| == 1 then Meaning(blocks[0], p + 3, o)
    else StreamMeaning(blocks[1..], p + 3 + |bits|, Meaning(blocks[0], p + 3, o))
  }

  lemma FlagIsRead(s: seq<Byte>, p: nat, b: Bit01)
    requires At(s, p, [b])
    ensures Value(s, p, 1) == b
  {
    assert [b][0] == b;
    assert Bit(s, p + 0) == b;
    assert Value(s, p + 1, 0) == 0;
  }

  lemma KindIsRead(s: seq<Byte>, p: nat, b: Block)
    requires At(s, p, FieldBits(Kind(b), 2))
    ensures Value(s, p, 2) == Kind(b)
  {
    ShlTable(1);
    FieldIsRead(s, p, Kind(b), 2);
  }

  /** Every well-formed stream is read back as what its blocks mean. */
  lemma {:induction false} StreamIsRead(blocks: seq<Block>, s: seq<Byte>, p: nat, o: Sink)
    requires StreamFits(blocks, p, o) && At(s, p, StreamBits(blocks, p, o))
    ensures Blocks(s, p, o) == Done(p + |StreamBits(blocks, p, o)|, StreamMeaning(blocks, p, o))
    decreases |blocks|
  {
    hide At, Value, FieldBits, OneBlock, Blocks, BlockBits, BlockFits, Meaning, Kind;
    var b := blocks[0];
    var kind, bits := FieldBits(Kind(b), 2), BlockBits(b, p + 3, o);
    if |blocks| == 1 {
      AtSplit(s, p, [1], kind + bits);
      AtSplit(s, p + 1, kind, bits);
      FlagIsRead(s, p, 1);
    } else {
      var o' := Meaning(b, p + 3, o);
      var rest := StreamBits(blocks[1..], p + 3 + |bits|, o');
      AtSplit(s, p, [0], kind + (bits + rest));
      AtSplit(s, p + 1, kind, bits + rest);
      AtSplit(s, p + 3, bits, rest);
      FlagIsRead(s, p, 0);
      StreamIsRead(blocks[1..], s, p + 3 + |bits|, o');
    }
    KindIsRead(s, p + 1, b);
    BlockIsRead(b, s, p + 3, o);
    AtEnd(s, p + 3, bits);
    AtBlock(s, p, o);
  }

  // ---------- packing bits into bytes ----------

  function FromBits(b: seq<Bit01>): nat {
    if |b| == 0 then 0 else b[0] + 2 * FromBits(b[1..])
  }

  lemma {:induction false} FromBitsBelow(b: seq<Bit01>)
    ensures FromBits(b) < Pow2(|b|)
  {
    if |b| > 0 {
      FromBitsBelow(b[1..]);
    }
  }

  lemma {:induction false} BitOfFromBits(b: seq<Bit01>, j: nat)
    requires j < |b|
    ensures BitOf(FromBits(b), j) == b[j]
  {
    if j > 0 {
      BitOfFromBits(b[1..], j - 1);
    }
  }

  /** Bits packed into bytes, least significant bit first, the last byte padded with zeros
    * (section 3.1.1). */
  function Pack(bits: seq<Bit01>): (s: seq<Byte>)
  {
    if |bits| == 0 then []
    else
      var n := if |bits| < 8 then |bits| else 8;
      FromBitsBelow(bits[..n]);
      PowMonotone(n, 8);
      PowerTable();
      [FromBits(bits[..n]) as Byte] + Pack(bits[n..])
  }

  lemma {:induction false} PackHolds(bits: seq<Bit01>)
    ensures |Pack(bits)| == (|bits| + 7) / 8 && At(Pack(bits), 0, bits)
    decreases |bits|
  {
    if |bits| > 0 {
      var n := if |bits| < 8 then |bits| else 8;
      var rest := Pack(bits[n..]);
      PackHolds(bits[n..]);
      forall k: nat | k < |bits| ensures Bit(Pack(bits), 0 + k) == bits[k] {
        if k < n {
          BitOfFromBits(bits[..n], k);
        } else {
          assert Bit(rest, 0 + (k - 8)) == bits[n..][k - 8];
          assert k / 8 == (k - 8) / 8 + 1 && k % 8 == (k - 8) % 8;
        }
      }
    }
  }

  /** Decoding inverts encoding: the packed stream of any well-formed sequence of blocks means
    * what the blocks mean. */
  lemma InflateInvertsEncoding(blocks: seq<Block>)
    requires StreamFits(blocks, 0, EMPTY)
    ensures Inflate(Pack(StreamBits(blocks, 0, EMPTY))) ==
            Done(|StreamBits(blocks, 0, EMPTY)|, StreamMeaning(blocks, 0, EMPTY))
  {
    hide StreamFits, StreamBits, StreamMeaning, At, Pack;
    PackHolds(StreamBits(blocks, 0, EMPTY));
    StreamIsRead(blocks, Pack(StreamBits(blocks, 0, EMPTY)), 0, EMPTY);
  }
}
