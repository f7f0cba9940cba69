/** What a DEFLATE stream means, after section 3.2 of RFC 1951, as functions of the byte
  * string and a bit position.  Nothing here buffers, looks ahead or uses a table: a Huffman
  * symbol is the one whose code stands at the position, and every field is read where it is.
  *
  * The two departures of kernel/source/ssfn.h from the standard are part of this reading:
  * HLIT may be up to 31 (288 literal/length codes), and the two sorts of symbols that
  * section 3.2.6 says never occur get their own outcome.
  */
module Rfc1951 {
  import opened Bits
  import opened Canonical

  /** The output so far.  Of output longer than 8 bytes it is kept how long it was before and after
    * the literal, match or stored block that took it beyond 8. */
  datatype Sink = Sink(bytes: seq<Byte>, from: nat, to: nat)

  const EMPTY := Sink([], 0, 0)

  function Grow(o: Sink, bytes: seq<Byte>): Sink {
    if |o.bytes| <= 8 < |bytes| then Sink(bytes, |o.bytes|, |bytes|) else Sink(bytes, o.from, o.to)
  }

  ghost predicate Extends(o: Sink, o': Sink) {
    o.bytes <= o'.bytes && (|o.bytes| > 8 ==> o'.from == o.from && o'.to == o.to)
  }

  /** Done: the data ended properly at bit position p.  Bad: the data break the format.
    * Cut: the data end too early.  Reserved: a symbol that never occurs in valid data. */
  datatype Outcome =
    | Done(p: nat, out: Sink)
    | Bad(out: Sink)
    | Cut(out: Sink)
    | Reserved(out: Sink)

  ghost predicate Continues(r: Outcome, s: seq<Byte>, p: nat, o: Sink) {
    Extends(o, r.out) && (r.Done? ==> p < r.p <= 8 * |s|)
  }

  // ---------- Huffman symbols (section 3.2.2) ----------

  /** The code of symbol i stands at position p, inside the data. */
  ghost predicate Coded(L: seq<nat>, i: nat, s: seq<Byte>, p: nat) {
    i < |L| && 1 <= L[i] <= MAX_BITS && p + L[i] <= 8 * |s| && Msb(s, p, L[i]) == Code(L, i)
  }

  datatype Symbol = Symbol(sym: nat) | NoSymbol | CutSymbol

  ghost function SymbolAt(L: seq<nat>, s: seq<Byte>, p: nat): (r: Symbol)
    ensures r.Symbol? ==> Coded(L, r.sym, s, p)
  {
    if exists i: nat :: Coded(L, i, s, p) then
      var i: nat :| Coded(L, i, s, p);
      Symbol(i)
    else if p + MAX_BITS > 8 * |s| then CutSymbol
    else NoSymbol
  }

  /** At most one code stands at a position. */
  lemma CodedUnique(L: seq<nat>, i: nat, j: nat, s: seq<Byte>, p: nat)
    requires Coded(L, i, s, p) && Coded(L, j, s, p)
    ensures i == j
  {
    MsbShr(s, p, L[i], 16);
    MsbShr(s, p, L[j], 16);
    MatchUnique(L, i, j, Msb(s, p, 16));
  }

  // ---------- lengths and distances (section 3.2.5) ----------

  function LengthExtra(c: nat): nat {
    if c < 4 || c == 28 then 0 else c / 4 - 1
  }

  /** Each length code starts where the values of the one before it end; the last stands
    * for 258 alone. */
  function LengthBase(c: nat): nat {
    if c == 0 then 3
    else if c == 28 then 258
    else LengthBase(c - 1) + Pow2(LengthExtra(c - 1))
  }

  function DistExtra(c: nat): nat {
    if c < 2 then 0 else c / 2 - 1
  }

  function DistBase(c: nat): nat {
    if c == 0 then 1 else DistBase(c - 1) + Pow2(DistExtra(c - 1))
  }

  /** len bytes, each equal to the byte dist places before it. */
  function CopyMatch(b: seq<Byte>, len: nat, dist: nat): (r: seq<Byte>)
    requires 1 <= dist <= |b|
    ensures |r| == |b| + len && b <= r
    decreases len
  {
    if len == 0 then b else CopyMatch(b + [b[|b| - dist]], len - 1, dist)
  }

  /** A copy repeats what lies dist places back, also where source and target overlap; this
    * and the length determine it. */
  lemma {:induction false} CopyMatchRepeats(b: seq<Byte>, len: nat, dist: nat, n: nat)
    requires 1 <= dist <= |b| <= n < |b| + len
    ensures CopyMatch(b, len, dist)[n] == CopyMatch(b, len, dist)[n - dist]
    decreases len
  {
    var next := b + [b[|b| - dist]];
    if n == |b| {
      assert next <= CopyMatch(next, len - 1, dist);
      assert next[n - dist] == next[n];
    } else {
      CopyMatchRepeats(next, len - 1, dist, n);
    }
  }

  // ---------- compressed data (section 3.2.3) ----------

  ghost function HuffmanBlock(s: seq<Byte>, p: nat, o: Sink, L: seq<nat>, D: seq<nat>): (r: Outcome)
    requires Lengths(L) && Lengths(D)
    ensures Continues(r, s, p, o)
    decreases 8 * |s| - p
  {
    match SymbolAt(L, s, p)
    case CutSymbol => Cut(o)
    case NoSymbol => Bad(o)
    case Symbol(z) =>
      var p1 := p + L[z];
      if z < 256 then HuffmanBlock(s, p1, Grow(o, o.bytes + [z]), L, D)
      else if z == 256 then Done(p1, o)
      else if z > 285 then Reserved(o)
      else
        var p2 := p1 + LengthExtra(z - 257);
        if p2 > 8 * |s| then Cut(o) else MatchOf(s, p2, o, L, D, LengthBase(z - 257) + Value(s, p1, p2 - p1))
  }

  /** The distance half of a match, its copy, and the rest of the block. */
  ghost function MatchOf(s: seq<Byte>, p: nat, o: Sink, L: seq<nat>, D: seq<nat>, len: nat): (r: Outcome)
    requires Lengths(L) && Lengths(D) && p <= 8 * |s|
    ensures Continues(r, s, p, o)
    decreases 8 * |s| - p
  {
    match SymbolAt(D, s, p)
    case CutSymbol => Cut(o)
    case NoSymbol => Bad(o)
    case Symbol(z) =>
      if z > 29 then Reserved(o)
      else
        var p1 := p + D[z];
        var p2 := p1 + DistExtra(z);
        if p2 > 8 * |s| then Cut(o)
        else
          DistPositive(z);
          var dist := DistBase(z) + Value(s, p1, p2 - p1);
          if |o.bytes| < dist then Bad(o)
          else HuffmanBlock(s, p2, Grow(o, CopyMatch(o.bytes, len, dist)), L, D)
  }

  lemma {:induction false} DistPositive(c: nat)
    ensures DistBase(c) >= 1
  {
    if c != 0 {
      DistPositive(c - 1);
    }
  }

  // ---------- fixed codes (section 3.2.6) ----------

  function FixedLength(i: nat): nat {
    if i <= 143 then 8 else if i <= 255 then 9 else if i <= 279 then 7 else 8
  }

  function FixedLengths(): seq<nat> {
    seq(288, i requires 0 <= i => FixedLength(i))
  }

  function FixedDistances(): seq<nat> {
    seq(32, _ => 5)
  }

  ghost function CodedBlock(s: seq<Byte>, p: nat, o: Sink, L: seq<nat>, D: seq<nat>): (r: Outcome)
    requires Lengths(L) && Lengths(D)
    ensures Continues(r, s, p, o)
  {
    if Kraft(L) && Kraft(D) then HuffmanBlock(s, p, o, L, D) else Bad(o)
  }

  // ---------- dynamic codes (section 3.2.7) ----------

  const CODE_LENGTH_ORDER: seq<nat> := [16, 17, 18, 0, 8, 7, 9, 6, 10, 5, 11, 4, 12, 3, 13, 2, 14, 1, 15]

  /** The lengths of the code length code, from n three-bit fields. */
  function CodeLengthSizes(s: seq<Byte>, p: nat, n: nat): (C: seq<nat>)
    requires n <= 19
    ensures |C| == 19 && Lengths(C)
  {
    if n == 0 then seq(19, _ => 0)
    else
      ValueBelow(s, p + 3 * (n - 1), 3);
      PowerTable();
      CodeLengthSizes(s, p, n - 1)[CODE_LENGTH_ORDER[n - 1] := Value(s, p + 3 * (n - 1), 3)]
  }

  datatype LengthsOutcome = LengthsRead(p: nat, lens: seq<nat>) | LengthsBad | LengthsCut

  function Repeat(x: nat, n: nat): (r: seq<nat>)
    ensures |r| == n && forall i | 0 <= i < n :: r[i] == x
  {
    seq(n, _ => x)
  }

  /** Reads run-length coded code lengths until there are `total` of them. */
  ghost function ReadLengths(s: seq<Byte>, p: nat, C: seq<nat>, total: nat, lens: seq<nat>): (r: LengthsOutcome)
    requires |C| == 19 && |lens| <= total && forall i | 0 <= i < |lens| :: lens[i] <= MAX_BITS
    ensures r.LengthsRead? ==> |r.lens| == total && lens <= r.lens && forall i | 0 <= i < total :: r.lens[i] <= MAX_BITS
    ensures r.LengthsRead? ==> p <= r.p && (r.p <= 8 * |s| || r.p == p)
    decreases total - |lens|
  {
    if |lens| == total then LengthsRead(p, lens)
    else
      match SymbolAt(C, s, p)
      case CutSymbol => LengthsCut
      case NoSymbol => LengthsBad
      case Symbol(c) =>
        var p1 := p + C[c];
        if c < 16 then ReadLengths(s, p1, C, total, lens + [c])
        else
          var p2 := p1 + RunBits(c);
          if p2 > 8 * |s| then LengthsCut
          else if c == 16 && |lens| == 0 then LengthsBad
          else ReadRun(s, p2, C, total, lens, RunOf(c, lens), RunBase(c) + Value(s, p1, RunBits(c)))
  }

  /** Code length symbols 16, 17 and 18: the number of their extra bits, the shortest run, and
    * the length that is repeated. */
  function RunBits(c: nat): nat {
    if c == 16 then 2 else if c == 17 then 3 else 7
  }

  function RunBase(c: nat): nat {
    if c == 18 then 11 else 3
  }

  function RunOf(c: nat, lens: seq<nat>): nat
    requires c == 16 ==> |lens| > 0
  {
    if c == 16 then lens[|lens| - 1] else 0
  }

  /** A run of n equal lengths, and the lengths after it. */
  ghost function ReadRun(s: seq<Byte>, p: nat, C: seq<nat>, total: nat, lens: seq<nat>, x: nat,
      n: nat): (r: LengthsOutcome)
    requires |C| == 19 && |lens| < total && x <= MAX_BITS && n > 0 && p <= 8 * |s|
    requires forall i | 0 <= i < |lens| :: lens[i] <= MAX_BITS
    ensures r.LengthsRead? ==> |r.lens| == total && lens <= r.lens && forall i | 0 <= i < total :: r.lens[i] <= MAX_BITS
    ensures r.LengthsRead? ==> p <= r.p <= 8 * |s|
    decreases total - |lens|, 0
  {
    if total - |lens| < n then LengthsBad else ReadLengths(s, p, C, total, lens + Repeat(x, n))
  }

  ghost function DynamicBlock(s: seq<Byte>, p: nat, o: Sink): (r: Outcome)
    ensures Continues(r, s, p, o)
  {
    if p + 14 > 8 * |s| then Cut(o)
    else
      var hlit := Value(s, p, 5) + 257;
      var hdist := Value(s, p + 5, 5) + 1;
      var hclen := Value(s, p + 10, 4) + 4;
      HeaderFields(s, p);
      var p1 := p + 14 + 3 * hclen;
      if p1 > 8 * |s| then Cut(o)
      else
        var C := CodeLengthSizes(s, p + 14, hclen);
        if !Kraft(C) then Bad(o)
        else
          match ReadLengths(s, p1, C, hlit + hdist, [])
          case LengthsCut => Cut(o)
          case LengthsBad => Bad(o)
          case LengthsRead(p2, lens) => CodedBlock(s, p2, o, lens[..hlit], lens[hlit..])
  }

  lemma HeaderFields(s: seq<Byte>, p: nat)
    ensures Value(s, p, 5) < 32 && Value(s, p + 5, 5) < 32 && Value(s, p + 10, 4) < 16
  {
    ValueBelow(s, p, 5);
    ValueBelow(s, p + 5, 5);
    ValueBelow(s, p + 10, 4);
    PowerTable();
  }

  // ---------- stored data (section 3.2.4) ----------

  function Le16(lo: nat, hi: nat): nat {
    lo + 256 * hi
  }

  ghost function StoredBlock(s: seq<Byte>, p: nat, o: Sink): (r: Outcome)
    ensures Continues(r, s, p, o)
  {
    var i := (p + 7) / 8;
    if i + 4 > |s| then Cut(o)
    else
      var len := Le16(s[i], s[i + 1]);
      var nlen := Le16(s[i + 2], s[i + 3]);
      if nlen != 0xFFFF - len then Bad(o)
      else if i + 4 + len > |s| then Cut(o)
      else Done(8 * (i + 4 + len), Grow(o, o.bytes + s[i + 4..i + 4 + len]))
  }

  // ---------- the whole stream (section 3.2.3) ----------

  ghost function OneBlock(s: seq<Byte>, p: nat, o: Sink, kind: nat): (r: Outcome)
    ensures Continues(r, s, p, o)
  {
    if kind == 0 then StoredBlock(s, p, o)
    else if kind == 1 then
      CodedBlock(s, p, o, FixedLengths(), FixedDistances())
    else if kind == 2 then DynamicBlock(s, p, o)
    else Bad(o)
  }

  ghost function Blocks(s: seq<Byte>, p: nat, o: Sink): (r: Outcome)
    ensures Continues(r, s, p, o)
    decreases 8 * |s| - p
  {
    if p + 3 > 8 * |s| then Cut(o)
    else
      var r := OneBlock(s, p + 3, o, Value(s, p + 1, 2));
      if r.Done? && Value(s, p, 1) == 0 then Blocks(s, r.p, r.out) else r
  }

  /** The meaning of the byte string s as a DEFLATE stream. */
  ghost function Inflate(s: seq<Byte>): Outcome {
    Blocks(s, 0, EMPTY)
  }

  // ---------- one step at a time ----------

  /** One code length symbol, by its sort. */
  lemma AtLength(s: seq<Byte>, p: nat, C: seq<nat>, total: nat, lens: seq<nat>)
    requires |C| == 19 && Lengths(C) && |lens| < total && forall i | 0 <= i < |lens| :: lens[i] <= MAX_BITS
    ensures var r := ReadLengths(s, p, C, total, lens);
            match SymbolAt(C, s, p)
            case CutSymbol => r == LengthsCut
            case NoSymbol => r == LengthsBad
            case Symbol(c) =>
              var p1 := p + C[c];
              c < 19 && p < p1 <= 8 * |s| &&
              if c < 16 then r == ReadLengths(s, p1, C, total, lens + [c])
              else
                var p2 := p1 + RunBits(c);
                if p2 > 8 * |s| then r == LengthsCut
                else if c == 16 && |lens| == 0 then r == LengthsBad
                else r == ReadRun(s, p2, C, total, lens, RunOf(c, lens), RunBase(c) + Value(s, p1, RunBits(c)))
  {
    hide ReadRun, SymbolAt, Value;
  }

  lemma AtRun(s: seq<Byte>, p: nat, C: seq<nat>, total: nat, lens: seq<nat>, x: nat, n: nat)
    requires |C| == 19 && |lens| < total && x <= MAX_BITS && n > 0 && p <= 8 * |s|
    requires forall i | 0 <= i < |lens| :: lens[i] <= MAX_BITS
    ensures var r := ReadRun(s, p, C, total, lens, x, n);
            if total - |lens| < n then r == LengthsBad else r == ReadLengths(s, p, C, total, lens + Repeat(x, n))
  {
  }

  /** A dynamic block, by the outcome of each part of its header. */
  lemma AtHeader(s: seq<Byte>, p: nat, o: Sink)
    ensures var r := DynamicBlock(s, p, o);
            var hlit, hdist, hclen := Value(s, p, 5) + 257, Value(s, p + 5, 5) + 1, Value(s, p + 10, 4) + 4;
            var p1 := p + 14 + 3 * hclen;
            hlit <= 288 && hdist <= 32 && hclen <= 19 &&
            if p1 > 8 * |s| then r == Cut(o)
            else
              var C := CodeLengthSizes(s, p + 14, hclen);
              if !Kraft(C) then r == Bad(o)
              else
                match ReadLengths(s, p1, C, hlit + hdist, [])
                case LengthsCut => r == Cut(o)
                case LengthsBad => r == Bad(o)
                case LengthsRead(p2, lens) =>
                  var L, D := lens[..hlit], lens[hlit..];
                  Lengths(L) && Lengths(D) &&
                  r == if Kraft(L) && Kraft(D) then HuffmanBlock(s, p2, o, L, D) else Bad(o)
  {
    hide HuffmanBlock, ReadLengths, CodeLengthSizes, Kraft, Value;
    HeaderFields(s, p);
  }

  /** A stored block, by its two length fields. */
  lemma AtStored(s: seq<Byte>, p: nat, o: Sink)
    ensures var r, i := StoredBlock(s, p, o), (p + 7) / 8;
            if i + 4 > |s| then r == Cut(o)
            else
              var len, nlen := Le16(s[i], s[i + 1]), Le16(s[i + 2], s[i + 3]);
              if nlen != 0xFFFF - len then r == Bad(o)
              else if i + 4 + len > |s| then r == Cut(o)
              else r == Done(8 * (i + 4 + len), Grow(o, o.bytes + s[i + 4..i + 4 + len]))
  {
  }

  /** One step of a compressed block, by the sort of its next symbol. */
  lemma AtSymbol(s: seq<Byte>, p: nat, o: Sink, L: seq<nat>, D: seq<nat>)
    requires Lengths(L) && Lengths(D)
    ensures var r := HuffmanBlock(s, p, o, L, D);
            match SymbolAt(L, s, p)
            case CutSymbol => r == Cut(o)
            case NoSymbol => r == Bad(o)
            case Symbol(z) =>
              var p1 := p + L[z];
              p < p1 <= 8 * |s| &&
              if z < 256 then
                var next := Grow(o, o.bytes + [z]);
                r == HuffmanBlock(s, p1, next, L, D) && Continues(r, s, p1, next)
              else if z == 256 then r == Done(p1, o)
              else if z > 285 then r == Reserved(o)
              else
                var p2 := p1 + LengthExtra(z - 257);
                if p2 > 8 * |s| then r == Cut(o)
                else
                  var len := LengthBase(z - 257) + Value(s, p1, p2 - p1);
                  r == MatchOf(s, p2, o, L, D, len) && Continues(r, s, p2, o)
  {
    hide MatchOf, SymbolAt;
  }

  lemma AtDistance(s: seq<Byte>, p: nat, o: Sink, L: seq<nat>, D: seq<nat>, len: nat)
    requires Lengths(L) && Lengths(D) && p <= 8 * |s|
    ensures var r := MatchOf(s, p, o, L, D, len);
            match SymbolAt(D, s, p)
            case CutSymbol => r == Cut(o)
            case NoSymbol => r == Bad(o)
            case Symbol(z) =>
              var p1 := p + D[z];
              p < p1 <= 8 * |s| &&
              if z > 29 then r == Reserved(o)
              else
                var p2 := p1 + DistExtra(z);
                if p2 > 8 * |s| then r == Cut(o)
                else
                  var dist := DistBase(z) + Value(s, p1, p2 - p1);
                  dist >= 1 &&
                  if |o.bytes| < dist then r == Bad(o)
                  else
                    var next := Grow(o, CopyMatch(o.bytes, len, dist));
                    r == HuffmanBlock(s, p2, next, L, D) && Continues(r, s, p2, next)
  {
    hide HuffmanBlock, SymbolAt;
    if SymbolAt(D, s, p).Symbol? {
      DistPositive(SymbolAt(D, s, p).sym);
    }
  }

  lemma AtBlock(s: seq<Byte>, p: nat, o: Sink)
    ensures var r := Blocks(s, p, o);
            if p + 3 > 8 * |s| then r == Cut(o)
            else
              var b := OneBlock(s, p + 3, o, Value(s, p + 1, 2));
              Value(s, p + 1, 2) < 4 &&
              if b.Done? && Value(s, p, 1) == 0 then
                r == Blocks(s, b.p, b.out) && Continues(r, s, b.p, b.out)
              else r == b
  {
    hide OneBlock;
    ValueBelow(s, p + 1, 2);
    ShlTable(1);
  }
}
