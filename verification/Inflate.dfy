/** The decompressor proper (kernel/source/ssfn.h:619-772): compressed blocks, dynamic code
  * headers, stored blocks and the block loop, each proved to compute what Rfc1951 assigns. */
module Inflate {
  import opened Bits
  import opened Canonical
  import opened HuffmanTables
  import opened Rfc1951
  import opened Reader
  import opened Output
  import opened MatchTables
  import opened Encoding

  /** What the machine does is decided by the data: the buffer is denied to the output, or the
    * output fits it and the data end properly or break the format. */
  ghost predicate Decided(r: Outcome) {
    Denied(r.out) || ((r.Done? || r.Bad?) && Fits(r.out))
  }

  ghost predicate Succeeds(r: Outcome) {
    r.Done? && !Denied(r.out)
  }

  class Decoder {
    const inp: BitReader
    const zout: Buffer
    const zLength: Huffman
    const zDistance: Huffman

    ghost function Tables(): set<object> {
      zLength.Repr() + zDistance.Repr()
    }

    /** The bit buffer is in step with the input and the first bytes of the output are o. */
    ghost predicate Valid(o: Sink)
      reads inp, zout, zout.start
    {
      && zLength.Valid() && zDistance.Valid() && zLength.Repr() !! zDistance.Repr()
      && (zout.start as object) !in Tables()
      && inp.Ready() && zout.Holds(o, zout.zout)
    }

    constructor (buf: seq<Byte>, ghost stream: seq<Byte>)
      requires stream <= buf && |stream| + SPARE_BYTES <= |buf|
      ensures Valid(EMPTY) && inp.stream == stream && inp.BitPos() == 0 && zout.start.Length == 8
      ensures fresh(inp) && fresh(zout) && fresh(zout.start) && fresh(Tables())
    {
      inp := new BitReader(buf, stream);
      zout := new Buffer();
      zLength := new Huffman();
      zDistance := new Huffman();
    }

    /** The tables describe the two codes of the current block. */
    ghost predicate Coding(L: seq<nat>, D: seq<nat>)
      requires zLength.Valid() && zDistance.Valid()
      reads Tables()
    {
      Lengths(L) && Lengths(D) && zLength.Built(L) && zDistance.Built(D)
    }

    /** `_ssfn__parse_huffman_block`. */
    method ParseHuffmanBlock(ghost o: Sink, ghost L: seq<nat>, ghost D: seq<nat>) returns (ok: bool)
      requires Valid(o) && Coding(L, D)
      requires inp.BitPos() <= 8 * |inp.stream| && Decided(HuffmanBlock(inp.stream, inp.BitPos(), o, L, D))
      modifies inp, zout, zout.start
      ensures zout.start == old(zout.start) || fresh(zout.start)
      ensures inp.Ready()
      ensures var r := HuffmanBlock(inp.stream, old(inp.BitPos()), o, L, D);
              (ok <==> Succeeds(r)) && (ok ==> Valid(r.out) && inp.BitPos() == r.p)
    {
      hide HuffmanBlock, SymbolAt, MatchOf, LengthBase, LengthExtra, DistBase, DistExtra, CopyMatch, Value, Shl;
      hide Huffman.Built;
      ghost var s := inp.stream;
      ghost var r := HuffmanBlock(s, inp.BitPos(), o, L, D);
      ghost var cur := o;
      while true
        invariant zout.start == old(zout.start) || fresh(zout.start)
        invariant Valid(cur) && Coding(L, D)
        invariant inp.BitPos() <= 8 * |s| && HuffmanBlock(s, inp.BitPos(), cur, L, D) == r
        decreases 8 * |s| - inp.BitPos()
      {
        var more;
        more, ok, cur := ParseSymbol(cur, r, L, D);
        if !more {
          return ok;
        }
      }
    }

    /** One iteration of the block loop: a literal, the end of the block, or a match. */
    method ParseSymbol(ghost cur: Sink, ghost r: Outcome, ghost L: seq<nat>, ghost D: seq<nat>)
      returns (more: bool, ok: bool, ghost next: Sink)
      requires Valid(cur) && Coding(L, D) && inp.BitPos() <= 8 * |inp.stream|
      requires r == HuffmanBlock(inp.stream, inp.BitPos(), cur, L, D) && Decided(r)
      modifies inp, zout, zout.start
      ensures zout.start == old(zout.start) || fresh(zout.start)
      ensures inp.Ready()
      ensures more ==> Valid(next) && old(inp.BitPos()) < inp.BitPos() <= 8 * |inp.stream|
      ensures more ==> r == HuffmanBlock(inp.stream, inp.BitPos(), next, L, D)
      ensures !more ==> (ok <==> Succeeds(r)) && (ok ==> Valid(r.out) && inp.BitPos() == r.p)
    {
      hide HuffmanBlock, SymbolAt, MatchOf, LengthBase, LengthExtra, DistBase, DistExtra, CopyMatch, Value, Shl;
      hide Huffman.Built;
      AtSymbol(inp.stream, inp.BitPos(), cur, L, D);
      var z := inp.HuffmanDecode(zLength, L);
      if z < 256 {
        if z < 0 {
          return false, false, cur;
        }
        next := Grow(cur, cur.bytes + [z]);
        more := PutLiteral(z, cur, next, r.out);
        ok := false;
      } else if z == 256 {
        return false, true, cur;
      } else {
        var len := ReadLength(z - 257);
        more, next := ParseMatch(len, cur, r, L, D);
        ok := false;
      }
    }

    /** The second half of a match: its distance and the copy. */
    method ParseMatch(len: nat, ghost cur: Sink, ghost r: Outcome, ghost L: seq<nat>, ghost D: seq<nat>)
      returns (ok: bool, ghost next: Sink)
      requires Valid(cur) && Coding(L, D)
      requires inp.BitPos() <= 8 * |inp.stream|
      requires r == MatchOf(inp.stream, inp.BitPos(), cur, L, D, len) && Decided(r)
      modifies inp, zout, zout.start
      ensures zout.start == old(zout.start) || fresh(zout.start)
      ensures inp.Ready() && (!ok ==> !Succeeds(r))
      ensures ok ==> Valid(next) && old(inp.BitPos()) < inp.BitPos() <= 8 * |inp.stream|
      ensures ok ==> r == HuffmanBlock(inp.stream, inp.BitPos(), next, L, D)
    {
      hide HuffmanBlock, SymbolAt, MatchOf, LengthBase, LengthExtra, DistBase, DistExtra, CopyMatch, Value, Shl;
      hide Huffman.Built;
      AtDistance(inp.stream, inp.BitPos(), cur, L, D, len);
      var z := inp.HuffmanDecode(zDistance, D);
      if z < 0 {
        return false, cur;
      }
      var dist := ReadDistance(z);
      if zout.zout < dist {
        return false, cur;
      }
      next := Grow(cur, CopyMatch(cur.bytes, len, dist));
      assert r == HuffmanBlock(inp.stream, inp.BitPos(), next, L, D);
      ok := PutMatch(len, dist, cur, next, r.out);
    }

    /** The length that length code c and its extra bits stand for. */
    method ReadLength(c: nat) returns (len: nat)
      requires c <= 28 && inp.Ready() && inp.BitPos() + LengthExtra(c) <= 8 * |inp.stream|
      modifies inp
      ensures inp.Ready() && inp.BitPos() == old(inp.BitPos()) + LengthExtra(c)
      ensures len == LengthBase(c) + Value(inp.stream, old(inp.BitPos()), LengthExtra(c))
    {
      LengthTable(c);
      len := inp.ReceiveExtra(LENGTH_BASE[c], LENGTH_EXTRA[c]);
    }

    /** The distance that distance code c and its extra bits stand for. */
    method ReadDistance(c: nat) returns (dist: nat)
      requires c <= 29 && inp.Ready() && inp.BitPos() + DistExtra(c) <= 8 * |inp.stream|
      modifies inp
      ensures inp.Ready() && inp.BitPos() == old(inp.BitPos()) + DistExtra(c)
      ensures dist == DistBase(c) + Value(inp.stream, old(inp.BitPos()), DistExtra(c))
    {
      DistTable(c);
      dist := inp.ReceiveExtra(DIST_BASE[c], DIST_EXTRA[c]);
    }

    method PutLiteral(b: Byte, ghost cur: Sink, ghost next: Sink, ghost final: Sink) returns (ok: bool)
      requires Valid(cur) && next == Grow(cur, cur.bytes + [b]) && Extends(next, final) &&
               (Fits(final) || Denied(final))
      modifies zout, zout.start
      ensures zout.start == old(zout.start) || fresh(zout.start)
      ensures (ok <==> !Denied(next)) && (ok ==> Valid(next))
    {
      DecidedBefore(next, final);
      ok := zout.MakeRoom(1, cur, next);
      if !ok {
        return false;
      }
      zout.PutLiteral(b, cur, next);
    }

    method PutMatch(len: nat, dist: nat, ghost cur: Sink, ghost next: Sink, ghost final: Sink) returns (ok: bool)
      requires Valid(cur) && 1 <= dist <= |cur.bytes|
      requires next == Grow(cur, CopyMatch(cur.bytes, len, dist)) && Extends(next, final) &&
               (Fits(final) || Denied(final))
      modifies zout, zout.start
      ensures zout.start == old(zout.start) || fresh(zout.start)
      ensures (ok <==> !Denied(next)) && (ok ==> Valid(next))
    {
      DecidedBefore(next, final);
      ok := zout.MakeRoom(len, cur, next);
      if !ok {
        return false;
      }
      zout.CopyBack(len, dist, cur, next);
    }

    /** `_ssfn__parse_uncompressed_block`. */
    method ParseUncompressedBlock(ghost o: Sink) returns (ok: bool)
      requires Valid(o) && inp.BitPos() <= 8 * |inp.stream| && Decided(StoredBlock(inp.stream, inp.BitPos(), o))
      modifies inp, zout, zout.start
      ensures zout.start == old(zout.start) || fresh(zout.start)
      ensures inp.Ready()
      ensures var r := StoredBlock(inp.stream, old(inp.BitPos()), o);
              (ok <==> Succeeds(r)) && (ok ==> Valid(r.out) && inp.BitPos() == r.p)
    {
      hide Value, Shl, StoredBlock, Xor, Le16, Fits, Denied, Grow;
      ghost var s, i := inp.stream, (inp.BitPos() + 7) / 8;
      AtStored(s, inp.BitPos(), o);
      HoldsNotDenied(zout, o);
      inp.AlignToByte();
      var header := inp.DrainHeader(i);
      var len := Le16(header[0], header[1]);
      var nlen := Le16(header[2], header[3]);
      Le16Fits(header[0], header[1]);
      Complement16(len);
      if nlen != Xor(len, 0xFFFF) {
        return false;
      }
      ok := PutStored(len, o, Grow(o, o.bytes + s[i + 4..i + 4 + len]));
    }

    method PutStored(len: nat, ghost o: Sink, ghost next: Sink) returns (ok: bool)
      requires Valid(o) && inp.numBits == 0 && inp.pos + len <= |inp.stream| && (Fits(next) || Denied(next))
      requires next == Grow(o, o.bytes + inp.stream[inp.pos..inp.pos + len])
      modifies inp, zout, zout.start
      ensures zout.start == old(zout.start) || fresh(zout.start)
      ensures inp.Ready() && (ok <==> !Denied(next))
      ensures ok ==> Valid(next) && inp.BitPos() == old(inp.BitPos()) + 8 * len
    {
      hide Value, Shl;
      ok := zout.MakeRoom(len, o, next);
      if !ok {
        return false;
      }
      var data := inp.TakeBytes(len);
      zout.PutStored(data, o, next);
    }

    /** The lengths of the code length code, stored in the order of section 3.2.7. */
    method ReadCodeLengthSizes(n: nat) returns (sizes: array<nat>)
      requires inp.Ready() && n <= 19 && inp.BitPos() + 3 * n <= 8 * |inp.stream|
      modifies inp
      ensures inp.Ready() && inp.BitPos() == old(inp.BitPos()) + 3 * n
      ensures fresh(sizes) && sizes.Length == 19 && sizes[..] == CodeLengthSizes(inp.stream, old(inp.BitPos()), n)
    {
      hide Value, Shl;
      ghost var p := inp.BitPos();
      sizes := new nat[19](_ => 0);
      var i := 0;
      assert sizes[..] == CodeLengthSizes(inp.stream, p, 0);
      while i < n
        invariant 0 <= i <= n && inp.Ready() && inp.BitPos() == p + 3 * i
        invariant sizes[..] == CodeLengthSizes(inp.stream, p, i)
      {
        var s := inp.Receive(3);
        sizes[CODE_LENGTH_ORDER[i]] := s;
        i := i + 1;
      }
    }

    /** The loop that reads run-length coded code lengths. */
    method ReadCodeLengths(h: Huffman, ghost C: seq<nat>, total: nat, lencodes: array<nat>) returns (ok: bool)
      requires inp.Ready() && inp.BitPos() <= 8 * |inp.stream|
      requires h.Valid() && |C| == 19 && Lengths(C) && h.Built(C) && (lencodes as object) !in h.Repr()
      requires lencodes.Length == 455 && total <= 320
      requires !ReadLengths(inp.stream, inp.BitPos(), C, total, []).LengthsCut?
      modifies inp, lencodes
      ensures inp.Ready() && inp.BitPos() <= 8 * |inp.stream|
      ensures var r := ReadLengths(inp.stream, old(inp.BitPos()), C, total, []);
              if ok then r == LengthsRead(inp.BitPos(), lencodes[..total]) else r == LengthsBad
    {
      hide Huffman.Built, SymbolAt, Value, Shl;
      ghost var r := ReadLengths(inp.stream, inp.BitPos(), C, total, []);
      var n := 0;
      while n < total
        invariant 0 <= n <= total && inp.Ready() && inp.BitPos() <= 8 * |inp.stream| && h.Built(C)
        invariant forall i | 0 <= i < n :: lencodes[i] <= MAX_BITS
        invariant r == ReadLengths(inp.stream, inp.BitPos(), C, total, lencodes[..n])
      {
        ok, n := ReadCodeLength(h, C, total, n, lencodes);
        if !ok {
          return;
        }
      }
      ok := n == total;
    }

    /** One iteration of that loop: a length, or a run of lengths. */
    method ReadCodeLength(h: Huffman, ghost C: seq<nat>, total: nat, n: nat, lencodes: array<nat>)
      returns (ok: bool, n': nat)
      requires inp.Ready() && inp.BitPos() <= 8 * |inp.stream|
      requires h.Valid() && |C| == 19 && Lengths(C) && h.Built(C) && (lencodes as object) !in h.Repr()
      requires lencodes.Length == 455 && n < total <= 320
      requires forall i | 0 <= i < n :: lencodes[i] <= MAX_BITS
      requires !ReadLengths(inp.stream, inp.BitPos(), C, total, lencodes[..n]).LengthsCut?
      modifies inp, lencodes
      ensures inp.Ready() && inp.BitPos() <= 8 * |inp.stream|
      ensures ok ==> h.Built(C) && n < n' <= total && forall i | 0 <= i < n' :: lencodes[i] <= MAX_BITS
      ensures var r := old(ReadLengths(inp.stream, inp.BitPos(), C, total, lencodes[..n]));
              if ok then r == ReadLengths(inp.stream, inp.BitPos(), C, total, lencodes[..n']) else r == LengthsBad
    {
      hide Huffman.Built, SymbolAt, ReadLengths, ReadRun, Value, Shl;
      ghost var lens := lencodes[..n];
      AtLength(inp.stream, inp.BitPos(), C, total, lens);
      var c := inp.HuffmanDecode(h, C);
      if c < 0 || c >= 19 {
        return false, n;
      }
      if c < 16 {
        lencodes[n] := c;
        assert lencodes[..n + 1] == lens + [c as nat];
        return true, n + 1;
      }
      var count := ReadRunLength(c);
      var fill := 0;
      if c == 16 {
        if n == 0 {
          return false, n;
        }
        fill := lencodes[n - 1];
      }
      AtRun(inp.stream, inp.BitPos(), C, total, lens, fill, count);
      if total - n < count {
        return false, n;
      }
      forall i | n <= i < n + count {
        lencodes[i] := fill;
      }
      assert lencodes[..n + count] == lens + Repeat(fill, count);
      return true, n + count;
    }

    /** The number of repetitions that code length symbol c and its extra bits stand for. */
    method ReadRunLength(c: nat) returns (count: nat)
      requires 16 <= c < 19 && inp.Ready() && inp.BitPos() + RunBits(c) <= 8 * |inp.stream|
      modifies inp
      ensures inp.Ready() && inp.BitPos() == old(inp.BitPos()) + RunBits(c)
      ensures count == RunBase(c) + Value(inp.stream, old(inp.BitPos()), RunBits(c))
    {
      hide Value, Shl;
      if c == 16 {
        count := inp.ReceiveExtra(3, 2);
      } else if c == 17 {
        count := inp.ReceiveExtra(3, 3);
      } else {
        count := inp.ReceiveExtra(11, 7);
      }
    }

    /** `_ssfn__compute_huffman_codes`. */
    method ComputeHuffmanCodes(ghost o: Sink) returns (ok: bool, ghost L: seq<nat>, ghost D: seq<nat>)
      requires Valid(o) && inp.BitPos() <= 8 * |inp.stream| && DynamicBlock(inp.stream, inp.BitPos(), o) != Cut(o)
      modifies inp, Tables()
      ensures Valid(o)
      ensures ok ==> Coding(L, D) && inp.BitPos() <= 8 * |inp.stream|
      ensures var r := DynamicBlock(inp.stream, old(inp.BitPos()), o);
              if ok then r == HuffmanBlock(inp.stream, inp.BitPos(), o, L, D) else r == Bad(o)
    {
      hide Value, Shl, Huffman.Built, DynamicBlock, CodeLengthSizes, ReadLengths, Kraft, SymbolAt, HuffmanBlock;
      L, D := [], [];
      AtHeader(inp.stream, inp.BitPos(), o);
      var hlit, hdist, hclen := ReadCounts();
      var lens;
      ok, lens := ReadHeader(hclen, hlit + hdist);
      if ok {
        L, D := lens[..hlit], lens[hlit..];
        ok := BuildCodes(lens[..hlit], lens[hlit..]);
      }
    }

    /** The three counts at the start of a dynamic block. */
    method ReadCounts() returns (hlit: nat, hdist: nat, hclen: nat)
      requires inp.Ready() && inp.BitPos() + 14 <= 8 * |inp.stream|
      modifies inp
      ensures inp.Ready() && inp.BitPos() == old(inp.BitPos()) + 14
      ensures hlit == Value(inp.stream, old(inp.BitPos()), 5) + 257
      ensures hdist == Value(inp.stream, old(inp.BitPos()) + 5, 5) + 1
      ensures hclen == Value(inp.stream, old(inp.BitPos()) + 10, 4) + 4
    {
      hide Value, Shl;
      hlit := inp.Receive(5);
      hdist := inp.Receive(5);
      hclen := inp.Receive(4);
      hlit, hdist, hclen := hlit + 257, hdist + 1, hclen + 4;
    }

    /** The code length code and the code lengths that it encodes. */
    method ReadHeader(hclen: nat, total: nat) returns (ok: bool, lens: seq<nat>)
      requires inp.Ready() && hclen <= 19 && total <= 320 && inp.BitPos() + 3 * hclen <= 8 * |inp.stream|
      requires var p := inp.BitPos();
               var C := CodeLengthSizes(inp.stream, p, hclen);
               Kraft(C) ==> !ReadLengths(inp.stream, p + 3 * hclen, C, total, []).LengthsCut?
      modifies inp
      ensures inp.Ready() && inp.BitPos() <= 8 * |inp.stream|
      ensures var p := old(inp.BitPos());
              var C := CodeLengthSizes(inp.stream, p, hclen);
              if ok then Kraft(C) &&
                ReadLengths(inp.stream, p + 3 * hclen, C, total, []) == LengthsRead(inp.BitPos(), lens)
              else Kraft(C) ==> ReadLengths(inp.stream, p + 3 * hclen, C, total, []) == LengthsBad
    {
      hide Value, Shl, Huffman.Built, CodeLengthSizes, ReadLengths, Kraft;
      lens := [];
      var sizes := ReadCodeLengthSizes(hclen);
      var zCodeLength := new Huffman();
      ok := zCodeLength.Build(sizes[..]);
      if ok {
        var lencodes := new nat[455];
        ok := ReadCodeLengths(zCodeLength, sizes[..], total, lencodes);
        lens := lencodes[..total];
      }
    }

    method BuildCodes(L: seq<nat>, D: seq<nat>) returns (ok: bool)
      requires zLength.Valid() && zDistance.Valid() && zLength.Repr() !! zDistance.Repr()
      requires Lengths(L) && Lengths(D)
      modifies Tables()
      ensures ok <==> Kraft(L) && Kraft(D)
      ensures ok ==> Coding(L, D)
    {
      hide Huffman.Built, Kraft;
      ok := zLength.Build(L);
      if ok {
        ok := zDistance.Build(D);
      }
    }

    /** One block after its three header bits. */
    method ParseBlock(kind: nat, ghost o: Sink, defaultLength: seq<nat>, defaultDistance: seq<nat>) returns (ok: bool)
      requires Valid(o) && inp.BitPos() <= 8 * |inp.stream| && Decided(OneBlock(inp.stream, inp.BitPos(), o, kind))
      requires kind < 4 && defaultLength == FixedLengths() && defaultDistance == FixedDistances()
      modifies inp, zout, zout.start, Tables()
      ensures zout.start == old(zout.start) || fresh(zout.start)
      ensures inp.Ready()
      ensures var r := OneBlock(inp.stream, old(inp.BitPos()), o, kind);
              (ok <==> Succeeds(r)) && (ok ==> Valid(r.out) && inp.BitPos() == r.p)
    {
      hide HuffmanBlock, DynamicBlock, StoredBlock, Huffman.Built, Value, Shl, Kraft;
      if kind == 0 {
        ok := ParseUncompressedBlock(o);
      } else if kind == 3 {
        return false;
      } else {
        ghost var L, D := defaultLength, defaultDistance;
        if kind == 1 {
          ok := BuildCodes(defaultLength, defaultDistance);
        } else {
          ok, L, D := ComputeHuffmanCodes(o);
        }
        if ok {
          ok := ParseHuffmanBlock(o, L, D);
        }
      }
    }

    /** `_ssfn__parse_zlib`: succeeds exactly on the streams that RFC 1951 gives a meaning, and
      * then the output buffer holds that meaning. */
    method ParseZlib(defaultLength: seq<nat>, defaultDistance: seq<nat>) returns (ok: bool)
      requires Valid(EMPTY) && inp.BitPos() == 0 && Decided(Inflate(inp.stream))
      requires defaultLength == FixedLengths() && defaultDistance == FixedDistances()
      modifies inp, zout, zout.start, Tables()
      ensures ok <==> Succeeds(Inflate(inp.stream))
      ensures ok ==> Valid(Inflate(inp.stream).out) && inp.BitPos() == Inflate(inp.stream).p
    {
      hide HuffmanBlock, OneBlock, Huffman.Built, Value, Shl;
      ghost var s := inp.stream;
      ghost var r := Inflate(s);
      ghost var cur := EMPTY;
      var fin := 0;
      while fin == 0
        invariant zout.start == old(zout.start) || fresh(zout.start)
        invariant Valid(cur) && inp.BitPos() <= 8 * |s|
        invariant fin == 0 ==> r == Blocks(s, inp.BitPos(), cur)
        invariant fin != 0 ==> r == Done(inp.BitPos(), cur)
        decreases 8 * |s| - inp.BitPos() + (if fin == 0 then 1 else 0)
      {
        AtBlock(s, inp.BitPos(), cur);
        fin := inp.Receive(1);
        var kind := inp.Receive(2);
        ghost var b := OneBlock(s, inp.BitPos(), cur, kind);
        assert Decided(b) by {
          DecidedBefore(b.out, r.out);
        }
        ok := ParseBlock(kind, cur, defaultLength, defaultDistance);
        if !ok {
          return false;
        }
        cur := b.out;
      }
      return true;
    }
  }

  /** `_ssfn__init_zdefaults`. */
  method InitDefaults() returns (length: array<nat>, distance: array<nat>)
    ensures fresh(length) && fresh(distance)
    ensures length[..] == FixedLengths() && distance[..] == FixedDistances()
  {
    length := new nat[288];
    distance := new nat[32];
    var i := 0;
    while i <= 143
      invariant 0 <= i <= 144 && forall k | 0 <= k < i :: length[k] == FixedLength(k)
    {
      length[i] := 8;
      i := i + 1;
    }
    while i <= 255
      invariant 144 <= i <= 256 && forall k | 0 <= k < i :: length[k] == FixedLength(k)
    {
      length[i] := 9;
      i := i + 1;
    }
    while i <= 279
      invariant 256 <= i <= 280 && forall k | 0 <= k < i :: length[k] == FixedLength(k)
    {
      length[i] := 7;
      i := i + 1;
    }
    while i <= 287
      invariant 280 <= i <= 288 && forall k | 0 <= k < i :: length[k] == FixedLength(k)
    {
      length[i] := 8;
      i := i + 1;
    }
    i := 0;
    while i <= 31
      invariant 0 <= i <= 32 && forall k | 0 <= k < i :: distance[k] == 5
      invariant forall k | 0 <= k < 288 :: length[k] == FixedLength(k)
    {
      distance[i] := 5;
      i := i + 1;
    }
  }

  /** `_ssfn_zlib_decode`: the decompressed bytes, or null if the data break the format.  The
    * buffer that is returned has 8 bytes, or as many as the font header declares. */
  method ZlibDecode(buf: seq<Byte>, ghost stream: seq<Byte>) returns (result: array?<Byte>)
    requires stream <= buf && |stream| + SPARE_BYTES <= |buf|
    requires Decided(Inflate(stream))
    ensures result != null <==> Succeeds(Inflate(stream))
    ensures result != null ==>
              var out := Inflate(stream).out.bytes;
              |out| <= result.Length && result[..|out|] == out &&
              (result.Length == 8 || (|out| >= 8 && result.Length == Declared(out)))
  {
    var a := new Decoder(buf, stream);
    var length, distance := InitDefaults();
    var ok := a.ParseZlib(length[..], distance[..]);
    result := if ok then a.zout.start else null;
  }

  lemma Le16Fits(lo: Byte, hi: Byte)
    ensures Le16(lo, hi) < 0x1_0000
  {
  }

  lemma Complement16(v: nat)
    requires v < 0x1_0000
    ensures Xor(v, 0xFFFF) == 0xFFFF - v
  {
    PowerTable();
    XorOnes(v, 16);
  }

  /** Every well-formed sequence of blocks is decoded to what it means if that fits the buffer, and
    * to nothing if the buffer is denied to it: it meets the precondition of ZlibDecode, and the
    * postcondition speaks of its meaning. */
  lemma WellFormedStreamDecodes(blocks: seq<Block>, stream: seq<Byte>)
    requires StreamFits(blocks, 0, EMPTY) && At(stream, 0, StreamBits(blocks, 0, EMPTY))
    requires Fits(StreamMeaning(blocks, 0, EMPTY)) || Denied(StreamMeaning(blocks, 0, EMPTY))
    ensures Decided(Inflate(stream)) && Inflate(stream).out == StreamMeaning(blocks, 0, EMPTY)
    ensures Succeeds(Inflate(stream)) <==> Fits(StreamMeaning(blocks, 0, EMPTY))
  {
    hide StreamFits, StreamBits, StreamMeaning, At, Blocks;
    StreamIsRead(blocks, stream, 0, EMPTY);
  }

  /** A stored block, where the block before it ends at a byte boundary. */
  lemma StoredFits(b: Block, p: nat, o: Sink)
    requires b.Stored? && |b.data| < 0x1_0000 && |b.pad| == 5 && p % 8 == 0
    ensures BlockFits(b, p + 3, o) && Meaning(b, p + 3, o) == Grow(o, o.bytes + b.data)
    ensures |BlockBits(b, p + 3, o)| == 37 + 8 * |b.data|
  {
    hide FieldBits, BytesBits;
  }

  lemma TwoStoredBlocks(b: Block, c: Block)
    requires b.Stored? && |b.data| < 0x1_0000 && |b.pad| == 5
    requires c.Stored? && |c.data| < 0x1_0000 && |c.pad| == 5
    ensures StreamFits([b, c], 0, EMPTY)
    ensures StreamMeaning([b, c], 0, EMPTY) == Grow(Grow(EMPTY, b.data), b.data + c.data)
  {
    hide BlockFits, BlockBits, Meaning;
    StoredFits(b, 0, EMPTY);
    assert [] + b.data == b.data;
    StoredFits(c, 40 + 8 * |b.data|, Grow(EMPTY, b.data));
    assert [b, c][1..] == [c];
  }

  /** A font header that declares ten bytes. */
  function HeaderOfTen(): seq<Byte> {
    [0x53, 0x46, 0x4E, 0, 10, 0, 0, 0]
  }

  /** Well-formed data for which the buffer grows and still has no room: behind the header, three
    * bytes are stored at once, and the last one is written past the end. */
  lemma OverlongIsUndecided()
    ensures var blocks := [Stored([0, 0, 0, 0, 0], HeaderOfTen()), Stored([0, 0, 0, 0, 0], [1, 2, 3])];
            && StreamFits(blocks, 0, EMPTY)
            && var m := StreamMeaning(blocks, 0, EMPTY);
               m.bytes == HeaderOfTen() + [1, 2, 3] && FontMagic(m.bytes) && Declared(m.bytes) == 10 && !Fits(m) &&
                 !Denied(m)
  {
    hide StreamFits, StreamMeaning;
    TwoStoredBlocks(Stored([0, 0, 0, 0, 0], HeaderOfTen()), Stored([0, 0, 0, 0, 0], [1, 2, 3]));
  }
}
