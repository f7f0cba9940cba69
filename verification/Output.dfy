/** The decompressor's output buffer (`zout`, `zout_start`, `zout_end` in
  * kernel/source/ssfn.h:542-544): its one growth (lines 600-617) and the byte copies into it
  * (lines 646-652, 729-730).
  */
module Output {
  import opened Bits
  import opened Rfc1951

  /** The size field of a font header: bytes 4 to 7, least significant first. */
  function Declared(b: seq<Byte>): nat
    requires |b| >= 8
  {
    b[4] as int + 0x100 * b[5] as int + 0x1_0000 * b[6] as int + 0x100_0000 * b[7] as int
  }

  predicate FontMagic(b: seq<Byte>)
    requires |b| >= 8
  {
    b[0] == 0x53 && b[1] == 0x46 && b[2] == 0x4E
  }

  /** The output fits the buffer: if longer than 8 bytes, it begins with a font header whose
    * declared size covers all of it, and that header was complete when the buffer grew. */
  predicate Fits(o: Sink) {
    |o.bytes| <= 8 || (o.from == 8 && FontMagic(o.bytes) && |o.bytes| <= Declared(o.bytes))
  }

  /** The buffer is denied to the output: the header is not that of a font, or its size covers what
    * took the output beyond 8 bytes but not all of it. */
  predicate Denied(o: Sink) {
    |o.bytes| > 8 &&
    if FontMagic(o.bytes) then o.from == 8 && o.to <= Declared(o.bytes) < |o.bytes| else o.from >= 3
  }

  /** Output that is decided either way was so at every earlier point. */
  lemma DecidedBefore(o: Sink, o': Sink)
    requires Extends(o, o') && (Fits(o') || Denied(o'))
    ensures Fits(o) || Denied(o)
  {
  }

  class Buffer {
    var start: array<Byte>  // zout_start, up to zout_end
    var zout: nat           // zout, as an index

    constructor ()
      ensures fresh(start) && start.Length == 8 && zout == 0
    {
      start := new Byte[8];
      zout := 0;
    }

    /** The first n bytes of the buffer are those of o, and the buffer has one of its two sizes. */
    ghost predicate Holds(o: Sink, n: nat)
      reads this, start
    {
      && n == |o.bytes| <= start.Length && start[..n] == o.bytes
      && (start.Length != 8 ==> n >= 8 && FontMagic(o.bytes) && start.Length == Declared(o.bytes))
    }

    /** `_ssfn__zexpand`: replaces an 8-byte buffer by one of the size its contents declare.
      * Allocation is taken to succeed. */
    method Expand(n: nat) returns (ok: bool)
      modifies this
      ensures ok <==> old(start.Length) == 8 && FontMagic(old(start[..]))
      ensures zout == n && (ok ==> fresh(start) && start.Length == Declared(old(start[..])))
      ensures ok ==> forall k | 0 <= k < 8 && k < start.Length :: start[k] == old(start[k])
      ensures !ok ==> start == old(start)
    {
      zout := n;
      if start.Length != 8 || start[0] != 0x53 || start[1] != 0x46 || start[2] != 0x4E {
        return false;
      }
      assert start[..][4] == start[4] && start[..][5] == start[5];
      var limit :=
        start[4] as int + 0x100 * start[5] as int + 0x1_0000 * start[6] as int + 0x100_0000 * start[7] as int;
      var q := new Byte[limit];
      var k := 0;
      while k < 8 && k < limit
        invariant 0 <= k <= 8 && k <= limit
        invariant start == old(start) && zout == n && start[..] == old(start[..])
        invariant forall j | 0 <= j < k :: q[j] == start[j]
      {
        q[k] := start[k];
        k := k + 1;
      }
      start := q;
      return true;
    }

    /** The test before every write of len bytes, which take `o` to `next`.  The buffer grows if they
      * do not fit 8 bytes; from inside the header it does so by what happens to be in it.  Grown
      * behind a complete header it has room for them iff the declared size covers them.  Output
      * that fits, or that the buffer is denied to, finds room or fails. */
    method MakeRoom(len: nat, ghost o: Sink, ghost next: Sink) returns (ok: bool)
      requires Holds(o, zout) && next == Grow(o, next.bytes) && Extends(o, next) && |next.bytes| == zout + len
      modifies this
      ensures zout == old(zout) && (start == old(start) || (ok && fresh(start) && old(start.Length) == 8))
      ensures start == old(start) && ok <==> zout + len <= old(start.Length)
      ensures old(start.Length) == 8 && zout >= 3 && zout + len > 8 ==> (ok <==> FontMagic(next.bytes))
      ensures ok && zout == old(start.Length) == 8 && len > 0 ==>
                && start.Length == Declared(next.bytes)
                && (zout + len <= start.Length <==> |next.bytes| <= Declared(next.bytes))
      ensures Fits(next) || Denied(next) ==> (ok <==> !Denied(next))
      ensures (Fits(next) || Denied(next)) && ok ==>
                && Holds(o, zout) && zout + len <= start.Length && (start == old(start) || start.Length > 8)
                && (start.Length != 8 ==>
                      zout + len >= 8 && FontMagic(next.bytes) && start.Length == Declared(next.bytes))
    {
      if zout + len > start.Length {
        ghost var before := start[..];
        assert next.bytes[..zout] == o.bytes;
        assert start.Length != 8 ==> Declared(next.bytes) == start.Length && FontMagic(next.bytes);
        assert start.Length == 8 && zout >= 3 ==> FontMagic(before) == FontMagic(next.bytes);
        assert start.Length == 8 && zout == 8 ==> before == o.bytes && Declared(before) == Declared(next.bytes);
        ok := Expand(zout);
        assert ok && zout == 8 <= start.Length ==> start[..zout] == before;
        return ok;
      }
      return true;
    }

    /** Writes one literal byte. */
    method PutLiteral(b: Byte, ghost o: Sink, ghost next: Sink)
      requires Holds(o, zout) && next.bytes == o.bytes + [b] && zout < start.Length
      requires start.Length != 8 ==> zout + 1 >= 8 && FontMagic(next.bytes) && start.Length == Declared(next.bytes)
      modifies this`zout, start
      ensures start == old(start) && Holds(next, zout)
    {
      start[zout] := b;
      zout := zout + 1;
    }

    /** Copies len bytes from dist places back; a distance of one is a fill. */
    method CopyBack(len: nat, dist: nat, ghost o: Sink, ghost next: Sink)
      requires Holds(o, zout) && 1 <= dist <= zout && zout + len <= start.Length
      requires next.bytes == CopyMatch(o.bytes, len, dist)
      requires start.Length != 8 ==> zout + len >= 8 && FontMagic(next.bytes) && start.Length == Declared(next.bytes)
      modifies this`zout, start
      ensures start == old(start) && Holds(next, zout)
    {
      if dist == 1 {
        Fill(start[zout - 1], len, next.bytes);
      } else {
        Copy(zout - dist, len, dist, next.bytes);
      }
    }

    /** The loop for a distance of one. */
    method Fill(v: Byte, len: nat, ghost next: seq<Byte>)
      requires 1 <= zout && zout + len <= start.Length && v == start[zout - 1]
      requires next == CopyMatch(start[..zout], len, 1)
      modifies this`zout, start
      ensures start == old(start) && zout == old(zout) + len && start[..zout] == next
    {
      var left := len;
      while left > 0
        invariant 1 <= zout && zout + left == old(zout) + len && start[zout - 1] == v
        invariant CopyMatch(start[..zout], left, 1) == next
      {
        ghost var done := start[..zout];
        start[zout] := v;
        zout := zout + 1;
        left := left - 1;
        assert start[..zout] == done + [done[|done| - 1]];
      }
    }

    /** The loop for any other distance, which may read bytes it has just written. */
    method Copy(from: nat, len: nat, ghost dist: nat, ghost next: seq<Byte>)
      requires 1 <= dist <= zout && from == zout - dist && zout + len <= start.Length
      requires next == CopyMatch(start[..zout], len, dist)
      modifies this`zout, start
      ensures start == old(start) && zout == old(zout) + len && start[..zout] == next
    {
      var p, left := from, len;
      while left > 0
        invariant p == zout - dist && zout + left == old(zout) + len
        invariant CopyMatch(start[..zout], left, dist) == next
      {
        ghost var done := start[..zout];
        start[zout] := start[p];
        zout := zout + 1;
        p := p + 1;
        left := left - 1;
        assert start[..zout] == done + [done[|done| - dist]];
      }
    }

    /** Copies stored bytes. */
    method PutStored(data: seq<Byte>, ghost o: Sink, ghost next: Sink)
      requires Holds(o, zout) && next.bytes == o.bytes + data && zout + |data| <= start.Length
      requires start.Length != 8 ==> zout + |data| >= 8 && FontMagic(next.bytes) && start.Length == Declared(next.bytes)
      modifies this`zout, start
      ensures start == old(start) && Holds(next, zout)
    {
      var k := 0;
      while k < |data|
        invariant 0 <= k <= |data| && zout == old(zout)
        invariant start[..zout] == o.bytes
        invariant start[zout..zout + k] == data[..k]
      {
        start[zout + k] := data[k];
        k := k + 1;
      }
      assert start[..zout + |data|] == start[..zout] + start[zout..zout + |data|];
      assert data[..|data|] == data;
      zout := zout + |data|;
    }
  }

  lemma HoldsNotDenied(b: Buffer, o: Sink)
    requires b.Holds(o, b.zout)
    ensures !Denied(o)
  {
  }
}
