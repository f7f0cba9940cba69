/** Run-length packets (kernel/source/ssfn.h): a byte with the top bit set repeats the next byte,
  * one without copies the bytes after it; its low seven bits are the count less one.  The pixmap
  * loader unpacks all of it (lines 1187-1194); kerning looks up one position (lines 1354-1360). */
module Packets {
  import opened Bits

  function Count(b: Byte): nat {
    b % 128 + 1
  }

  function Width(b: Byte): nat {
    if b >= 128 then 2 else 1 + Count(b)
  }

  /** From place i on, the data are whole packets. */
  ghost predicate Whole(d: seq<Byte>, i: nat)
    decreases |d| - i
  {
    i == |d| || (i < |d| && i + Width(d[i]) <= |d| && Whole(d, i + Width(d[i])))
  }

  /** What the packets from place i on stand for. */
  ghost function Unpacked(d: seq<Byte>, i: nat): seq<Byte>
    requires Whole(d, i)
    decreases |d| - i
  {
    if i == |d| then [] else PacketAt(d, i) + Unpacked(d, i + Width(d[i]))
  }

  ghost function PacketAt(d: seq<Byte>, i: nat): (r: seq<Byte>)
    requires i < |d| && i + Width(d[i]) <= |d|
    ensures |r| == Count(d[i])
  {
    if d[i] >= 128 then seq(Count(d[i]), _ => d[i + 1]) else d[i + 1..i + 1 + Count(d[i])]
  }

  lemma FirstPacket(d: seq<Byte>, i: nat)
    requires Whole(d, i) && i < |d|
    ensures i + Width(d[i]) <= |d| && Whole(d, i + Width(d[i]))
    ensures Unpacked(d, i) == PacketAt(d, i) + Unpacked(d, i + Width(d[i]))
  {
  }

  /** A byte from 128 on repeats the next byte that many times less 127; a smaller one copies that many
    * bytes and one more. */
  lemma PacketNumbers(d: seq<Byte>, i: nat)
    requires Whole(d, i) && i < |d|
    ensures d[i] >= 128 ==>
              && i + 2 <= |d| && Whole(d, i + 2)
              && Unpacked(d, i) == seq(d[i] - 127, _ => d[i + 1]) + Unpacked(d, i + 2)
    ensures d[i] < 128 ==>
              && i + 2 + d[i] <= |d| && Whole(d, i + 2 + d[i])
              && Unpacked(d, i) == d[i + 1..i + 2 + d[i]] + Unpacked(d, i + 2 + d[i])
  {
    hide Whole, Unpacked;
    FirstPacket(d, i);
  }

  lemma NoPacket(d: seq<Byte>)
    ensures Whole(d, |d|) && Unpacked(d, |d|) == []
  {
  }

  /** The unpacking loop: fills `dec` from the packets in d. */
  method Unpack(d: seq<Byte>, dec: array<Byte>) returns (n: nat)
    requires Whole(d, 0) && |Unpacked(d, 0)| <= dec.Length
    modifies dec
    ensures n == |Unpacked(d, 0)| && dec[..n] == Unpacked(d, 0)
  {
    hide And, Whole, Unpacked, PacketAt;
    ghost var all := Unpacked(d, 0);
    WholeInside(d, 0);
    NoPacket(d);
    var frg := 0;
    n := 0;
    while frg < |d|
      invariant 0 <= frg <= |d| && Whole(d, frg)
      invariant n <= |all| && dec[..n] + Unpacked(d, frg) == all
      decreases |d| - frg
    {
      ghost var before := dec[..n];
      FirstPacket(d, frg);
      var l, frg' := UnpackOne(d, frg, dec, n);
      assert before + (PacketAt(d, frg) + Unpacked(d, frg')) == (before + PacketAt(d, frg)) + Unpacked(d, frg');
      frg, n := frg', n + l;
    }
  }

  lemma WholeInside(d: seq<Byte>, i: nat)
    requires Whole(d, i)
    ensures i <= |d|
  {
  }

  /** One iteration of the unpacking loop. */
  method UnpackOne(d: seq<Byte>, frg: nat, dec: array<Byte>, n: nat) returns (l: nat, next: nat)
    requires frg < |d| && frg + Width(d[frg]) <= |d| && n + Count(d[frg]) <= dec.Length
    modifies dec
    ensures l == Count(d[frg]) && next == frg + Width(d[frg])
    ensures dec[..n + l] == old(dec[..n]) + PacketAt(d, frg)
  {
    hide And;
    ByteFields(d[frg]);
    l := And(d[frg], 0x7F) + 1;
    next := frg + 1;
    if And(d[frg], 0x80) != 0 {
      FillRun(dec, n, l, d[next]);
      next := next + 1;
    } else {
      CopyRun(dec, n, d[next..next + l]);
      next := next + l;
    }
    assert dec[..n + l] == dec[..n] + dec[n..n + l];
  }

  method FillRun(dec: array<Byte>, n: nat, l: nat, v: Byte)
    requires n + l <= dec.Length
    modifies dec
    ensures dec[..n] == old(dec[..n]) && dec[n..n + l] == seq(l, _ => v)
  {
    var k := 0;
    while k < l
      invariant 0 <= k <= l && dec[..n] == old(dec[..n]) && forall j | n <= j < n + k :: dec[j] == v
    {
      dec[n + k] := v;
      k := k + 1;
    }
  }

  method CopyRun(dec: array<Byte>, n: nat, v: seq<Byte>)
    requires n + |v| <= dec.Length
    modifies dec
    ensures dec[..n] == old(dec[..n]) && dec[n..n + |v|] == v
  {
    var k := 0;
    while k < |v|
      invariant 0 <= k <= |v| && dec[..n] == old(dec[..n]) && forall j | n <= j < n + k :: dec[j] == v[j - n]
    {
      dec[n + k] := v[k];
      k := k + 1;
    }
  }

  /** The kerning loop: the byte at one position, without unpacking. */
  method Lookup(d: seq<Byte>, position: nat) returns (v: Byte)
    requires Whole(d, 0) && position < |Unpacked(d, 0)|
    ensures v == Unpacked(d, 0)[position]
  {
    hide And, Whole, Unpacked;
    NoPacket(d);
    WholeInside(d, 0);
    var tmp: nat, p: nat := 0, position;
    while true
      invariant tmp <= |d| && Whole(d, tmp)
      invariant p < |Unpacked(d, tmp)| && Unpacked(d, tmp)[p] == Unpacked(d, 0)[position]
      decreases |d| - tmp
    {
      FirstPacket(d, tmp);
      ByteFields(d[tmp]);
      if And(d[tmp], 0x7F) < p {
        p := p - (And(d[tmp], 0x7F) + 1);
        tmp := tmp + 2 + (if And(d[tmp], 0x80) != 0 then 0 else And(d[tmp], 0x7F));
      } else {
        return d[tmp + 1 + (if And(d[tmp], 0x80) != 0 then 0 else p)];
      }
    }
  }

  // ---------- packing ----------

  datatype Packet = Run(n: nat, v: Byte) | Literals(bytes: seq<Byte>)

  predicate PacketFits(p: Packet) {
    match p
    case Run(n, _) => 1 <= n <= 128
    case Literals(bytes) => 1 <= |bytes| <= 128
  }

  function PacketBytes(p: Packet): seq<Byte>
    requires PacketFits(p)
  {
    match p
    case Run(n, v) => [127 + n, v]
    case Literals(bytes) => [|bytes| - 1] + bytes
  }

  function PacketMeaning(p: Packet): seq<Byte> {
    match p
    case Run(n, v) => seq(n, _ => v)
    case Literals(bytes) => bytes
  }

  function Packed(ps: seq<Packet>): seq<Byte>
    requires forall k | 0 <= k < |ps| :: PacketFits(ps[k])
  {
    if |ps| == 0 then [] else PacketBytes(ps[0]) + Packed(ps[1..])
  }

  function Meaning(ps: seq<Packet>): seq<Byte> {
    if |ps| == 0 then [] else PacketMeaning(ps[0]) + Meaning(ps[1..])
  }

  /** Packets are read alike wherever they stand. */
  lemma {:induction false} UnpackedShift(head: seq<Byte>, d: seq<Byte>, i: nat)
    requires Whole(d, i) && i <= |d|
    ensures Whole(head + d, |head| + i) && Unpacked(head + d, |head| + i) == Unpacked(d, i)
    decreases |d| - i
  {
    if i < |d| {
      PacketShift(head, d, i);
      UnpackedShift(head, d, i + Width(d[i]));
      hide PacketAt;
    }
  }

  lemma PacketShift(head: seq<Byte>, d: seq<Byte>, i: nat)
    requires i < |d| && i + Width(d[i]) <= |d|
    ensures (head + d)[|head| + i] == d[i] && PacketAt(head + d, |head| + i) == PacketAt(d, i)
  {
    assert (head + d)[|head| + i + 1..] == d[i + 1..];
  }

  /** Every packet list is unpacked to what it means; so, by the contracts of Unpack and Lookup,
    * full expansion and random access agree on it at every position. */
  lemma {:induction false} PackedIsUnpacked(ps: seq<Packet>)
    requires forall k | 0 <= k < |ps| :: PacketFits(ps[k])
    ensures Whole(Packed(ps), 0) && Unpacked(Packed(ps), 0) == Meaning(ps)
    decreases |ps|
  {
    if |ps| > 0 {
      var head, d := PacketBytes(ps[0]), Packed(ps[1..]);
      PackedIsUnpacked(ps[1..]);
      FirstPacketRead(ps[0], d);
      hide PacketAt, PacketBytes, PacketMeaning, PacketFits;
      UnpackedShift(head, d, 0);
      WholeFrom(head + d, |head|);
    } else {
      NoPacket(Packed(ps));
    }
  }

  lemma FirstPacketRead(p: Packet, d: seq<Byte>)
    requires PacketFits(p)
    ensures var all := PacketBytes(p) + d;
            |PacketBytes(p)| == Width(all[0]) && PacketAt(all, 0) == PacketMeaning(p)
  {
    var head := PacketBytes(p);
    assert (head + d)[0] == head[0];
    if p.Literals? {
      assert (head + d)[1..1 + |p.bytes|] == p.bytes;
    }
  }

  lemma WholeFrom(d: seq<Byte>, w: nat)
    requires 0 < w <= |d| && w == Width(d[0]) && Whole(d, w)
    ensures Whole(d, 0) && Unpacked(d, 0) == PacketAt(d, 0) + Unpacked(d, w)
  {
  }
}
