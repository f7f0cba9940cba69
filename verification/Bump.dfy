/** Bump allocation (kernel/source/alloc/physical.cpp:105-118, 192-233) as a function of the
  * head, and what holds of every run of requests. */
module Bump {
  import opened Bits
  import opened Common
  import opened Memory

  const ALIGNED_HEADER := 14  // sizeof(mem_aligned_block)

  datatype Request = Plain(bytes: nat) | Aligned(bytes: nat, alignment: nat)

  ghost predicate Null(r: Request) {
    r.bytes == 0 || (r.Aligned? && r.alignment == 0)
  }

  /** A value converted to a 32-bit signed integer. */
  function ToInt32(v: nat): int {
    var w := v % WORD32;
    if w < 0x8000_0000 then w else w - WORD32
  }

  /** The next multiple of the alignment. */
  function AlignUp(h: nat, alignment: nat): nat
    requires alignment > 0
  {
    if h % alignment == 0 then h else h + (alignment - h % alignment)
  }

  /** The address that is returned; 0 is null. */
  ghost function Granted(h: nat, r: Request): nat {
    if Null(r) then 0
    else match r
         case Plain(_) => h + HEADER
         case Aligned(_, alignment) => AlignUp(h, alignment)
  }

  ghost function HeadAfter(h: nat, r: Request): int {
    if Null(r) then h
    else match r
         case Plain(bytes) => h + HEADER + bytes
         case Aligned(bytes, alignment) => AlignUp(h, alignment) + ToInt32(bytes + ALIGNED_HEADER)
  }

  /** The bookkeeping bytes that a request writes: a header before a plain block, a trailer
    * behind an aligned one, at an address computed before the block is aligned. */
  ghost function WrittenFrom(h: nat, r: Request): nat {
    match r
    case Plain(_) => h
    case Aligned(bytes, _) => h + bytes
  }

  ghost function WrittenTo(h: nat, r: Request): nat {
    match r
    case Plain(_) => h + HEADER
    case Aligned(bytes, _) => h + bytes + ALIGNED_HEADER
  }

  ghost predicate Alloqued(begin: nat, head: nat, ptr: nat) {
    ptr > begin && head > ptr
  }

  /** The head passes an aligned block iff its size survives the conversion to `int`. */
  lemma AlignedBlockCovered(h: nat, r: Request)
    requires r.Aligned? && !Null(r)
    ensures HeadAfter(h, r) >= Granted(h, r) + r.bytes <==> r.bytes + 14 < 0x8000_0000
    ensures r.bytes + 14 < 0x8000_0000 ==> HeadAfter(h, r) == Granted(h, r) + r.bytes + 14
  {
    var v := r.bytes + ALIGNED_HEADER;
    if v >= WORD32 {
      assert v % WORD32 < WORD32;
    }
  }

  /** The head never moves further than the request and its alignment. */
  lemma HeadAfterBelow(h: nat, bytes: nat, alignment: nat)
    requires bytes > 0 && alignment > 0
    ensures HeadAfter(h, Aligned(bytes, alignment)) <= h + alignment + bytes + ALIGNED_HEADER
    ensures bytes + ALIGNED_HEADER < 0x8000_0000 ==> h <= HeadAfter(h, Aligned(bytes, alignment))
  {
    var v := bytes + ALIGNED_HEADER;
    assert v % WORD32 <= v;
  }

  /** The trailer stands right behind the block, where `pm::AlignedFree` looks for it, iff the head
    * was aligned already. */
  lemma TrailerInPlace(h: nat, r: Request)
    requires r.Aligned? && !Null(r)
    ensures WrittenFrom(h, r) == Granted(h, r) + r.bytes <==> h % r.alignment == 0
  {
  }

  /** The trailer misses the block itself iff the head was aligned or block and trailer fit into
    * the gap that aligning leaves. */
  lemma TrailerMissesBlock(h: nat, r: Request)
    requires r.Aligned? && !Null(r)
    ensures WrittenTo(h, r) <= Granted(h, r) || Granted(h, r) + r.bytes <= WrittenFrom(h, r)
            <==> h % r.alignment == 0 || r.alignment - h % r.alignment >= r.bytes + 14
  {
  }

  /** A page table is never missed: with the head at an unaligned address, its trailer and the
    * table share bytes. */
  lemma PageTableHit(h: nat)
    requires h % 4096 != 0
    ensures var r := Aligned(4096, 4096);
            WrittenFrom(h, r) < Granted(h, r) + r.bytes && Granted(h, r) < WrittenTo(h, r)
  {
  }

  /** Every aligned request is small enough for that. */
  ghost predicate Small(rs: seq<Request>) {
    forall i | 0 <= i < |rs| :: rs[i].Aligned? ==> rs[i].bytes + ALIGNED_HEADER < 0x8000_0000
  }

  lemma OneRequest(h: nat, r: Request)
    requires r.Aligned? ==> r.bytes + ALIGNED_HEADER < 0x8000_0000
    ensures h <= HeadAfter(h, r)
    ensures !Null(r) ==> h <= Granted(h, r) && Granted(h, r) + r.bytes <= HeadAfter(h, r)
    ensures !Null(r) ==> h <= WrittenFrom(h, r) && WrittenTo(h, r) <= HeadAfter(h, r)
    ensures !Null(r) && r.Plain? ==> h < Granted(h, r) && WrittenTo(h, r) <= Granted(h, r)
    ensures !Null(r) && r.Aligned? ==> Granted(h, r) % r.alignment == 0
  {
    if !Null(r) && r.Aligned? {
      AlignUpIsMultiple(h, r.alignment);
    }
  }

  lemma AlignUpIsMultiple(h: nat, a: nat)
    requires a > 0
    ensures AlignUp(h, a) % a == 0 && h <= AlignUp(h, a) < h + a
  {
    if h % a != 0 {
      var q := h / a;
      assert h == q * a + h % a;
      assert AlignUp(h, a) == q * a + a == (q + 1) * a;
      MultipleMod(q + 1, a);
    }
  }

  lemma {:induction false} MultipleMod(q: nat, a: nat)
    requires a > 0
    ensures (q * a) % a == 0
  {
    if q > 0 {
      MultipleMod(q - 1, a);
      assert q * a == (q - 1) * a + a;
      AddMod((q - 1) * a, a);
    }
  }

  lemma AddMod(x: nat, a: nat)
    requires a > 0
    ensures (x + a) % a == x % a
  {
    var q, r := x / a, x % a;
    assert x + a == (q + 1) * a + r;
    ModIs(x + a, q + 1, a, r);
  }

  // ---------- runs ----------

  /** The head after the first n requests of a run. */
  ghost function HeadAt(h: nat, rs: seq<Request>, n: nat): (r: nat)
    requires n <= |rs| && Small(rs)
    ensures r >= h
  {
    if n == 0 then h
    else
      OneRequest(HeadAt(h, rs, n - 1), rs[n - 1]);
      HeadAfter(HeadAt(h, rs, n - 1), rs[n - 1])
  }

  lemma {:induction false} HeadMonotone(h: nat, rs: seq<Request>, m: nat, n: nat)
    requires m <= n <= |rs| && Small(rs)
    ensures HeadAt(h, rs, m) <= HeadAt(h, rs, n)
    decreases n
  {
    if m < n {
      HeadMonotone(h, rs, m, n - 1);
      OneRequest(HeadAt(h, rs, n - 1), rs[n - 1]);
    }
  }

  /** The address that request i of a run returns. */
  ghost function PtrAt(h: nat, rs: seq<Request>, i: nat): nat
    requires i < |rs| && Small(rs)
  {
    Granted(HeadAt(h, rs, i), rs[i])
  }

  /** In every run: the ranges handed out lie between the first and the last head; a later
    * request neither hands out nor writes a byte of an earlier range; and aligned ranges start
    * at multiples of their alignment. */
  lemma RunsAreSafe(h: nat, rs: seq<Request>, i: nat, j: nat)
    requires Small(rs) && i < j < |rs| && !Null(rs[i]) && !Null(rs[j])
    ensures h <= PtrAt(h, rs, i) && PtrAt(h, rs, j) + rs[j].bytes <= HeadAt(h, rs, |rs|)
    ensures PtrAt(h, rs, i) + rs[i].bytes <= PtrAt(h, rs, j)
    ensures PtrAt(h, rs, i) + rs[i].bytes <= WrittenFrom(HeadAt(h, rs, j), rs[j])
    ensures rs[i].Aligned? ==> PtrAt(h, rs, i) % rs[i].alignment == 0
  {
    OneRequest(HeadAt(h, rs, i), rs[i]);
    OneRequest(HeadAt(h, rs, j), rs[j]);
    HeadMonotone(h, rs, i + 1, j);
    HeadMonotone(h, rs, j + 1, |rs|);
  }

  /** Request i is the first one of the run that takes anything, and it is aligned just where
    * memory begins. */
  ghost predicate AtBeginning(begin: nat, rs: seq<Request>, i: nat)
    requires i < |rs|
  {
    && rs[i].Aligned? && rs[i].alignment > 0 && begin % rs[i].alignment == 0
    && forall j | 0 <= j < i :: Null(rs[j])
  }

  /** The head stays where it is as long as nothing is taken. */
  lemma {:induction false} HeadUnmoved(h: nat, rs: seq<Request>, n: nat)
    requires n <= |rs| && Small(rs)
    ensures HeadAt(h, rs, n) == h <==> forall j | 0 <= j < n :: Null(rs[j])
  {
    if n > 0 {
      HeadUnmoved(h, rs, n - 1);
      OneRequest(HeadAt(h, rs, n - 1), rs[n - 1]);
      assert !Null(rs[n - 1]) ==> HeadAfter(HeadAt(h, rs, n - 1), rs[n - 1]) > HeadAt(h, rs, n - 1);
    }
  }

  /** After any further requests, a returned pointer counts as allocated iff its request was not
    * the first one, aligned at the beginning of memory. */
  lemma PointersStayAlloqued(begin: nat, rs: seq<Request>, i: nat, n: nat)
    requires Small(rs) && i < n <= |rs| && !Null(rs[i])
    ensures Alloqued(begin, HeadAt(begin, rs, n), PtrAt(begin, rs, i)) <==> !AtBeginning(begin, rs, i)
  {
    OneRequest(HeadAt(begin, rs, i), rs[i]);
    HeadMonotone(begin, rs, i + 1, n);
    HeadUnmoved(begin, rs, i);
  }

  /** Such an aligned allocation. */
  lemma FirstAlignedIsNotAlloqued(begin: nat, alignment: nat)
    requires alignment > 0 && begin % alignment == 0
    ensures var rs := [Aligned(1, alignment)];
            Small(rs) && PtrAt(begin, rs, 0) == begin && !Alloqued(begin, HeadAt(begin, rs, 1), PtrAt(begin, rs, 0))
  {
    var rs := [Aligned(1, alignment)];
    assert HeadAt(begin, rs, 0) == begin;
  }
}
