/** The kernel's physical allocator (kernel/source/alloc/physical.cpp): bump allocation, and a
  * first-fit free list with splitting.  Addresses are indices into `mem`; 0 is null. */
module Physical {
  import opened Bits
  import opened Common
  import opened Memory
  import opened FreeList
  import opened Bump
  import opened Heap

  const GLOBAL := 40  // sizeof(mem_global)

  /** A result as a 64-bit unsigned value. */
  function Wrap64(x: int): nat {
    x % WORD64
  }

  /** a - b on 64-bit unsigned values. */
  function Sub64(a: nat, b: nat): nat {
    if b <= a then a - b else Wrap64(a - b)
  }

  class Allocator {
    const mem: array<Byte>
    const begin: nat          // the address of mem_global
    var freeList: nat
    var head: nat
    var allocatedSize: nat
    var length: nat

    ghost predicate Valid()
      reads this, mem
    {
      && mem.Length < WORD64 && begin + GLOBAL <= head <= mem.Length
    }

    /** The free list is `nodes`, and the free blocks lie apart. */
    ghost predicate Free(nodes: seq<nat>)
      reads this, mem
    {
      IsList(mem[..], freeList, nodes) && Apart(mem[..], nodes)
    }

    /** Memory and the free list as a value. */
    ghost function Now(nodes: seq<nat>): Heap
      reads this, mem
    {
      Heap(mem[..], freeList, head, nodes)
    }

    /** `pm::Create`. */
    constructor (mem: array<Byte>, begin: nat, size: nat)
      requires begin + GLOBAL <= mem.Length < WORD64
      ensures this.mem == mem && this.begin == begin
      ensures Valid() && Free([]) && freeList == 0 && Sound(State(Now([]), []))
      ensures head == begin + 40 && allocatedSize == 0 && length == size
    {
      this.mem := mem;
      this.begin := begin;
      freeList, head, allocatedSize, length := 0, begin + GLOBAL, 0, size;
    }

    /** Stores an n-byte word. */
    method Poke(a: nat, n: nat, v: nat)
      requires a + n <= mem.Length
      modifies mem
      ensures mem[..] == Store(old(mem[..]), a, n, v)
    {
      ghost var all := Store(mem[..], a, n, v);
      var i, w := 0, v;
      while i < n
        invariant 0 <= i <= n && Store(mem[..], a + i, n - i, w) == all
      {
        ghost var before := mem[..];
        mem[a + i] := w % 256;
        assert mem[..] == before[a + i := w % 256];
        i, w := i + 1, w / 256;
      }
    }

    method PokeNext(a: nat, v: nat)
      requires a + HEADER <= mem.Length
      modifies mem
      ensures mem[..] == SetNext(old(mem[..]), a, v)
    {
      Poke(a, 8, v);
    }

    method PokeSize(a: nat, v: nat)
      requires a + HEADER <= mem.Length
      modifies mem
      ensures mem[..] == SetSize(old(mem[..]), a, v)
    {
      Poke(a + 8, 4, v);
    }

    method PeekSize(a: nat) returns (v: nat)
      requires a + HEADER <= mem.Length
      ensures v == Size(mem[..], a)
    {
      v := Peek(a + 8, 4);
    }

    method Peek(a: nat, n: nat) returns (v: nat)
      requires a + n <= mem.Length
      ensures v == Load(mem[..], a, n)
    {
      v := Load(mem[..], a, n);
    }

    /** `TraverseAppend`: links `item` behind the last node of the list that starts at `first`. */
    method TraverseAppend(first: nat, item: nat, ghost nodes: seq<nat>)
      requires IsList(mem[..], first, nodes) && HeadersApart(nodes + [item], mem.Length)
      requires 0 < item < WORD64
      modifies mem
      ensures |nodes| == 0 ==> mem[..] == old(mem[..])
      ensures |nodes| > 0 ==> IsList(mem[..], first, nodes + [item])
      ensures SameSizes(old(mem[..]), mem[..], nodes + [item]) && OnlyHeaders(old(mem[..]), mem[..], nodes + [item])
    {
      if first == 0 {
        ListHasHeaders(mem[..], first, nodes);
        return;
      }
      assert |nodes| > 0;
      hide Load, IsList;
      ghost var M, all, n := mem[..], nodes + [item], |nodes|;
      ListStart(M, first, nodes);
      ListHasHeaders(M, first, nodes);
      var tmp := first;
      ghost var i := 0;
      ListLinks(M, first, nodes, 0);
      var next := Peek(tmp, 8);
      while next != 0
        invariant 0 <= i < n && tmp == nodes[i] && mem[..] == M && next == Next(M, tmp)
        decreases n - i
      {
        ListLinks(M, first, nodes, i);
        tmp := next;
        i := i + 1;
        next := Peek(tmp, 8);
      }
      ListLinks(M, first, nodes, i);
      assert i == n - 1;
      assert all[n - 1] == tmp && all[n] == item;
      LinkWritten(M, all, n - 1, item);
      PokeNext(tmp, item);
      ghost var M1 := mem[..];
      LinkWritten(M1, all, n, 0);
      PokeNext(item, 0);
      AppendedList(M, M1, mem[..], first, nodes, item);
    }

    /** `TraverseAndRemove`: unlinks node k. */
    method TraverseAndRemove(item: nat, ghost nodes: seq<nat>, ghost k: nat)
      requires IsList(mem[..], freeList, nodes) && HeadersApart(nodes, mem.Length) && mem.Length < WORD64
      requires k < |nodes| && item == nodes[k]
      modifies this`freeList, mem
      ensures IsList(mem[..], freeList, Without(nodes, k))
      ensures SameSizes(old(mem[..]), mem[..], nodes) && OnlyHeaders(old(mem[..]), mem[..], nodes)
    {
      hide Load, IsList;
      ghost var M := mem[..];
      ListStart(M, freeList, nodes);
      ListHasHeaders(M, freeList, nodes);
      if item == freeList {
        assert k == 0;
        ListLinks(M, freeList, nodes, 0);
        assert Without(nodes, 0) == nodes[1..];
        freeList := Peek(freeList, 8);
        return;
      }
      var tmp, oldtmp := freeList, 0;
      ghost var i := 0;
      while tmp != 0
        invariant 0 <= i <= k && tmp == nodes[i] && (i > 0 ==> oldtmp == nodes[i - 1])
        invariant mem[..] == M && freeList == old(freeList)
        decreases k - i
      {
        ListLinks(M, freeList, nodes, i);
        var next := Peek(tmp, 8);
        if tmp == item {
          assert i == k;
          LinkWritten(M, nodes, i - 1, next);
          PokeNext(oldtmp, next);
          UnlinkedList(M, mem[..], freeList, nodes, k);
          return;
        }
        oldtmp := tmp;
        tmp := next;
        i := i + 1;
      }
    }

    /** `SplitBlocks`: shrinks a block by `nblocks` bytes and appends a block of that size, whose
      * header stands at `nblock`, to the free list. */
    method SplitBlocks(block: nat, nblock: nat, nblocks: nat, ghost nodes: seq<nat>, ghost k: nat)
      requires IsList(mem[..], freeList, nodes) && HeadersApart(nodes + [nblock], mem.Length) && mem.Length < WORD64
      requires nblock + HEADER <= mem.Length && forall i | 0 <= i < |nodes| :: nodes[i] + HEADER <= mem.Length
      requires k < |nodes| && block == nodes[k] && 0 < nblock && 0 < nblocks <= Size(mem[..], block)
      modifies mem
      ensures IsList(mem[..], freeList, nodes + [nblock]) && OnlyHeaders(old(mem[..]), mem[..], nodes + [nblock])
      ensures Size(mem[..], block) == Size(old(mem[..]), block) - nblocks && Size(mem[..], nblock) == nblocks
      ensures forall i | 0 <= i < |nodes| && i != k :: Size(mem[..], nodes[i]) == Size(old(mem[..]), nodes[i])
    {
      hide Load, IsList, SetNext, SetSize, Next, Size;
      ghost var M := mem[..];
      SizeFits(M, block);
      SplitMemoryFields(M, freeList, nodes, k, nblock, nblocks);
      var size := PeekSize(block);
      PokeSize(block, size - nblocks);
      PokeNext(nblock, 0);
      PokeSize(nblock, nblocks % WORD32);
      ghost var M3 := mem[..];
      TraverseAppend(freeList, nblock, nodes);
      SplitSizes(M, M3, mem[..], nodes, k, nblock, nblocks);
    }

    /** `LinklStratg`: takes the first block that fits, splitting what it does not need off it. */
    method LinklStratg(bytes: nat, ghost nodes: seq<nat>) returns (p: nat)
      requires mem.Length < WORD64 && Free(nodes) && |nodes| > 0 && bytes <= WORD64 - 13
      requires Splits(mem[..], nodes, bytes) ==> HEADER <= bytes
      modifies this`freeList, mem
      ensures Taken(old(mem[..]), mem[..], nodes, bytes)
      ensures IsList(mem[..], freeList, Remaining(old(mem[..]), nodes, bytes))
      ensures p == nodes[FirstFit(old(mem[..]), nodes, bytes)] + HEADER
    {
      hide Load, IsList, FirstFit, Sub64, Remaining, Taken;
      ghost var M := mem[..];
      ApartHeaders(M, nodes);
      ListStart(M, freeList, nodes);
      ListHasHeaders(M, freeList, nodes);
      var tmp := freeList;
      ghost var k := 0;
      ghost var list := nodes;
      ListLinks(M, freeList, nodes, 0);
      var next := Peek(tmp, 8);
      while next != 0
        invariant 0 <= k < |nodes| && tmp == nodes[k] && mem[..] == M && freeList == old(freeList)
        invariant next == Next(M, tmp)
        invariant forall i | 0 <= i < k :: Size(M, nodes[i]) < bytes
        decreases |nodes| - k
      {
        ListLinks(M, freeList, nodes, k);
        var size := Peek(tmp + 8, 4);
        SizeFits(M, tmp);
        Sub64Fits(size, bytes);
        if size == bytes || Sub64(size, bytes) < HEADER + 1 {
          break;
        }
        if size > bytes {
          FirstFitFound(M, nodes, bytes, k);
          RemainderApart(M, nodes, k, bytes);
          SplitBlocks(tmp, tmp + bytes, size - bytes, nodes, k);
          list := nodes + [tmp + bytes];
          break;
        }
        tmp := next;
        k := k + 1;
        next := Peek(tmp, 8);
      }
      ListLinks(M, old(freeList), nodes, k);
      FirstFitFound(M, nodes, bytes, k);
      Detach(M, tmp, nodes, bytes, list, k);
      p := tmp + HEADER;
    }

    /** The end of LinklStratg: unlinks the block that was found. */
    method Detach(ghost M: seq<Byte>, tmp: nat, ghost nodes: seq<nat>, ghost bytes: nat, ghost list: seq<nat>,
        ghost k: nat)
      requires |M| == mem.Length < WORD64 && Apart(M, nodes) && k < |nodes| && k == FirstFit(M, nodes, bytes) &&
               tmp == nodes[k]
      requires list == nodes + (if Splits(M, nodes, bytes) then [nodes[k] + bytes] else [])
      requires IsList(mem[..], freeList, list) && HeadersApart(list, mem.Length) && OnlyHeaders(M, mem[..], list)
      requires Size(mem[..], tmp) == if Splits(M, nodes, bytes) then bytes else Size(M, tmp)
      requires Splits(M, nodes, bytes) ==>
                 tmp + bytes + HEADER <= mem.Length && Size(mem[..], tmp + bytes) == Size(M, tmp) - bytes
      requires forall i | 0 <= i < |nodes| && i != k :: Size(mem[..], nodes[i]) == Size(M, nodes[i])
      modifies this`freeList, mem
      ensures Taken(M, mem[..], nodes, bytes) && IsList(mem[..], freeList, Remaining(M, nodes, bytes))
    {
      hide Load, IsList, FirstFit, Remaining, Taken, Splits, Size, Apart;
      ghost var M1 := mem[..];
      assert list[k] == tmp;
      TraverseAndRemove(tmp, list, k);
      ghost var M2 := mem[..];
      LinkWritten(M2, list, k, 0);
      PokeNext(tmp, 0);
      TakenAfter(M, M1, M2, mem[..], freeList, nodes, bytes, k, list);
    }

    /** `BumpStrtg`. */
    method BumpStrtg(bytes: nat) returns (p: nat)
      requires Valid() && head + HEADER + bytes <= mem.Length
      modifies this`head, this`allocatedSize, mem
      ensures Valid() && p == old(head) + HEADER && head == p + bytes
      ensures allocatedSize == Wrap64(old(allocatedSize) + bytes)
      ensures Next(mem[..], old(head)) == 0 && Size(mem[..], old(head)) == bytes % WORD32
      ensures OnlyHeaders(old(mem[..]), mem[..], [old(head)])
    {
      hide Load, Store;
      var oldHead := head;
      head := head + bytes + HEADER;
      allocatedSize := Wrap64(allocatedSize + bytes);
      ghost var M := mem[..];
      LinkWritten(M, [oldHead], 0, 0);
      PokeNext(oldHead, 0);
      SizeWritten(mem[..], [oldHead], 0, bytes % WORD32);
      OnlyHeadersTwice(M, SetNext(M, oldHead, 0), SetSize(SetNext(M, oldHead, 0), oldHead, bytes % WORD32), [oldHead]);
      PokeSize(oldHead, bytes % WORD32);
      p := oldHead + HEADER;
    }

    /** `pm::Alloc`. */
    method Alloc(bytes: nat, ghost nodes: seq<nat>) returns (p: nat)
      requires Valid() && Free(nodes)
      requires |nodes| == 0 ==> head + HEADER + bytes <= mem.Length
      requires |nodes| > 0 ==> bytes <= WORD64 - 13 && (Splits(mem[..], nodes, bytes) ==> HEADER <= bytes)
      modifies this`freeList, this`head, this`allocatedSize, mem
      ensures Valid()
      ensures bytes == 0 ==> p == 0 && unchanged(this) && mem[..] == old(mem[..])
      ensures bytes > 0 && |nodes| == 0 ==>
                && p == Granted(old(head), Plain(bytes)) && head == HeadAfter(old(head), Plain(bytes))
                && Bumps(old(Now(nodes)), bytes, HeaderOf(p), Now([]))
                && allocatedSize == Wrap64(old(allocatedSize) + 2 * bytes)
      ensures bytes > 0 && |nodes| > 0 ==>
                && p >= HEADER && Takes(old(Now(nodes)), bytes, HeaderOf(p), Now(Remaining(old(mem[..]), nodes, bytes)))
                && Free(Remaining(old(mem[..]), nodes, bytes))
                && allocatedSize == Wrap64(old(allocatedSize) + bytes)
    {
      hide Load, IsList, FirstFit, Remaining, Taken, Splits, Size, Apart, Inside, Wrap64, OnlyHeaders;
      if bytes == 0 {
        return 0;
      }
      allocatedSize := Wrap64(allocatedSize + bytes);
      ListHasHeaders(mem[..], freeList, nodes);
      InsideOf(mem[..], nodes);
      if freeList == 0 {
        ListIsEmpty(mem[..], nodes);
        ModAdd(old(allocatedSize), bytes);
        p := BumpStrtg(bytes);
        return p;
      }
      ghost var M := mem[..];
      NonemptyList(M, freeList, nodes);
      p := LinklStratg(bytes, nodes);
      RemainingApart(M, mem[..], nodes, bytes);
    }

    /** `pm::Free`: the block whose contents start at `block` joins the end of the free list. */
    method Release(block: nat, ghost nodes: seq<nat>)
      requires Valid() && Free(nodes)
      requires block == 0 || (HEADER < block <= mem.Length && Apart(mem[..], nodes + [HeaderOf(block)]))
      modifies this`freeList, this`allocatedSize, mem
      ensures Valid() && head == old(head)
      ensures block == 0 ==> freeList == old(freeList) && allocatedSize == old(allocatedSize) && mem[..] == old(mem[..])
      ensures block != 0 ==> Released(old(Now(nodes)), HeaderOf(block), old(allocatedSize))
    {
      hide Load, Size, IsList, Apart, Wrap64, Released;
      if block != 0 {
        ReleaseBlock(HeaderOf(block), nodes);
      }
    }

    /** The free list is `nodes` and the block at blk, no size has changed, and the size of blk is
      * no longer counted as allocated. */
    ghost predicate Released(h: Heap, blk: nat, counted: nat)
      reads this, mem
    {
      && Frees(h, blk, Now(h.free + [blk]))
      && blk + HEADER <= |h.mem| && allocatedSize == Wrap64(counted - Size(h.mem, blk))
    }

    method ReleaseBlock(blk: nat, ghost nodes: seq<nat>)
      requires Valid() && IsList(mem[..], freeList, nodes) && Apart(mem[..], nodes + [blk])
      requires 0 < blk && blk + HEADER <= mem.Length
      modifies this`freeList, this`allocatedSize, mem
      ensures HeadersApart(nodes + [blk], mem.Length)
      ensures Released(old(Now(nodes)), blk, old(allocatedSize))
    {
      hide Load, Size, IsList, Apart, Wrap64, SetNext, SameSizes, OnlyHeaders;
      ApartHeaders(mem[..], nodes + [blk]);
      var size := PeekSize(blk);
      allocatedSize := Wrap64(allocatedSize - size);
      PokeNext(blk, 0);
      JoinList(old(mem[..]), blk, nodes);
    }

    /** The end of `pm::Free`: links a block whose own link has just been cleared. */
    method JoinList(ghost M: seq<Byte>, blk: nat, ghost nodes: seq<nat>)
      requires |M| == mem.Length < WORD64 && 0 < blk && blk + HEADER <= mem.Length &&
               HeadersApart(nodes + [blk], mem.Length)
      requires IsList(M, freeList, nodes) && mem[..] == SetNext(M, blk, 0)
      modifies this`freeList, mem
      ensures IsList(mem[..], freeList, nodes + [blk])
      ensures SameSizes(M, mem[..], nodes + [blk]) && OnlyHeaders(M, mem[..], nodes + [blk])
    {
      hide Load, Size, IsList, SetNext;
      ghost var M1, all := mem[..], nodes + [blk];
      assert all[|nodes|] == blk && all[..|nodes|] == nodes;
      LinkWritten(M, all, |nodes|, 0);
      KeptList(M, M1, freeList, nodes, all);
      if freeList == 0 {
        ListIsEmpty(M, nodes);
        OneNodeList(M1, blk);
        freeList := blk;
        assert all == [blk];
      } else {
        NonemptyList(M, freeList, nodes);
        TraverseAppend(freeList, blk, nodes);
        OnlyHeadersTwice(M, M1, mem[..], all);
        SameSizesTwice(M, M1, mem[..], all);
      }
    }

    /** `pm::AlignedAlloc` while the list of free aligned blocks is empty. */
    method AlignedAlloc(bytes: nat, alignment: nat, ghost nodes: seq<nat>, ghost out: seq<nat>) returns (p: nat)
      requires Valid() && alignment < 0x1_0000 && head + alignment + bytes + ALIGNED_HEADER <= mem.Length
      requires begin + GLOBAL <= HeadAfter(head, Aligned(bytes, alignment))
      modifies this`head, this`allocatedSize, mem
      ensures Valid() && p == Granted(old(head), Aligned(bytes, alignment)) &&
              head == HeadAfter(old(head), Aligned(bytes, alignment))
      ensures bytes == 0 || alignment == 0 ==> unchanged(this) && mem[..] == old(mem[..])
      ensures bytes > 0 && alignment > 0 ==> allocatedSize == Wrap64(old(allocatedSize) + bytes)
      ensures bytes > 0 && alignment > 0 ==> Trailer(mem[..], old(head) + bytes, bytes, alignment)
      ensures forall k | 0 <= k < mem.Length && !(old(head) + bytes <= k < old(head) + bytes + ALIGNED_HEADER) ::
                mem[k] == old(mem[k])
      ensures bytes + ALIGNED_HEADER < 0x8000_0000 ==> Step(State(old(Now(nodes)), out), Align, State(Now(nodes), out))
    {
      hide Step, Trailer, ToInt32, Wrap64;
      ghost var before := Now(nodes);
      if bytes == 0 || alignment == 0 {
        HeadRises(before, before, out);
        return 0;
      }
      HeadAfterBelow(head, bytes, alignment);
      var headptr := head + bytes;
      var actSize := ToInt32(bytes + ALIGNED_HEADER);
      allocatedSize := Wrap64(allocatedSize + bytes);
      PokeTrailer(headptr, bytes, alignment);
      if head % alignment == 0 {
        p := head;
      } else {
        p := head + (alignment - head % alignment);
      }
      head := p + actSize;
      if bytes + ALIGNED_HEADER < 0x8000_0000 {
        HeadRises(before, Now(nodes), out);
      }
    }

    /** Writes a mem_aligned_block. */
    method PokeTrailer(a: nat, bytes: nat, alignment: nat)
      requires a + ALIGNED_HEADER <= mem.Length && alignment < 0x1_0000
      modifies mem
      ensures Trailer(mem[..], a, bytes, alignment)
      ensures forall k | 0 <= k < mem.Length && !(a <= k < a + ALIGNED_HEADER) :: mem[k] == old(mem[k])
    {
      hide Load, Store;
      ghost var M := mem[..];
      Poke(a, 8, 0);
      ghost var M1 := mem[..];
      Poke(a + 8, 2, alignment);
      ghost var M2 := mem[..];
      Poke(a + 10, 4, bytes % WORD32);
      TrailerWritten(M, M1, M2, a, bytes, alignment);
      forall k | 0 <= k < mem.Length && !(a <= k < a + ALIGNED_HEADER) ensures mem[k] == M[k] {
        StoreFrame(M, a, 8, 0, k);
        StoreFrame(M1, a + 8, 2, alignment, k);
        StoreFrame(M2, a + 10, 4, bytes % WORD32, k);
        assert mem[k] == mem[..][k];
      }
    }

    /** `pm::WasAlloqued`: of a pointer that request i of a run returned, whether that was not the
      * first request, aligned at the beginning of memory. */
    method WasAlloqued(ptr: nat, ghost rs: seq<Request>, ghost i: nat) returns (r: bool)
      ensures r <==> Alloqued(begin + GLOBAL, head, ptr)
      ensures Small(rs) && i < |rs| && !Null(rs[i]) && head == HeadAt(begin + GLOBAL, rs, |rs|) &&
              ptr == PtrAt(begin + GLOBAL, rs, i)
              ==> (r <==> !AtBeginning(begin + GLOBAL, rs, i))
    {
      if Small(rs) && i < |rs| && !Null(rs[i]) {
        PointersStayAlloqued(begin + GLOBAL, rs, i, |rs|);
      }
      r := ptr > begin + GLOBAL && head > ptr;
    }
  }

  lemma HeadRises(h: Heap, h': Heap, out: seq<nat>)
    requires h'.free == h.free && h'.first == h.first && h.head <= h'.head <= |h.mem| == |h'.mem|
    requires forall k | 0 <= k < h.head :: h'.mem[k] == h.mem[k]
    ensures Step(State(h, out), Align, State(h', out))
  {
  }

  /** A mem_aligned_block stands at a. */
  ghost predicate Trailer(M: seq<Byte>, a: nat, bytes: nat, alignment: nat) {
    && a + ALIGNED_HEADER <= |M|
    && Load(M, a, 8) == 0 && Load(M, a + 8, 2) == alignment && Load(M, a + 10, 4) == bytes % WORD32
  }

  lemma TrailerWritten(M: seq<Byte>, M1: seq<Byte>, M2: seq<Byte>, a: nat, bytes: nat, alignment: nat)
    requires a + ALIGNED_HEADER <= |M| && alignment < 0x1_0000
    requires M1 == Store(M, a, 8, 0) && M2 == Store(M1, a + 8, 2, alignment)
    ensures Trailer(Store(M2, a + 10, 4, bytes % WORD32), a, bytes, alignment)
  {
    hide Load, Store, Pow256;
    Words();
    LoadStoreSame(M, a, 8, 0);
    LoadStoreOther(M1, a + 8, 2, alignment, a, 8);
    LoadStoreOther(M2, a + 10, 4, bytes % WORD32, a, 8);
    LoadStoreSame(M1, a + 8, 2, alignment);
    LoadStoreOther(M2, a + 10, 4, bytes % WORD32, a + 8, 2);
    LoadStoreSame(M2, a + 10, 4, bytes % WORD32);
  }

  /** The header of the block whose contents start at p. */
  function HeaderOf(p: nat): nat
    requires p >= HEADER
  {
    p - HEADER
  }

  /** Memory after the first three writes of SplitBlocks. */
  function SplitMemory(M: seq<Byte>, block: nat, nblock: nat, nblocks: nat): seq<Byte>
    requires block + HEADER <= |M| && nblock + HEADER <= |M| && nblocks <= Size(M, block)
  {
    SetSize(SetNext(SetSize(M, block, Size(M, block) - nblocks), nblock, 0), nblock, nblocks)
  }

  lemma SplitMemoryFields(M: seq<Byte>, a: nat, nodes: seq<nat>, k: nat, nblock: nat, nblocks: nat)
    requires IsList(M, a, nodes) && HeadersApart(nodes + [nblock], |M|)
    requires nblock + HEADER <= |M| && forall i | 0 <= i < |nodes| :: nodes[i] + HEADER <= |M|
    requires k < |nodes| && nblocks <= Size(M, nodes[k]) < WORD32
    ensures var M3 := SplitMemory(M, nodes[k], nblock, nblocks);
            && |M3| == |M| && IsList(M3, a, nodes) && OnlyHeaders(M, M3, nodes + [nblock])
            && (forall i | 0 <= i < |nodes| ::
               Size(M3, nodes[i]) == if i == k then Size(M, nodes[k]) - nblocks else Size(M, nodes[i]))
            && Size(M3, nblock) == nblocks
  {
    hide IsList, SetNext, SetSize, Next, Size;
    var all, n := nodes + [nblock], |nodes|;
    assert all[k] == nodes[k] && all[n] == nblock;
    var M1 := SetSize(M, nodes[k], Size(M, nodes[k]) - nblocks);
    var M2 := SetNext(M1, nblock, 0);
    var M3 := SetSize(M2, nblock, nblocks);
    SizeWritten(M, all, k, Size(M, nodes[k]) - nblocks);
    LinkWritten(M1, all, n, 0);
    SizeWritten(M2, all, n, nblocks);
    forall i | 0 <= i < n
      ensures Next(M3, nodes[i]) == Next(M, nodes[i])
      ensures Size(M3, nodes[i]) == if i == k then Size(M, nodes[k]) - nblocks else Size(M, nodes[i])
    {
      assert all[i] == nodes[i];
      assert Next(M3, all[i]) == Next(M2, all[i]) == Next(M1, all[i]) == Next(M, all[i]);
    }
    ListFrame(M, M3, a, nodes);
    OnlyHeadersTwice(M, M1, M2, all);
    OnlyHeadersTwice(M, M2, M3, all);
  }

  lemma SplitSizes(M: seq<Byte>, M3: seq<Byte>, M4: seq<Byte>, nodes: seq<nat>, k: nat, nblock: nat, nblocks: nat)
    requires HeadersApart(nodes + [nblock], |M|) && k < |nodes| && |M| == |M3| == |M4|
    requires nblock + HEADER <= |M| && forall i | 0 <= i < |nodes| :: nodes[i] + HEADER <= |M|
    requires forall i | 0 <= i < |nodes| && i != k :: Size(M3, nodes[i]) == Size(M, nodes[i])
    requires OnlyHeaders(M, M3, nodes + [nblock]) && OnlyHeaders(M3, M4, nodes + [nblock]) &&
             SameSizes(M3, M4, nodes + [nblock])
    ensures Size(M4, nodes[k]) == Size(M3, nodes[k]) && Size(M4, nblock) == Size(M3, nblock)
    ensures OnlyHeaders(M, M4, nodes + [nblock])
    ensures forall i | 0 <= i < |nodes| && i != k :: Size(M4, nodes[i]) == Size(M, nodes[i])
  {
    hide Size;
    var all := nodes + [nblock];
    OnlyHeadersTwice(M, M3, M4, all);
    assert all[|nodes|] == nblock && all[k] == nodes[k];
    forall i | 0 <= i < |nodes| && i != k ensures Size(M4, nodes[i]) == Size(M, nodes[i]) {
      assert all[i] == nodes[i];
    }
  }

  lemma Sub64Fits(a: nat, b: nat)
    requires a < WORD32 && b <= WORD64 - 13
    ensures Sub64(a, b) < HEADER + 1 <==> b <= a <= b + HEADER
  {
    if a < b {
      assert Sub64(a, b) == a - b + WORD64;
    }
  }

  lemma ListStart(M: seq<Byte>, a: nat, nodes: seq<nat>)
    requires IsList(M, a, nodes) && |nodes| > 0
    ensures a == nodes[0] && a + HEADER <= |M|
  {
  }

  lemma AppendedList(M: seq<Byte>, M1: seq<Byte>, M2: seq<Byte>, first: nat, nodes: seq<nat>, item: nat)
    requires IsList(M, first, nodes) && |nodes| > 0 && 0 < item && HeadersApart(nodes + [item], |M|) &&
             |M| == |M1| == |M2|
    requires item + HEADER <= |M| && forall i | 0 <= i < |nodes| :: nodes[i] + HEADER <= |M|
    requires SameLinksBut(M, M1, nodes + [item], |nodes| - 1) && Next(M1, nodes[|nodes| - 1]) == item
    requires SameLinksBut(M1, M2, nodes + [item], |nodes|) && Next(M2, item) == 0
    ensures IsList(M2, first, nodes + [item])
  {
    hide Load;
    var all, n := nodes + [item], |nodes|;
    forall j | 0 <= j < n ensures Next(M2, nodes[j]) == (if j == n - 1 then item else Next(M, nodes[j])) {
      assert all[j] == nodes[j];
      assert Next(M2, all[j]) == Next(M1, all[j]);
    }
    assert all[n] == item;
    assert IsList(M2, 0, []) by {
      assert IsList(M2, 0, []);
    }
    assert IsList(M2, item, [item]);
    Relink(M, M2, first, nodes, n - 1, item, [item]);
    assert nodes[..n] == nodes;
  }

  lemma UnlinkedList(M: seq<Byte>, M': seq<Byte>, a: nat, nodes: seq<nat>, k: nat)
    requires IsList(M, a, nodes) && HeadersApart(nodes, |M|) && |M| == |M'| && 0 < k < |nodes|
    requires SameLinksBut(M, M', nodes, k - 1) && Next(M', nodes[k - 1]) == Next(M, nodes[k])
    ensures IsList(M', a, Without(nodes, k))
  {
    hide Load;
    var rest := nodes[k + 1..];
    ListLinks(M, a, nodes, k);
    forall j | 0 <= j < |rest| ensures rest[j] + HEADER <= |M| && Next(M', rest[j]) == Next(M, rest[j]) {
      assert rest[j] == nodes[k + 1 + j];
    }
    ListFrame(M, M', Next(M, nodes[k]), rest);
    Relink(M, M', a, nodes, k - 1, Next(M, nodes[k]), rest);
  }

  lemma SizeFits(M: seq<Byte>, a: nat)
    requires a + HEADER <= |M|
    ensures Size(M, a) < WORD32
  {
    Words();
    LoadBelow(M, a + 8, 4);
  }

  /** The header of a remainder lies inside the block that is split, behind its own header. */
  lemma RemainderApart(M: seq<Byte>, nodes: seq<nat>, k: nat, bytes: nat)
    requires Apart(M, nodes) && k < |nodes| && HEADER <= bytes && bytes + HEADER < Size(M, nodes[k])
    ensures HeadersApart(nodes + [nodes[k] + bytes], |M|)
  {
    hide Size;
    var n, all := nodes[k] + bytes, nodes + [nodes[k] + bytes];
    assert n + HEADER <= End(M, nodes[k]) <= |M|;
    forall i | 0 <= i < |nodes| ensures nodes[i] + HEADER <= |M| && (nodes[i] + HEADER <= n || n + HEADER <= nodes[i]) {
      assert i != k ==> Reach(M, nodes[i]) <= nodes[k] || Reach(M, nodes[k]) <= nodes[i];
    }
  }

  lemma OnlyHeadersTwice(M: seq<Byte>, M1: seq<Byte>, M2: seq<Byte>, all: seq<nat>)
    requires OnlyHeaders(M, M1, all) && OnlyHeaders(M1, M2, all)
    ensures OnlyHeaders(M, M2, all)
  {
    forall k: nat | k < |M| && !InHeader(all, k) ensures M2[k] == M[k] {
      assert M1[k] == M[k];
    }
  }

  lemma InsideOf(M: seq<Byte>, nodes: seq<nat>)
    requires Apart(M, nodes)
    ensures Inside(M, nodes)
  {
  }

  /** The last two writes of LinklStratg change no size, and no link of the list that is left. */
  lemma TakenAfter(M: seq<Byte>, M1: seq<Byte>, M2: seq<Byte>, M3: seq<Byte>, a: nat, nodes: seq<nat>, bytes: nat,
      k: nat, list: seq<nat>)
    requires Apart(M, nodes) && k < |nodes| && k == FirstFit(M, nodes, bytes)
    requires |M| == |M1| == |M2| == |M3|
    requires list == nodes + (if Splits(M, nodes, bytes) then [nodes[k] + bytes] else [])
    requires HeadersApart(list, |M|) && OnlyHeaders(M, M1, list) && OnlyHeaders(M1, M2, list) &&
             OnlyHeaders(M2, M3, list)
    requires Size(M1, nodes[k]) == if Splits(M, nodes, bytes) then bytes else Size(M, nodes[k])
    requires Splits(M, nodes, bytes) ==>
               nodes[k] + bytes + HEADER <= |M| && Size(M1, nodes[k] + bytes) == Size(M, nodes[k]) - bytes
    requires forall i | 0 <= i < |nodes| && i != k :: Size(M1, nodes[i]) == Size(M, nodes[i])
    requires SameSizes(M1, M2, list) && SameSizes(M2, M3, list) && SameLinksBut(M2, M3, list, k) &&
             Next(M3, nodes[k]) == 0
    requires IsList(M2, a, Without(list, k))
    ensures Taken(M, M3, nodes, bytes) && IsList(M3, a, Remaining(M, nodes, bytes))
  {
    hide Load, FirstFit, OnlyHeaders, Apart;
    OnlyHeadersTwice(M, M1, M2, list);
    OnlyHeadersTwice(M, M2, M3, list);
    assert Inside(M, nodes) by {
      InsideOf(M, nodes);
    }
    var w := Without(list, k);
    assert w == Remaining(M, nodes, bytes);
    forall j | 0 <= j < |w| ensures w[j] + HEADER <= |M| && Next(M3, w[j]) == Next(M2, w[j]) {
      var i := if j < k then j else j + 1;
      assert w[j] == list[i];
    }
    ListFrame(M2, M3, a, w);
    forall i | 0 <= i < |nodes| ensures Size(M3, nodes[i]) == Size(M1, nodes[i]) {
      assert list[i] == nodes[i];
    }
    if Splits(M, nodes, bytes) {
      assert list[|nodes|] == nodes[k] + bytes;
    }
  }

  lemma NonemptyList(M: seq<Byte>, a: nat, nodes: seq<nat>)
    requires IsList(M, a, nodes) && a != 0
    ensures |nodes| > 0
  {
  }

  lemma SameSizesTwice(M: seq<Byte>, M1: seq<Byte>, M2: seq<Byte>, all: seq<nat>)
    requires HeadersApart(all, |M|) && |M| == |M1| == |M2| && SameSizes(M, M1, all) && SameSizes(M1, M2, all)
    ensures SameSizes(M, M2, all)
  {
    hide Size;
  }

  lemma ListIsEmpty(M: seq<Byte>, nodes: seq<nat>)
    requires IsList(M, 0, nodes)
    ensures |nodes| == 0
  {
  }

  lemma OneNodeList(M: seq<Byte>, a: nat)
    requires 0 < a && a + HEADER <= |M| && Next(M, a) == 0
    ensures IsList(M, a, [a])
  {
    hide Load;
    assert IsList(M, 0, []);
  }

  lemma KeptList(M: seq<Byte>, M': seq<Byte>, a: nat, nodes: seq<nat>, all: seq<nat>)
    requires IsList(M, a, nodes) && |M| == |M'| && |all| == |nodes| + 1 && all[..|nodes|] == nodes
    requires HeadersApart(all, |M|) && SameLinksBut(M, M', all, |nodes|)
    ensures IsList(M', a, nodes)
  {
    hide Load;
    forall j | 0 <= j < |nodes| ensures nodes[j] + HEADER <= |M| && Next(M', nodes[j]) == Next(M, nodes[j]) {
      assert all[j] == nodes[j];
    }
    ListFrame(M, M', a, nodes);
  }

  lemma ModAdd(a: nat, b: nat)
    ensures Wrap64(Wrap64(a + b) + b) == Wrap64(a + 2 * b)
  {
    var q := (a + b) / WORD64;
    assert (a + b) % WORD64 == a + b - q * WORD64;
    ModShift(a + b - q * WORD64 + b, q);
  }

  lemma {:induction false} ModShift(x: int, q: nat)
    ensures x % WORD64 == (x + q * WORD64) % WORD64
    decreases q
  {
    if q > 0 {
      ModShift(x, q - 1);
      ModOnce(x + (q - 1) * WORD64);
    }
  }

  lemma ModOnce(x: int)
    ensures x % WORD64 == (x + WORD64) % WORD64
  {
  }
}
