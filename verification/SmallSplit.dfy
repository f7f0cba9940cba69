/** What the free list of kernel/source/alloc/physical.cpp becomes when a block is split for fewer
  * than 12 bytes: the header of the remainder is written over the header of the block itself. */
module SmallSplit {
  import opened Bits
  import opened Common
  import opened Memory
  import opened FreeList
  import opened Heap
  import opened Physical

  /** The link of the block at a survives: the remainder's header stands behind it, or it has no
    * more bytes than stand before that header. */
  ghost predicate Survives(M: seq<Byte>, a: nat, bytes: nat)
    requires a + HEADER <= |M|
  {
    bytes >= 8 || Next(M, a) < Pow256(bytes)
  }

  /** The size that is then read off the block, `rest` being the remainder's: its own from 9 bytes
    * on, nothing for 4 to 8, and low bytes of the remainder's for fewer. */
  function SizeLeft(bytes: nat, rest: nat): nat {
    if bytes < 4 then Pow256(bytes) * (rest % Pow256(4 - bytes)) else if bytes <= 8 then 0 else bytes
  }

  /** After the three writes of SplitBlocks. */
  lemma HeaderLeft(M: seq<Byte>, a: nat, bytes: nat)
    requires 0 < bytes < HEADER && a + HEADER <= a + bytes + HEADER <= |M| && bytes <= Size(M, a)
    ensures var rest := Size(M, a) - bytes;
            var M3 := SplitMemory(M, a, a + bytes, rest);
            && |M3| == |M| && Next(M3, a + bytes) == 0 && Size(M3, a + bytes) == rest
            && (bytes < 8 ==> Next(M3, a) == Next(M, a) % Pow256(bytes))
            && (Next(M3, a) == Next(M, a) <==> Survives(M, a, bytes))
            && Size(M3, a) == SizeLeft(bytes, rest)
  {
    hide Load, Store, Pow256;
    var b, n := a + bytes, Size(M, a) - bytes;
    SizeFits(M, a);
    var M1 := SetSize(M, a, bytes);
    var M2 := SetNext(M1, b, 0);
    var M3 := SetSize(M2, b, n);
    SetNextFields(M1, b, 0, b);
    SetSizeFields(M2, b, n, b);
    assert Load(M3, b, 8) == 0;
    if bytes < 8 {
      KeptUpTo(M, a, bytes, n, a, bytes);
      ZeroPrefix(M3, b, 8, 8 - bytes);
      LoadSplit(M3, a, 8, bytes);
      LoadModulo(M, a, 8, bytes);
      BelowModulo(Next(M, a), Pow256(bytes));
      assert Pow256(bytes) * 0 == 0;
      SizeMiddle(M3, a, bytes, n);
    } else {
      KeptUpTo(M, a, bytes, n, a, 8);
      SetSizeFields(M, a, bytes, a);
      SizeStart(M1, M3, a, bytes, n);
    }
  }

  /** The size of the block, when it lies in the middle of the remainder's header. */
  lemma SizeMiddle(M: seq<Byte>, a: nat, bytes: nat, rest: nat)
    requires 0 < bytes < 8 && a + bytes + HEADER <= |M|
    requires Load(M, a + bytes, 8) == 0 && Load(M, a + bytes + 8, 4) == rest
    ensures Size(M, a) == SizeLeft(bytes, rest)
  {
    hide Load, Pow256;
    var n := if bytes < 4 then bytes else 4;
    forall k | a + 8 <= k < a + 8 + n ensures M[k] == 0 {
      ZeroBytes(M, a + bytes, 8, k);
    }
    LoadZeros(M, a + 8, n);
    if bytes < 4 {
      LoadSplit(M, a + 8, 4, bytes);
      LoadModulo(M, a + bytes + 8, 4, 4 - bytes);
      assert a + 8 + bytes == a + bytes + 8;
    }
  }

  /** What lies before the remainder's header and before the block's size field is not written. */
  lemma KeptUpTo(M: seq<Byte>, a: nat, bytes: nat, n: nat, x: nat, m: nat)
    requires a + HEADER <= |M| && a + bytes + HEADER <= |M| && x + m <= a + 8 && x + m <= a + bytes
    ensures Load(SetSize(SetNext(SetSize(M, a, bytes), a + bytes, 0), a + bytes, n), x, m) == Load(M, x, m)
  {
    hide Load, Store;
    var M1 := SetSize(M, a, bytes);
    LoadStoreOther(M, a + 8, 4, bytes, x, m);
    LoadStoreOther(M1, a + bytes, 8, 0, x, m);
    LoadStoreOther(SetNext(M1, a + bytes, 0), a + bytes + 8, 4, n, x, m);
  }

  /** The size of the block, when the remainder's header begins inside it. */
  lemma SizeStart(M1: seq<Byte>, M3: seq<Byte>, a: nat, bytes: nat, n: nat)
    requires 8 <= bytes < HEADER && a + bytes + HEADER <= |M1| && Size(M1, a) == bytes
    requires M3 == SetSize(SetNext(M1, a + bytes, 0), a + bytes, n) && Load(M3, a + bytes, 8) == 0
    ensures Size(M3, a) == if bytes == 8 then 0 else bytes
  {
    hide Load, Store;
    var j := bytes - 8;
    LoadStoreOther(M1, a + bytes, 8, 0, a + 8, j);
    LoadStoreOther(SetNext(M1, a + bytes, 0), a + bytes + 8, 4, n, a + 8, j);
    ZeroPrefix(M3, a + bytes, 8, 4 - j);
    LoadSplit(M3, a + 8, 4, j);
    LoadModulo(M1, a + 8, 4, j);
    assert Size(M3, a) == bytes % Pow256(j);
    if j > 0 {
      assert Pow256(1) == 256 && Pow256(2) == 0x1_0000 && Pow256(3) == 0x100_0000;
      BelowModulo(bytes, Pow256(j));
    }
  }

  // ---------- the rest of the allocation ----------

  /** A free list in which block k, before the last, is split for fewer than 12 bytes. */
  ghost predicate Splitting(M: seq<Byte>, first: nat, nodes: seq<nat>, k: nat, bytes: nat) {
    && IsList(M, first, nodes) && Apart(M, nodes) && |M| < WORD64 && k + 1 < |nodes|
    && 0 < bytes < HEADER && bytes + HEADER < Size(M, nodes[k])
  }

  /** The remainder's header, and what is written of the block, lie apart from all other headers. */
  lemma OthersApart(M: seq<Byte>, first: nat, nodes: seq<nat>, k: nat, bytes: nat, i: nat)
    requires Splitting(M, first, nodes, k, bytes) && i < |nodes|
    ensures 0 < nodes[i] && nodes[i] + HEADER <= |M| && nodes[k] + bytes + HEADER <= |M|
    ensures i != k ==> nodes[i] + HEADER <= nodes[k] || nodes[k] + bytes + HEADER <= nodes[i]
  {
    hide Size, IsList;
    ListHasHeaders(M, first, nodes);
    if i != k {
      TwoApart(M, nodes, i, k);
    }
  }

  /** Memory after the three writes of SplitBlocks. */
  function Split3(M: seq<Byte>, a: nat, bytes: nat): seq<Byte>
    requires a + bytes + HEADER <= |M| && bytes <= Size(M, a)
  {
    SplitMemory(M, a, a + bytes, Size(M, a) - bytes)
  }

  lemma OtherKept(M: seq<Byte>, first: nat, nodes: seq<nat>, k: nat, bytes: nat, i: nat)
    requires Splitting(M, first, nodes, k, bytes) && i < |nodes| && i != k
    ensures nodes[k] + bytes + HEADER <= |M|
    ensures SameHeader(M, Split3(M, nodes[k], bytes), nodes[i])
  {
    hide IsList, Apart, Size, Load, SetNext, SetSize, Next;
    OthersApart(M, first, nodes, k, bytes, i);
    var a, b, n := nodes[k], nodes[k] + bytes, Size(M, nodes[k]) - bytes;
    SizeFits(M, a);
    SetSizeFields(M, a, bytes, nodes[i]);
    var M1 := SetSize(M, a, bytes);
    SetNextFields(M1, b, 0, nodes[i]);
    SetSizeFields(SetNext(M1, b, 0), b, n, nodes[i]);
  }

  /** The walk that appends the remainder reaches the end of the list iff the link survives. */
  lemma WalkSurvives(M: seq<Byte>, first: nat, nodes: seq<nat>, k: nat, bytes: nat)
    requires Splitting(M, first, nodes, k, bytes)
    ensures nodes[k] + bytes + HEADER <= |M|
    ensures IsList(Split3(M, nodes[k], bytes), first, nodes) <==> Survives(M, nodes[k], bytes)
  {
    hide IsList, Apart, Size, Load, SetNext, SetSize, Next, Pow256;
    OthersApart(M, first, nodes, k, bytes, k);
    HeaderLeft(M, nodes[k], bytes);
    var M3 := Split3(M, nodes[k], bytes);
    if Survives(M, nodes[k], bytes) {
      forall j | 0 <= j < |nodes| ensures nodes[j] + HEADER <= |M| && Next(M3, nodes[j]) == Next(M, nodes[j]) {
        if j != k {
          OtherKept(M, first, nodes, k, bytes, j);
        }
      }
      ListFrame(M, M3, first, nodes);
    }
    ListLinks(M, first, nodes, k);
    if IsList(M3, first, nodes) {
      ListLinks(M3, first, nodes, k);
    }
  }

  /** Two headers of the list that stand apart. */
  lemma TwoHeaders(M: seq<Byte>, nodes: seq<nat>, i: nat, j: nat)
    requires Apart(M, nodes) && i < |nodes| && j < |nodes| && i != j
    ensures nodes[i] + HEADER <= nodes[j] || nodes[j] + HEADER <= nodes[i]
  {
    hide Size;
    TwoApart(M, nodes, i, j);
  }

  /** Memory after TraverseAppend. */
  function Appended(M: seq<Byte>, last: nat, item: nat): seq<Byte>
    requires last + HEADER <= |M| && item + HEADER <= |M|
  {
    SetNext(SetNext(M, last, item), item, 0)
  }

  /** Where headers are that the append leaves alone but for the link of the last block. */
  lemma AppendedFields(M: seq<Byte>, last: nat, item: nat, b: nat)
    requires last + HEADER <= |M| && item + HEADER <= |M| < WORD64 && b + HEADER <= |M| && Next(M, item) == 0
    requires last + HEADER <= item || item + HEADER <= last
    requires b == last || b + HEADER <= last || last + HEADER <= b
    ensures Next(Appended(M, last, item), b) == if b == last then item else Next(M, b)
    ensures Size(Appended(M, last, item), b) == Size(M, b)
  {
    hide Load, Store;
    SetNextFields(M, last, item, b);
    SetNextFields(M, last, item, item);
    StoreSame(SetNext(M, last, item), item, 8);
  }

  /** The list with the remainder appended. */
  lemma AppendDone(M: seq<Byte>, first: nat, nodes: seq<nat>, k: nat, bytes: nat)
    requires Splitting(M, first, nodes, k, bytes) && Survives(M, nodes[k], bytes)
    ensures var a, r, last := nodes[k], nodes[k] + bytes, nodes[|nodes| - 1];
            && r + HEADER <= |M| && last + HEADER <= |M|
            && var M3 := Split3(M, a, bytes);
               var M4 := Appended(M3, last, r);
               && |M4| == |M| && IsList(M4, first, nodes + [r])
               && Next(M4, r) == 0 && Size(M4, r) == Size(M, a) - bytes && Size(M4, a) == Size(M3, a)
               && (forall i | 0 <= i < |nodes| && i != k ::
                     nodes[i] + HEADER <= |M| && Size(M4, nodes[i]) == Size(M, nodes[i]))
  {
    hide IsList, Apart, Size, Load, SetNext, SetSize, Next, Pow256;
    OthersApart(M, first, nodes, k, bytes, k);
    OthersApart(M, first, nodes, k, bytes, |nodes| - 1);
    var a, r, n := nodes[k], nodes[k] + bytes, |nodes| - 1;
    var M3 := Split3(M, a, bytes);
    var M4 := Appended(M3, nodes[n], r);
    HeaderLeft(M, a, bytes);
    AppendedFields(M3, nodes[n], r, r);
    forall i | 0 <= i <= n
      ensures nodes[i] + HEADER <= |M| && Next(M4, nodes[i]) == (if i == n then r else Next(M, nodes[i]))
      ensures Size(M4, nodes[i]) == Size(M3, nodes[i]) && (i != k ==> Size(M4, nodes[i]) == Size(M, nodes[i]))
    {
      OthersApart(M, first, nodes, k, bytes, i);
      if i != n {
        TwoHeaders(M, nodes, i, n);
      }
      AppendedFields(M3, nodes[n], r, nodes[i]);
      if i != k {
        OtherKept(M, first, nodes, k, bytes, i);
      }
    }
    OneNodeList(M4, r);
    Relink(M, M4, first, nodes, n, r, [r]);
    assert nodes[..n + 1] == nodes;
  }

  /** Memory, and the first node, after TraverseAndRemove of node k. */
  function Unlinked(M: seq<Byte>, nodes: seq<nat>, k: nat): seq<Byte>
    requires k < |nodes| && forall i | 0 <= i < |nodes| :: nodes[i] + HEADER <= |M|
  {
    if k == 0 then M else SetNext(M, nodes[k - 1], Next(M, nodes[k]))
  }

  function FirstLeft(M: seq<Byte>, first: nat, nodes: seq<nat>, k: nat): nat
    requires k < |nodes| && forall i | 0 <= i < |nodes| :: nodes[i] + HEADER <= |M|
  {
    if k == 0 then Next(M, nodes[0]) else first
  }

  /** A list from which node k is unlinked, when the header before it stands apart from the rest. */
  lemma UnlinkDone(M: seq<Byte>, first: nat, all: seq<nat>, k: nat)
    requires IsList(M, first, all) && k + 1 < |all| && |M| < WORD64
    requires forall i | 0 <= i < |all| :: all[i] + HEADER <= |M|
    requires k > 0 ==> forall i | 0 <= i < |all| && i != k - 1 ::
               all[i] + HEADER <= all[k - 1] || all[k - 1] + HEADER <= all[i]
    ensures var M' := Unlinked(M, all, k);
            && |M'| == |M| && IsList(M', FirstLeft(M, first, all, k), Without(all, k))
            && forall i | 0 <= i < |all| :: Size(M', all[i]) == Size(M, all[i])
  {
    hide IsList, Size, Load, SetNext, Next;
    ListLinks(M, first, all, k);
    assert all[k + 1] + HEADER <= |M|;
    if k == 0 {
      assert Without(all, 0) == all[1..];
      ListStart(M, first, all);
    } else {
      var M', rest := Unlinked(M, all, k), all[k + 1..];
      forall i | 0 <= i < |all|
        ensures Next(M', all[i]) == (if i == k - 1 then all[k + 1] else Next(M, all[i])) &&
                Size(M', all[i]) == Size(M, all[i])
      {
        SetNextFields(M, all[k - 1], all[k + 1], all[i]);
      }
      forall j | 0 <= j < |rest| ensures rest[j] + HEADER <= |M| && Next(M', rest[j]) == Next(M, rest[j]) {
        assert rest[j] == all[k + 1 + j];
      }
      ListFrame(M, M', Next(M, all[k]), rest);
      Relink(M, M', first, all, k - 1, Next(M, all[k]), rest);
    }
  }

  /** The last write, which clears the link of the block and, for fewer than 8 bytes, the first
    * bytes of the remainder's: these are zero already. */
  lemma LinkCleared(M: seq<Byte>, a: nat, bytes: nat)
    requires 0 < bytes < HEADER && a + bytes + HEADER <= |M| && Next(M, a + bytes) == 0
    ensures a + HEADER <= |M|
    ensures Next(SetNext(M, a, 0), a + bytes) == 0 && Size(SetNext(M, a, 0), a + bytes) == Size(M, a + bytes)
    ensures Size(SetNext(M, a, 0), a) == Size(M, a)
  {
    hide Load, Store;
    var M', r := SetNext(M, a, 0), a + bytes;
    LoadStoreOther(M, a, 8, 0, r + 8, 4);
    LoadStoreOther(M, a, 8, 0, a + 8, 4);
    forall k: nat | r <= k < r + 8 ensures M'[k] == 0 {
      if k < a + 8 {
        StoreZeros(M, a, 8, k);
      } else {
        StoreFrame(M, a, 8, 0, k);
        ZeroBytes(M, r, 8, k);
      }
    }
    LoadZeros(M', r, 8);
  }

  lemma LastIsNull(M: seq<Byte>, first: nat, nodes: seq<nat>)
    requires IsList(M, first, nodes) && |nodes| > 0
    ensures nodes[|nodes| - 1] + HEADER <= |M| && Next(M, nodes[|nodes| - 1]) == 0
  {
    ListLinks(M, first, nodes, |nodes| - 1);
  }

  /** The header before the block stands apart from all others, the remainder's included. */
  lemma BesidePrevious(M: seq<Byte>, first: nat, nodes: seq<nat>, k: nat, bytes: nat)
    requires Splitting(M, first, nodes, k, bytes)
    ensures var all := nodes + [nodes[k] + bytes];
            k > 0 ==> forall i | 0 <= i < |all| && i != k - 1 ::
              all[i] + HEADER <= all[k - 1] || all[k - 1] + HEADER <= all[i]
  {
    hide IsList, Apart, Size;
    if k > 0 {
      var all := nodes + [nodes[k] + bytes];
      forall i | 0 <= i < |all| && i != k - 1
        ensures all[i] + HEADER <= all[k - 1] || all[k - 1] + HEADER <= all[i]
      {
        if i < |nodes| {
          TwoHeaders(M, nodes, i, k - 1);
        } else {
          OthersApart(M, first, nodes, k, bytes, k - 1);
        }
      }
    }
  }

  /** Everything that is read and written lies in memory. */
  ghost predicate InMemory(M: seq<Byte>, nodes: seq<nat>, k: nat, bytes: nat) {
    && k < |nodes| && (forall i | 0 <= i < |nodes| :: nodes[i] + HEADER <= |M|)
    && nodes[k] + bytes + HEADER <= |M| && bytes <= Size(M, nodes[k])
  }

  /** Memory after the append. */
  ghost function WithRest(M: seq<Byte>, nodes: seq<nat>, k: nat, bytes: nat): (M': seq<Byte>)
    requires InMemory(M, nodes, k, bytes)
    ensures |M'| == |M|
  {
    Appended(Split3(M, nodes[k], bytes), nodes[|nodes| - 1], nodes[k] + bytes)
  }

  lemma SplittingInMemory(M: seq<Byte>, first: nat, nodes: seq<nat>, k: nat, bytes: nat)
    requires Splitting(M, first, nodes, k, bytes)
    ensures InMemory(M, nodes, k, bytes)
  {
    hide IsList, Apart, Size;
    forall i | 0 <= i < |nodes| ensures nodes[i] + HEADER <= |M| {
      OthersApart(M, first, nodes, k, bytes, i);
    }
    OthersApart(M, first, nodes, k, bytes, k);
  }

  /** Memory after the removal. */
  ghost function Detached(M: seq<Byte>, nodes: seq<nat>, k: nat, bytes: nat): (M': seq<Byte>)
    requires InMemory(M, nodes, k, bytes)
    ensures |M'| == |M|
  {
    Unlinked(WithRest(M, nodes, k, bytes), nodes + [nodes[k] + bytes], k)
  }

  /** Memory at the end. */
  ghost function InTheEnd(M: seq<Byte>, nodes: seq<nat>, k: nat, bytes: nat): (M': seq<Byte>)
    requires InMemory(M, nodes, k, bytes)
    ensures |M'| == |M|
  {
    SetNext(Detached(M, nodes, k, bytes), nodes[k], 0)
  }

  lemma WithRestSizes(M: seq<Byte>, first: nat, nodes: seq<nat>, k: nat, bytes: nat)
    requires Splitting(M, first, nodes, k, bytes) && Survives(M, nodes[k], bytes) && InMemory(M, nodes, k, bytes)
    ensures var M4 := WithRest(M, nodes, k, bytes);
            && IsList(M4, first, nodes + [nodes[k] + bytes])
            && Size(M4, nodes[k] + bytes) == Size(M, nodes[k]) - bytes
            && Size(M4, nodes[k]) == SizeLeft(bytes, Size(M, nodes[k]) - bytes)
            && (forall i | 0 <= i < |nodes| && i != k :: Size(M4, nodes[i]) == Size(M, nodes[i]))
  {
    hide IsList, Apart, Size, Load, SetNext, SetSize, Next, Pow256, SizeLeft;
    AppendDone(M, first, nodes, k, bytes);
    HeaderLeft(M, nodes[k], bytes);
  }

  lemma DetachedList(M: seq<Byte>, first: nat, nodes: seq<nat>, k: nat, bytes: nat)
    requires Splitting(M, first, nodes, k, bytes) && Survives(M, nodes[k], bytes) && InMemory(M, nodes, k, bytes)
    ensures var r, M4, M5 := nodes[k] + bytes, WithRest(M, nodes, k, bytes), Detached(M, nodes, k, bytes);
            && IsList(M5, FirstLeft(M4, first, nodes, k), Without(nodes, k) + [r])
            && Next(M5, r) == 0 && Size(M5, r) == Size(M4, r)
            && (forall i | 0 <= i < |nodes| :: Size(M5, nodes[i]) == Size(M4, nodes[i]))
  {
    hide IsList, Apart, Size, Load, SetNext, SetSize, Next, Pow256, SizeLeft, WithRest;
    var r, all, M4 := nodes[k] + bytes, nodes + [nodes[k] + bytes], WithRest(M, nodes, k, bytes);
    WithRestSizes(M, first, nodes, k, bytes);
    BesidePrevious(M, first, nodes, k, bytes);
    UnlinkDone(M4, first, all, k);
    assert Without(all, k) == Without(nodes, k) + [r] && all[|nodes|] == r;
    LastIsNull(Detached(M, nodes, k, bytes), FirstLeft(M4, first, all, k), Without(all, k));
    forall i | 0 <= i < |nodes| ensures all[i] == nodes[i] {}
  }

  /** The whole allocation.  If the link survives, the list is the old one without the block and
    * with the remainder at its end, of the right size, and only the size that is left in the
    * block's own header is wrong. */
  lemma SmallSplitDone(M: seq<Byte>, first: nat, nodes: seq<nat>, k: nat, bytes: nat)
    requires Splitting(M, first, nodes, k, bytes) && Survives(M, nodes[k], bytes)
    ensures InMemory(M, nodes, k, bytes)
    ensures var r, M' := nodes[k] + bytes, InTheEnd(M, nodes, k, bytes);
            && IsList(M', FirstLeft(WithRest(M, nodes, k, bytes), first, nodes, k), Without(nodes, k) + [r])
            && Size(M', r) == Size(M, nodes[k]) - bytes
            && Size(M', nodes[k]) == SizeLeft(bytes, Size(M, nodes[k]) - bytes)
            && (forall i | 0 <= i < |nodes| && i != k :: Size(M', nodes[i]) == Size(M, nodes[i]))
  {
    hide IsList, Apart, Size, Load, SetNext, SetSize, Next, Pow256, SizeLeft, WithRest, Detached, FirstLeft;
    SplittingInMemory(M, first, nodes, k, bytes);
    WithRestSizes(M, first, nodes, k, bytes);
    DetachedList(M, first, nodes, k, bytes);
    var a, M5, left := nodes[k], Detached(M, nodes, k, bytes), Without(nodes, k) + [nodes[k] + bytes];
    LinkCleared(M5, a, bytes);
    forall j | 0 <= j < |left|
      ensures left[j] + HEADER <= |M| && Next(SetNext(M5, a, 0), left[j]) == Next(M5, left[j])
    {
      if j < |nodes| - 1 {
        assert left[j] == nodes[Before(j, k)];
        OthersApart(M, first, nodes, k, bytes, Before(j, k));
        SetNextFields(M5, a, 0, left[j]);
      }
    }
    ListFrame(M5, SetNext(M5, a, 0), FirstLeft(WithRest(M, nodes, k, bytes), first, nodes, k), left);
    forall i | 0 <= i < |nodes| && i != k ensures Size(SetNext(M5, a, 0), nodes[i]) == Size(M, nodes[i]) {
      OthersApart(M, first, nodes, k, bytes, i);
      SetNextFields(M5, a, 0, nodes[i]);
    }
  }
}
