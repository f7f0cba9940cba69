/** The free list of kernel/source/alloc/physical.cpp as a shape in memory: headers linked by
  * their first field, each followed by the block that it describes. */
module FreeList {
  import opened Bits
  import opened Memory

  /** The chain of links that starts at a is exactly `nodes`; being finite, it is acyclic. */
  ghost predicate IsList(M: seq<Byte>, a: nat, nodes: seq<nat>)
    decreases |nodes|
  {
    if |nodes| == 0 then a == 0
    else a == nodes[0] && 0 < a && a + HEADER <= |M| && IsList(M, Next(M, a), nodes[1..])
  }

  /** Where the block described by the header at a ends. */
  function End(M: seq<Byte>, a: nat): nat
    requires a + HEADER <= |M|
  {
    a + HEADER + Size(M, a)
  }

  /** How far the block keeps other headers away: its own header, and its contents up to the
    * last 12 bytes, in which a split puts the header of the remainder. */
  function Reach(M: seq<Byte>, a: nat): nat
    requires a + HEADER <= |M|
  {
    a + if Size(M, a) < HEADER then HEADER else Size(M, a)
  }

  ghost predicate Inside(M: seq<Byte>, nodes: seq<nat>) {
    forall i | 0 <= i < |nodes| :: nodes[i] + HEADER <= |M| && End(M, nodes[i]) <= |M|
  }

  /** The blocks lie in memory and no header stands within the reach of another block. */
  ghost predicate Apart(M: seq<Byte>, nodes: seq<nat>) {
    && Inside(M, nodes)
    && forall i, j | 0 <= i < |nodes| && 0 <= j < |nodes| && i != j ::
         Reach(M, nodes[i]) <= nodes[j] || Reach(M, nodes[j]) <= nodes[i]
  }

  /** The contents of the block at a hold no part of the given other blocks. */
  ghost predicate Whole(M: seq<Byte>, a: nat, others: seq<nat>)
    requires a + HEADER <= |M|
  {
    forall i | 0 <= i < |others| :: others[i] + HEADER <= |M| && (End(M, a) <= others[i] || Reach(M, others[i]) <= a)
  }

  /** The contents of blocks that lie apart do not meet. */
  lemma ContentsApart(M: seq<Byte>, nodes: seq<nat>, i: nat, j: nat)
    requires Apart(M, nodes) && i < |nodes| && j < |nodes| && i != j
    ensures End(M, nodes[i]) <= nodes[j] + HEADER || End(M, nodes[j]) <= nodes[i] + HEADER
  {
    TwoApart(M, nodes, i, j);
    hide Apart;
  }

  function TotalSize(M: seq<Byte>, nodes: seq<nat>): nat
    requires forall i | 0 <= i < |nodes| :: nodes[i] + HEADER <= |M|
  {
    if |nodes| == 0 then 0 else TotalSize(M, nodes[..|nodes| - 1]) + Size(M, nodes[|nodes| - 1])
  }

  function Without(nodes: seq<nat>, k: nat): seq<nat>
    requires k < |nodes|
  {
    nodes[..k] + nodes[k + 1..]
  }

  // ---------- links ----------

  lemma {:induction false} ListHasHeaders(M: seq<Byte>, a: nat, nodes: seq<nat>)
    requires IsList(M, a, nodes)
    ensures forall i | 0 <= i < |nodes| :: 0 < nodes[i] && nodes[i] + HEADER <= |M|
    decreases |nodes|
  {
    hide Load;
    if |nodes| > 0 {
      ListHasHeaders(M, Next(M, a), nodes[1..]);
      forall i | 0 <= i < |nodes| ensures 0 < nodes[i] && nodes[i] + HEADER <= |M| {
        if i > 0 {
          assert nodes[i] == nodes[1..][i - 1];
        }
      }
    }
  }

  /** Each link leads to the next node, and the last one is null. */
  lemma {:induction false} ListLinks(M: seq<Byte>, a: nat, nodes: seq<nat>, i: nat)
    requires IsList(M, a, nodes) && i < |nodes|
    ensures nodes[i] + HEADER <= |M|
    ensures Next(M, nodes[i]) == if i + 1 < |nodes| then nodes[i + 1] else 0
    ensures IsList(M, Next(M, nodes[i]), nodes[i + 1..])
    decreases |nodes|
  {
    hide Load;
    if i > 0 {
      ListLinks(M, Next(M, a), nodes[1..], i - 1);
      assert nodes[1..][i..] == nodes[i + 1..];
    }
  }

  /** Redirecting the link of node i to a list `rest` keeps the nodes up to i. */
  lemma {:induction false} Relink(M: seq<Byte>, M': seq<Byte>, a: nat, nodes: seq<nat>, i: nat, b: nat, rest: seq<nat>)
    requires IsList(M, a, nodes) && i < |nodes| && |M| == |M'|
    requires forall j | 0 <= j < i :: nodes[j] + HEADER <= |M| && Next(M', nodes[j]) == Next(M, nodes[j])
    requires nodes[i] + HEADER <= |M| && Next(M', nodes[i]) == b && IsList(M', b, rest)
    ensures IsList(M', a, nodes[..i + 1] + rest)
    decreases |nodes|
  {
    hide Load;
    if i == 0 {
      assert (nodes[..1] + rest)[1..] == rest;
    } else {
      forall j | 0 <= j < i - 1
        ensures nodes[1..][j] + HEADER <= |M| && Next(M', nodes[1..][j]) == Next(M, nodes[1..][j])
      {
        assert nodes[1..][j] == nodes[j + 1];
      }
      Relink(M, M', Next(M, a), nodes[1..], i - 1, b, rest);
      assert (nodes[..i + 1] + rest)[1..] == nodes[1..][..i] + rest;
      assert Next(M', nodes[0]) == Next(M, nodes[0]);
    }
  }

  /** A list whose links are unchanged is the same list. */
  lemma {:induction false} ListFrame(M: seq<Byte>, M': seq<Byte>, a: nat, nodes: seq<nat>)
    requires IsList(M, a, nodes) && |M| == |M'|
    requires forall j | 0 <= j < |nodes| :: nodes[j] + HEADER <= |M| && Next(M', nodes[j]) == Next(M, nodes[j])
    ensures IsList(M', a, nodes)
    decreases |nodes|
  {
    hide Load;
    if |nodes| > 0 {
      ListFrame(M, M', Next(M, a), nodes[1..]);
    }
  }

  // ---------- sizes ----------

  lemma {:induction false} TotalFrame(M: seq<Byte>, M': seq<Byte>, nodes: seq<nat>)
    requires |M| == |M'|
    requires forall j | 0 <= j < |nodes| :: nodes[j] + HEADER <= |M| && Size(M', nodes[j]) == Size(M, nodes[j])
    ensures TotalSize(M', nodes) == TotalSize(M, nodes)
  {
    if |nodes| > 0 {
      TotalFrame(M, M', nodes[..|nodes| - 1]);
    }
  }

  lemma TotalOneMore(M: seq<Byte>, nodes: seq<nat>, a: nat)
    requires a + HEADER <= |M| && forall i | 0 <= i < |nodes| :: nodes[i] + HEADER <= |M|
    ensures TotalSize(M, nodes + [a]) == TotalSize(M, nodes) + Size(M, a)
  {
    assert (nodes + [a])[..|nodes|] == nodes;
  }

  lemma {:induction false} TotalWithout(M: seq<Byte>, nodes: seq<nat>, k: nat)
    requires k < |nodes| && forall i | 0 <= i < |nodes| :: nodes[i] + HEADER <= |M|
    ensures TotalSize(M, Without(nodes, k)) + Size(M, nodes[k]) == TotalSize(M, nodes)
  {
    var front := nodes[..|nodes| - 1];
    if k == |nodes| - 1 {
      assert Without(nodes, k) == front;
    } else {
      TotalWithout(M, front, k);
      var w := Without(nodes, k);
      assert w[..|w| - 1] == Without(front, k);
      assert w[|w| - 1] == nodes[|nodes| - 1];
    }
  }

  // ---------- first fit ----------

  /** The first node before the last with at least `bytes` bytes, or else the last node. */
  ghost function FirstFit(M: seq<Byte>, nodes: seq<nat>, bytes: nat): (k: nat)
    requires |nodes| > 0 && forall i | 0 <= i < |nodes| :: nodes[i] + HEADER <= |M|
    ensures k < |nodes|
  {
    if |nodes| == 1 || Size(M, nodes[0]) >= bytes then 0 else 1 + FirstFit(M, nodes[1..], bytes)
  }

  lemma {:induction false} FirstFitIsFirst(M: seq<Byte>, nodes: seq<nat>, bytes: nat)
    requires |nodes| > 0 && forall i | 0 <= i < |nodes| :: nodes[i] + HEADER <= |M|
    ensures var k := FirstFit(M, nodes, bytes);
            && (forall i | 0 <= i < k :: Size(M, nodes[i]) < bytes)
            && (k < |nodes| - 1 ==> Size(M, nodes[k]) >= bytes)
  {
    if |nodes| > 1 && Size(M, nodes[0]) < bytes {
      FirstFitIsFirst(M, nodes[1..], bytes);
      var k := FirstFit(M, nodes[1..], bytes);
      forall i | 0 <= i < 1 + k ensures Size(M, nodes[i]) < bytes {
        if i > 0 {
          assert nodes[i] == nodes[1..][i - 1];
        }
      }
    }
  }

  lemma {:induction false} FirstFitFound(M: seq<Byte>, nodes: seq<nat>, bytes: nat, k: nat)
    requires k < |nodes| && forall i | 0 <= i < |nodes| :: nodes[i] + HEADER <= |M|
    requires forall i | 0 <= i < k :: Size(M, nodes[i]) < bytes
    requires k == |nodes| - 1 || Size(M, nodes[k]) >= bytes
    ensures FirstFit(M, nodes, bytes) == k
  {
    if k > 0 {
      assert Size(M, nodes[0]) < bytes;
      FirstFitFound(M, nodes[1..], bytes, k - 1);
    }
  }

  // ---------- headers that lie apart ----------

  /** The headers at `all` lie in n bytes of memory and do not meet. */
  ghost predicate HeadersApart(all: seq<nat>, n: nat) {
    && (forall i | 0 <= i < |all| :: all[i] + HEADER <= n)
    && forall i, j | 0 <= i < |all| && 0 <= j < |all| && i != j ::
         all[i] + HEADER <= all[j] || all[j] + HEADER <= all[i]
  }

  /** Byte k belongs to one of the headers. */
  ghost predicate InHeader(all: seq<nat>, k: nat) {
    exists i :: 0 <= i < |all| && all[i] <= k < all[i] + HEADER
  }

  /** Memory has changed inside the headers only. */
  ghost predicate OnlyHeaders(M: seq<Byte>, M': seq<Byte>, all: seq<nat>) {
    |M| == |M'| && forall k: nat | k < |M| && !InHeader(all, k) :: M'[k] == M[k]
  }

  ghost predicate SameSizes(M: seq<Byte>, M': seq<Byte>, all: seq<nat>)
    requires HeadersApart(all, |M|) && |M| == |M'|
  {
    forall i | 0 <= i < |all| :: Size(M', all[i]) == Size(M, all[i])
  }

  ghost predicate SameLinksBut(M: seq<Byte>, M': seq<Byte>, all: seq<nat>, h: int)
    requires HeadersApart(all, |M|) && |M| == |M'|
  {
    forall i | 0 <= i < |all| && i != h :: Next(M', all[i]) == Next(M, all[i])
  }

  lemma LinkWritten(M: seq<Byte>, all: seq<nat>, h: nat, v: nat)
    requires HeadersApart(all, |M|) && h < |all| && v < 0x1_0000_0000_0000_0000
    ensures var M' := SetNext(M, all[h], v);
            && Next(M', all[h]) == v && SameLinksBut(M, M', all, h) && SameSizes(M, M', all) && OnlyHeaders(M, M', all)
  {
    hide SetNext, Next, Size;
    var M' := SetNext(M, all[h], v);
    forall i | 0 <= i < |all|
      ensures Next(M', all[i]) == (if i == h then v else Next(M, all[i])) && Size(M', all[i]) == Size(M, all[i])
    {
      SetNextFields(M, all[h], v, all[i]);
    }
    forall k: nat | k < |M| && !InHeader(all, k) ensures M'[k] == M[k] {
      SetNextFrame(M, all[h], v, k);
    }
  }

  lemma SetNextFrame(M: seq<Byte>, a: nat, v: nat, k: nat)
    requires a + HEADER <= |M| && k < |M| && !(a <= k < a + HEADER)
    ensures SetNext(M, a, v)[k] == M[k]
  {
    StoreFrame(M, a, 8, v, k);
  }

  lemma SetSizeFrame(M: seq<Byte>, a: nat, v: nat, k: nat)
    requires a + HEADER <= |M| && k < |M| && !(a <= k < a + HEADER)
    ensures SetSize(M, a, v)[k] == M[k]
  {
    StoreFrame(M, a + 8, 4, v, k);
  }

  lemma SizeWritten(M: seq<Byte>, all: seq<nat>, h: nat, v: nat)
    requires HeadersApart(all, |M|) && h < |all| && v < 0x1_0000_0000
    ensures var M' := SetSize(M, all[h], v);
            && Size(M', all[h]) == v && SameLinksBut(M, M', all, -1) && OnlyHeaders(M, M', all)
            && (forall i | 0 <= i < |all| && i != h :: Size(M', all[i]) == Size(M, all[i]))
  {
    hide SetSize, Next, Size;
    var M' := SetSize(M, all[h], v);
    forall i | 0 <= i < |all|
      ensures Size(M', all[i]) == (if i == h then v else Size(M, all[i])) && Next(M', all[i]) == Next(M, all[i])
    {
      SetSizeFields(M, all[h], v, all[i]);
    }
    forall k: nat | k < |M| && !InHeader(all, k) ensures M'[k] == M[k] {
      SetSizeFrame(M, all[h], v, k);
    }
  }

  lemma ApartHeaders(M: seq<Byte>, nodes: seq<nat>)
    requires Apart(M, nodes)
    ensures HeadersApart(nodes, |M|)
  {
    hide Size;
  }

  // ---------- taking a block ----------

  /** First fit finds a block before the last that is large enough to be split. */
  ghost predicate Splits(M: seq<Byte>, nodes: seq<nat>, bytes: nat)
    requires |nodes| > 0 && forall i | 0 <= i < |nodes| :: nodes[i] + HEADER <= |M|
  {
    var k := FirstFit(M, nodes, bytes);
    k < |nodes| - 1 && Size(M, nodes[k]) > bytes + HEADER
  }

  /** That is one that holds at least 13 bytes more than are asked for. */
  lemma SplitsFrom13(M: seq<Byte>, nodes: seq<nat>, bytes: nat)
    requires |nodes| > 0 && forall i | 0 <= i < |nodes| :: nodes[i] + HEADER <= |M|
    ensures var k := FirstFit(M, nodes, bytes);
            Splits(M, nodes, bytes) <==> k < |nodes| - 1 && Size(M, nodes[k]) >= bytes + 13
  {
    hide FirstFit, Size;
  }

  /** The free list once a block for `bytes` bytes is taken from it. */
  ghost function Remaining(M: seq<Byte>, nodes: seq<nat>, bytes: nat): seq<nat>
    requires |nodes| > 0 && forall i | 0 <= i < |nodes| :: nodes[i] + HEADER <= |M|
  {
    var k := FirstFit(M, nodes, bytes);
    Without(nodes, k) + if Splits(M, nodes, bytes) then [nodes[k] + bytes] else []
  }

  /** Memory once a block is taken: only headers change, and sizes change only by the split. */
  ghost predicate Taken(M: seq<Byte>, M': seq<Byte>, nodes: seq<nat>, bytes: nat)
    requires |nodes| > 0 && forall i | 0 <= i < |nodes| :: nodes[i] + HEADER <= |M|
  {
    var k := FirstFit(M, nodes, bytes);
    var split := Splits(M, nodes, bytes);
    && |M'| == |M| && Next(M', nodes[k]) == 0
    && Size(M', nodes[k]) == (if split then bytes else Size(M, nodes[k]))
    && (split ==> nodes[k] + bytes + HEADER <= |M| && Size(M', nodes[k] + bytes) == Size(M, nodes[k]) - bytes)
    && (forall i | 0 <= i < |nodes| && i != k :: Size(M', nodes[i]) == Size(M, nodes[i]))
    && OnlyHeaders(M, M', nodes + if split then [nodes[k] + bytes] else [])
  }

  /** Which node the place i of a list stood at before node k left it. */
  function Before(i: nat, k: nat): nat {
    if i < k then i else i + 1
  }

  /** Where each remaining block comes from, and its size. */
  lemma RemainingAt(M: seq<Byte>, M': seq<Byte>, nodes: seq<nat>, bytes: nat, i: nat)
    requires Inside(M, nodes) && |nodes| > 0 && Taken(M, M', nodes, bytes) && i < |Remaining(M, nodes, bytes)|
    ensures var k, left := FirstFit(M, nodes, bytes), Remaining(M, nodes, bytes);
            && left[i] + HEADER <= |M'|
            && if i < |nodes| - 1 then
                 && left[i] == nodes[Before(i, k)] && End(M', left[i]) == End(M, nodes[Before(i, k)])
                 && Reach(M', left[i]) == Reach(M, nodes[Before(i, k)])
               else
                 && i == |nodes| - 1 && Splits(M, nodes, bytes) && left[i] == nodes[k] + bytes
                 && End(M', left[i]) == End(M, nodes[k]) && Reach(M', left[i]) == Reach(M, nodes[k])
  {
    hide FirstFit, Size, OnlyHeaders;
    var k := FirstFit(M, nodes, bytes);
    if i < |nodes| - 1 {
      assert Remaining(M, nodes, bytes)[i] == nodes[Before(i, k)];
    }
  }

  lemma TwoApart(M: seq<Byte>, nodes: seq<nat>, i: nat, j: nat)
    requires Apart(M, nodes) && i < |nodes| && j < |nodes| && i != j
    ensures Reach(M, nodes[i]) <= nodes[j] || Reach(M, nodes[j]) <= nodes[i]
  {
  }

  lemma RemainingLength(M: seq<Byte>, nodes: seq<nat>, bytes: nat)
    requires Inside(M, nodes) && |nodes| > 0
    ensures |Remaining(M, nodes, bytes)| == if Splits(M, nodes, bytes) then |nodes| else |nodes| - 1
  {
  }

  lemma TwoRemainingApart(M: seq<Byte>, M': seq<Byte>, nodes: seq<nat>, bytes: nat, i: nat, j: nat)
    requires Apart(M, nodes) && |nodes| > 0 && (Splits(M, nodes, bytes) ==> HEADER <= bytes) &&
             Taken(M, M', nodes, bytes)
    requires i < |Remaining(M, nodes, bytes)| && j < |Remaining(M, nodes, bytes)| && i != j
    ensures var left := Remaining(M, nodes, bytes);
            && left[i] + HEADER <= |M'| && left[j] + HEADER <= |M'|
            && (Reach(M', left[i]) <= left[j] || Reach(M', left[j]) <= left[i])
  {
    var k := FirstFit(M, nodes, bytes);
    assert Inside(M, nodes);
    hide FirstFit, Size, Remaining, Taken, Splits, Inside;
    RemainingAt(M, M', nodes, bytes, i);
    RemainingAt(M, M', nodes, bytes, j);
    TwoApart(M, nodes, if i == |nodes| - 1 then k else Before(i, k), if j == |nodes| - 1 then k else Before(j, k));
  }

  /** The blocks that remain free still lie apart. */
  lemma RemainingApart(M: seq<Byte>, M': seq<Byte>, nodes: seq<nat>, bytes: nat)
    requires Apart(M, nodes) && |nodes| > 0 && (Splits(M, nodes, bytes) ==> HEADER <= bytes) &&
             Taken(M, M', nodes, bytes)
    ensures Apart(M', Remaining(M, nodes, bytes))
  {
    var k, left := FirstFit(M, nodes, bytes), Remaining(M, nodes, bytes);
    assert Inside(M, nodes) && |M'| == |M|;
    hide FirstFit, Size, Remaining, Taken, Splits;
    RemainingLength(M, nodes, bytes);
    forall i | 0 <= i < |left| ensures left[i] + HEADER <= |M'| && End(M', left[i]) <= |M'| {
      RemainingAt(M, M', nodes, bytes, i);
    }
    forall i, j | 0 <= i < |left| && 0 <= j < |left| && i != j
      ensures Reach(M', left[i]) <= left[j] || Reach(M', left[j]) <= left[i]
    {
      TwoRemainingApart(M, M', nodes, bytes, i, j);
    }
  }

  lemma WithoutSame(M: seq<Byte>, M': seq<Byte>, nodes: seq<nat>, k: nat)
    requires |M| == |M'| && Inside(M, nodes) && k < |nodes|
    requires forall i | 0 <= i < |nodes| && i != k :: Size(M', nodes[i]) == Size(M, nodes[i])
    ensures forall j | 0 <= j < |nodes| - 1 :: Without(nodes, k)[j] + HEADER <= |M|
    ensures TotalSize(M', Without(nodes, k)) + Size(M, nodes[k]) == TotalSize(M, nodes)
  {
    hide Size, TotalSize;
    var w := Without(nodes, k);
    forall j | 0 <= j < |w| ensures w[j] + HEADER <= |M| && Size(M', w[j]) == Size(M, w[j]) {
      assert w[j] == nodes[Before(j, k)];
    }
    TotalFrame(M, M', w);
    TotalWithout(M, nodes, k);
  }

  lemma TotalRemaining(M: seq<Byte>, M': seq<Byte>, nodes: seq<nat>, bytes: nat)
    requires Inside(M, nodes) && |nodes| > 0 && Taken(M, M', nodes, bytes)
    requires forall j | 0 <= j < |nodes| - 1 :: Without(nodes, FirstFit(M, nodes, bytes))[j] + HEADER <= |M|
    ensures forall j | 0 <= j < |Remaining(M, nodes, bytes)| :: Remaining(M, nodes, bytes)[j] + HEADER <= |M|
    ensures var k := FirstFit(M, nodes, bytes);
            TotalSize(M', Remaining(M, nodes, bytes)) ==
            TotalSize(M', Without(nodes, k)) + if Splits(M, nodes, bytes) then Size(M, nodes[k]) - bytes else 0
  {
    hide Size, TotalSize, FirstFit, OnlyHeaders;
    var w := Without(nodes, FirstFit(M, nodes, bytes));
    if Splits(M, nodes, bytes) {
      TotalOneMore(M', w, nodes[FirstFit(M, nodes, bytes)] + bytes);
    } else {
      assert Remaining(M, nodes, bytes) == w;
    }
  }

  /** No byte is lost: the free blocks and the block that is taken add up to what was free. */
  lemma SizeConserved(M: seq<Byte>, M': seq<Byte>, nodes: seq<nat>, bytes: nat)
    requires Inside(M, nodes) && |nodes| > 0 && Taken(M, M', nodes, bytes)
    ensures forall j | 0 <= j < |Remaining(M, nodes, bytes)| :: Remaining(M, nodes, bytes)[j] + HEADER <= |M|
    ensures TotalSize(M', Remaining(M, nodes, bytes)) + Size(M', nodes[FirstFit(M, nodes, bytes)]) ==
            TotalSize(M, nodes)
  {
    var k := FirstFit(M, nodes, bytes);
    var a := nodes[k];
    assert Size(M', a) == if Splits(M, nodes, bytes) then bytes else Size(M, a);
    WithoutSame(M, M', nodes, k);
    hide Size, TotalSize, FirstFit, Remaining, Without;
    TotalRemaining(M, M', nodes, bytes);
  }

  /** The block that is taken is large enough iff some block before the last is, or the last
    * one is; and then, unless it is the last, at most a header's worth is wasted. */
  lemma TakenIsLargeEnough(M: seq<Byte>, M': seq<Byte>, nodes: seq<nat>, bytes: nat)
    requires Apart(M, nodes) && |nodes| > 0 && Taken(M, M', nodes, bytes)
    ensures var a := nodes[FirstFit(M, nodes, bytes)];
            && (Size(M', a) >= bytes <==> exists i :: 0 <= i < |nodes| && Size(M, nodes[i]) >= bytes)
            && (FirstFit(M, nodes, bytes) < |nodes| - 1 ==> bytes <= Size(M', a) <= bytes + HEADER)
  {
    FirstFitIsFirst(M, nodes, bytes);
  }

  /** Where the block that is taken ends, and how far it reaches. */
  lemma TakenAt(M: seq<Byte>, M': seq<Byte>, nodes: seq<nat>, bytes: nat)
    requires Inside(M, nodes) && |nodes| > 0 && (Splits(M, nodes, bytes) ==> HEADER <= bytes) &&
             Taken(M, M', nodes, bytes)
    ensures var k := FirstFit(M, nodes, bytes);
            && nodes[k] + HEADER <= |M| == |M'| && Reach(M', nodes[k]) <= Reach(M, nodes[k])
            && (if Splits(M, nodes, bytes) then
                  End(M', nodes[k]) == nodes[k] + bytes + HEADER <= End(M, nodes[k]) &&
                    Reach(M', nodes[k]) == nodes[k] + bytes
                else End(M', nodes[k]) == End(M, nodes[k]))
  {
    hide FirstFit, Next, OnlyHeaders;
  }

  /** The block that is taken lies apart from each remaining one. */
  lemma TakenAndOneApart(M: seq<Byte>, M': seq<Byte>, nodes: seq<nat>, bytes: nat, i: nat)
    requires Apart(M, nodes) && |nodes| > 0 && (Splits(M, nodes, bytes) ==> HEADER <= bytes) &&
             Taken(M, M', nodes, bytes)
    requires i < |Remaining(M, nodes, bytes)|
    ensures var k, left := FirstFit(M, nodes, bytes), Remaining(M, nodes, bytes);
            && nodes[k] + HEADER <= |M'| && left[i] + HEADER <= |M'|
            && (Reach(M', nodes[k]) <= left[i] || Reach(M', left[i]) <= nodes[k])
  {
    var k := FirstFit(M, nodes, bytes);
    assert Inside(M, nodes);
    TakenAt(M, M', nodes, bytes);
    RemainingAt(M, M', nodes, bytes, i);
    hide FirstFit, Remaining, Taken, Splits, Inside, Apart, Reach, End, Size;
    if i < |nodes| - 1 {
      TwoApart(M, nodes, Before(i, k), k);
    }
  }

  lemma OneMoreApart(M: seq<Byte>, nodes: seq<nat>, a: nat)
    requires Apart(M, nodes) && a + HEADER <= |M| && End(M, a) <= |M|
    requires forall i | 0 <= i < |nodes| ::
               nodes[i] + HEADER <= |M| && (Reach(M, a) <= nodes[i] || Reach(M, nodes[i]) <= a)
    ensures Apart(M, nodes + [a])
  {
    hide Reach, Size;
  }

  /** The block that is taken and the blocks that remain free lie apart. */
  lemma TakenIsApart(M: seq<Byte>, M': seq<Byte>, nodes: seq<nat>, bytes: nat)
    requires Apart(M, nodes) && |nodes| > 0 && (Splits(M, nodes, bytes) ==> HEADER <= bytes) &&
             Taken(M, M', nodes, bytes)
    ensures Apart(M', Remaining(M, nodes, bytes) + [nodes[FirstFit(M, nodes, bytes)]])
  {
    RemainingApart(M, M', nodes, bytes);
    var k, left := FirstFit(M, nodes, bytes), Remaining(M, nodes, bytes);
    assert Inside(M, nodes);
    TakenAt(M, M', nodes, bytes);
    hide FirstFit, Remaining, Taken, Splits, Apart, Reach, Size;
    forall i | 0 <= i < |left|
      ensures left[i] + HEADER <= |M'| && (Reach(M', nodes[k]) <= left[i] || Reach(M', left[i]) <= nodes[k])
    {
      TakenAndOneApart(M, M', nodes, bytes, i);
    }
    OneMoreApart(M', left, nodes[k]);
  }

  /** The contents of the block that is taken are whole iff no split happened and they were whole
    * before: a split leaves the header of the remainder in their last bytes. */
  lemma TakenIsWhole(M: seq<Byte>, M': seq<Byte>, nodes: seq<nat>, bytes: nat)
    requires Apart(M, nodes) && |nodes| > 0 && (Splits(M, nodes, bytes) ==> HEADER <= bytes) &&
             Taken(M, M', nodes, bytes)
    ensures var k, left := FirstFit(M, nodes, bytes), Remaining(M, nodes, bytes);
            && (Whole(M', nodes[k], left) <==> !Splits(M, nodes, bytes) && Whole(M, nodes[k], Without(nodes, k)))
            && (Splits(M, nodes, bytes) ==>
                left[|left| - 1] >= nodes[k] + HEADER && left[|left| - 1] + HEADER == End(M', nodes[k]))
  {
    var k, left, w := FirstFit(M, nodes, bytes), Remaining(M, nodes, bytes), Without(nodes, FirstFit(M, nodes, bytes));
    assert Inside(M, nodes);
    TakenAt(M, M', nodes, bytes);
    RemainingLength(M, nodes, bytes);
    if Splits(M, nodes, bytes) {
      RemainingAt(M, M', nodes, bytes, |nodes| - 1);
      hide FirstFit, Remaining, Taken, Splits, Apart, Size;
      assert !(End(M', nodes[k]) <= left[|nodes| - 1] || Reach(M', left[|nodes| - 1]) <= nodes[k]);
    } else {
      hide FirstFit, Taken, Splits, Apart, Reach, Size;
      assert left == w;
      forall i | 0 <= i < |left| ensures left[i] + HEADER <= |M'| && Reach(M', left[i]) == Reach(M, w[i]) {
        RemainingAt(M, M', nodes, bytes, i);
      }
    }
  }
}
