/** What holds of every run of the allocator (kernel/source/alloc/physical.cpp): allocation from the
  * head or from the free list, release, and writes by those who hold blocks. */
module Heap {
  import opened Bits
  import opened Common
  import opened Memory
  import opened FreeList

  /** Memory, the first free block, the head, and the headers of the free blocks in list order. */
  datatype Heap = Heap(mem: seq<Byte>, first: nat, head: nat, free: seq<nat>)

  /** A heap and the headers of the blocks that have been handed out. */
  datatype State = State(heap: Heap, out: seq<nat>)

  ghost predicate Below(M: seq<Byte>, nodes: seq<nat>, head: nat) {
    forall i | 0 <= i < |nodes| :: 0 < nodes[i] && nodes[i] + HEADER <= |M| && End(M, nodes[i]) <= head
  }

  /** The free list is acyclic, and all blocks lie apart and below the head. */
  ghost predicate Sound(s: State) {
    && 0 < s.heap.head <= |s.heap.mem| < WORD64
    && IsList(s.heap.mem, s.heap.first, s.heap.free)
    && Apart(s.heap.mem, s.heap.free + s.out) && Below(s.heap.mem, s.heap.free + s.out, s.heap.head)
  }

  /** Byte k belongs to the link or the size of a free block, or to the size of one handed out. */
  ghost predicate Vital(s: State, k: nat) {
    InHeader(s.heap.free, k) || exists j :: 0 <= j < |s.out| && s.out[j] + 8 <= k < s.out[j] + HEADER
  }

  /** Byte k belongs to the contents of the block at a, in which its holder may write. */
  ghost predicate Holds(M: seq<Byte>, a: nat, k: nat) {
    a + HEADER <= |M| && a + HEADER <= k < End(M, a)
  }

  /** The contents of handed-out block i hold a byte that is vital. */
  ghost predicate Exposed(s: State, i: nat)
    requires i < |s.out|
  {
    exists k: nat :: Holds(s.heap.mem, s.out[i], k) && Vital(s, k)
  }

  // ---------- steps ----------

  /** `pm::Alloc` takes the block at a from the head. */
  ghost predicate Bumps(h: Heap, bytes: nat, a: nat, h': Heap) {
    && a == h.head && a + HEADER <= |h.mem| == |h'.mem|
    && h'.head == a + HEADER + bytes && h'.free == h.free == [] && h'.first == 0
    && Size(h'.mem, a) == bytes % WORD32 && OnlyHeaders(h.mem, h'.mem, [a])
  }

  /** `pm::Alloc` takes the block at a from the free list. */
  ghost predicate Takes(h: Heap, bytes: nat, a: nat, h': Heap) {
    && |h.free| > 0 && Inside(h.mem, h.free) && h'.head == h.head && a == h.free[FirstFit(h.mem, h.free, bytes)]
    && Taken(h.mem, h'.mem, h.free, bytes) && h'.free == Remaining(h.mem, h.free, bytes)
    && IsList(h'.mem, h'.first, h'.free)
  }

  /** `pm::Free` appends the block at a to the free list. */
  ghost predicate Frees(h: Heap, a: nat, h': Heap) {
    && h'.head == h.head && h'.free == h.free + [a] && IsList(h'.mem, h'.first, h'.free)
    && HeadersApart(h'.free, |h.mem|) && |h'.mem| == |h.mem|
    && SameSizes(h.mem, h'.mem, h'.free) && OnlyHeaders(h.mem, h'.mem, h'.free)
  }

  datatype Event =
    | Bump(bytes: nat, block: nat)
    | Take(bytes: nat, block: nat)
    | Free(i: nat)
    | Align   // `pm::AlignedAlloc`: the head rises, and nothing below it is written
    | Write   // anything is written anywhere but to vital bytes
    | Fill(i: nat)   // the holder of block i writes anything anywhere in its contents

  ghost predicate Step(s: State, e: Event, s': State) {
    match e
    case Bump(bytes, block) =>
      Bumps(s.heap, bytes, block, s'.heap) && s'.heap.head <= |s.heap.mem| && s'.out == s.out + [block]
    case Take(bytes, block) =>
      && Takes(s.heap, bytes, block, s'.heap) && s'.out == s.out + [block]
      && (Splits(s.heap.mem, s.heap.free, bytes) ==> HEADER <= bytes)
    case Free(i) =>
      i < |s.out| && Frees(s.heap, s.out[i], s'.heap) && s'.out == Without(s.out, i)
    case Align =>
      && s'.out == s.out && s'.heap.free == s.heap.free && s'.heap.first == s.heap.first
      && s.heap.head <= s'.heap.head <= |s.heap.mem| == |s'.heap.mem|
      && (forall k | 0 <= k < s.heap.head :: s'.heap.mem[k] == s.heap.mem[k])
    case Write =>
      && s' == State(s.heap.(mem := s'.heap.mem), s.out) && |s'.heap.mem| == |s.heap.mem|
      && (forall k: nat | k < |s.heap.mem| && Vital(s, k) :: s'.heap.mem[k] == s.heap.mem[k])
    case Fill(i) =>
      && s' == State(s.heap.(mem := s'.heap.mem), s.out) && |s'.heap.mem| == |s.heap.mem| && i < |s.out|
      && (forall k: nat | k < |s.heap.mem| && !Holds(s.heap.mem, s.out[i], k) :: s'.heap.mem[k] == s.heap.mem[k])
  }

  // ---------- headers that a step leaves alone ----------

  ghost predicate SameHeader(M: seq<Byte>, M': seq<Byte>, a: nat) {
    a + HEADER <= |M| == |M'| && Next(M', a) == Next(M, a) && Size(M', a) == Size(M, a)
  }

  lemma HeaderKept(M: seq<Byte>, M': seq<Byte>, a: nat)
    requires a + HEADER <= |M| == |M'| && forall k | a <= k < a + HEADER :: M'[k] == M[k]
    ensures SameHeader(M, M', a)
  {
    hide Load;
    LoadFrame(M, M', a, 8);
    LoadFrame(M, M', a + 8, 4);
  }

  /** A header that stands apart from all those that are written. */
  lemma OtherHeaderKept(M: seq<Byte>, M': seq<Byte>, all: seq<nat>, a: nat)
    requires OnlyHeaders(M, M', all) && a + HEADER <= |M|
    requires forall i | 0 <= i < |all| :: all[i] + HEADER <= a || a + HEADER <= all[i]
    ensures SameHeader(M, M', a)
  {
    forall k: nat | a <= k < a + HEADER ensures M'[k] == M[k] {
      assert !InHeader(all, k);
    }
    HeaderKept(M, M', a);
  }

  /** Blocks that have not grown still lie apart and below the head. */
  lemma SizesKept(M: seq<Byte>, M': seq<Byte>, nodes: seq<nat>, head: nat)
    requires Apart(M, nodes) && Below(M, nodes, head) && |M| == |M'|
    requires forall i | 0 <= i < |nodes| :: nodes[i] + HEADER <= |M| && Size(M', nodes[i]) <= Size(M, nodes[i])
    ensures Apart(M', nodes) && Below(M', nodes, head)
  {
    hide Size;
    forall i, j | 0 <= i < |nodes| && 0 <= j < |nodes| && i != j
      ensures Reach(M', nodes[i]) <= nodes[j] || Reach(M', nodes[j]) <= nodes[i]
    {
      TwoApart(M, nodes, i, j);
    }
  }

  /** Sizes, and the links of the free blocks, are all that matters. */
  lemma HeadersKept(s: State, M': seq<Byte>)
    requires Sound(s) && |M'| == |s.heap.mem| && SizesSame(s, M')
    requires forall i | 0 <= i < |s.heap.free| :: SameHeader(s.heap.mem, M', s.heap.free[i])
    ensures Sound(State(s.heap.(mem := M'), s.out))
  {
    hide Next, Size, Apart, Below, IsList;
    var M, all := s.heap.mem, s.heap.free + s.out;
    SizesKept(M, M', all, s.heap.head);
    ListFrame(M, M', s.heap.first, s.heap.free);
  }

  ghost predicate SizesSame(s: State, M': seq<Byte>) {
    forall i | 0 <= i < |s.heap.free + s.out| ::
      var b := (s.heap.free + s.out)[i];
      b + HEADER <= |s.heap.mem| == |M'| && Size(M', b) == Size(s.heap.mem, b)
  }

  lemma InBounds(s: State, i: nat)
    requires Sound(s) && i < |s.heap.free + s.out|
    ensures var a := (s.heap.free + s.out)[i];
            0 < a && a + HEADER <= |s.heap.mem| && End(s.heap.mem, a) <= s.heap.head
  {
    hide Size, Apart, IsList;
  }

  /** Steps that touch no block leave sizes and the free blocks' links alone. */
  lemma Untouched(s: State, e: Event, s': State)
    requires Sound(s) && Step(s, e, s') && (e.Bump? || e.Align? || e.Write?)
    ensures |s'.heap.mem| == |s.heap.mem| && SizesSame(s, s'.heap.mem)
    ensures forall i | 0 <= i < |s.heap.free| :: SameHeader(s.heap.mem, s'.heap.mem, s.heap.free[i])
  {
    hide Next, Size, Apart, Below, IsList;
    var M, M', free, all := s.heap.mem, s'.heap.mem, s.heap.free, s.heap.free + s.out;
    forall i | 0 <= i < |all|
      ensures all[i] + HEADER <= |M| && Size(M', all[i]) == Size(M, all[i])
      ensures i < |free| ==> SameHeader(M, M', all[i])
    {
      InBounds(s, i);
      if e.Bump? {
        OtherHeaderKept(M, M', [e.block], all[i]);
      } else if e.Align? {
        HeaderKept(M, M', all[i]);
      } else if i < |free| {
        assert forall k: nat | all[i] <= k < all[i] + HEADER :: InHeader(free, k);
        HeaderKept(M, M', all[i]);
      } else {
        assert all[i] == s.out[i - |free|];
        assert forall k: nat | all[i] + 8 <= k < all[i] + HEADER :: Vital(s, k);
        SizeKept(M, M', all[i]);
      }
    }
    forall i | 0 <= i < |free| ensures SameHeader(M, M', free[i]) {
      assert free[i] == all[i];
    }
  }

  lemma SizeKept(M: seq<Byte>, M': seq<Byte>, a: nat)
    requires a + HEADER <= |M| == |M'| && forall k | a + 8 <= k < a + HEADER :: M'[k] == M[k]
    ensures Size(M', a) == Size(M, a)
  {
    LoadFrame(M, M', a + 8, 4);
  }

  /** Contents without a vital byte may be written at will. */
  lemma FillIsWrite(s: State, i: nat, s': State)
    requires Step(s, Fill(i), s') && !Exposed(s, i)
    ensures Step(s, Write, s')
  {
    hide Vital, Holds;
  }

  /** Steps that leave the blocks as they are. */
  lemma QuietStepKeepsSound(s: State, e: Event, s': State)
    requires Sound(s) && Step(s, e, s') && (e.Align? || e.Write?)
    ensures Sound(s')
  {
    hide Next, Size, Apart, IsList;
    Untouched(s, e, s');
    HeadersKept(s, s'.heap.mem);
  }

  // ---------- the head ----------

  lemma BumpKeepsSound(s: State, bytes: nat, a: nat, s': State)
    requires Sound(s) && Step(s, Bump(bytes, a), s')
    ensures Sound(s')
  {
    hide Next, Size, IsList;
    var M, M', all := s.heap.mem, s'.heap.mem, s.heap.free + s.out;
    assert all == s.out && s'.heap.free + s'.out == all + [a];
    Untouched(s, Bump(bytes, a), s');
    SizesKept(M, M', all, s.heap.head);
    ModBelow(bytes);
    forall i | 0 <= i < |all| ensures all[i] + HEADER <= |M'| && Reach(M', all[i]) <= a {
      assert End(M', all[i]) <= s.heap.head;
    }
    OneMoreApart(M', all, a);
    NoList(M');
  }

  lemma ModBelow(v: nat)
    ensures v % WORD32 <= v
  {
  }

  lemma NoList(M: seq<Byte>)
    ensures IsList(M, 0, [])
  {
  }

  // ---------- the free list ----------

  lemma PartsApart(M: seq<Byte>, x: seq<nat>, y: seq<nat>)
    requires Apart(M, x + y)
    ensures Apart(M, x) && Apart(M, y)
  {
    hide Reach, Size;
    var all := x + y;
    forall i | 0 <= i < |x| ensures x[i] == all[i] {}
    forall i | 0 <= i < |y| ensures y[i] == all[|x| + i] {}
  }

  /** Two blocks of one heap that lie apart from each other. */
  ghost predicate Clear(M: seq<Byte>, a: nat, b: nat) {
    a + HEADER <= |M| && b + HEADER <= |M| && (Reach(M, a) <= b || Reach(M, b) <= a)
  }

  lemma JoinedApart(M: seq<Byte>, x: seq<nat>, y: seq<nat>)
    requires Apart(M, x) && Apart(M, y)
    requires forall i, j | 0 <= i < |x| && 0 <= j < |y| :: Clear(M, x[i], y[j])
    ensures Apart(M, x + y)
  {
    hide Reach, Size;
    var all := x + y;
    forall i, j | 0 <= i < |all| && 0 <= j < |all| && i != j
      ensures all[i] + HEADER <= |M| && all[j] + HEADER <= |M| &&
              (Reach(M, all[i]) <= all[j] || Reach(M, all[j]) <= all[i])
    {
      if i < |x| <= j {
        assert Clear(M, x[i], y[j - |x|]);
      } else if j < |x| <= i {
        assert Clear(M, x[j], y[i - |x|]);
      }
    }
  }

  /** What taking a block does to a block that was handed out before: nothing. */
  lemma OutKept(s: State, bytes: nat, a: nat, s': State, j: nat)
    requires Sound(s) && Step(s, Take(bytes, a), s') && j < |s.out|
    ensures SameHeader(s.heap.mem, s'.heap.mem, s.out[j])
  {
    hide IsList, FirstFit, Size, Below;
    var M, M', free, b := s.heap.mem, s'.heap.mem, s.heap.free, s.out[j];
    assert b == (free + s.out)[|free| + j];
    var all := free + if Splits(M, free, bytes) then [a + bytes] else [];
    forall i | 0 <= i < |all| ensures all[i] + HEADER <= b || b + HEADER <= all[i] {
      var k := if i < |free| then i else FirstFit(M, free, bytes);
      TwoApart(M, free + s.out, k, |free| + j);
    }
    OtherHeaderKept(M, M', all, b);
  }

  lemma InsideHeaders(M: seq<Byte>, nodes: seq<nat>)
    requires Inside(M, nodes)
    ensures forall i | 0 <= i < |nodes| :: nodes[i] + HEADER <= |M|
  {
  }

  /** It stays clear of the block that is taken. */
  lemma OutClearOfTaken(s: State, bytes: nat, a: nat, s': State, j: nat)
    requires Sound(s) && Step(s, Take(bytes, a), s') && j < |s.out|
    ensures Clear(s'.heap.mem, a, s.out[j])
  {
    hide IsList, FirstFit, Next, Size, Below, Taken, Remaining, Splits, Apart, Inside, Reach, OnlyHeaders;
    var M, M', free, all := s.heap.mem, s'.heap.mem, s.heap.free, s.heap.free + s.out;
    InsideHeaders(M, free);
    var k := FirstFit(M, free, bytes);
    OutKept(s, bytes, a, s', j);
    TakenAt(M, M', free, bytes);
    assert all[k] == a && all[|free| + j] == s.out[j] && Apart(M, all);
    TwoApart(M, all, k, |free| + j);
    StillClear(M, M', a, a, s.out[j]);
  }

  lemma StillClear(M: seq<Byte>, M': seq<Byte>, a: nat, a': nat, b: nat)
    requires a + HEADER <= |M| == |M'| && a' + HEADER <= |M| && SameHeader(M, M', b)
    requires Reach(M, a) <= b || Reach(M, b) <= a
    requires a <= a' && Reach(M', a') <= Reach(M, a)
    ensures Clear(M', a', b)
  {
    hide Size, Next;
  }

  /** It stays clear of each block that remains free. */
  lemma OutClearOfFree(s: State, bytes: nat, a: nat, s': State, i: nat, j: nat)
    requires Sound(s) && Step(s, Take(bytes, a), s') && j < |s.out| && i < |s'.heap.free|
    ensures Clear(s'.heap.mem, s'.heap.free[i], s.out[j])
  {
    hide IsList, FirstFit, Next, Size, Below, Taken, Remaining, Splits, Apart, Inside, Reach, OnlyHeaders;
    var M, M', free, all := s.heap.mem, s'.heap.mem, s.heap.free, s.heap.free + s.out;
    InsideHeaders(M, free);
    var k := FirstFit(M, free, bytes);
    OutKept(s, bytes, a, s', j);
    RemainingAt(M, M', free, bytes, i);
    var from := if i < |free| - 1 then Before(i, k) else k;
    assert all[from] == free[from] && all[|free| + j] == s.out[j] && Apart(M, all);
    TwoApart(M, all, from, |free| + j);
    StillClear(M, M', all[from], s'.heap.free[i], s.out[j]);
  }

  /** Blocks picked from others that lie apart, each one at most once. */
  lemma Picked(M: seq<Byte>, nodes: seq<nat>, picked: seq<nat>, from: seq<nat>, head: nat)
    requires Apart(M, nodes) && Below(M, nodes, head) && |from| == |picked|
    requires forall i | 0 <= i < |from| :: from[i] < |nodes| && picked[i] == nodes[from[i]]
    requires forall i, j | 0 <= i < j < |from| :: from[i] != from[j]
    ensures Apart(M, picked) && Below(M, picked, head)
  {
    hide Reach, Size;
    forall i, j | 0 <= i < |picked| && 0 <= j < |picked| && i != j
      ensures Reach(M, picked[i]) <= picked[j] || Reach(M, picked[j]) <= picked[i]
    {
      assert from[i] != from[j];
      TwoApart(M, nodes, from[i], from[j]);
    }
  }

  lemma Swapped(M: seq<Byte>, x: seq<nat>, y: seq<nat>, z: seq<nat>, head: nat)
    requires Apart(M, x + y + z) && Below(M, x + y + z, head)
    ensures Apart(M, x + (z + y)) && Below(M, x + (z + y), head)
  {
    hide Apart, Below;
    var n, m := |x|, |x| + |z|;
    var from := seq(|x + (z + y)|, i requires 0 <= i => if i < n then i else if i < m then i + |y| else i - |z|);
    Picked(M, x + y + z, x + (z + y), from, head);
  }

  lemma JoinedBelow(M: seq<Byte>, x: seq<nat>, y: seq<nat>, head: nat)
    requires Below(M, x, head) && Below(M, y, head)
    ensures Below(M, x + y, head)
  {
    hide Size;
  }

  lemma OutSound(s: State)
    requires Sound(s)
    ensures Apart(s.heap.mem, s.heap.free) && Apart(s.heap.mem, s.out)
    ensures Below(s.heap.mem, s.heap.free, s.heap.head) && Below(s.heap.mem, s.out, s.heap.head)
  {
    hide Reach, Size, IsList;
    PartsApart(s.heap.mem, s.heap.free, s.out);
    hide Apart;
    forall i | 0 <= i < |s.heap.free| ensures s.heap.free[i] == (s.heap.free + s.out)[i] {}
    forall i | 0 <= i < |s.out| ensures s.out[i] == (s.heap.free + s.out)[|s.heap.free| + i] {}
  }

  /** The blocks that remain and the one that is taken lie apart and below the head. */
  lemma TakenSound(s: State, bytes: nat, a: nat, s': State)
    requires Sound(s) && Step(s, Take(bytes, a), s')
    ensures Apart(s'.heap.mem, s'.heap.free + [a]) && Below(s'.heap.mem, s'.heap.free + [a], s.heap.head)
  {
    var M, M', free, left := s.heap.mem, s'.heap.mem, s.heap.free, s'.heap.free + [a];
    OutSound(s);
    TakenIsApart(M, M', free, bytes);
    TakenAt(M, M', free, bytes);
    hide IsList, FirstFit, Size, Reach, Apart, Taken, Remaining, Splits;
    forall i | 0 <= i < |left| ensures 0 < left[i] && left[i] + HEADER <= |M'| && End(M', left[i]) <= s.heap.head {
      if i < |s'.heap.free| {
        RemainingAt(M, M', free, bytes, i);
      }
    }
  }

  lemma OutKeptSound(s: State, bytes: nat, a: nat, s': State)
    requires Sound(s) && Step(s, Take(bytes, a), s')
    ensures Apart(s'.heap.mem, s.out) && Below(s'.heap.mem, s.out, s.heap.head)
  {
    OutSound(s);
    hide IsList, Next, Size, Apart, Below;
    forall j | 0 <= j < |s.out|
      ensures s.out[j] + HEADER <= |s.heap.mem| && Size(s'.heap.mem, s.out[j]) == Size(s.heap.mem, s.out[j])
    {
      OutKept(s, bytes, a, s', j);
    }
    SizesKept(s.heap.mem, s'.heap.mem, s.out, s.heap.head);
  }

  lemma TakeKeepsSound(s: State, bytes: nat, a: nat, s': State)
    requires Sound(s) && Step(s, Take(bytes, a), s')
    ensures Sound(s')
  {
    var M', left := s'.heap.mem, s'.heap.free + [a];
    TakenSound(s, bytes, a, s');
    OutKeptSound(s, bytes, a, s');
    assert s'.out == s.out + [a] && s'.heap.head == s.heap.head && |M'| == |s.heap.mem|;
    hide IsList, FirstFit, Reach, Size, Apart, Below, Taken, Remaining, Splits, Inside;
    forall i, j | 0 <= i < |left| && 0 <= j < |s.out| ensures Clear(M', left[i], s.out[j]) {
      if i < |s'.heap.free| {
        OutClearOfFree(s, bytes, a, s', i, j);
      } else {
        OutClearOfTaken(s, bytes, a, s', j);
      }
    }
    JoinedApart(M', left, s.out);
    JoinedBelow(M', left, s.out, s.heap.head);
    Swapped(M', s'.heap.free, [a], s.out, s.heap.head);
  }

  // ---------- release ----------

  /** Where the block at place k of the free and the handed-out ones stood before the handed-out
    * block i was released behind n free ones. */
  function ReleasedFrom(n: nat, i: nat, k: nat): nat {
    if k < n then k else if k == n then n + i else n + Before(k - n - 1, i)
  }

  lemma FreeKeepsSound(s: State, i: nat, s': State)
    requires Sound(s) && Step(s, Free(i), s')
    ensures Sound(s')
  {
    hide IsList, Reach, Size, Apart, Below;
    var M, M', free, out, a := s.heap.mem, s'.heap.mem, s.heap.free, s.out, s.out[i];
    var all, n := free + out, |free|;
    forall k | 0 <= k < |all| ensures all[k] + HEADER <= |M| && Size(M', all[k]) == Size(M, all[k]) {
      SizeAtFree(s, i, s', k);
    }
    SizesKept(M, M', all, s.heap.head);
    var from := seq(|all|, k requires 0 <= k => ReleasedFrom(n, i, k));
    var all' := s'.heap.free + s'.out;
    forall k | 0 <= k < |all'| ensures from[k] < |all| && all'[k] == all[from[k]] {
      assert k > n ==> all'[k] == out[Before(k - n - 1, i)];
    }
    Picked(M', all, all', from, s.heap.head);
  }

  lemma SizeAtFree(s: State, i: nat, s': State, k: nat)
    requires Sound(s) && Step(s, Free(i), s') && k < |s.heap.free + s.out|
    ensures var b := (s.heap.free + s.out)[k];
            b + HEADER <= |s.heap.mem| && Size(s'.heap.mem, b) == Size(s.heap.mem, b)
  {
    hide IsList, Size, Below;
    var M, M', free, a := s.heap.mem, s'.heap.mem, s.heap.free, s.out[i];
    var all, n := free + s.out, |free|;
    assert s'.heap.free[n] == a == all[n + i];
    if k < n {
      assert s'.heap.free[k] == all[k];
    } else if k != n + i {
      forall j | 0 <= j < n + 1 ensures s'.heap.free[j] + HEADER <= all[k] || all[k] + HEADER <= s'.heap.free[j] {
        TwoApart(M, all, if j < n then j else n + i, k);
      }
      OtherHeaderKept(M, M', s'.heap.free, all[k]);
    }
  }

  // ---------- runs ----------

  /** The step is not a write to contents that hold a vital byte. */
  ghost predicate Harmless(s: State, e: Event) {
    e.Fill? ==> e.i < |s.out| && !Exposed(s, e.i)
  }

  lemma StepKeepsSound(s: State, e: Event, s': State)
    requires Sound(s) && Step(s, e, s') && Harmless(s, e)
    ensures Sound(s')
  {
    hide Sound, Step, Exposed;
    match e
    case Bump(bytes, a) => BumpKeepsSound(s, bytes, a, s');
    case Take(bytes, a) => TakeKeepsSound(s, bytes, a, s');
    case Free(i) => FreeKeepsSound(s, i, s');
    case Fill(i) =>
      FillIsWrite(s, i, s');
      QuietStepKeepsSound(s, Write, s');
    case _ => QuietStepKeepsSound(s, e, s');
  }

  ghost predicate IsRun(run: seq<State>, events: seq<Event>) {
    |run| == |events| + 1 && forall i | 0 <= i < |events| :: Step(run[i], events[i], run[i + 1])
  }

  /** What that means to the holders of blocks: no byte belongs to two of them, none belongs to
    * a free block, none lies beyond the head; and every block can be released at any time. */
  lemma ContentsAreExclusive(s: State, i: nat, j: nat, k: nat)
    requires Sound(s) && i < |s.out| && Holds(s.heap.mem, s.out[i], k)
    ensures k < s.heap.head
    ensures j < |s.out| && j != i ==> !Holds(s.heap.mem, s.out[j], k)
    ensures j < |s.heap.free| ==> !Holds(s.heap.mem, s.heap.free[j], k)
    ensures Apart(s.heap.mem, s.heap.free + [s.out[i]])
  {
    var M, free, all := s.heap.mem, s.heap.free, s.heap.free + s.out;
    assert all[|free| + i] == s.out[i];
    hide IsList, Reach, Size;
    if j < |s.out| && j != i {
      ContentsApart(M, all, |free| + i, |free| + j);
    }
    if j < |free| {
      ContentsApart(M, all, |free| + i, j);
    }
    var from := seq(|free| + 1, k requires 0 <= k => if k < |free| then k else |free| + i);
    Picked(M, all, free + [s.out[i]], from, s.heap.head);
  }

  /** Bytes in free and handed-out blocks together. */
  ghost function Held(s: State): nat
    requires Sound(s)
  {
    OutSound(s);
    TotalSize(s.heap.mem, s.heap.free) + TotalSize(s.heap.mem, s.out)
  }

  ghost function Added(e: Event): nat {
    if e.Bump? then e.bytes % WORD32 else 0
  }

  lemma TotalsKept(s: State, M': seq<Byte>)
    requires Sound(s) && |M'| == |s.heap.mem|
    requires SizesSame(s, M')
    ensures forall i | 0 <= i < |s.heap.free| :: s.heap.free[i] + HEADER <= |M'|
    ensures forall i | 0 <= i < |s.out| :: s.out[i] + HEADER <= |M'|
    ensures TotalSize(M', s.heap.free) + TotalSize(M', s.out) == Held(s)
  {
    hide IsList, Size, Apart, Below, TotalSize;
    var M, free, all := s.heap.mem, s.heap.free, s.heap.free + s.out;
    forall i | 0 <= i < |free| ensures free[i] + HEADER <= |M| && Size(M', free[i]) == Size(M, free[i]) {
      assert free[i] == all[i];
    }
    forall i | 0 <= i < |s.out| ensures s.out[i] + HEADER <= |M| && Size(M', s.out[i]) == Size(M, s.out[i]) {
      assert s.out[i] == all[|free| + i];
    }
    TotalFrame(M, M', free);
    TotalFrame(M, M', s.out);
  }

  lemma TakeConserves(s: State, bytes: nat, a: nat, s': State)
    requires Sound(s) && Sound(s') && Step(s, Take(bytes, a), s')
    ensures Held(s') == Held(s)
  {
    hide IsList, Size, Apart, Below, TotalSize, FirstFit, Remaining, Splits, Inside, OnlyHeaders;
    var M, M' := s.heap.mem, s'.heap.mem;
    InsideHeaders(M, s.heap.free);
    SizeConserved(M, M', s.heap.free, bytes);
    OutSound(s);
    forall i | 0 <= i < |s.out| ensures s.out[i] + HEADER <= |M| && Size(M', s.out[i]) == Size(M, s.out[i]) {
      OutKept(s, bytes, a, s', i);
    }
    TotalFrame(M, M', s.out);
    TotalOneMore(M', s.out, a);
  }

  lemma FreeConserves(s: State, i: nat, s': State)
    requires Sound(s) && Sound(s') && Step(s, Free(i), s')
    ensures Held(s') == Held(s)
  {
    hide IsList, Size, Apart, Below, TotalSize;
    forall k | 0 <= k < |s.heap.free + s.out|
      ensures var b := (s.heap.free + s.out)[k];
              b + HEADER <= |s.heap.mem| && Size(s'.heap.mem, b) == Size(s.heap.mem, b)
    {
      SizeAtFree(s, i, s', k);
    }
    TotalsKept(s, s'.heap.mem);
    TotalOneMore(s'.heap.mem, s.heap.free, s.out[i]);
    TotalWithout(s'.heap.mem, s.out, i);
  }

  /** No step loses or invents a byte; only the head supplies new ones. */
  lemma StepConserves(s: State, e: Event, s': State)
    requires Sound(s) && Sound(s') && Step(s, e, s') && Harmless(s, e)
    ensures Held(s') == Held(s) + Added(e)
  {
    hide IsList, Size, Apart, Below, TotalSize, Exposed, Vital;
    match e
    case Take(bytes, a) => TakeConserves(s, bytes, a, s');
    case Free(i) => FreeConserves(s, i, s');
    case Bump(_, a) =>
      Untouched(s, e, s');
      TotalsKept(s, s'.heap.mem);
      TotalOneMore(s'.heap.mem, s.out, a);
    case Fill(i) =>
      FillIsWrite(s, i, s');
      Untouched(s, Write, s');
      TotalsKept(s, s'.heap.mem);
    case _ =>
      Untouched(s, e, s');
      TotalsKept(s, s'.heap.mem);
  }

  ghost function AddedBy(events: seq<Event>, n: nat): nat
    requires n <= |events|
  {
    if n == 0 then 0 else AddedBy(events, n - 1) + Added(events[n - 1])
  }

  /** In every run the free list stays acyclic, all blocks stay apart and below the head, and
    * together they hold what the head has supplied. */
  lemma {:induction false} RunsStaySound(run: seq<State>, events: seq<Event>, n: nat)
    requires IsRun(run, events) && Sound(run[0]) && n < |run|
    requires forall m | 0 <= m < n :: Harmless(run[m], events[m])
    ensures Sound(run[n]) && Held(run[n]) == Held(run[0]) + AddedBy(events, n)
    decreases n
  {
    hide Sound, Step, Held, Harmless;
    if n > 0 {
      RunsStaySound(run, events, n - 1);
      StepKeepsSound(run[n - 1], events[n - 1], run[n]);
      StepConserves(run[n - 1], events[n - 1], run[n]);
    }
  }

  // ---------- an instance ----------

  /** Two free blocks, of 60 bytes at 40 and of 20 bytes at 112. */
  function TwoBlocks(): seq<Byte> {
    SetSize(SetNext(SetSize(seq(144, _ => 0), 40, 60), 40, 112), 112, 20)
  }

  /** The first of them is split for a request of 16 bytes. */
  lemma TwoBlocksSplit()
    ensures Sound(State(Heap(TwoBlocks(), 40, 144, [40, 112]), []))
    ensures Splits(TwoBlocks(), [40, 112], 16) && Remaining(TwoBlocks(), [40, 112], 16) == [112, 56]
  {
    hide Load, SetNext, SetSize, Next, Size;
    var M0: seq<Byte> := seq(144, _ => 0);
    var M1 := SetSize(M0, 40, 60);
    var M2 := SetNext(M1, 40, 112);
    var M3 := SetSize(M2, 112, 20);
    NextOfZeros(M0, 112);
    SetSizeFields(M0, 40, 60, 40);
    SetSizeFields(M0, 40, 60, 112);
    SetNextFields(M1, 40, 112, 40);
    SetNextFields(M1, 40, 112, 112);
    SetSizeFields(M2, 112, 20, 40);
    SetSizeFields(M2, 112, 20, 112);
    assert Next(M3, 40) == 112 && Size(M3, 40) == 60 && Next(M3, 112) == 0 && Size(M3, 112) == 20;
    var nodes: seq<nat> := [40, 112];
    NoList(M3);
    assert IsList(M3, 112, [112]);
    assert nodes[1..] == [112];
    assert FirstFit(M3, nodes, 16) == 0;
    assert Without(nodes, 0) == [112];
  }

  lemma NextOfZeros(M: seq<Byte>, a: nat)
    requires a + HEADER <= |M| && forall k | 0 <= k < |M| :: M[k] == 0
    ensures Next(M, a) == 0
  {
    LoadZeros(M, a, 8);
  }
}
