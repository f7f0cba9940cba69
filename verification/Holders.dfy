/** What those who hold blocks of the allocator (kernel/source/alloc/physical.cpp,
  * kernel/source/alloc/new.cpp) may do with the contents of their blocks: everything, exactly as
  * long as no block has been split. */
module Holders {
  import opened Bits
  import opened Common
  import opened Memory
  import opened FreeList
  import opened Heap

  // ---------- which contents may be written at will ----------

  /** A word is changed by changing one of its bytes. */
  lemma {:induction false} ByteChangesWord(M: seq<Byte>, M': seq<Byte>, a: nat, n: nat, k: nat)
    requires a <= k < a + n <= |M| == |M'| && M'[k] != M[k]
    requires forall j: nat | j < |M| && j != k :: M'[j] == M[j]
    ensures Load(M', a, n) != Load(M, a, n)
    decreases n
  {
    if a == k {
      LoadFrame(M, M', a + 1, n - 1);
    } else {
      ByteChangesWord(M, M', a + 1, n - 1, k);
    }
  }

  /** Memory with one byte changed. */
  function Changed(M: seq<Byte>, k: nat): (M': seq<Byte>)
    requires k < |M|
    ensures |M'| == |M| && M'[k] != M[k] && forall j: nat | j < |M| && j != k :: M'[j] == M[j]
  {
    M[k := if M[k] == 255 then 0 else M[k] + 1]
  }

  /** The state with other memory is sound and holds as many bytes. */
  ghost predicate Intact(s: State, s': State)
    requires Sound(s)
  {
    Sound(s') && Held(s') == Held(s)
  }

  /** A changed link of a free block breaks the list. */
  lemma LinkBreaks(s: State, j: nat, k: nat)
    requires Sound(s) && j < |s.heap.free| && s.heap.free[j] <= k < s.heap.free[j] + 8 <= |s.heap.mem|
    ensures !Sound(State(s.heap.(mem := Changed(s.heap.mem, k)), s.out))
  {
    hide Load, Apart, Below, Size, IsList;
    var M, a := s.heap.mem, s.heap.free[j];
    ListLinks(M, s.heap.first, s.heap.free, j);
    ByteChangesWord(M, Changed(M, k), a, 8, k);
    if Sound(State(s.heap.(mem := Changed(M, k)), s.out)) {
      ListLinks(Changed(M, k), s.heap.first, s.heap.free, j);
    }
  }

  lemma TotalChanges(M: seq<Byte>, M': seq<Byte>, nodes: seq<nat>, j: nat)
    requires |M| == |M'| && j < |nodes| && forall i | 0 <= i < |nodes| :: nodes[i] + HEADER <= |M|
    requires forall i | 0 <= i < |nodes| && i != j :: Size(M', nodes[i]) == Size(M, nodes[i])
    ensures TotalSize(M', nodes) - TotalSize(M, nodes) == Size(M', nodes[j]) - Size(M, nodes[j])
  {
    hide Size, TotalSize;
    var w := Without(nodes, j);
    forall i | 0 <= i < |w| ensures w[i] + HEADER <= |M| && Size(M', w[i]) == Size(M, w[i]) {
      assert w[i] == nodes[Before(i, j)];
    }
    TotalFrame(M, M', w);
    TotalWithout(M, nodes, j);
    TotalWithout(M', nodes, j);
  }

  /** The other sizes, when a byte of one header is changed. */
  lemma OtherSizesKept(s: State, b: nat, k: nat, i: nat)
    requires Sound(s) && b < |s.heap.free + s.out| && i < |s.heap.free + s.out| && i != b && k < |s.heap.mem|
    requires (s.heap.free + s.out)[b] <= k < (s.heap.free + s.out)[b] + HEADER
    ensures (s.heap.free + s.out)[i] + HEADER <= |s.heap.mem|
    ensures Size(Changed(s.heap.mem, k), (s.heap.free + s.out)[i]) == Size(s.heap.mem, (s.heap.free + s.out)[i])
  {
    hide Size, IsList, Below;
    TwoApart(s.heap.mem, s.heap.free + s.out, b, i);
    SizeKept(s.heap.mem, Changed(s.heap.mem, k), (s.heap.free + s.out)[i]);
  }

  lemma OtherSizes(s: State, b: nat, k: nat)
    requires Sound(s) && b < |s.heap.free + s.out| && k < |s.heap.mem|
    requires (s.heap.free + s.out)[b] <= k < (s.heap.free + s.out)[b] + HEADER
    ensures forall i | 0 <= i < |s.heap.free| && i != b ::
              && s.heap.free[i] + HEADER <= |s.heap.mem|
              && Size(Changed(s.heap.mem, k), s.heap.free[i]) == Size(s.heap.mem, s.heap.free[i])
    ensures forall i | 0 <= i < |s.out| && i != b - |s.heap.free| ::
              && s.out[i] + HEADER <= |s.heap.mem|
              && Size(Changed(s.heap.mem, k), s.out[i]) == Size(s.heap.mem, s.out[i])
  {
    hide Size, Sound, Changed;
    var M, free, all := s.heap.mem, s.heap.free, s.heap.free + s.out;
    forall i | 0 <= i < |free| && i != b
      ensures free[i] + HEADER <= |M| && Size(Changed(M, k), free[i]) == Size(M, free[i])
    {
      assert free[i] == all[i];
      OtherSizesKept(s, b, k, i);
    }
    forall i | 0 <= i < |s.out| && i != b - |free|
      ensures s.out[i] + HEADER <= |M| && Size(Changed(M, k), s.out[i]) == Size(M, s.out[i])
    {
      assert s.out[i] == all[|free| + i];
      OtherSizesKept(s, b, k, |free| + i);
    }
  }

  lemma SizeChanges(M: seq<Byte>, a: nat, k: nat)
    requires a + 8 <= k < a + HEADER <= |M|
    ensures Size(Changed(M, k), a) != Size(M, a)
  {
    ByteChangesWord(M, Changed(M, k), a + 8, 4, k);
  }

  lemma TotalsDiffer(M: seq<Byte>, M': seq<Byte>, x: seq<nat>, y: seq<nat>, b: nat)
    requires |M| == |M'| && b < |x + y|
    requires forall i | 0 <= i < |x| :: x[i] + HEADER <= |M|
    requires forall i | 0 <= i < |y| :: y[i] + HEADER <= |M|
    requires forall i | 0 <= i < |x| && i != b :: Size(M', x[i]) == Size(M, x[i])
    requires forall i | 0 <= i < |y| && i != b - |x| :: Size(M', y[i]) == Size(M, y[i])
    requires var a := if b < |x| then x[b] else y[b - |x|]; Size(M', a) != Size(M, a)
    ensures TotalSize(M', x) + TotalSize(M', y) != TotalSize(M, x) + TotalSize(M, y)
  {
    hide Size, TotalSize;
    if b < |x| {
      TotalChanges(M, M', x, b);
      TotalFrame(M, M', y);
    } else {
      TotalChanges(M, M', y, b - |x|);
      TotalFrame(M, M', x);
    }
  }

  /** A changed size changes how much is held. */
  lemma SizeBreaks(s: State, b: nat, k: nat)
    requires Sound(s) && b < |s.heap.free + s.out| && k < |s.heap.mem|
    requires (s.heap.free + s.out)[b] + 8 <= k < (s.heap.free + s.out)[b] + HEADER
    ensures !Intact(s, State(s.heap.(mem := Changed(s.heap.mem, k)), s.out))
  {
    hide Size, Sound, TotalSize, Changed;
    InBoth(s);
    SizeChanges(s.heap.mem, (s.heap.free + s.out)[b], k);
    OtherSizes(s, b, k);
    TotalsDiffer(s.heap.mem, Changed(s.heap.mem, k), s.heap.free, s.out, b);
  }

  lemma InBoth(s: State)
    requires Sound(s)
    ensures forall i | 0 <= i < |s.heap.free| :: s.heap.free[i] + HEADER <= |s.heap.mem|
    ensures forall i | 0 <= i < |s.out| :: s.out[i] + HEADER <= |s.heap.mem|
  {
    OutSound(s);
  }

  /** Whatever the holder of a block writes to its contents, the heap stays intact iff these
    * contents hold no vital byte. */
  lemma OwnWritesAreSafe(s: State, i: nat)
    requires Sound(s) && i < |s.out|
    ensures (forall s' | Step(s, Fill(i), s') :: Intact(s, s')) <==> !Exposed(s, i)
  {
    hide Sound, Step, Held;
    if !Exposed(s, i) {
      forall s' | Step(s, Fill(i), s') ensures Intact(s, s') {
        StepKeepsSound(s, Fill(i), s');
        StepConserves(s, Fill(i), s');
      }
    } else {
      var k: nat :| Holds(s.heap.mem, s.out[i], k) && Vital(s, k);
      VitalBreaks(s, i, k);
    }
  }

  lemma VitalBreaks(s: State, i: nat, k: nat)
    requires Sound(s) && i < |s.out| && Holds(s.heap.mem, s.out[i], k) && Vital(s, k)
    ensures k < |s.heap.mem|
    ensures var s' := State(s.heap.(mem := Changed(s.heap.mem, k)), s.out);
            Step(s, Fill(i), s') && !Intact(s, s')
  {
    hide IsList, Apart, Size, Held;
    InBounds(s, |s.heap.free| + i);
    assert (s.heap.free + s.out)[|s.heap.free| + i] == s.out[i];
    if InHeader(s.heap.free, k) {
      var j :| 0 <= j < |s.heap.free| && s.heap.free[j] <= k < s.heap.free[j] + HEADER;
      assert (s.heap.free + s.out)[j] == s.heap.free[j];
      if k < s.heap.free[j] + 8 {
        InBounds(s, j);
        LinkBreaks(s, j, k);
      } else {
        SizeBreaks(s, j, k);
      }
    } else {
      var j :| 0 <= j < |s.out| && s.out[j] + 8 <= k < s.out[j] + HEADER;
      assert (s.heap.free + s.out)[|s.heap.free| + j] == s.out[j];
      SizeBreaks(s, |s.heap.free| + j, k);
    }
  }

  // ---------- whole blocks ----------

  ghost predicate Disjoint(M: seq<Byte>, x: nat, y: nat) {
    x + HEADER <= |M| && y + HEADER <= |M| && (End(M, x) <= y || End(M, y) <= x)
  }

  /** No two blocks, free or handed out, share a byte. */
  ghost predicate AllWhole(s: State) {
    forall x, y | x in Blocks(s) && y in Blocks(s) && x != y :: Disjoint(s.heap.mem, x, y)
  }

  function Blocks(s: State): seq<nat> {
    s.heap.free + s.out
  }

  /** The step splits a free block. */
  ghost predicate SplitsAt(s: State, e: Event) {
    && e.Take? && |s.heap.free| > 0 && Inside(s.heap.mem, s.heap.free)
    && Splits(s.heap.mem, s.heap.free, e.bytes)
  }

  lemma VitalBelongs(s: State, k: nat) returns (b: nat)
    requires Vital(s, k)
    ensures b in Blocks(s) && b <= k < b + HEADER
  {
    if InHeader(s.heap.free, k) {
      var j :| 0 <= j < |s.heap.free| && s.heap.free[j] <= k < s.heap.free[j] + HEADER;
      b := s.heap.free[j];
    } else {
      var j :| 0 <= j < |s.out| && s.out[j] + 8 <= k < s.out[j] + HEADER;
      b := s.out[j];
    }
  }

  lemma TwoWhole(s: State, x: nat, y: nat)
    requires AllWhole(s) && x in Blocks(s) && y in Blocks(s) && x != y
    ensures Disjoint(s.heap.mem, x, y)
  {
  }

  /** The contents of whole blocks hold no vital byte. */
  lemma WholeIsUnexposed(s: State, i: nat)
    requires AllWhole(s) && i < |s.out|
    ensures !Exposed(s, i)
  {
    hide Size;
    if Exposed(s, i) {
      var k: nat :| Holds(s.heap.mem, s.out[i], k) && Vital(s, k);
      var b := VitalBelongs(s, k);
      TwoWhole(s, s.out[i], b);
    }
  }

  /** Being whole is a matter of which blocks there are, and of their sizes. */
  lemma SameBlocks(s: State, s': State)
    requires forall x :: x in Blocks(s) <==> x in Blocks(s')
    requires forall x | x in Blocks(s) ::
               && x + HEADER <= |s.heap.mem| == |s'.heap.mem|
               && Size(s'.heap.mem, x) == Size(s.heap.mem, x)
    ensures AllWhole(s) <==> AllWhole(s')
  {
    hide Size;
    if AllWhole(s) {
      forall x, y | x in Blocks(s') && y in Blocks(s') && x != y ensures Disjoint(s'.heap.mem, x, y) {
        assert Disjoint(s.heap.mem, x, y);
      }
    }
    if AllWhole(s') {
      forall x, y | x in Blocks(s) && y in Blocks(s) && x != y ensures Disjoint(s.heap.mem, x, y) {
        assert Disjoint(s'.heap.mem, x, y);
      }
    }
  }

  lemma WithoutMembers(nodes: seq<nat>, k: nat)
    requires k < |nodes|
    ensures forall x :: x in nodes <==> x in Without(nodes, k) || x == nodes[k]
  {
    assert nodes == nodes[..k] + [nodes[k]] + nodes[k + 1..];
  }

  lemma BumpWhole(s: State, bytes: nat, a: nat, s': State)
    requires Sound(s) && Step(s, Bump(bytes, a), s')
    ensures AllWhole(s') <==> AllWhole(s)
  {
    hide Size, IsList, Apart;
    Untouched(s, Bump(bytes, a), s');
    var M, M' := s.heap.mem, s'.heap.mem;
    forall x | x in Blocks(s) ensures x + HEADER <= |M| == |M'| && Size(M', x) == Size(M, x) && End(M', x) <= a {
      var i :| 0 <= i < |Blocks(s)| && Blocks(s)[i] == x;
      InBounds(s, i);
    }
    var kept := State(s'.heap, s.out);
    SameBlocks(s, kept);
    assert Blocks(s') == Blocks(kept) + [a];
    if AllWhole(kept) {
      forall x, y | x in Blocks(s') && y in Blocks(s') && x != y ensures Disjoint(M', x, y) {
        if x != a && y != a {
          assert x in Blocks(kept) && y in Blocks(kept);
        }
      }
    }
  }

  lemma FreeWhole(s: State, i: nat, s': State)
    requires Sound(s) && Step(s, Free(i), s')
    ensures AllWhole(s') <==> AllWhole(s)
  {
    hide Size, IsList, Apart, AllWhole;
    forall x | x in Blocks(s)
      ensures x + HEADER <= |s.heap.mem| == |s'.heap.mem| && Size(s'.heap.mem, x) == Size(s.heap.mem, x)
    {
      var k :| 0 <= k < |Blocks(s)| && Blocks(s)[k] == x;
      SizeAtFree(s, i, s', k);
    }
    WithoutMembers(s.out, i);
    SameBlocks(s, s');
  }

  lemma TakeWhole(s: State, bytes: nat, a: nat, s': State)
    requires Sound(s) && Step(s, Take(bytes, a), s') && !SplitsAt(s, Take(bytes, a))
    ensures AllWhole(s') <==> AllWhole(s)
  {
    hide Size, IsList, Apart, AllWhole, FirstFit;
    var M, M', free, k := s.heap.mem, s'.heap.mem, s.heap.free, FirstFit(s.heap.mem, s.heap.free, bytes);
    forall x | x in Blocks(s) ensures x + HEADER <= |M| == |M'| && Size(M', x) == Size(M, x) {
      if x in free {
        var i :| 0 <= i < |free| && free[i] == x;
      } else {
        var j :| 0 <= j < |s.out| && s.out[j] == x;
        OutKept(s, bytes, a, s', j);
      }
    }
    WithoutMembers(free, k);
    assert Blocks(s') == Without(free, k) + (s.out + [a]);
    SameBlocks(s, s');
  }

  lemma SplitSizes(M: seq<Byte>, M': seq<Byte>, free: seq<nat>, bytes: nat)
    requires Inside(M, free) && |free| > 0 && Splits(M, free, bytes) && Taken(M, M', free, bytes)
    ensures var a, left := free[FirstFit(M, free, bytes)], Remaining(M, free, bytes);
            && |left| == |free| && left[|free| - 1] == a + bytes
            && a + HEADER <= |M| && a + bytes + HEADER <= |M'| == |M| && Size(M', a) == bytes
            && bytes + HEADER < Size(M, a) && Size(M', a + bytes) == Size(M, a) - bytes
  {
    hide Size, FirstFit, OnlyHeaders;
  }

  /** The block that is taken and the remainder that is split off it. */
  lemma SplitParts(s: State, bytes: nat, a: nat, s': State)
    requires Sound(s) && Step(s, Take(bytes, a), s') && SplitsAt(s, Take(bytes, a))
    ensures |s'.heap.free| == |s.heap.free| > 0 && s'.heap.free[|s.heap.free| - 1] == a + bytes
    ensures |s'.out| == |s.out| + 1 && s'.out[|s.out|] == a
    ensures a + HEADER <= |s.heap.mem| && a + bytes + HEADER <= |s'.heap.mem| == |s.heap.mem|
    ensures HEADER <= bytes && Size(s'.heap.mem, a) == bytes
    ensures bytes + HEADER < Size(s.heap.mem, a) && Size(s'.heap.mem, a + bytes) == Size(s.heap.mem, a) - bytes
    ensures Next(s'.heap.mem, a + bytes) == 0
  {
    hide Size, IsList, Apart, Below, FirstFit, Splits, Taken, Remaining, Inside, Next;
    InsideHeaders(s.heap.mem, s.heap.free);
    SplitSizes(s.heap.mem, s'.heap.mem, s.heap.free, bytes);
    ListLinks(s'.heap.mem, s'.heap.first, s'.heap.free, |s.heap.free| - 1);
  }

  /** Exactly the steps that split leave a block that is not whole, and it stays so. */
  lemma StepWhole(s: State, e: Event, s': State)
    requires Sound(s) && Step(s, e, s') && Harmless(s, e)
    ensures AllWhole(s') <==> AllWhole(s) && !SplitsAt(s, e)
  {
    hide Sound, Step, AllWhole, Exposed;
    match e
    case Bump(bytes, a) => BumpWhole(s, bytes, a, s');
    case Take(bytes, a) =>
      if SplitsAt(s, e) {
        SplitParts(s, bytes, a, s');
        SplitBlocksIn(s', |s.heap.free| - 1, |s.out|);
        NotWhole(s', a, a + bytes);
      } else {
        TakeWhole(s, bytes, a, s');
      }
    case Free(i) => FreeWhole(s, i, s');
    case Fill(i) =>
      FillIsWrite(s, i, s');
      QuietWhole(s, Write, s');
    case _ => QuietWhole(s, e, s');
  }

  lemma SplitBlocksIn(s: State, i: nat, j: nat)
    requires i < |s.heap.free| && j < |s.out|
    ensures s.heap.free[i] in Blocks(s) && s.out[j] in Blocks(s)
  {
  }

  lemma NotWhole(s: State, x: nat, y: nat)
    requires x in Blocks(s) && y in Blocks(s) && x + HEADER <= y && y + HEADER <= |s.heap.mem| && y < End(s.heap.mem, x)
    ensures !AllWhole(s)
  {
    hide Size;
    assert !Disjoint(s.heap.mem, x, y);
  }

  lemma QuietWhole(s: State, e: Event, s': State)
    requires Sound(s) && Step(s, e, s') && (e.Align? || e.Write?)
    ensures AllWhole(s') <==> AllWhole(s)
  {
    hide Size, Sound, AllWhole, Vital;
    Untouched(s, e, s');
    forall x | x in Blocks(s)
      ensures x + HEADER <= |s.heap.mem| == |s'.heap.mem| && Size(s'.heap.mem, x) == Size(s.heap.mem, x)
    {
      var i :| 0 <= i < |Blocks(s)| && Blocks(s)[i] == x;
    }
    SameBlocks(s, s');
  }

  // ---------- runs ----------

  /** In every run without harmful writes, all blocks are whole as long as none has been split, and
    * never again after that. */
  lemma {:induction false} WholeIffUnsplit(run: seq<State>, events: seq<Event>, n: nat)
    requires IsRun(run, events) && Sound(run[0]) && AllWhole(run[0]) && n < |run|
    requires forall m | 0 <= m < n :: Harmless(run[m], events[m])
    ensures Sound(run[n]) && (AllWhole(run[n]) <==> forall m | 0 <= m < n :: !SplitsAt(run[m], events[m]))
    decreases n
  {
    hide Sound, Step, AllWhole, Harmless, SplitsAt;
    if n > 0 {
      WholeIffUnsplit(run, events, n - 1);
      StepKeepsSound(run[n - 1], events[n - 1], run[n]);
      StepWhole(run[n - 1], events[n - 1], run[n]);
    }
  }

  /** In every run without a split, whatever the holders write to their contents: the heap stays
    * sound, all blocks whole, and no byte is lost. */
  lemma {:induction false} UnsplitRuns(run: seq<State>, events: seq<Event>, n: nat)
    requires IsRun(run, events) && Sound(run[0]) && AllWhole(run[0]) && n < |run|
    requires forall m | 0 <= m < n :: !SplitsAt(run[m], events[m])
    ensures Sound(run[n]) && AllWhole(run[n]) && Held(run[n]) == Held(run[0]) + AddedBy(events, n)
    decreases n
  {
    hide Sound, AllWhole, Held, SplitsAt, Exposed;
    if n > 0 {
      UnsplitRuns(run, events, n - 1);
      var s, e := run[n - 1], events[n - 1];
      assert Step(s, e, run[n]);
      if e.Fill? {
        WholeIsUnexposed(s, e.i);
      }
      hide Step;
      StepKeepsSound(s, e, run[n]);
      StepWhole(s, e, run[n]);
      StepConserves(s, e, run[n]);
    }
  }

  /** A split exposes its taker: a change of the byte at a + bytes, in the contents of the block,
    * breaks the list. */
  lemma SplitExposes(s: State, bytes: nat, a: nat, s': State)
    requires Sound(s) && Step(s, Take(bytes, a), s') && SplitsAt(s, Take(bytes, a))
    ensures |s'.out| == |s.out| + 1 && Exposed(s', |s.out|) && a + bytes < |s'.heap.mem|
    ensures var broken := State(s'.heap.(mem := Changed(s'.heap.mem, a + bytes)), s'.out);
            Step(s', Fill(|s.out|), broken) && !Sound(broken)
  {
    hide Size, Sound, Step, SplitsAt, InHeader;
    SplitParts(s, bytes, a, s');
    StepKeepsSound(s, Take(bytes, a), s');
    LinkBreaks(s', |s.heap.free| - 1, a + bytes);
    LinkExposes(s', |s.out|, |s.heap.free| - 1);
  }

  lemma LinkExposes(s: State, i: nat, j: nat)
    requires i < |s.out| && j < |s.heap.free| && Holds(s.heap.mem, s.out[i], s.heap.free[j]) &&
             s.heap.free[j] < |s.heap.mem|
    ensures Exposed(s, i) && Step(s, Fill(i), State(s.heap.(mem := Changed(s.heap.mem, s.heap.free[j])), s.out))
  {
    hide Changed, End;
    assert InHeader(s.heap.free, s.heap.free[j]);
    assert Vital(s, s.heap.free[j]);
  }

  // ---------- operator new ----------

  /** The first `bytes` bytes of the contents of the block at a are zeroed. */
  ghost predicate Zeroed(s: State, a: nat, bytes: nat, s': State) {
    && s' == State(s.heap.(mem := s'.heap.mem), s.out) && a + HEADER + bytes <= |s.heap.mem| == |s'.heap.mem|
    && forall k | 0 <= k < |s.heap.mem| ::
         s'.heap.mem[k] == if a + HEADER <= k < a + HEADER + bytes then 0 else s.heap.mem[k]
  }

  lemma ZeroedShape(s: State, a: nat, bytes: nat, s': State)
    requires Zeroed(s, a, bytes, s')
    ensures s' == State(s.heap.(mem := s'.heap.mem), s.out) && |s'.heap.mem| == |s.heap.mem|
  {
  }

  /** Zeroing is a write to the holder's own contents, if the block is large enough. */
  lemma ZeroedIsFill(s: State, i: nat, bytes: nat, s': State)
    requires i < |s.out| && s.out[i] + HEADER <= |s.heap.mem| && bytes <= Size(s.heap.mem, s.out[i])
    requires Zeroed(s, s.out[i], bytes, s')
    ensures Step(s, Fill(i), s')
  {
  }

  /** After a split, zeroing the contents that were asked for clears the header of the remainder
    * and no other one. */
  lemma ZeroedHeaders(s: State, bytes: nat, a: nat, s1: State, s2: State)
    requires Sound(s) && Step(s, Take(bytes, a), s1) && SplitsAt(s, Take(bytes, a)) && Zeroed(s1, a, bytes, s2)
    ensures forall b | b in Blocks(s1) && b != a + bytes :: SameHeader(s1.heap.mem, s2.heap.mem, b)
    ensures SameCleared(s1.heap.mem, s2.heap.mem, a + bytes)
  {
    hide Size, Sound, Step, SplitsAt;
    SplitParts(s, bytes, a, s1);
    StepKeepsSound(s, Take(bytes, a), s1);
    var n, m := |s.heap.free| - 1, |s1.heap.free| + |s.out|;
    forall b | b in Blocks(s1) && b != a + bytes ensures SameHeader(s1.heap.mem, s2.heap.mem, b) {
      var j :| 0 <= j < |Blocks(s1)| && Blocks(s1)[j] == b;
      BesideSplit(s1, n, m, j);
      HeaderKept(s1.heap.mem, s2.heap.mem, b);
    }
    ClearedHeader(s1.heap.mem, s2.heap.mem, a + bytes);
  }

  /** The header at r has been cleared; its link was null before. */
  ghost predicate SameCleared(M: seq<Byte>, M': seq<Byte>, r: nat) {
    r + HEADER <= |M| == |M'| && Next(M', r) == 0 == Next(M, r) && Size(M', r) == 0
  }

  lemma ClearedHeader(M: seq<Byte>, M': seq<Byte>, r: nat)
    requires r + HEADER <= |M| == |M'| && Next(M, r) == 0 && forall k | r <= k < r + HEADER :: M'[k] == 0
    ensures SameCleared(M, M', r)
  {
    LoadZeros(M', r, 8);
    LoadZeros(M', r + 8, 4);
  }

  /** Where the other headers stand when block n stands in the last 12 bytes of block m. */
  lemma BesideSplit(s: State, n: nat, m: nat, j: nat)
    requires Sound(s) && n < |Blocks(s)| && m < |Blocks(s)| && j < |Blocks(s)| && n != m && j != n
    requires Blocks(s)[m] + HEADER <= |s.heap.mem| && HEADER <= Size(s.heap.mem, Blocks(s)[m])
    requires Blocks(s)[n] == Blocks(s)[m] + Size(s.heap.mem, Blocks(s)[m])
    ensures Blocks(s)[j] + HEADER <= |s.heap.mem|
    ensures Blocks(s)[j] + HEADER <= Blocks(s)[m] + HEADER || Blocks(s)[n] + HEADER <= Blocks(s)[j]
  {
    hide Size, IsList, Below;
    if j != m {
      TwoApart(s.heap.mem, Blocks(s), j, m);
      TwoApart(s.heap.mem, Blocks(s), j, n);
    }
  }

  /** `operator new` takes a block and zeroes it.  If that splits a block, the remainder is left with
    * no bytes, and what was split off is lost; the heap is sound all the same. */
  lemma NewLosesTheRest(s: State, bytes: nat, a: nat, s1: State, s2: State)
    requires Sound(s) && Step(s, Take(bytes, a), s1) && SplitsAt(s, Take(bytes, a)) && Zeroed(s1, a, bytes, s2)
    ensures SameCleared(s1.heap.mem, s2.heap.mem, a + bytes)
    ensures a + HEADER <= |s.heap.mem| && bytes + HEADER < Size(s.heap.mem, a)
    ensures Sound(s2) && Held(s2) + (Size(s.heap.mem, a) - bytes) == Held(s)
  {
    hide Size, Next, Sound, Step, SplitsAt, TotalSize, Zeroed;
    SplitParts(s, bytes, a, s1);
    StepKeepsSound(s, Take(bytes, a), s1);
    StepConserves(s, Take(bytes, a), s1);
    ZeroedHeaders(s, bytes, a, s1, s2);
    ZeroedShape(s1, a, bytes, s2);
    ClearedIsSound(s1, |s.heap.free| - 1, s2);
  }

  /** Clearing the header of a free block whose link is null. */
  lemma ClearedIsSound(s: State, n: nat, s': State)
    requires Sound(s) && n < |s.heap.free| && s.heap.free[n] + HEADER <= |s.heap.mem|
    requires s' == State(s.heap.(mem := s'.heap.mem), s.out) && |s'.heap.mem| == |s.heap.mem|
    requires forall b | b in Blocks(s) && b != s.heap.free[n] :: SameHeader(s.heap.mem, s'.heap.mem, b)
    requires SameCleared(s.heap.mem, s'.heap.mem, s.heap.free[n])
    ensures Sound(s') && Held(s') + Size(s.heap.mem, s.heap.free[n]) == Held(s)
  {
    hide Size, Next, IsList, Apart, Below, TotalSize;
    var M, M', free, all := s.heap.mem, s'.heap.mem, s.heap.free, Blocks(s);
    assert all[n] == free[n];
    forall i | 0 <= i < |all|
      ensures all[i] + HEADER <= |M| && (all[i] != free[n] ==> SameHeader(M, M', all[i])) &&
              (i != n ==> all[i] != free[n])
    {
      InBounds(s, i);
      if i != n {
        DistinctBlocks(s, i, n);
      }
    }
    SizesKept(M, M', all, s.heap.head);
    forall i | 0 <= i < |free| ensures free[i] + HEADER <= |M| && Next(M', free[i]) == Next(M, free[i]) {
      assert free[i] == all[i];
    }
    ListFrame(M, M', s.heap.first, free);
    InBoth(s);
    forall i | 0 <= i < |free| && i != n ensures Size(M', free[i]) == Size(M, free[i]) {
      assert free[i] == all[i];
    }
    forall i | 0 <= i < |s.out| ensures Size(M', s.out[i]) == Size(M, s.out[i]) {
      assert s.out[i] == all[|free| + i];
    }
    TotalChanges(M, M', free, n);
    TotalFrame(M, M', s.out);
  }

  lemma DistinctBlocks(s: State, i: nat, j: nat)
    requires Sound(s) && i < |Blocks(s)| && j < |Blocks(s)| && i != j
    ensures Blocks(s)[i] != Blocks(s)[j]
  {
    hide Size, IsList;
    TwoApart(s.heap.mem, Blocks(s), i, j);
  }

  /** `operator new` of a block that is large enough loses bytes iff it splits, as long as none was
    * split before. */
  lemma NewLosesIffSplit(s: State, bytes: nat, a: nat, s1: State, s2: State)
    requires Sound(s) && AllWhole(s) && Step(s, Take(bytes, a), s1) && Zeroed(s1, a, bytes, s2)
    requires a + HEADER <= |s1.heap.mem| && bytes <= Size(s1.heap.mem, a)
    ensures Sound(s2) && (Held(s2) == Held(s) <==> !SplitsAt(s, Take(bytes, a)))
  {
    hide Size, Sound, SplitsAt, Held, AllWhole, Exposed, Zeroed;
    assert |s1.out| == |s.out| + 1 && s1.out[|s.out|] == a;
    hide Step;
    StepKeepsSound(s, Take(bytes, a), s1);
    StepConserves(s, Take(bytes, a), s1);
    if SplitsAt(s, Take(bytes, a)) {
      NewLosesTheRest(s, bytes, a, s1, s2);
    } else {
      StepWhole(s, Take(bytes, a), s1);
      WholeIsUnexposed(s1, |s.out|);
      ZeroedIsFill(s1, |s.out|, bytes, s2);
      StepKeepsSound(s1, Fill(|s.out|), s2);
      StepConserves(s1, Fill(|s.out|), s2);
    }
  }
}
