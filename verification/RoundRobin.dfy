/** The round-robin scheduler (kernel/source/scheduler/scheduler.cpp) as a state machine whose
  * steps are timer ticks, new threads, and yields.  Threads are known by their place in
  * m_Threads, which never changes while none is suspended or removed. */
module RoundRobin {
  import opened Bits
  import opened Common

  const QUANTUM := 10

  /** `full_register_state`: the interrupt frame and the other registers. */
  datatype Registers = Registers(cs: nat, rip: nat, ss: nat, rsp: nat, others: seq<nat>)

  datatype State = State(enabled: bool, saved: seq<Registers>, quantum: nat, index: nat)

  datatype Event =
    | Tick(regs: Registers)
    | Add(initial: Registers)
    | Yield
    | SetEnabled(b: bool)

  ghost predicate Valid(s: State) {
    s.index < |s.saved| && s.quantum <= QUANTUM
  }

  /** A tick that takes the processor from one thread and gives it to the next. */
  ghost predicate Switches(s: State, e: Event) {
    e.Tick? && s.enabled && |s.saved| % WORD32 != 0 && s.quantum == 0
  }

  ghost function NextIndex(s: State): nat {
    if s.index + 1 >= |s.saved| then 0 else s.index + 1
  }

  ghost function Step(s: State, e: Event): State
    requires Valid(s)
  {
    match e
    case Tick(regs) =>
      if !s.enabled || |s.saved| % WORD32 == 0 then s
      else if s.quantum > 0 then s.(quantum := s.quantum - 1)
      else s.(saved := s.saved[s.index := regs], index := NextIndex(s), quantum := QUANTUM)
    case Add(initial) => s.(saved := s.saved + [initial])
    case Yield => s.(quantum := 0)
    case SetEnabled(b) => s.(enabled := b)
  }

  lemma StepValid(s: State, e: Event)
    requires Valid(s)
    ensures Valid(Step(s, e)) && |s.saved| <= |Step(s, e).saved|
  {
  }

  /** The state after the first n events of a run. */
  ghost function After(s: State, es: seq<Event>, n: nat): (r: State)
    requires Valid(s) && n <= |es|
    ensures Valid(r)
  {
    if n == 0 then s
    else
      StepValid(After(s, es, n - 1), es[n - 1]);
      Step(After(s, es, n - 1), es[n - 1])
  }

  lemma {:induction false} SizeGrows(s: State, es: seq<Event>, m: nat, n: nat)
    requires Valid(s) && m <= n <= |es|
    ensures |After(s, es, m).saved| <= |After(s, es, n).saved|
    decreases n
  {
    if m < n {
      SizeGrows(s, es, m, n - 1);
      StepValid(After(s, es, n - 1), es[n - 1]);
    }
  }

  // ---------- fairness ----------

  /** Event k of the run gives the processor to thread t. */
  ghost predicate Dispatches(s: State, es: seq<Event>, k: nat, t: nat)
    requires Valid(s) && k < |es|
  {
    Switches(After(s, es, k), es[k]) && NextIndex(After(s, es, k)) == t
  }

  /** The enabled ticks among the first n events. */
  ghost function Ticks(s: State, es: seq<Event>, n: nat): nat
    requires Valid(s) && n <= |es|
  {
    if n == 0 then 0
    else Ticks(s, es, n - 1) + if es[n - 1].Tick? && After(s, es, n - 1).enabled then 1 else 0
  }

  /** How many switches away thread t is, if the list has grown to n threads by the end. */
  ghost function Turns(s: State, t: nat, n: nat): int {
    if t > s.index then t - s.index else n - s.index + t
  }

  /** How many ticks away the dispatch of thread t is at most. */
  ghost function Wait(s: State, t: nat, n: nat): int {
    s.quantum + 1 + (QUANTUM + 1) * (Turns(s, t, n) - 1)
  }

  lemma WaitStep(s: State, e: Event, t: nat, n: nat)
    requires Valid(s) && t < |s.saved| && |Step(s, e).saved| <= n < WORD32
    requires !(Switches(s, e) && NextIndex(s) == t)
    ensures Wait(Step(s, e), t, n) + (if e.Tick? && s.enabled then 1 else 0) <= Wait(s, t, n)
  {
    if Switches(s, e) {
      assert Turns(Step(s, e), t, n) + 1 <= Turns(s, t, n);
    } else {
      assert Turns(Step(s, e), t, n) == Turns(s, t, n);
    }
  }

  lemma {:induction false} WaitRun(s: State, es: seq<Event>, t: nat, m: nat)
    requires Valid(s) && t < |s.saved| && m <= |es| && |After(s, es, |es|).saved| < WORD32
    requires forall k: nat | k < m :: !Dispatches(s, es, k, t)
    ensures var n := |After(s, es, |es|).saved|;
            Wait(After(s, es, m), t, n) + Ticks(s, es, m) <= Wait(s, t, n)
  {
    if m > 0 {
      WaitRun(s, es, t, m - 1);
      SizeGrows(s, es, 0, m - 1);
      SizeGrows(s, es, m, |es|);
      assert !Dispatches(s, es, m - 1, t);
      WaitStep(After(s, es, m - 1), es[m - 1], t, |After(s, es, |es|).saved|);
    }
  }

  /** Fairness: in every run of 11 * n or more enabled ticks, where n is the number of threads at
    * its end, every thread that is present at its beginning is dispatched. */
  lemma EveryThreadIsDispatched(s: State, es: seq<Event>, t: nat)
    requires Valid(s) && t < |s.saved|
    requires |After(s, es, |es|).saved| < WORD32
    requires Ticks(s, es, |es|) >= 11 * |After(s, es, |es|).saved|
    ensures exists k: nat :: k < |es| && Dispatches(s, es, k, t)
  {
    if forall k: nat | k < |es| :: !Dispatches(s, es, k, t) {
      var n := |After(s, es, |es|).saved|;
      WaitRun(s, es, t, |es|);
      SizeGrows(s, es, 0, |es|);
      WaitPositive(After(s, es, |es|), t, n);
      WaitBound(s, t, n);
    }
  }

  lemma WaitPositive(s: State, t: nat, n: nat)
    requires Valid(s) && |s.saved| <= n
    ensures Wait(s, t, n) >= 1
  {
    assert Turns(s, t, n) >= 1;
  }

  lemma WaitBound(s: State, t: nat, n: nat)
    requires Valid(s) && t < |s.saved| <= n
    ensures Wait(s, t, n) <= (QUANTUM + 1) * n
  {
    assert Turns(s, t, n) <= n;
  }

  /** The bound is exact: with ticks alone, a thread is dispatched by the very tick that Wait
    * counts, and by none before it. */
  lemma {:induction false} DispatchedExactlyAt(s: State, es: seq<Event>, t: nat, m: nat)
    requires Valid(s) && s.enabled && t < |s.saved| < WORD32
    requires forall k | 0 <= k < |es| :: es[k].Tick?
    requires m < |es| && m < Wait(s, t, |s.saved|)
    ensures var r := After(s, es, m);
            r.enabled && |r.saved| == |s.saved| && Wait(r, t, |s.saved|) == Wait(s, t, |s.saved|) - m
    ensures Dispatches(s, es, m, t) <==>
              m == s.quantum + 11 * (if t > s.index then t - s.index - 1 else |s.saved| - s.index + t - 1)
  {
    if m > 0 {
      DispatchedExactlyAt(s, es, t, m - 1);
    }
    var r := After(s, es, m);
    assert es[m].Tick?;
    if m > 0 {
      TickWaits(After(s, es, m - 1), es[m - 1], t);
    }
    TickWaits(r, es[m], t);
  }

  lemma TickWaits(s: State, e: Event, t: nat)
    requires Valid(s) && s.enabled && t < |s.saved| < WORD32 && e.Tick?
    ensures (Switches(s, e) && NextIndex(s) == t) <==> Wait(s, t, |s.saved|) == 1
    ensures Wait(s, t, |s.saved|) >= 1
    ensures Wait(s, t, |s.saved|) > 1 ==>
              Wait(Step(s, e), t, |s.saved|) == Wait(s, t, |s.saved|) - 1
              && Step(s, e).enabled && |Step(s, e).saved| == |s.saved|
  {
    var n := |s.saved|;
    assert Turns(s, t, n) >= 1;
    if Switches(s, e) && NextIndex(s) != t {
      assert Turns(Step(s, e), t, n) == Turns(s, t, n) - 1;
    }
  }

  // ---------- yields ----------

  /** No event from b on and before m switches. */
  ghost predicate NoSwitchIn(s: State, es: seq<Event>, b: nat, m: nat)
    requires Valid(s) && m <= |es|
  {
    forall i | b <= i < m :: !Switches(After(s, es, i), es[i])
  }

  ghost predicate YieldIn(es: seq<Event>, b: nat, m: nat)
    requires m <= |es|
  {
    exists i :: b <= i < m && es[i].Yield?
  }

  /** Event m is a tick while scheduling is enabled and there are threads. */
  ghost predicate Runs(s: State, es: seq<Event>, m: nat)
    requires Valid(s) && m < |es|
  {
    es[m].Tick? && After(s, es, m).enabled && |After(s, es, m).saved| % WORD32 != 0
  }

  /** One event that does not switch. */
  lemma QuantumStep(s: State, e: Event)
    requires Valid(s) && |s.saved| < WORD32 && !Switches(s, e)
    ensures Step(s, e).index == s.index
    ensures Step(s, e).quantum ==
              if e.Yield? then 0 else if e.Tick? && s.enabled then s.quantum - 1 else s.quantum
  {
  }

  /** Without a switch the quantum counts the enabled ticks down, and a yield ends it. */
  lemma {:induction false} QuantumSince(s: State, es: seq<Event>, b: nat, m: nat)
    requires Valid(s) && b <= m <= |es| && |After(s, es, m).saved| < WORD32 && NoSwitchIn(s, es, b, m)
    ensures After(s, es, m).index == After(s, es, b).index
    ensures if YieldIn(es, b, m) then After(s, es, m).quantum == 0
            else After(s, es, m).quantum + (Ticks(s, es, m) - Ticks(s, es, b)) == After(s, es, b).quantum
    decreases m
  {
    hide Switches, Step;
    if m > b {
      SizeGrows(s, es, m - 1, m);
      QuantumSince(s, es, b, m - 1);
      YieldExtends(es, b, m);
      var r := After(s, es, m - 1);
      assert !Switches(r, es[m - 1]);
      if es[m - 1].Tick? && r.enabled {
        EnabledTickCounts(r, es[m - 1]);
      }
      QuantumStep(r, es[m - 1]);
    }
  }

  lemma EnabledTickCounts(s: State, e: Event)
    requires Valid(s) && |s.saved| < WORD32 && e.Tick? && s.enabled && !Switches(s, e)
    ensures s.quantum > 0
  {
  }

  lemma YieldExtends(es: seq<Event>, b: nat, m: nat)
    requires b < m <= |es|
    ensures YieldIn(es, b, m) <==> YieldIn(es, b, m - 1) || es[m - 1].Yield?
  {
  }

  /** Exactly when the next switch comes after the one at event j: an enabled tick switches iff there
    * was a yield since then, or ten enabled ticks; and it switches to the next thread. */
  lemma SwitchesExactlyWhen(s: State, es: seq<Event>, j: nat, m: nat)
    requires Valid(s) && j < m < |es| && |After(s, es, m).saved| < WORD32
    requires Switches(After(s, es, j), es[j]) && NoSwitchIn(s, es, j + 1, m) && Runs(s, es, m)
    ensures Switches(After(s, es, m), es[m]) <==>
              YieldIn(es, j + 1, m) || Ticks(s, es, m) - Ticks(s, es, j + 1) == 10
    ensures Switches(After(s, es, m), es[m]) ==>
              var t, n := After(s, es, j + 1).index, |After(s, es, m).saved|;
              Dispatches(s, es, m, if t + 1 < n then t + 1 else 0)
  {
    QuantumSince(s, es, j + 1, m);
  }

  /** And exactly when the first one comes: after a yield, or when the quantum has run out. */
  lemma FirstSwitchExactlyWhen(s: State, es: seq<Event>, m: nat)
    requires Valid(s) && m < |es| && |After(s, es, m).saved| < WORD32
    requires NoSwitchIn(s, es, 0, m) && Runs(s, es, m)
    ensures Switches(After(s, es, m), es[m]) <==> YieldIn(es, 0, m) || Ticks(s, es, m) == s.quantum
    ensures Switches(After(s, es, m), es[m]) ==>
              Dispatches(s, es, m, if s.index + 1 < |After(s, es, m).saved| then s.index + 1 else 0)
  {
    QuantumSince(s, es, 0, m);
  }

  /** A yield takes effect: the first enabled tick after it gives the processor to the thread that
    * is next in the list, whoever ran and however long. */
  lemma {:induction false} YieldSwitches(s: State, es: seq<Event>, k: nat, m: nat)
    requires Valid(s) && k < m < |es| && es[k].Yield? && Runs(s, es, m)
    requires forall i | k < i < m :: !(es[i].Tick? && After(s, es, i).enabled)
    ensures var t, n := After(s, es, k).index, |After(s, es, m).saved|;
            Dispatches(s, es, m, if t + 1 < n then t + 1 else 0)
  {
    QuantumStaysZero(s, es, k, m);
  }

  lemma {:induction false} QuantumStaysZero(s: State, es: seq<Event>, k: nat, m: nat)
    requires Valid(s) && k < m <= |es| && es[k].Yield?
    requires forall i | k < i < m :: !(es[i].Tick? && After(s, es, i).enabled)
    ensures After(s, es, m).quantum == 0 && After(s, es, m).index == After(s, es, k).index
    decreases m
  {
    if m > k + 1 {
      QuantumStaysZero(s, es, k, m - 1);
      assert !(es[m - 1].Tick? && After(s, es, m - 1).enabled);
    }
  }

  /** How many of the first n events switch. */
  ghost function SwitchCount(s: State, es: seq<Event>, n: nat): nat
    requires Valid(s) && n <= |es|
  {
    if n == 0 then 0 else SwitchCount(s, es, n - 1) + if Switches(After(s, es, n - 1), es[n - 1]) then 1 else 0
  }

  /** While no thread is added, the threads take turns in the order of the list. */
  lemma {:induction false} TurnsInOrder(s: State, es: seq<Event>, n: nat)
    requires Valid(s) && n <= |es| && forall i | 0 <= i < n :: !es[i].Add?
    ensures |After(s, es, n).saved| == |s.saved|
    ensures After(s, es, n).index == (s.index + SwitchCount(s, es, n)) % |s.saved|
  {
    hide Step;
    if n > 0 {
      TurnsInOrder(s, es, n - 1);
      WrapAround(s.index + SwitchCount(s, es, n - 1), |s.saved|);
      TurnStep(After(s, es, n - 1), es[n - 1]);
    } else {
      ModIs(s.index, 0, |s.saved|, s.index);
    }
  }

  lemma TurnStep(s: State, e: Event)
    requires Valid(s) && !e.Add?
    ensures |Step(s, e).saved| == |s.saved|
    ensures Step(s, e).index ==
              if !Switches(s, e) then s.index else if s.index + 1 >= |s.saved| then 0 else s.index + 1
  {
  }

  lemma WrapAround(v: nat, n: nat)
    requires n > 0
    ensures (v + 1) % n == if v % n + 1 >= n then 0 else v % n + 1
  {
    var q, r := v / n, v % n;
    assert v == q * n + r;
    if r + 1 >= n {
      assert v + 1 == (q + 1) * n + 0;
      ModIs(v + 1, q + 1, n, 0);
    } else {
      ModIs(v + 1, q, n, r + 1);
    }
  }

  /** So the dispatch ticks of a thread are exact in runs with yields too: they are the switches that
    * SwitchesExactlyWhen describes, every n-th of them. */
  lemma DispatchedInTurn(s: State, es: seq<Event>, m: nat, t: nat)
    requires Valid(s) && m < |es| && forall i | 0 <= i < m :: !es[i].Add?
    ensures Dispatches(s, es, m, t) <==>
              Switches(After(s, es, m), es[m]) && t == (s.index + SwitchCount(s, es, m) + 1) % |s.saved|
  {
    TurnsInOrder(s, es, m);
    WrapAround(s.index + SwitchCount(s, es, m), |s.saved|);
  }

  // ---------- contexts ----------

  /** Who runs after the first n events: the thread dispatched last, or -1 for the context that
    * the machine booted with. */
  ghost function Running(s: State, es: seq<Event>, n: nat): int
    requires Valid(s) && n <= |es|
  {
    if n == 0 then -1
    else if Switches(After(s, es, n - 1), es[n - 1]) then NextIndex(After(s, es, n - 1))
    else Running(s, es, n - 1)
  }

  /** Who a preempted context is kept for: its own thread, and thread 0 for the boot context. */
  ghost function KeptFor(running: int): int {
    if running == -1 then 0 else running
  }

  /** The context of thread t: the registers with which it was last preempted, or those it was
    * created with. */
  ghost function ContextOf(s: State, es: seq<Event>, n: nat, t: nat): Registers
    requires Valid(s) && n <= |es| && t < |After(s, es, n).saved|
  {
    if n == 0 then s.saved[t]
    else
      var before := After(s, es, n - 1);
      if Switches(before, es[n - 1]) && KeptFor(Running(s, es, n - 1)) == t then es[n - 1].regs
      else if es[n - 1].Add? && t == |before.saved| then es[n - 1].initial
      else ContextOf(s, es, n - 1, t)
  }

  lemma {:induction false} RunningIsIndex(s: State, es: seq<Event>, n: nat)
    requires Valid(s) && s.index == 0 && n <= |es|
    ensures KeptFor(Running(s, es, n)) == After(s, es, n).index
    ensures Running(s, es, n) == -1 ==> After(s, es, n).index == 0
  {
    if n > 0 {
      RunningIsIndex(s, es, n - 1);
    }
  }

  /** Context integrity: at every point of every run, what is kept for a thread is its context;
    * so that is what it gets back when it is dispatched. */
  lemma {:induction false} ContextsAreKept(s: State, es: seq<Event>, n: nat, t: nat)
    requires Valid(s) && s.index == 0 && n <= |es| && t < |After(s, es, n).saved|
    ensures After(s, es, n).saved[t] == ContextOf(s, es, n, t)
  {
    if n > 0 {
      RunningIsIndex(s, es, n - 1);
      if t < |After(s, es, n - 1).saved| {
        ContextsAreKept(s, es, n - 1, t);
      }
    }
  }

  /** The registers that event k hands to the thread it dispatches: that thread's context. */
  lemma DispatchRestores(s: State, es: seq<Event>, k: nat, t: nat)
    requires Valid(s) && s.index == 0 && k < |es| && Dispatches(s, es, k, t)
    ensures t < |After(s, es, k + 1).saved| && After(s, es, k + 1).index == t
    ensures After(s, es, k + 1).saved[t] == ContextOf(s, es, k + 1, t)
  {
    ContextsAreKept(s, es, k + 1, t);
  }

  /** The first switch overwrites what thread 0 was created with by the boot context. */
  lemma FirstSwitchKeepsBoot(s: State, es: seq<Event>, k: nat)
    requires Valid(s) && s.index == 0 && k < |es| && Running(s, es, k) == -1 && Switches(After(s, es, k), es[k])
    ensures After(s, es, k + 1).saved[0] == es[k].regs == ContextOf(s, es, k + 1, 0)
  {
    RunningIsIndex(s, es, k);
    ContextsAreKept(s, es, k + 1, 0);
  }

  // ---------- ids ----------

  /** The id that the thread at place i received: `++m_ThreadCount`, a 32-bit counter. */
  function IdOf(i: nat): nat {
    (i + 1) % WORD32
  }

  /** Ids repeat only after 2^32 threads. */
  lemma IdsDiffer(i: nat, j: nat)
    requires i < j
    ensures IdOf(i) == IdOf(j) <==> (j - i) % WORD32 == 0
    ensures j < WORD32 - 1 ==> IdOf(i) != IdOf(j)
  {
    var a, b, c := (i + 1) / WORD32, (j + 1) / WORD32, (j - i) / WORD32;
    assert i + 1 == WORD32 * a + IdOf(i) && j + 1 == WORD32 * b + IdOf(j);
    assert j - i == WORD32 * c + (j - i) % WORD32;
    if IdOf(i) == IdOf(j) {
      assert j - i == WORD32 * (b - a);
    }
    if (j - i) % WORD32 == 0 {
      assert IdOf(j) - IdOf(i) == WORD32 * (c + a - b);
    }
  }
}
