/** The scheduler object (kernel/source/scheduler/scheduler.cpp:11-87, 167-175) and the threads
  * it saves contexts into, proved against the state machine of RoundRobin.  The sleep list is
  * empty throughout. */
module Scheduler {
  import opened Common
  import opened RoundRobin

  class CThread {
    var id: nat
    var regState: Registers

    constructor (initial: Registers)
      ensures regState == initial
    {
      id, regState := 0, initial;
    }

    method SaveState(regs: Registers)
      modifies this
      ensures regState == regs && id == old(id)
    {
      regState := regs;
    }
  }

  ghost function Contexts(threads: seq<CThread>): (r: seq<Registers>)
    reads threads
    ensures |r| == |threads| && forall i | 0 <= i < |threads| :: r[i] == threads[i].regState
  {
    if |threads| == 0 then [] else Contexts(threads[..|threads| - 1]) + [threads[|threads| - 1].regState]
  }

  class CScheduler {
    var enabled: bool
    var threads: seq<CThread>
    var threadCount: nat
    var quantum: nat
    var index: nat

    ghost function Abstract(): State
      reads this, threads
    {
      State(enabled, Contexts(threads), quantum, index)
    }

    ghost predicate Valid()
      reads this, threads
    {
      && RoundRobin.Valid(Abstract())
      && threadCount == |threads| % WORD32
      && (forall i, j | 0 <= i < j < |threads| :: threads[i] != threads[j])
      && (forall i | 0 <= i < |threads| :: threads[i].id == IdOf(i))
    }

    /** Scheduling starts disabled, with the idle thread alone. */
    constructor (idle: CThread)
      modifies idle
      ensures Valid() && Abstract() == State(false, [old(idle.regState)], 0, 0)
      ensures threads == [idle] && idle.id == 1
    {
      enabled, quantum, index := false, 0, 0;
      threads, threadCount := [], 0;
      new;
      AppendThread(idle);
    }

    /** The body of AddThread. */
    method AppendThread(thread: CThread)
      requires thread !in threads && threadCount == |threads| % WORD32
      modifies this`threads, this`threadCount, thread
      ensures threads == old(threads) + [thread] && threadCount == |threads| % WORD32
      ensures thread.regState == old(thread.regState) && thread.id == IdOf(|old(threads)|)
    {
      threadCount := (threadCount + 1) % WORD32;
      thread.id := threadCount;
      threads := threads + [thread];
      NextId(|old(threads)|);
    }

    method AddThread(thread: CThread)
      requires Valid() && thread !in threads
      modifies this, thread
      ensures Valid() && Abstract() == Step(old(Abstract()), Add(old(thread.regState)))
      ensures threads == old(threads) + [thread]
    {
      ghost var before := Contexts(threads);
      AppendThread(thread);
      assert threads[..|threads| - 1] == old(threads);
      assert Contexts(old(threads)) == before;
    }

    /** One timer tick; the result is the context that is switched to, if any. */
    method ThinkDeep(regs: Registers) returns (switched: Option<Registers>)
      requires Valid()
      modifies this`quantum, this`index, threads
      ensures Valid() && Abstract() == Step(old(Abstract()), Tick(regs))
      ensures switched == if Switches(old(Abstract()), Tick(regs)) then
                Some(Abstract().saved[Abstract().index]) else None
    {
      if !enabled {
        return None;
      }
      if threadCount == 0 {
        return None;
      }
      if quantum > 0 {
        quantum := quantum - 1;
        return None;
      }
      var current := threads[index];
      current.SaveState(regs);
      index := index + 1;
      if index >= |threads| {
        index := 0;
      }
      current := threads[index];
      quantum := QUANTUM;
      return Some(current.regState);
    }

    method YieldThreadTime()
      requires Valid()
      modifies this`quantum
      ensures Valid() && Abstract() == Step(old(Abstract()), Yield) == old(Abstract()).(quantum := 0)
    {
      quantum := 0;
    }

    method SetEnabled(b: bool)
      requires Valid()
      modifies this`enabled
      ensures Valid() && Abstract() == Step(old(Abstract()), Event.SetEnabled(b))
    {
      enabled := b;
    }
  }

  lemma NextId(n: nat)
    ensures (n % WORD32 + 1) % WORD32 == (n + 1) % WORD32 == IdOf(n)
  {
  }
}
