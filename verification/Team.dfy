/** The team as objects: a barrier with two atomic counters, a shared buffer, and its threads. */
module Team {
  import opened NumericUtils
  import opened Parallel
  import opened TeamPacking
  import opened TeamSafety

  /** The reusable barrier; each method is one of its atomic operations. */
  class Synchronization {
    const lastThreadId: int
    var bar: int
    var passed: int

    constructor (nthreads: int)
      ensures lastThreadId == nthreads - 1 && bar == 0 && passed == 0
    {
      lastThreadId := nthreads - 1;
      bar, passed := 0, 0;
    }

    method LoadPassed() returns (value: int)
      ensures value == passed
    {
      value := passed;
    }

    method FetchAddBar() returns (thread: int)
      modifies this`bar
      ensures thread == old(bar) && bar == old(bar) + 1
    {
      thread := bar;
      bar := bar + 1;
    }

    method ResetBar()
      modifies this`bar
      ensures bar == 0
    {
      bar := 0;
    }

    method StorePassed(value: int)
      modifies this`passed
      ensures passed == value
    {
      passed := value;
    }
  }

  /** One team of the block-compute memory shuffle. */
  class Bcms {
    const config: Config
    const synchro: Synchronization
    const buffer: array<Row>
    var threads: seq<Thread>

    ghost predicate Valid()
      reads this, synchro, buffer
    {
      Inv(config, Abstract()) && synchro.lastThreadId == config.n - 1
    }

    /** The state of the protocol that the objects stand for. */
    ghost function Abstract(): State
      reads this, synchro, buffer
    {
      State(synchro.bar, synchro.passed, buffer[..], threads)
    }

    constructor (c: Config, junk: Row)
      requires c.Valid()
      ensures Valid() && config == c && IsInit(c, Abstract())
      ensures fresh(synchro) && fresh(buffer)
    {
      config := c;
      synchro := new Synchronization(c.n);
      buffer := new Row[c.capacity](i => junk);
      threads := seq(c.n, t => InitThread(c));
      new;
      InitKeepsInv(c, Abstract());
    }

    method LeaveBarrier(t: int, th: Thread)
      requires config.n >= 1 && config.interleave >= 1 && 0 <= t < |threads|
      requires th.pc.Barrier? && th.tickets != [] && th.round < |config.rounds|
      modifies this`threads
      ensures threads == old(threads)[t := Leave(config, th)]
    {
      if th.pc.second {
        threads := threads[t := th.(pc := Read([]))];
      } else {
        var id := th.id;
        if id < 0 {
          id := th.tickets[|th.tickets| - 1];
        }
        var strd := |config.rounds[th.round]|;
        var split := MakeParallelSplit(strd, config.interleave, config.n);
        var first, end := 0, 0;
        if id < split.threads {
          var start, chunkSize := WorkDistribution(id, split);
          if chunkSize + start > strd {
            chunkSize := strd - start;
          }
          first, end := start, start + chunkSize;
        }
        threads := threads[t := th.(id := id, pc := Pack(first, end))];
      }
    }

    /** The next operation of a thread inside the barrier. */
    method BarrierStep(t: int)
      requires CanStep(config, Abstract(), t) && threads[t].pc.Barrier?
      requires synchro.lastThreadId == config.n - 1
      modifies this`threads, synchro
      ensures Abstract() == Step(config, old(Abstract()), t)
    {
      var th := threads[t];
      var second := th.pc.second;
      match th.pc.stage
      case Load =>
        var value := synchro.LoadPassed();
        threads := threads[t := th.(passedOld := value, pc := Barrier(second, Fetch))];
      case Fetch =>
        var thread := synchro.FetchAddBar();
        var stage := if thread == synchro.lastThreadId then Reset else Spin;
        threads := threads[t := th.(tickets := th.tickets + [thread], pc := Barrier(second, stage))];
      case Reset =>
        synchro.ResetBar();
        threads := threads[t := th.(pc := Barrier(second, Store))];
      case Store =>
        synchro.StorePassed(th.passedOld + 1);
        LeaveBarrier(t, th);
      case Spin =>
        var value := synchro.LoadPassed();
        if value != th.passedOld {
          LeaveBarrier(t, th);
        }
    }

    /** The next operation of a thread between its barriers. */
    method WorkStep(t: int)
      requires CanStep(config, Abstract(), t) && !threads[t].pc.Barrier?
      modifies this`threads, buffer
      ensures Abstract() == Step(config, old(Abstract()), t)
    {
      var th := threads[t];
      match th.pc
      case Pack(next, end) =>
        if next < end {
          buffer[next] := config.rounds[th.round][next];
          threads := threads[t := th.(pc := Pack(next + 1, end))];
        } else {
          threads := threads[t := th.(pc := Barrier(true, Load))];
        }
      case Read(seen) =>
        if |seen| < |config.rounds[th.round]| {
          threads := threads[t := th.(pc := Read(seen + [buffer[|seen|]]))];
        } else {
          threads := threads[t := FinishRound(config, th)];
        }
      case Done =>
    }

    /** Runs the threads in the order of the schedule, whatever it is. */
    method Execute(sched: seq<int>)
      requires Valid() && forall i :: 0 <= i < |sched| ==> 0 <= sched[i] < config.n
      modifies this`threads, synchro, buffer
      ensures Valid() && Leads(config, old(Abstract()), sched, Abstract())
      ensures forall t :: 0 <= t < config.n && threads[t].pc.Done? ==> threads[t].outputs == config.rounds
    {
      for i := 0 to |sched|
        invariant Valid() && Leads(config, old(Abstract()), sched[..i], Abstract())
      {
        assert sched[..i + 1] == sched[..i] + [sched[i]];
        hide Inv, Step;
        InvCanStep(config, Abstract(), sched[i]);
        StepKeepsInv(config, Abstract(), sched[i]);
        LeadsSnoc(config, old(Abstract()), sched[..i], Abstract(), sched[i]);
        if threads[sched[i]].pc.Barrier? {
          BarrierStep(sched[i]);
        } else {
          WorkStep(sched[i]);
        }
      }
      assert sched[..|sched|] == sched;
      forall t | 0 <= t < config.n && threads[t].pc.Done?
        ensures threads[t].outputs == config.rounds
      {
        assert ThreadOk(config, synchro.passed, threads[t]);
        assert config.rounds[..|config.rounds|] == config.rounds;
      }
    }
  }
}
