/** What the team protocol guarantees in every state of every run, under any interleaving. */
module TeamSafety {
  import opened NumericUtils
  import opened Parallel
  import opened TeamPacking

  /** The schedule names the thread that takes each step from s to s'. */
  ghost predicate Leads(c: Config, s: State, sched: seq<int>, s': State)
    decreases |sched|
  {
    if sched == [] then s == s'
    else CanStep(c, s, sched[0]) && Leads(c, Step(c, s, sched[0]), sched[1..], s')
  }

  /** s occurs in a run of the protocol. */
  ghost predicate Reachable(c: Config, s: State) {
    c.Valid() && exists s0, sched :: IsInit(c, s0) && Leads(c, s0, sched, s)
  }

  lemma {:induction false} LeadsKeepsInv(c: Config, s: State, sched: seq<int>, s': State)
    requires Inv(c, s) && Leads(c, s, sched, s')
    ensures Inv(c, s')
    decreases |sched|
  {
    hide Inv, Step;
    if sched != [] {
      StepInv(c, s, sched[0]);
      LeadsKeepsInv(c, Step(c, s, sched[0]), sched[1..], s');
    }
  }

  lemma StepInv(c: Config, s: State, t: int)
    requires Inv(c, s) && CanStep(c, s, t)
    ensures Inv(c, Step(c, s, t))
  {
    assert 0 <= t < c.n by { assert |s.threads| == c.n; }
    hide Inv, Step;
    StepKeepsInv(c, s, t);
  }

  lemma ReachableInv(c: Config, s: State)
    requires Reachable(c, s)
    ensures Inv(c, s)
  {
    hide Inv, IsInit, Leads;
    var s0, sched :| IsInit(c, s0) && Leads(c, s0, sched, s);
    InitKeepsInv(c, s0);
    LeadsKeepsInv(c, s0, sched, s);
  }

  lemma {:induction false} LeadsSnoc(c: Config, s: State, sched: seq<int>, s': State, t: int)
    requires Leads(c, s, sched, s') && CanStep(c, s', t)
    ensures Leads(c, s, sched + [t], Step(c, s', t))
    decreases |sched|
  {
    hide Step;
    if sched == [] {
      assert [t][1..] == [];
    } else {
      LeadsSnoc(c, Step(c, s, sched[0]), sched[1..], s', t);
      assert (sched + [t])[1..] == sched[1..] + [t];
    }
  }

  /** The protocol never goes astray: any thread may take the next step of any run. */
  lemma AnyThreadMayStep(c: Config, s: State, t: int)
    requires Reachable(c, s) && 0 <= t < c.n
    ensures CanStep(c, s, t)
  {
    ReachableInv(c, s);
    hide Reachable;
    InvCanStep(c, s, t);
  }

  // ---------- the shared buffer ----------

  /** While a thread runs `next` of round r, the buffer is the whole packing of round r and nobody writes it. */
  lemma ReadersSeeTheirRound(c: Config, s: State, t: int, u: int)
    requires Reachable(c, s) && 0 <= t < |s.threads| && 0 <= u < |s.threads| && s.threads[t].pc.Read?
    ensures var r := s.threads[t].round;
            && 0 <= r < |c.rounds| && |c.rounds[r]| <= |s.buffer|
            && s.buffer[..|c.rounds[r]|] == c.rounds[r]
            && s.threads[t].pc.seen <= c.rounds[r]
            && !s.threads[u].pc.Pack?
            && (s.threads[u].pc.Read? ==> s.threads[u].round == r)
  {
    ReachableInv(c, s);
    ReaderSees(c, s, t);
    hide Reachable;
    var r := s.threads[t].round;
    assert s.buffer[..|c.rounds[r]|] == c.rounds[r];
    assert ThreadOk(c, s.passed, s.threads[t]);
    assert ThreadOk(c, s.passed, s.threads[u]);
  }

  /** A thread that packs round r finds every thread done reading the rounds before r. */
  lemma PackingWaitsForReaders(c: Config, s: State, t: int, u: int)
    requires Reachable(c, s) && 0 <= t < |s.threads| && 0 <= u < |s.threads| && s.threads[t].pc.Pack?
    ensures var r := s.threads[t].round;
            && 0 <= r < |c.rounds|
            && |s.threads[u].outputs| >= r && s.threads[u].outputs[..r] == c.rounds[..r]
            && !s.threads[u].pc.Read?
  {
    ReachableInv(c, s);
    hide Reachable;
    var r := s.threads[t].round;
    assert ThreadOk(c, s.passed, s.threads[t]);
    assert ThreadOk(c, s.passed, s.threads[u]);
    assert s.threads[u].outputs[..r] == c.rounds[..r];
  }

  /** Two threads never have the same row of the buffer left to write. */
  lemma WritersAreApart(c: Config, s: State, t: int, u: int, x: int)
    requires Reachable(c, s) && 0 <= t < u < |s.threads| && s.threads[t].pc.Pack? && s.threads[u].pc.Pack?
    ensures !(s.threads[t].pc.next <= x < s.threads[t].pc.end && s.threads[u].pc.next <= x < s.threads[u].pc.end)
  {
    ReachableInv(c, s);
    hide Reachable;
    var th, uh := s.threads[t], s.threads[u];
    assert ThreadOk(c, s.passed, th) && ThreadOk(c, s.passed, uh);
    assert th.id != uh.id by { assert TicketsDistinct(s); }
    PanelsApart(c, th.round, th.id, uh.id, x);
  }

  lemma PanelsApart(c: Config, r: int, i: int, j: int, x: int)
    requires c.Valid() && 0 <= r < |c.rounds| && 0 <= i && 0 <= j && i != j
    ensures var (lo, hi) := Panel(c, r, i); var (lo', hi') := Panel(c, r, j);
            !(lo <= x < hi && lo' <= x < hi')
  {
    hide MakeParallelSplit, Start, Work, Consecutive, Panel;
    var strd := |c.rounds[r]|;
    var split := MakeParallelSplit(strd, c.interleave, c.n);
    PanelShape(c, r, i);
    PanelShape(c, r, j);
    SplitIsConsecutive(strd, c.interleave, c.n);
    if i < split.threads && j < split.threads {
      OwnerUnique(split, strd, x, i, j);
    }
  }

  /** A thread that has finished has read exactly the packed matrix of every round. */
  lemma FinishedThreadsReadEverything(c: Config, s: State, t: int)
    requires Reachable(c, s) && 0 <= t < |s.threads| && s.threads[t].pc.Done?
    ensures s.threads[t].outputs == c.rounds
  {
    ReachableInv(c, s);
    assert ThreadOk(c, s.passed, s.threads[t]);
    assert c.rounds[..|c.rounds|] == c.rounds;
  }

  // ---------- the barrier ----------

  /** `passed` cannot change between a thread's load of it and that thread's own fetch_add. */
  lemma LoadStaysFresh(c: Config, s: State, t: int)
    requires Reachable(c, s) && 0 <= t < |s.threads| && s.threads[t].pc.Barrier? && s.threads[t].pc.stage.Fetch?
    ensures s.threads[t].passedOld == s.passed
  {
    ReachableInv(c, s);
    assert ThreadOk(c, s.passed, s.threads[t]);
  }

  /** No thread leaves generation g before every thread has arrived in it. */
  lemma NobodyLeavesEarly(c: Config, s: State, t: int, u: int, g: int)
    requires Reachable(c, s) && 0 <= t < |s.threads| && 0 <= u < |s.threads| && 0 <= g < Passes(s.threads[t])
    ensures |s.threads[u].tickets| > g
  {
    ReachableInv(c, s);
    assert ThreadOk(c, s.passed, s.threads[t]);
    assert ThreadOk(c, s.passed, s.threads[u]);
  }

  /** The numbers a complete generation handed out are a permutation of 0 .. n - 1. */
  lemma TicketsArePermutation(c: Config, s: State, g: int, o: int) returns (t: int)
    requires Reachable(c, s) && 0 <= g && 0 <= o < c.n
    requires forall u :: 0 <= u < |s.threads| ==> |s.threads[u].tickets| > g
    ensures 0 <= t < |s.threads| && s.threads[t].tickets[g] == o
    ensures forall u :: 0 <= u < |s.threads| && s.threads[u].tickets[g] == o ==> u == t
  {
    ReachableInv(c, s);
    hide Reachable;
    var ids := seq(c.n, u requires 0 <= u < c.n => s.threads[u].tickets[g]);
    forall u | 0 <= u < |s.threads|
      ensures 0 <= ids[u] < c.n
    {
      assert ThreadOk(c, s.passed, s.threads[u]);
    }
    assert TicketsDistinct(s);
    t := Onto(ids, c.n, o);
  }

  /** Thread numbers, once assigned, are distinct and stay below the team size. */
  lemma IdsAreDistinct(c: Config, s: State, t: int, u: int)
    requires Reachable(c, s) && 0 <= t < u < |s.threads| && s.threads[t].id >= 0 && s.threads[u].id >= 0
    ensures s.threads[t].id != s.threads[u].id && s.threads[t].id < c.n
  {
    ReachableInv(c, s);
    assert ThreadOk(c, s.passed, s.threads[t]);
    assert ThreadOk(c, s.passed, s.threads[u]);
    assert TicketsDistinct(s);
  }

  // ---------- progress ----------

  /** A step of t that is not a fruitless turn of its spin loop. */
  ghost predicate Effective(c: Config, s: State, t: int) {
    CanStep(c, s, t) && !s.threads[t].pc.Done? && !Waits(s, s.threads[t])
  }

  predicate Waits(s: State, th: Thread) {
    th.pc.Barrier? && th.pc.stage.Spin? && th.passedOld == s.passed
  }

  /** Threads cannot all wait for one another: while any is unfinished, some thread makes progress. */
  lemma SomeThreadProgresses(c: Config, s: State, t: int) returns (u: int)
    requires Inv(c, s) && 0 <= t < c.n && !s.threads[t].pc.Done?
    ensures 0 <= u < c.n && Effective(c, s, u)
  {
    if l :| Releasing(c, s, l) {
      u := l;
    } else {
      assert Gathering(c, s);
      u := NotYetArrived(c, s, t);
    }
    InvCanStep(c, s, u);
  }

  lemma SomeOutside(a: set<int>, n: nat) returns (u: int)
    requires |a| < n
    ensures 0 <= u < n && u !in a
  {
    assert |a| == |a - Below(n)| + |a * Below(n)|;
    assert |Below(n)| == |Below(n) - a| + |a * Below(n)|;
    u :| u in Below(n) - a;
  }

  lemma NotYetArrived(c: Config, s: State, t: int) returns (u: int)
    requires Inv(c, s) && Gathering(c, s) && 0 <= t < c.n && !s.threads[t].pc.Done?
    ensures 0 <= u < c.n && !s.threads[u].pc.Done? && !Waits(s, s.threads[u])
  {
    assert ThreadOk(c, s.passed, s.threads[t]);
    if Waits(s, s.threads[t]) {
      u := SomeOutside(ArrivedSet(s), c.n);
      assert ThreadOk(c, s.passed, s.threads[u]);
    } else {
      u := t;
    }
  }

  // ---------- every run ends ----------

  /** Steps a round can still take at most, its fruitless spins not counted. */
  ghost function RoundCost(rows: int): int { 2 * rows + 10 }

  ghost function CostFrom(c: Config, r: nat): int
    decreases |c.rounds| - r
  {
    if r >= |c.rounds| then 0 else RoundCost(|c.rounds[r]|) + CostFrom(c, r + 1)
  }

  ghost function Left(c: Config, th: Thread): int {
    if th.pc.Done? || th.round >= |c.rounds| then 0
    else
      var d := |c.rounds[th.round]|;
      CostFrom(c, th.round + 1) +
      match th.pc
      case Barrier(second, stage) => StageLeft(stage) + if second then d + 2 else 2 * d + 7
      case Pack(next, end) => d + 6 + (end - next)
      case Read(seen) => d - |seen| + 1
      case Done => 0
  }

  ghost function StageLeft(stage: Stage): int {
    match stage
    case Load => 3
    case Fetch => 2
    case Reset => 1
    case Store => 0
    case Spin => 0
  }

  ghost function TotalLeft(c: Config, ths: seq<Thread>): int {
    if ths == [] then 0 else Left(c, ths[0]) + TotalLeft(c, ths[1..])
  }

  lemma {:induction false} CostFromNat(c: Config, r: nat)
    ensures CostFrom(c, r) >= 0
    decreases |c.rounds| - r
  {
    if r < |c.rounds| {
      CostFromNat(c, r + 1);
    }
  }

  lemma LeftNat(c: Config, passed: int, th: Thread)
    requires c.Valid() && ThreadOk(c, passed, th)
    ensures Left(c, th) >= 0
  {
    CostFromNat(c, th.round + 1);
    hide Panel, CostFrom;
  }

  lemma {:induction false} TotalLeftNat(c: Config, passed: int, ths: seq<Thread>)
    requires c.Valid() && forall t :: 0 <= t < |ths| ==> ThreadOk(c, passed, ths[t])
    ensures TotalLeft(c, ths) >= 0
    decreases |ths|
  {
    hide ThreadOk, Left;
    if ths != [] {
      LeftNat(c, passed, ths[0]);
      TotalLeftNat(c, passed, ths[1..]);
    }
  }

  lemma {:induction false} TotalLeftUpdate(c: Config, ths: seq<Thread>, t: int, th: Thread)
    requires 0 <= t < |ths|
    ensures TotalLeft(c, ths[t := th]) == TotalLeft(c, ths) - Left(c, ths[t]) + Left(c, th)
    decreases |ths|
  {
    hide Left;
    if t == 0 {
      assert ths[t := th][1..] == ths[1..];
    } else {
      assert ths[t := th][1..] == ths[1..][t - 1 := th];
      TotalLeftUpdate(c, ths[1..], t - 1, th);
    }
  }

  /** An effective step of a thread uses up some of what that thread has left. */
  lemma EffectiveStepCounts(c: Config, s: State, t: int)
    requires Inv(c, s) && 0 <= t < c.n && Effective(c, s, t)
    ensures Step(c, s, t).threads == s.threads[t := Step(c, s, t).threads[t]]
    ensures Left(c, Step(c, s, t).threads[t]) < Left(c, s.threads[t])
  {
    hide Panel, CostFrom, Leave, FinishRound;
    var th := s.threads[t];
    assert ThreadOk(c, s.passed, th);
    match th.pc
    case Barrier(_, Load) =>
    case Barrier(_, Fetch) =>
    case Barrier(_, Reset) =>
    case Barrier(_, Store) => LeaveCounts(c, th);
    case Barrier(_, Spin) => LeaveCounts(c, th);
    case Pack(_, _) =>
    case Read(_) => FinishCounts(c, th);
  }

  lemma LeaveCounts(c: Config, th: Thread)
    requires c.Valid() && th.round < |c.rounds| && th.pc.Barrier? && th.tickets != []
    requires th.tickets[|th.tickets| - 1] >= 0
    requires th.pc.stage.Store? || th.pc.stage.Spin?
    ensures Left(c, Leave(c, th)) < Left(c, th)
  {
    hide CostFrom, Panel;
    var id := if th.id < 0 then th.tickets[|th.tickets| - 1] else th.id;
    PanelShape(c, th.round, id);
  }

  lemma FinishCounts(c: Config, th: Thread)
    requires c.Valid() && th.round < |c.rounds| && th.pc.Read?
    ensures Left(c, FinishRound(c, th)) < CostFrom(c, th.round + 1) + 1
  {
  }

  lemma EffectiveStepEndsSooner(c: Config, s: State, t: int)
    requires Inv(c, s) && 0 <= t < c.n && Effective(c, s, t)
    ensures Inv(c, Step(c, s, t))
    ensures 0 <= TotalLeft(c, Step(c, s, t).threads) < TotalLeft(c, s.threads)
  {
    var s' := Step(c, s, t);
    StepInv(c, s, t);
    EffectiveStepCounts(c, s, t);
    TotalLeftUpdate(c, s.threads, t, s'.threads[t]);
    assert forall u :: 0 <= u < |s'.threads| ==> ThreadOk(c, s'.passed, s'.threads[u]);
    TotalLeftNat(c, s'.passed, s'.threads);
  }

  /** From every reachable state some schedule lets every thread finish. */
  lemma {:induction false} EveryRunCanFinish(c: Config, s: State) returns (sched: seq<int>, s': State)
    requires Inv(c, s)
    ensures Leads(c, s, sched, s') && Inv(c, s')
    ensures forall t :: 0 <= t < c.n ==> s'.threads[t].pc.Done?
    decreases TotalLeft(c, s.threads)
  {
    assert |s.threads| == c.n;
    hide Inv, Step, Effective;
    if t :| 0 <= t < c.n && !s.threads[t].pc.Done? {
      var u := SomeThreadProgresses(c, s, t);
      EffectiveStepEndsSooner(c, s, u);
      assert CanStep(c, s, u) by { InvCanStep(c, s, u); }
      var rest;
      rest, s' := EveryRunCanFinish(c, Step(c, s, u));
      sched := [u] + rest;
      assert sched[1..] == rest;
    } else {
      sched, s' := [], s;
    }
  }

  /** Effective steps of a schedule. */
  ghost function EffectiveSteps(c: Config, s: State, sched: seq<int>, s': State): int
    requires Leads(c, s, sched, s')
    decreases |sched|
  {
    if sched == [] then 0
    else (if Effective(c, s, sched[0]) then 1 else 0)
         + EffectiveSteps(c, Step(c, s, sched[0]), sched[1..], s')
  }

  lemma IneffectiveStep(c: Config, s: State, t: int)
    requires CanStep(c, s, t) && !Effective(c, s, t)
    ensures Step(c, s, t) == s
  {
  }

  /** No run takes more effective steps than its threads had left: every run comes to an end. */
  lemma {:induction false} EffectiveStepsBounded(c: Config, s: State, sched: seq<int>, s': State)
    requires Inv(c, s) && Leads(c, s, sched, s')
    ensures EffectiveSteps(c, s, sched, s') <= TotalLeft(c, s.threads)
    decreases |sched|
  {
    assert |s.threads| == c.n && forall t :: 0 <= t < |s.threads| ==> ThreadOk(c, s.passed, s.threads[t]);
    TotalLeftNat(c, s.passed, s.threads);
    hide Inv, Step, Effective, ThreadOk;
    if sched != [] {
      var t := sched[0];
      StepInv(c, s, t);
      EffectiveStepsBounded(c, Step(c, s, t), sched[1..], s');
      if Effective(c, s, t) {
        EffectiveStepEndsSooner(c, s, t);
      } else {
        IneffectiveStep(c, s, t);
      }
    }
  }
}
