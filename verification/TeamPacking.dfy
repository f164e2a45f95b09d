/**
 * A team of threads that packs a matrix into a shared buffer, round after round, with the
 * reusable counter barrier between packing and reading. Every atomic operation of the
 * barrier, every row written and every row read is one step of one thread.
 */
module TeamPacking {
  import opened NumericUtils
  import opened Parallel

  /** The packed image of one strd row. */
  type Row = seq<real>

  /** n threads; round r packs the rows rounds[r]; the buffer has room for `capacity` rows. */
  datatype Config = Config(n: int, interleave: int, rounds: seq<seq<Row>>, capacity: nat) {
    ghost predicate Valid() {
      n >= 1 && interleave >= 1 && forall r :: 0 <= r < |rounds| ==> |rounds[r]| <= capacity
    }
  }

  /** The operations of one call of the barrier, in order; only the last thread resets and stores. */
  datatype Stage = Load | Fetch | Reset | Store | Spin

  /** Where a thread is: in the first or second barrier of its round, packing, or reading. */
  datatype Pc =
    | Barrier(second: bool, stage: Stage)
    | Pack(next: int, end: int)
    | Read(seen: seq<Row>)
    | Done

  /** tickets are the numbers the barrier returned so far; outputs what the finished rounds read. */
  datatype Thread = Thread(pc: Pc, round: nat, passedOld: int, id: int, tickets: seq<int>, outputs: seq<seq<Row>>)

  datatype State = State(bar: int, passed: int, buffer: seq<Row>, threads: seq<Thread>)

  /** The rows thread `id` of the team packs in round r. */
  function Panel(c: Config, r: int, id: int): (int, int)
    requires c.n >= 1 && c.interleave >= 1 && 0 <= r < |c.rounds|
  {
    var strd := |c.rounds[r]|;
    var split := MakeParallelSplit(strd, c.interleave, c.n);
    if id < split.threads then
      var start, chunk := Start(id, split), Work(id, split);
      (start, start + if chunk + start > strd then strd - start else chunk)
    else
      (0, 0)
  }

  /** What a thread does once a barrier lets it go. */
  function Leave(c: Config, th: Thread): Thread
    requires c.n >= 1 && c.interleave >= 1 && th.pc.Barrier? && th.tickets != [] && th.round < |c.rounds|
  {
    if th.pc.second then
      th.(pc := Read([]))
    else
      var id := if th.id < 0 then th.tickets[|th.tickets| - 1] else th.id;
      var (start, end) := Panel(c, th.round, id);
      th.(id := id, pc := Pack(start, end))
  }

  function FinishRound(c: Config, th: Thread): Thread
    requires th.pc.Read?
  {
    var pc := if th.round + 1 == |c.rounds| then Done else Barrier(false, Load);
    th.(round := th.round + 1, outputs := th.outputs + [th.pc.seen], pc := pc)
  }

  /** What the step of a thread needs in order not to go astray; the invariant supplies it. */
  predicate CanStep(c: Config, s: State, t: int) {
    && c.n >= 1 && c.interleave >= 1 && 0 <= t < |s.threads|
    && var th := s.threads[t];
    && (!th.pc.Done? ==> th.round < |c.rounds|)
    && (th.pc.Barrier? && !th.pc.stage.Load? && !th.pc.stage.Fetch? ==> th.tickets != [])
    && (th.pc.Pack? && th.pc.next < th.pc.end ==> 0 <= th.pc.next < |s.buffer| && th.pc.next < |c.rounds[th.round]|)
    && (th.pc.Read? ==> |c.rounds[th.round]| <= |s.buffer|)
  }

  /** One step of thread t. */
  function Step(c: Config, s: State, t: int): State
    requires CanStep(c, s, t)
  {
    var th := s.threads[t];
    match th.pc
    case Barrier(b, Load) =>
      s.(threads := s.threads[t := th.(passedOld := s.passed, pc := Barrier(b, Fetch))])
    case Barrier(b, Fetch) =>
      var stage := if s.bar == c.n - 1 then Reset else Spin;
      s.(bar := s.bar + 1, threads := s.threads[t := th.(tickets := th.tickets + [s.bar], pc := Barrier(b, stage))])
    case Barrier(b, Reset) =>
      s.(bar := 0, threads := s.threads[t := th.(pc := Barrier(b, Store))])
    case Barrier(b, Store) =>
      s.(passed := th.passedOld + 1, threads := s.threads[t := Leave(c, th)])
    case Barrier(b, Spin) =>
      if s.passed == th.passedOld then s else s.(threads := s.threads[t := Leave(c, th)])
    case Pack(next, end) =>
      if next < end then
        s.(buffer := s.buffer[next := c.rounds[th.round][next]], threads := s.threads[t := th.(pc := Pack(next + 1, end))])
      else
        s.(threads := s.threads[t := th.(pc := Barrier(true, Load))])
    case Read(seen) =>
      if |seen| < |c.rounds[th.round]| then
        s.(threads := s.threads[t := th.(pc := Read(seen + [s.buffer[|seen|]]))])
      else
        s.(threads := s.threads[t := FinishRound(c, th)])
    case Done => s
  }

  function InitThread(c: Config): Thread {
    Thread(if c.rounds == [] then Done else Barrier(false, Load), 0, 0, -1, [], [])
  }

  predicate IsInit(c: Config, s: State) {
    && s.bar == 0 && s.passed == 0 && |s.buffer| == c.capacity && |s.threads| == c.n
    && forall t :: 0 <= t < |s.threads| ==> s.threads[t] == InitThread(c)
  }

  // ---------- the invariant ----------

  /** Barriers a thread has passed. */
  function Passes(th: Thread): int {
    match th.pc
    case Barrier(second, _) => 2 * th.round + if second then 1 else 0
    case Pack(_, _) => 2 * th.round + 1
    case Read(_) => 2 * th.round + 2
    case Done => 2 * th.round
  }

  /** Inside a barrier and already counted by it. */
  predicate Arrived(th: Thread) {
    th.pc.Barrier? && (th.pc.stage.Reset? || th.pc.stage.Store? || th.pc.stage.Spin?)
  }

  /** The thread that found the team complete and has yet to let it go. */
  predicate Leader(th: Thread) {
    th.pc.Barrier? && (th.pc.stage.Reset? || th.pc.stage.Store?)
  }

  /** What holds of one thread when `passed` generations are complete. */
  ghost predicate ThreadOk(c: Config, passed: int, th: Thread)
    requires c.Valid()
  {
    && th.round <= |c.rounds| && (th.pc.Done? <==> th.round == |c.rounds|)
    && (Passes(th) == passed || (Passes(th) == passed - 1 && th.pc.Barrier? && th.pc.stage.Spin?))
    && (th.pc.Barrier? && !th.pc.stage.Load? ==> th.passedOld == Passes(th))
    && |th.tickets| == Passes(th) + (if Arrived(th) then 1 else 0)
    && (forall g :: 0 <= g < |th.tickets| ==> 0 <= th.tickets[g] < c.n)
    && th.id == (if Passes(th) == 0 then -1 else th.tickets[0])
    && th.outputs == c.rounds[..th.round]
    && (th.pc.Pack? ==> PackOk(c, th))
    && (th.pc.Read? ==> th.pc.seen <= c.rounds[th.round])
  }

  ghost predicate PackOk(c: Config, th: Thread)
    requires c.Valid() && th.pc.Pack? && th.round < |c.rounds|
  {
    var (lo, hi) := Panel(c, th.round, th.id);
    lo <= th.pc.next <= hi == th.pc.end
  }

  ghost function ArrivedSet(s: State): set<int> {
    set t | 0 <= t < |s.threads| && Arrived(s.threads[t]) && Passes(s.threads[t]) == s.passed
  }

  /** The generation is filling up: bar counts the threads that have arrived. */
  ghost predicate Gathering(c: Config, s: State) {
    && |s.threads| == c.n
    && (forall t :: 0 <= t < c.n ==> !Leader(s.threads[t]))
    && s.bar == |ArrivedSet(s)| < c.n
    && forall t :: 0 <= t < c.n && |s.threads[t].tickets| > s.passed >= 0 ==> s.threads[t].tickets[s.passed] < s.bar
  }

  /** The generation is complete: thread l is about to let the others, which all wait, go. */
  ghost predicate Releasing(c: Config, s: State, l: int) {
    && |s.threads| == c.n && 0 <= l < c.n
    && Leader(s.threads[l]) && Passes(s.threads[l]) == s.passed
    && s.bar == (if s.threads[l].pc.stage.Reset? then c.n else 0)
    && forall t :: 0 <= t < c.n && t != l ==>
         s.threads[t].pc.Barrier? && s.threads[t].pc.stage.Spin? && Passes(s.threads[t]) == s.passed
  }

  /** No two threads ever got the same number from one generation of the barrier. */
  ghost predicate TicketsDistinct(s: State) {
    forall t, u, g :: 0 <= t < u < |s.threads| && 0 <= g < |s.threads[t].tickets| && g < |s.threads[u].tickets| ==>
      s.threads[t].tickets[g] != s.threads[u].tickets[g]
  }

  /** Rows lo to hi - 1 of the buffer are those of round r. */
  predicate Holds(c: Config, s: State, r: int, lo: int, hi: int)
    requires 0 <= r < |c.rounds|
  {
    forall x :: lo <= x < hi && 0 <= x < |s.buffer| && x < |c.rounds[r]| ==> s.buffer[x] == c.rounds[r][x]
  }

  /** The part of its panel that a thread of the packing generation has written. */
  ghost predicate PanelWritten(c: Config, s: State, th: Thread)
    requires c.Valid()
  {
    th.round < |c.rounds| ==>
      var (lo, hi) := Panel(c, th.round, th.id);
      && (th.pc.Pack? ==> Holds(c, s, th.round, lo, th.pc.next))
      && (th.pc.Barrier? && th.pc.second ==> Holds(c, s, th.round, lo, hi))
  }

  ghost predicate BufferOk(c: Config, s: State)
    requires c.Valid()
  {
    && |s.buffer| == c.capacity
    && (s.passed % 2 == 1 ==>
          forall t :: 0 <= t < |s.threads| && Passes(s.threads[t]) == s.passed ==> PanelWritten(c, s, s.threads[t]))
    && (s.passed % 2 == 0 && s.passed > 0 && s.passed / 2 <= |c.rounds| ==>
          Holds(c, s, s.passed / 2 - 1, 0, |c.rounds[s.passed / 2 - 1]|))
  }

  ghost predicate Inv(c: Config, s: State) {
    && c.Valid()
    && |s.threads| == c.n && s.passed >= 0
    && (forall t :: 0 <= t < c.n ==> ThreadOk(c, s.passed, s.threads[t]))
    && (Gathering(c, s) || exists l :: Releasing(c, s, l))
    && TicketsDistinct(s)
    && BufferOk(c, s)
  }

  // ---------- panels ----------

  lemma PanelShape(c: Config, r: int, id: int)
    requires c.Valid() && 0 <= r < |c.rounds| && 0 <= id
    ensures var (lo, hi) := Panel(c, r, id);
            var split := MakeParallelSplit(|c.rounds[r]|, c.interleave, c.n);
            && 0 <= lo <= hi <= |c.rounds[r]|
            && if id < split.threads then lo == Start(id, split) && hi == lo + Work(id, split) else lo == hi == 0
  {
    hide MakeParallelSplit, Start, Work, Consecutive, IRoundDiv;
    var strd := |c.rounds[r]|;
    var split := MakeParallelSplit(strd, c.interleave, c.n);
    SplitIsConsecutive(strd, c.interleave, c.n);
    if id < split.threads {
      RangeInside(split, strd, id);
    }
  }

  lemma InvCanStep(c: Config, s: State, t: int)
    requires Inv(c, s) && 0 <= t < c.n
    ensures CanStep(c, s, t)
  {
    var th := s.threads[t];
    assert ThreadOk(c, s.passed, th);
    if th.pc.Pack? {
      PanelShape(c, th.round, th.id);
    }
  }

  // ---------- steps that stay between two barriers ----------

  /** Only a thread that waits for the current generation, or leads it, lives through a release. */
  lemma NotReleasing(c: Config, s: State, t: int)
    requires Inv(c, s) && 0 <= t < c.n
    requires !(Arrived(s.threads[t]) && Passes(s.threads[t]) == s.passed)
    ensures Gathering(c, s)
  {
    hide ThreadOk, TicketsDistinct, BufferOk;
    forall l
      ensures !Releasing(c, s, l)
    {
      if t == l {}
    }
  }

  lemma LocalStep(c: Config, s: State, s': State, t: int, th: Thread)
    requires Inv(c, s) && 0 <= t < c.n
    requires s' == s.(threads := s.threads[t := th], buffer := s'.buffer)
    requires !(Arrived(s.threads[t]) && Passes(s.threads[t]) == s.passed) && !Arrived(th)
    requires ThreadOk(c, s.passed, th) && th.tickets == s.threads[t].tickets && BufferOk(c, s')
    ensures Inv(c, s')
  {
    NotReleasing(c, s, t);
    hide ThreadOk, BufferOk;
    assert ArrivedSet(s') == ArrivedSet(s);
    assert Gathering(c, s');
    forall u | 0 <= u < c.n
      ensures ThreadOk(c, s'.passed, s'.threads[u])
    {
    }
    assert TicketsDistinct(s');
  }

  /** A step that leaves the buffer alone need only account for its own panel. */
  lemma BufferKept(c: Config, s: State, s': State, t: int, th: Thread)
    requires Inv(c, s) && 0 <= t < c.n && s' == s.(threads := s.threads[t := th])
    requires Passes(th) == s.passed && s.passed % 2 == 1 ==> PanelWritten(c, s, th)
    ensures BufferOk(c, s')
  {
    hide ThreadOk, TicketsDistinct;
    forall u | 0 <= u < c.n && Passes(s'.threads[u]) == s.passed && s.passed % 2 == 1
      ensures PanelWritten(c, s', s'.threads[u])
    {
      assert PanelWritten(c, s, s'.threads[u]);
    }
  }

  lemma StepLoad(c: Config, s: State, t: int)
    requires Inv(c, s) && 0 <= t < c.n && s.threads[t].pc.Barrier? && s.threads[t].pc.stage.Load?
    ensures CanStep(c, s, t) && Inv(c, Step(c, s, t))
  {
    InvCanStep(c, s, t);
    var th := s.threads[t];
    var th' := th.(passedOld := s.passed, pc := Barrier(th.pc.second, Fetch));
    assert ThreadOk(c, s.passed, th);
    assert BufferOk(c, s);
    BufferKept(c, s, Step(c, s, t), t, th');
    LocalStep(c, s, Step(c, s, t), t, th');
  }

  lemma LeaveOk(c: Config, passed: int, th: Thread)
    requires c.Valid() && ThreadOk(c, passed, th)
    requires th.pc.Barrier? && Arrived(th) && th.round < |c.rounds|
    ensures th.tickets != [] && ThreadOk(c, Passes(th) + 1, Leave(c, th))
    ensures !Arrived(Leave(c, th)) && Leave(c, th).tickets == th.tickets
    ensures Leave(c, th).round == th.round && !Leave(c, th).pc.Barrier?
    ensures Leave(c, th).pc.Pack? ==> Leave(c, th).pc.next == Panel(c, th.round, Leave(c, th).id).0
  {
    var id := th.tickets[0];
    PanelShape(c, th.round, id);
    hide Panel;
  }

  lemma StepSpin(c: Config, s: State, t: int)
    requires Inv(c, s) && 0 <= t < c.n && s.threads[t].pc.Barrier? && s.threads[t].pc.stage.Spin?
    ensures CanStep(c, s, t) && Inv(c, Step(c, s, t))
  {
    InvCanStep(c, s, t);
    var th := s.threads[t];
    assert ThreadOk(c, s.passed, th);
    if s.passed != th.passedOld {
      LeaveOk(c, s.passed, th);
      var th' := Leave(c, th);
      hide Leave, Panel;
      BufferKept(c, s, Step(c, s, t), t, th');
      LocalStep(c, s, Step(c, s, t), t, th');
    }
  }

  /** All threads of a packing generation work on the same round. */
  lemma SameRound(c: Config, s: State, t: int, u: int)
    requires Inv(c, s) && 0 <= t < c.n && 0 <= u < c.n && s.threads[t].pc.Pack?
    requires Passes(s.threads[u]) == s.passed
    ensures s.passed == 2 * s.threads[t].round + 1 && s.threads[u].round == s.threads[t].round
  {
    assert ThreadOk(c, s.passed, s.threads[t]);
    assert ThreadOk(c, s.passed, s.threads[u]);
  }

  lemma WriteKeeps(c: Config, s: State, r: int, x: int, lo: int, hi: int)
    requires 0 <= r < |c.rounds| && 0 <= x < |s.buffer| && x < |c.rounds[r]|
    ensures Holds(c, s, r, lo, hi) ==> Holds(c, s.(buffer := s.buffer[x := c.rounds[r][x]]), r, lo, hi)
    ensures Holds(c, s, r, lo, x) ==> Holds(c, s.(buffer := s.buffer[x := c.rounds[r][x]]), r, lo, x + 1)
  {
  }

  lemma WriteBufferOk(c: Config, s: State, t: int)
    requires Inv(c, s) && 0 <= t < c.n && CanStep(c, s, t)
    requires s.threads[t].pc.Pack? && s.threads[t].pc.next < s.threads[t].pc.end
    ensures BufferOk(c, Step(c, s, t))
  {
    var th, s' := s.threads[t], Step(c, s, t);
    var r, x := th.round, th.pc.next;
    SameRound(c, s, t, t) by { assert ThreadOk(c, s.passed, th); }
    hide ThreadOk, Panel, TicketsDistinct, Gathering, Releasing;
    forall u | 0 <= u < c.n && Passes(s'.threads[u]) == s'.passed
      ensures PanelWritten(c, s', s'.threads[u])
    {
      assert Passes(s.threads[u]) == s.passed && PanelWritten(c, s, s.threads[u]);
      SameRound(c, s, t, u);
      var (lo, hi) := Panel(c, r, s.threads[u].id);
      WriteKeeps(c, s, r, x, lo, hi);
      if s.threads[u].pc.Pack? {
        WriteKeeps(c, s, r, x, lo, s.threads[u].pc.next);
      }
    }
  }

  lemma StepPack(c: Config, s: State, t: int)
    requires Inv(c, s) && 0 <= t < c.n && s.threads[t].pc.Pack?
    ensures CanStep(c, s, t) && Inv(c, Step(c, s, t))
  {
    InvCanStep(c, s, t);
    var th, s' := s.threads[t], Step(c, s, t);
    assert ThreadOk(c, s.passed, th);
    if th.pc.next < th.pc.end {
      WriteBufferOk(c, s, t);
      hide Panel, BufferOk;
      LocalStep(c, s, s', t, th.(pc := Pack(th.pc.next + 1, th.pc.end)));
    } else {
      var th' := th.(pc := Barrier(true, Load));
      assert PanelWritten(c, s, th) by { assert BufferOk(c, s); SameRound(c, s, t, t); }
      hide Panel;
      BufferKept(c, s, s', t, th');
      LocalStep(c, s, s', t, th');
    }
  }

  /** While anyone reads, no generation is filling the buffer and it holds the round being read. */
  lemma ReaderSees(c: Config, s: State, t: int)
    requires Inv(c, s) && 0 <= t < c.n && s.threads[t].pc.Read?
    ensures var r := s.threads[t].round;
            r < |c.rounds| && s.passed == 2 * r + 2 && Holds(c, s, r, 0, |c.rounds[r]|)
  {
    assert ThreadOk(c, s.passed, s.threads[t]);
    assert BufferOk(c, s);
  }

  lemma StepRead(c: Config, s: State, t: int)
    requires Inv(c, s) && 0 <= t < c.n && s.threads[t].pc.Read?
    ensures CanStep(c, s, t) && Inv(c, Step(c, s, t))
  {
    InvCanStep(c, s, t);
    ReaderSees(c, s, t);
    var th, s' := s.threads[t], Step(c, s, t);
    assert ThreadOk(c, s.passed, th);
    var rows := c.rounds[th.round];
    hide Panel;
    if |th.pc.seen| < |rows| {
      var th' := th.(pc := Read(th.pc.seen + [s.buffer[|th.pc.seen|]]));
      assert th'.pc.seen == rows[..|th'.pc.seen|];
      BufferKept(c, s, s', t, th');
      LocalStep(c, s, s', t, th');
    } else {
      assert th.pc.seen == rows && c.rounds[..th.round + 1] == c.rounds[..th.round] + [rows];
      BufferKept(c, s, s', t, FinishRound(c, th));
      LocalStep(c, s, s', t, FinishRound(c, th));
    }
  }

  // ---------- arriving ----------

  lemma FetchTickets(c: Config, s: State, t: int)
    requires Inv(c, s) && 0 <= t < c.n && s.threads[t].pc.Barrier? && s.threads[t].pc.stage.Fetch?
    requires CanStep(c, s, t) && Gathering(c, s)
    ensures TicketsDistinct(Step(c, s, t)) && |s.threads[t].tickets| == s.passed
  {
    var s' := Step(c, s, t);
    assert ThreadOk(c, s.passed, s.threads[t]);
    forall u | 0 <= u < c.n && |s.threads[u].tickets| > s.passed
      ensures s.threads[u].tickets[s.passed] < s.bar
    {
    }
  }

  lemma ArrivedGrows(c: Config, s: State, t: int)
    requires |s.threads| == c.n && CanStep(c, s, t)
    requires s.threads[t].pc.Barrier? && s.threads[t].pc.stage.Fetch? && Passes(s.threads[t]) == s.passed
    ensures ArrivedSet(Step(c, s, t)) == ArrivedSet(s) + {t} && t !in ArrivedSet(s)
  {
  }

  ghost function Below(n: nat): (r: set<int>)
    ensures |r| == n && forall t :: t in r <==> 0 <= t < n
  {
    if n == 0 then {} else Below(n - 1) + {n - 1}
  }

  /** A set of n numbers below n is all of them. */
  lemma FullSet(a: set<int>, n: nat)
    requires |a| == n && forall t :: t in a ==> 0 <= t < n
    ensures forall t :: 0 <= t < n ==> t in a
  {
    assert a <= Below(n);
    assert |Below(n) - a| == |Below(n)| - |a|;
    assert Below(n) - a == {};
    forall t | 0 <= t < n
      ensures t in a
    {
      assert t in Below(n) && t !in Below(n) - a;
    }
  }

  lemma FetchThreadOk(c: Config, s: State, t: int)
    requires Inv(c, s) && 0 <= t < c.n && s.threads[t].pc.Barrier? && s.threads[t].pc.stage.Fetch?
    requires CanStep(c, s, t) && Gathering(c, s)
    ensures forall u :: 0 <= u < c.n ==> ThreadOk(c, s.passed, Step(c, s, t).threads[u])
  {
    var s' := Step(c, s, t);
    hide Panel, BufferOk, TicketsDistinct;
    forall u | 0 <= u < c.n
      ensures ThreadOk(c, s.passed, s'.threads[u])
    {
      assert ThreadOk(c, s.passed, s.threads[u]);
    }
  }

  lemma FetchPhase(c: Config, s: State, t: int)
    requires CanStep(c, s, t) && Gathering(c, s) && s.passed >= 0
    requires s.threads[t].pc.Barrier? && s.threads[t].pc.stage.Fetch? && Passes(s.threads[t]) == s.passed
    requires |s.threads[t].tickets| == s.passed
    ensures Gathering(c, Step(c, s, t)) || Releasing(c, Step(c, s, t), t)
  {
    var s' := Step(c, s, t);
    ArrivedGrows(c, s, t);
    if s.bar == c.n - 1 {
      FullSet(ArrivedSet(s'), c.n);
      forall u | 0 <= u < c.n && u != t
        ensures s'.threads[u].pc.Barrier? && s'.threads[u].pc.stage.Spin? && Passes(s'.threads[u]) == s'.passed
      {
        assert u in ArrivedSet(s');
        assert !Leader(s.threads[u]);
      }
    }
  }

  lemma StepFetch(c: Config, s: State, t: int)
    requires Inv(c, s) && 0 <= t < c.n && s.threads[t].pc.Barrier? && s.threads[t].pc.stage.Fetch?
    ensures CanStep(c, s, t) && Inv(c, Step(c, s, t))
  {
    InvCanStep(c, s, t);
    NotReleasing(c, s, t);
    assert ThreadOk(c, s.passed, s.threads[t]);
    FetchTickets(c, s, t);
    FetchPhase(c, s, t);
    BufferFetch(c, s, t);
    FetchThreadOk(c, s, t);
    var s' := Step(c, s, t);
    assert s'.passed == s.passed && |s'.threads| == c.n;
    hide BufferOk, TicketsDistinct, ThreadOk, Gathering, Releasing, Step;
  }

  lemma BufferFetch(c: Config, s: State, t: int)
    requires Inv(c, s) && CanStep(c, s, t) && s.threads[t].pc.Barrier? && s.threads[t].pc.stage.Fetch?
    ensures BufferOk(c, Step(c, s, t))
  {
    var s' := Step(c, s, t);
    assert ThreadOk(c, s.passed, s.threads[t]);
    hide Panel, TicketsDistinct, Gathering, Releasing;
    forall u | 0 <= u < c.n && Passes(s'.threads[u]) == s'.passed && s.passed % 2 == 1
      ensures PanelWritten(c, s', s'.threads[u])
    {
      assert PanelWritten(c, s, s.threads[u]);
    }
  }

  // ---------- releasing ----------

  lemma LeaderReleases(c: Config, s: State, t: int)
    requires Inv(c, s) && 0 <= t < c.n && Leader(s.threads[t])
    ensures Releasing(c, s, t)
  {
    hide ThreadOk, BufferOk, TicketsDistinct;
    var l :| Releasing(c, s, l);
    assert l == t;
  }

  lemma StepReset(c: Config, s: State, t: int)
    requires Inv(c, s) && 0 <= t < c.n && s.threads[t].pc.Barrier? && s.threads[t].pc.stage.Reset?
    ensures CanStep(c, s, t) && Inv(c, Step(c, s, t))
  {
    InvCanStep(c, s, t);
    LeaderReleases(c, s, t);
    var s' := Step(c, s, t);
    assert forall u :: 0 <= u < c.n ==> ThreadOk(c, s'.passed, s'.threads[u]) by {
      assert forall u :: 0 <= u < c.n ==> ThreadOk(c, s.passed, s.threads[u]);
    }
    assert BufferOk(c, s') by {
      hide ThreadOk, Panel, TicketsDistinct, Gathering, Releasing;
      forall u | 0 <= u < c.n && Passes(s'.threads[u]) == s'.passed && s.passed % 2 == 1
        ensures PanelWritten(c, s', s'.threads[u])
      {
        assert PanelWritten(c, s, s.threads[u]);
      }
    }
    assert TicketsDistinct(s');
    assert Releasing(c, s', t);
  }

  /** Distinct numbers below n that are n in number leave none out. */
  lemma Onto(ids: seq<int>, n: int, o: int) returns (t: int)
    requires |ids| == n && 0 <= o < n
    requires forall i :: 0 <= i < n ==> 0 <= ids[i] < n
    requires forall i, j :: 0 <= i < j < n ==> ids[i] != ids[j]
    ensures 0 <= t < n && ids[t] == o
  {
    DistinctCount(ids);
    var all := set x | x in ids;
    FullSet(all, n);
    assert o in all;
    t :| 0 <= t < |ids| && ids[t] == o;
  }

  lemma {:induction false} DistinctCount(ids: seq<int>)
    requires forall i, j :: 0 <= i < j < |ids| ==> ids[i] != ids[j]
    ensures |set x | x in ids| == |ids|
    decreases |ids|
  {
    if ids != [] {
      DistinctCount(ids[1..]);
      assert (set x | x in ids) == (set x | x in ids[1..]) + {ids[0]};
    }
  }

  /** At the end of a packing generation every thread has written the panel of its own number. */
  lemma AllWritten(c: Config, s: State, l: int, t: int)
    requires Inv(c, s) && Releasing(c, s, l) && s.passed % 2 == 1 && 0 <= t < c.n
    ensures var th := s.threads[t];
            var r := s.passed / 2;
            && th.round == r < |c.rounds| && th.tickets != [] && th.id == th.tickets[0] && 0 <= th.id < c.n
            && var (lo, hi) := Panel(c, r, th.id); Holds(c, s, r, lo, hi)
  {
    assert ThreadOk(c, s.passed, s.threads[t]);
    assert Passes(s.threads[t]) == s.passed;
    assert BufferOk(c, s);
    hide Panel, Holds;
    assert PanelWritten(c, s, s.threads[t]);
  }

  /** Each thread number is held by exactly one thread. */
  lemma NumberTaken(c: Config, s: State, l: int, o: int) returns (t: int)
    requires Inv(c, s) && Releasing(c, s, l) && s.passed % 2 == 1 && 0 <= o < c.n
    ensures 0 <= t < c.n && s.threads[t].id == o
  {
    var ids := seq(c.n, t requires 0 <= t < c.n => s.threads[t].id);
    forall t, u | 0 <= t < u < c.n
      ensures 0 <= ids[t] < c.n && 0 <= ids[u] < c.n && ids[t] != ids[u]
    {
      AllWritten(c, s, l, t);
      AllWritten(c, s, l, u);
      assert TicketsDistinct(s);
    }
    AllWritten(c, s, l, 0);
    t := Onto(ids, c.n, o);
  }

  /** Once every thread waits at the second barrier, the panels together are the whole matrix. */
  lemma PackingComplete(c: Config, s: State, l: int)
    requires Inv(c, s) && Releasing(c, s, l) && s.passed % 2 == 1
    ensures s.passed / 2 < |c.rounds| && Holds(c, s, s.passed / 2, 0, |c.rounds[s.passed / 2]|)
  {
    hide ThreadOk, TicketsDistinct, BufferOk, Releasing, Gathering, Panel, MakeParallelSplit, Start, Work;
    var r := s.passed / 2;
    AllWritten(c, s, l, 0);
    var rows := c.rounds[r];
    forall x | 0 <= x < |s.buffer| && x < |rows|
      ensures s.buffer[x] == rows[x]
    {
      var o := ExactCover(|rows|, c.interleave, c.n, x);
      SplitIsConsecutive(|rows|, c.interleave, c.n);
      var t := NumberTaken(c, s, l, o);
      AllWritten(c, s, l, t);
      PanelShape(c, r, o);
      var (lo, hi) := Panel(c, r, o);
      assert Owns(o, MakeParallelSplit(|rows|, c.interleave, c.n), x);
      assert lo <= x < hi && Holds(c, s, r, lo, hi);
    }
  }

  lemma StoreBufferOk(c: Config, s: State, t: int)
    requires Inv(c, s) && CanStep(c, s, t) && Releasing(c, s, t) && s.threads[t].pc.stage.Store?
    ensures Step(c, s, t).passed == s.passed + 1 && BufferOk(c, Step(c, s, t))
  {
    var th, s' := s.threads[t], Step(c, s, t);
    assert ThreadOk(c, s.passed, th);
    LeaveOk(c, s.passed, th);
    hide Leave, Panel;
    if s.passed % 2 == 1 {
      PackingComplete(c, s, t);
    } else {
      forall u | 0 <= u < c.n && Passes(s'.threads[u]) == s'.passed
        ensures PanelWritten(c, s', s'.threads[u])
      {
        assert u == t;
      }
    }
  }

  lemma StepStore(c: Config, s: State, t: int)
    requires Inv(c, s) && 0 <= t < c.n && s.threads[t].pc.Barrier? && s.threads[t].pc.stage.Store?
    ensures CanStep(c, s, t) && Inv(c, Step(c, s, t))
  {
    InvCanStep(c, s, t);
    LeaderReleases(c, s, t);
    StoreBufferOk(c, s, t);
    var th, s' := s.threads[t], Step(c, s, t);
    assert ThreadOk(c, s.passed, th);
    LeaveOk(c, s.passed, th);
    hide Leave, Panel, BufferOk;
    forall u | 0 <= u < c.n
      ensures ThreadOk(c, s'.passed, s'.threads[u])
    {
      assert ThreadOk(c, s.passed, s.threads[u]);
    }
    assert ArrivedSet(s') == {};
    assert Gathering(c, s');
    assert TicketsDistinct(s');
  }

  /** Every step of every thread keeps the invariant. */
  lemma StepKeepsInv(c: Config, s: State, t: int)
    requires Inv(c, s) && 0 <= t < c.n
    ensures CanStep(c, s, t) && Inv(c, Step(c, s, t))
  {
    hide Inv, Step;
    InvCanStep(c, s, t);
    match s.threads[t].pc
    case Barrier(_, Load) => StepLoad(c, s, t);
    case Barrier(_, Fetch) => StepFetch(c, s, t);
    case Barrier(_, Reset) => StepReset(c, s, t);
    case Barrier(_, Store) => StepStore(c, s, t);
    case Barrier(_, Spin) => StepSpin(c, s, t);
    case Pack(_, _) => StepPack(c, s, t);
    case Read(_) => StepRead(c, s, t);
    case Done => StepDone(c, s, t);
  }

  lemma StepDone(c: Config, s: State, t: int)
    requires CanStep(c, s, t) && s.threads[t].pc.Done?
    ensures Step(c, s, t) == s
  {
  }

  lemma InitKeepsInv(c: Config, s: State)
    requires c.Valid() && IsInit(c, s)
    ensures Inv(c, s)
  {
    assert ArrivedSet(s) == {};
    assert Gathering(c, s);
    assert BufferOk(c, s);
  }
}
