/**
 * The two-dimensional split of a triangular C: each team of threads gets one panel from
 * the front and its mirror image from the back, and divides the two as one long line.
 */
module Bookend {
  import opened NumericUtils
  import opened Parallel
  import opened TriangularForm

  /** A rectangle of C handed to the next operator. */
  datatype Block = Block(cntgFirst: int, cntgSize: int, strdFirst: int, strdSize: int)

  predicate Contains(b: Block, i: int, j: int) {
    b.cntgFirst <= i < b.cntgFirst + b.cntgSize && b.strdFirst <= j < b.strdFirst + b.strdSize
  }

  /** teamsInB is what split_2d proposes for the strd dimension of B. */
  datatype Job = Job(c: Window, maxThreads: int, teamsInB: int, aUnroll: int, bUnroll: int) {

    /** C has at least two strd, as every team needs two panels. */
    predicate Valid() {
      && c.cntg >= 0 && c.strd >= 2
      && 1 <= teamsInB <= maxThreads && aUnroll >= 1 && bUnroll >= 1
    }

    function TeamsB(): (r: int)
      requires Valid()
      ensures 1 <= r <= maxThreads && 2 * r <= c.strd
    {
      Min(c.strd / 2, teamsInB)
    }

    function TeamsA(): (r: int)
      requires Valid()
      ensures r >= 1
    {
      AtLeastOne(maxThreads, TeamsB());
      maxThreads / TeamsB()
    }

    function BSplit(): ParallelSplit
      requires Valid()
    {
      MakeParallelSplit(c.strd, bUnroll, TeamsB() * 2)
    }

    /** The strd of both panels at which a team reads its cntg bounds. */
    function HighStrd(team: int): int
      requires Valid()
    {
      if c.lower then 0 else Work(team, BSplit()) - 1
    }

    /** The panel a team handles on a side, before cropping. */
    function PanelOf(team: int, lhs: bool): int
      requires Valid()
    {
      if lhs then team else BSplit().threads - team - 1
    }

    /** The cntg range of that panel which is not virtual. */
    function CropOf(team: int, lhs: bool): (int, int)
      requires Valid()
    {
      var p := PanelOf(team, lhs);
      CntgBounds(StrdPanel(c, Start(p, BSplit()), Work(p, BSplit())), HighStrd(team))
    }

    function LengthOf(team: int, lhs: bool): (r: int)
      requires Valid()
      ensures r >= 0
    {
      CropOf(team, lhs).1 - CropOf(team, lhs).0
    }

    function ASplit(team: int): ParallelSplit
      requires Valid()
    {
      MakeParallelSplit(LengthOf(team, true) + LengthOf(team, false), aUnroll, TeamsA())
    }

    /** Thread numbers are read as a team and a place in it. */
    function TeamOf(thread: int): int
      requires Valid()
    {
      thread / TeamsA()
    }

    function PlaceOf(thread: int): int
      requires Valid()
    {
      thread % TeamsA()
    }

    /** The guards behind which a thread returns without work. */
    predicate HasWork(thread: int)
      requires Valid()
    {
      TeamOf(thread) * 2 < BSplit().threads && PlaceOf(thread) < ASplit(TeamOf(thread)).threads
    }

    /** The block of a thread with work on one side of its team. */
    function BlockOf(thread: int, lhs: bool): Block
      requires Valid() && HasWork(thread)
    {
      var team, split := TeamOf(thread), BSplit();
      var first, size := Start(PlaceOf(thread), ASplit(team)), Work(PlaceOf(thread), ASplit(team));
      var lhsLength := LengthOf(team, true);
      var lhsFirst := Min(first, lhsLength);
      var lhsLast := Min(lhsFirst + size, lhsLength);
      var lhsSize := lhsLast - lhsFirst;
      var rhsFirst := Max(first - lhsLength, 0);
      var p := PanelOf(team, lhs);
      var crop := CropOf(team, lhs).0;
      if lhs then Block(crop + lhsFirst, lhsSize, Start(p, split), Work(p, split))
      else Block(crop + rhsFirst, size - lhsSize, Start(p, split), Work(p, split))
    }

    /** A thread of the pool computes element (i, j) of C on the given side. */
    predicate Computes(thread: int, lhs: bool, i: int, j: int)
      requires Valid()
    {
      0 <= thread < maxThreads && HasWork(thread) && Contains(BlockOf(thread, lhs), i, j)
    }
  }

  lemma AtLeastOne(n: int, d: int)
    requires 1 <= d <= n
    ensures n / d >= 1
  {
    DivModEquation(n, d);
    MulCancelLess(0, n / d, d);
  }

  /** Cutting the long line of a team into its two sides loses and repeats nothing. */
  lemma LineCut(lhsLength: int, rhsLength: int, first: int, size: int, x: int)
    requires lhsLength >= 0 && first >= 0 && size >= 0 && first + size <= lhsLength + rhsLength
    ensures var lhsFirst := Min(first, lhsLength);
            var lhsSize := Min(lhsFirst + size, lhsLength) - lhsFirst;
            var rhsFirst := Max(first - lhsLength, 0);
            && lhsSize >= 0 && size - lhsSize >= 0
            && (lhsFirst <= x < lhsFirst + lhsSize <==> 0 <= x < lhsLength && first <= x < first + size)
            && (rhsFirst <= x < rhsFirst + (size - lhsSize) <==>
                  0 <= x < rhsLength && first <= lhsLength + x < first + size)
  {
  }

  /** Panels are consecutive over the strd of C, and a front panel is never narrower than its mirror. */
  lemma PanelFacts(job: Job)
    requires job.Valid()
    ensures var s := job.BSplit();
            && Consecutive(s, job.c.strd) && 1 <= s.threads <= 2 * job.TeamsB()
            && (forall p :: 0 <= p < s.threads ==> Work(p, s) > 0)
            && (forall p, q :: 0 <= p <= q < s.threads ==> Work(q, s) <= Work(p, s))
  {
    hide MakeParallelSplit, Start, Work, Consecutive;
    var strd, teams := job.c.strd, job.TeamsB() * 2;
    SplitIsConsecutive(strd, job.bUnroll, teams);
    forall p, q | 0 <= p <= q < job.BSplit().threads
      ensures Work(q, job.BSplit()) <= Work(p, job.BSplit())
    {
      SplitIsEven(strd, job.bUnroll, teams, p, q);
    }
    assert job.BSplit().threads >= 1 by { ThreadsPositive(job); }
  }

  lemma ThreadsPositive(job: Job)
    requires job.Valid()
    ensures job.BSplit().threads >= 1
  {
    SplitIsConsecutive(job.c.strd, job.bUnroll, job.TeamsB() * 2);
    hide MakeParallelSplit, Start, Work;
  }

  /** The cropped cntg range of a panel holds every stored element of the panel. */
  lemma CropHolds(job: Job, team: int, lhs: bool, i: int, j: int)
    requires job.Valid() && 0 <= team && 2 * team < job.BSplit().threads
    requires 0 <= i < job.c.cntg && NonVirtual(job.c, i, j)
    requires Owns(job.PanelOf(team, lhs), job.BSplit(), j)
    ensures job.CropOf(team, lhs).0 <= i < job.CropOf(team, lhs).1
  {
    PanelFacts(job);
    hide MakeParallelSplit, Start, Work, Consecutive;
    var s, p := job.BSplit(), job.PanelOf(team, lhs);
    assert Work(p, s) <= Work(team, s);
  }

  /** Cropped ranges stay inside C. */
  lemma CropInside(job: Job, team: int, lhs: bool)
    requires job.Valid()
    ensures 0 <= job.CropOf(team, lhs).0 <= job.CropOf(team, lhs).1 <= job.c.cntg
  {
    hide MakeParallelSplit, Start, Work;
  }

  /** Where row i of a panel lies on the long line of its team. */
  function PosOf(job: Job, team: int, lhs: bool, i: int): int
    requires job.Valid()
  {
    i - job.CropOf(team, lhs).0 + if lhs then 0 else job.LengthOf(team, true)
  }

  /** A block of a thread, in terms of the two one-dimensional splits it comes from. */
  predicate Assigned(job: Job, team: int, place: int, lhs: bool, i: int, j: int)
    requires job.Valid()
  {
    && team * 2 < job.BSplit().threads && place < job.ASplit(team).threads
    && Owns(job.PanelOf(team, lhs), job.BSplit(), j)
    && job.CropOf(team, lhs).0 <= i < job.CropOf(team, lhs).1
    && Owns(place, job.ASplit(team), PosOf(job, team, lhs, i))
  }

  lemma ComputesIsAssigned(job: Job, thread: int, lhs: bool, i: int, j: int)
    requires job.Valid() && 0 <= thread < job.maxThreads
    ensures job.Computes(thread, lhs, i, j)
            <==> Assigned(job, job.TeamOf(thread), job.PlaceOf(thread), lhs, i, j)
  {
    hide MakeParallelSplit, Start, Work, Consecutive, Job.CropOf, Job.TeamsA, Job.TeamsB, Job.TeamOf, Job.PlaceOf;
    if job.HasWork(thread) {
      var team, place := job.TeamOf(thread), job.PlaceOf(thread);
      assert place >= 0 by { PlaceNat(job, thread); }
      var lhsLength, rhsLength := job.LengthOf(team, true), job.LengthOf(team, false);
      SplitIsConsecutive(lhsLength + rhsLength, job.aUnroll, job.TeamsA());
      RangeInside(job.ASplit(team), lhsLength + rhsLength, place);
      LineCut(lhsLength, rhsLength, Start(place, job.ASplit(team)), Work(place, job.ASplit(team)),
              i - job.CropOf(team, lhs).0);
    }
  }

  lemma PlaceNat(job: Job, thread: int)
    requires job.Valid()
    ensures job.PlaceOf(thread) >= 0
  {
    DivModEquation(thread, job.TeamsA());
  }

  lemma TeamNat(job: Job, thread: int)
    requires job.Valid() && thread >= 0
    ensures job.TeamOf(thread) >= 0
  {
    DivModEquation(thread, job.TeamsA());
    MulCancelLess(-1, thread / job.TeamsA(), job.TeamsA());
  }

  /** The thread at a given place of a given team is in the pool. */
  lemma ThreadAt(job: Job, team: int, place: int) returns (thread: int)
    requires job.Valid() && 0 <= team < job.TeamsB() && 0 <= place < job.TeamsA()
    ensures 0 <= thread < job.maxThreads && job.TeamOf(thread) == team && job.PlaceOf(thread) == place
  {
    thread := team * job.TeamsA() + place;
    PlaceIsAt(job, team, place, job.maxThreads / job.TeamsB());
  }

  /** The threads of one team divide every stored row of each of its panels. */
  lemma TeamComputes(job: Job, team: int, lhs: bool, i: int, j: int) returns (thread: int)
    requires job.Valid() && 0 <= team && 2 * team < job.BSplit().threads
    requires 0 <= i < job.c.cntg && NonVirtual(job.c, i, j) && Owns(job.PanelOf(team, lhs), job.BSplit(), j)
    ensures job.Computes(thread, lhs, i, j) && job.TeamOf(thread) == team
  {
    CropHolds(job, team, lhs, i, j);
    PanelFacts(job);
    hide MakeParallelSplit, Start, Work, Consecutive, Job.CropOf, Job.TeamsA, Job.TeamsB, Job.TeamOf, Job.PlaceOf;
    var total := job.LengthOf(team, true) + job.LengthOf(team, false);
    SplitIsConsecutive(total, job.aUnroll, job.TeamsA());
    var place := ExactCover(total, job.aUnroll, job.TeamsA(), PosOf(job, team, lhs, i));
    thread := ThreadAt(job, team, place);
    assert Assigned(job, team, place, lhs, i, j);
    ComputesIsAssigned(job, thread, lhs, i, j);
  }

  // ---------- sharing out the work of a team ----------

  /** Rows of the long line of its team that a thread has, on both sides together. */
  function RowsOf(job: Job, thread: int): int
    requires job.Valid() && job.HasWork(thread)
  {
    job.BlockOf(thread, true).cntgSize + job.BlockOf(thread, false).cntgSize
  }

  /** Units of the A packing in the line of a team. */
  function LineUnits(job: Job, team: int): int
    requires job.Valid()
  {
    IRoundDiv(job.LengthOf(team, true) + job.LengthOf(team, false), job.aUnroll)
  }

  lemma RowsAreRange(job: Job, thread: int)
    requires job.Valid() && job.HasWork(thread)
    ensures RowsOf(job, thread) == Work(job.PlaceOf(thread), job.ASplit(job.TeamOf(thread)))
  {
    hide MakeParallelSplit, Start, Work, Job.CropOf, Job.TeamsA, Job.TeamsB, Job.TeamOf, Job.PlaceOf;
  }

  /** The thread at a place of a team: a team has maxThreads / TeamsB() places. */
  function ThreadOf(job: Job, team: int, place: int): int
    requires job.Valid()
  {
    team * (job.maxThreads / job.TeamsB()) + place
  }

  /** When the line of a team has a unit for every place, the thread at each place has rows of its panels. */
  lemma EveryPlaceWorks(job: Job, team: int, place: int)
    requires job.Valid() && 0 <= team && 2 * team < job.BSplit().threads
    requires 0 <= place < job.maxThreads / job.TeamsB() <= LineUnits(job, team)
    ensures 0 <= ThreadOf(job, team, place) < job.maxThreads && job.HasWork(ThreadOf(job, team, place))
    ensures job.TeamOf(ThreadOf(job, team, place)) == team && RowsOf(job, ThreadOf(job, team, place)) > 0
    ensures job.BlockOf(ThreadOf(job, team, place), true).strdFirst == Start(team, job.BSplit())
  {
    PanelFacts(job);
    var a, t := job.maxThreads / job.TeamsB(), ThreadOf(job, team, place);
    PlaceIsAt(job, team, place, a);
    var total := job.LengthOf(team, true) + job.LengthOf(team, false);
    EnoughPlaces(total, job.aUnroll, a);
    hide MakeParallelSplit, Start, Work, Consecutive, IRoundDiv, Job.CropOf, Job.TeamsA, Job.TeamsB, Job.TeamOf, Job.PlaceOf;
    SplitIsConsecutive(total, job.aUnroll, a);
    RowsAreRange(job, t);
  }

  /** Threads of one team have the same number of rows but for one unit, and but for the last of them. */
  lemma TeamIsEven(job: Job, t: int, t': int)
    requires job.Valid() && job.HasWork(t) && job.HasWork(t')
    requires job.TeamOf(t) == job.TeamOf(t') && job.PlaceOf(t) <= job.PlaceOf(t')
    ensures RowsOf(job, t') <= RowsOf(job, t)
    ensures job.PlaceOf(t') < job.ASplit(job.TeamOf(t')).threads - 1 ==>
              RowsOf(job, t) <= RowsOf(job, t') + job.aUnroll
  {
    var total := job.LengthOf(job.TeamOf(t), true) + job.LengthOf(job.TeamOf(t), false);
    PlaceNat(job, t);
    RowsAreRange(job, t);
    RowsAreRange(job, t');
    hide MakeParallelSplit, Start, Work, Job.CropOf, Job.TeamsA, Job.TeamsB, Job.TeamOf, Job.PlaceOf;
    SplitIsEven(total, job.aUnroll, job.TeamsA(), job.PlaceOf(t), job.PlaceOf(t'));
  }

  lemma PlaceIsAt(job: Job, team: int, place: int, a: int)
    requires job.Valid() && 0 <= team < job.TeamsB() && 0 <= place < a == job.maxThreads / job.TeamsB()
    ensures job.TeamsA() == a
    ensures 0 <= team * a + place < job.maxThreads
    ensures job.TeamOf(team * a + place) == team && job.PlaceOf(team * a + place) == place
  {
    var b := job.TeamsB();
    DivMod(team, place, a);
    MulMonotone(0, team, a);
    MulMonotone(team, b - 1, a);
    MulAdd(b, 1, a);
    DivModEquation(job.maxThreads, b);
  }

  /** A line of enough units is split into as many ranges as there are places. */
  lemma EnoughPlaces(total: int, unroll: int, places: int)
    requires total >= 0 && unroll >= 1 && 1 <= places <= IRoundDiv(total, unroll)
    ensures total > 0 && MakeParallelSplit(total, unroll, places).threads == places
  {
    IRoundDivBounds(total, unroll);
  }

  /** Two threads, or two sides, that share an element have panels that are the same panel. */
  lemma SharedElement(job: Job, t: int, lhs: bool, t': int, lhs': bool, i: int, j: int)
    requires job.Valid() && job.Computes(t, lhs, i, j) && job.Computes(t', lhs', i, j)
    ensures job.PanelOf(job.TeamOf(t), lhs) == job.PanelOf(job.TeamOf(t'), lhs')
    ensures Owns(job.PanelOf(job.TeamOf(t), lhs), job.BSplit(), j)
    ensures job.TeamOf(t) == job.TeamOf(t') && lhs == lhs' ==> t == t'
  {
    ComputesIsAssigned(job, t, lhs, i, j);
    ComputesIsAssigned(job, t', lhs', i, j);
    PanelFacts(job);
    TeamNat(job, t);
    TeamNat(job, t');
    PlaceNat(job, t);
    PlaceNat(job, t');
    hide MakeParallelSplit, Start, Work, Consecutive, Owns, Job.CropOf, Job.TeamsA, Job.TeamsB, Job.TeamOf, Job.PlaceOf;
    var team, team' := job.TeamOf(t), job.TeamOf(t');
    OwnerUnique(job.BSplit(), job.c.strd, j, job.PanelOf(team, lhs), job.PanelOf(team', lhs'));
    if team == team' && lhs == lhs' {
      var total := job.LengthOf(team, true) + job.LengthOf(team, false);
      SplitIsConsecutive(total, job.aUnroll, job.TeamsA());
      OwnerUnique(job.ASplit(team), total, PosOf(job, team, lhs, i), job.PlaceOf(t), job.PlaceOf(t'));
      SameTeamAndPlace(job, t, t');
    }
  }

  lemma SameTeamAndPlace(job: Job, t: int, t': int)
    requires job.Valid() && job.TeamOf(t) == job.TeamOf(t') && job.PlaceOf(t) == job.PlaceOf(t')
    ensures t == t'
  {
    DivModEquation(t, job.TeamsA());
    DivModEquation(t', job.TeamsA());
  }

  /** Element (i, j) is computed by exactly one thread, on exactly one of its sides. */
  ghost predicate ComputedOnce(job: Job, i: int, j: int)
    requires job.Valid()
  {
    exists t, lhs ::
      && job.Computes(t, lhs, i, j)
      && forall t', lhs' :: job.Computes(t', lhs', i, j) ==> t' == t && lhs' == lhs
  }

  /** j lies in the panel that is its own mirror image, which only an odd number of panels has. */
  ghost predicate InMiddlePanel(job: Job, j: int)
    requires job.Valid()
  {
    var s := job.BSplit();
    s.threads % 2 == 1 && Owns(s.threads / 2, s, j)
  }

  lemma OffMiddleOnce(job: Job, i: int, j: int)
    requires job.Valid() && 0 <= i < job.c.cntg && 0 <= j < job.c.strd && NonVirtual(job.c, i, j)
    requires !InMiddlePanel(job, j)
    ensures ComputedOnce(job, i, j)
  {
    PanelFacts(job);
    hide MakeParallelSplit, Start, Work, Consecutive, Owns, InMiddlePanel, Job.CropOf, Job.TeamsA, Job.TeamOf;
    hide Job.PlaceOf, Job.Computes;
    var s := job.BSplit();
    var p := ExactCover(job.c.strd, job.bUnroll, job.TeamsB() * 2, j);
    assert !(s.threads % 2 == 1 && p == s.threads / 2) by { MiddleIsOwned(job, p, j); }
    var lhs := 2 * p < s.threads;
    var team := if lhs then p else s.threads - p - 1;
    var t := TeamComputes(job, team, lhs, i, j);
    forall t', lhs' | job.Computes(t', lhs', i, j)
      ensures t' == t && lhs' == lhs
    {
      OffMiddleUnique(job, t, lhs, t', lhs', i, j);
    }
  }

  lemma MiddleIsOwned(job: Job, p: int, j: int)
    requires job.Valid() && Owns(p, job.BSplit(), j)
    requires !InMiddlePanel(job, j)
    ensures !(job.BSplit().threads % 2 == 1 && p == job.BSplit().threads / 2)
  {
    hide MakeParallelSplit, Start, Work, Owns;
  }

  lemma OffMiddleUnique(job: Job, t: int, lhs: bool, t': int, lhs': bool, i: int, j: int)
    requires job.Valid() && !InMiddlePanel(job, j)
    requires job.Computes(t, lhs, i, j) && job.Computes(t', lhs', i, j)
    ensures t' == t && lhs' == lhs
  {
    SharedElement(job, t, lhs, t', lhs', i, j);
    HasTeam(job, t, lhs, i, j);
    HasTeam(job, t', lhs', i, j);
    hide MakeParallelSplit, Start, Work, Owns, Job.CropOf, Job.TeamsA, Job.TeamsB, Job.TeamOf, Job.PlaceOf, Job.Computes;
  }

  lemma HasTeam(job: Job, t: int, lhs: bool, i: int, j: int)
    requires job.Valid() && job.Computes(t, lhs, i, j)
    ensures 0 <= job.TeamOf(t) && 2 * job.TeamOf(t) < job.BSplit().threads
  {
    TeamNat(job, t);
    hide Job.TeamOf, Job.CropOf, Job.BSplit, Job.ASplit;
  }

  lemma MiddleTwice(job: Job, i: int, j: int)
    requires job.Valid() && 0 <= i < job.c.cntg && 0 <= j < job.c.strd && NonVirtual(job.c, i, j)
    requires InMiddlePanel(job, j)
    ensures !ComputedOnce(job, i, j)
  {
    hide MakeParallelSplit, Start, Work, Owns, Job.CropOf, Job.TeamsA, Job.TeamsB, Job.TeamOf, Job.PlaceOf;
    hide Job.Computes;
    ThreadsPositive(job);
    var team := job.BSplit().threads / 2;
    assert job.PanelOf(team, true) == job.PanelOf(team, false) == team;
    var t := TeamComputes(job, team, true, i, j);
    var t' := TeamComputes(job, team, false, i, j);
  }

  /** The split covers C exactly when no stored element lies in a middle panel. */
  lemma ExactCoverOfC(job: Job)
    requires job.Valid()
    ensures (forall i, j :: 0 <= i < job.c.cntg && 0 <= j < job.c.strd && NonVirtual(job.c, i, j) ==>
               ComputedOnce(job, i, j))
            <==> (forall i, j :: 0 <= i < job.c.cntg && 0 <= j < job.c.strd && NonVirtual(job.c, i, j) ==>
                    !InMiddlePanel(job, j))
  {
    hide ComputedOnce, InMiddlePanel;
    forall i, j | 0 <= i < job.c.cntg && 0 <= j < job.c.strd && NonVirtual(job.c, i, j)
      ensures ComputedOnce(job, i, j) <==> !InMiddlePanel(job, j)
    {
      if InMiddlePanel(job, j) {
        MiddleTwice(job, i, j);
      } else {
        OffMiddleOnce(job, i, j);
      }
    }
  }

  /** With an even number of panels, no element at all, stored or virtual, is computed twice. */
  lemma EvenPanelsDisjoint(job: Job, t: int, lhs: bool, t': int, lhs': bool, i: int, j: int)
    requires job.Valid() && job.BSplit().threads % 2 == 0
    requires job.Computes(t, lhs, i, j) && job.Computes(t', lhs', i, j)
    ensures t == t' && lhs == lhs'
  {
    hide MakeParallelSplit, Start, Work, Owns, Job.CropOf, Job.TeamsA, Job.TeamsB, Job.TeamOf, Job.PlaceOf;
    hide Job.Computes;
    SharedElement(job, t, lhs, t', lhs', i, j);
    HasTeam(job, t, lhs, i, j);
    HasTeam(job, t', lhs', i, j);
  }

  /** Every rectangle handed on lies inside C. */
  lemma BlocksInsideC(job: Job, t: int, lhs: bool, i: int, j: int)
    requires job.Valid() && job.Computes(t, lhs, i, j)
    ensures 0 <= i < job.c.cntg && 0 <= j < job.c.strd
  {
    ComputesIsAssigned(job, t, lhs, i, j);
    HasTeam(job, t, lhs, i, j);
    PanelFacts(job);
    hide MakeParallelSplit, Start, Work, Consecutive, Owns, Job.CropOf, Job.TeamsA, Job.TeamsB, Job.TeamOf, Job.PlaceOf;
    hide Job.Computes;
    var team := job.TeamOf(t);
    CropInside(job, team, lhs);
    OwnerUnique(job.BSplit(), job.c.strd, j, job.PanelOf(team, lhs), job.PanelOf(team, lhs));
  }

  /** Without unrolling along B, the way rank-k updates use the split, the panels are even in number. */
  lemma UnitUnrollIsEven(job: Job)
    requires job.Valid() && job.bUnroll == 1
    ensures job.BSplit().threads == 2 * job.TeamsB()
  {
    UnitBlocks(job.c.strd);
    hide IRoundDiv;
  }

  /** Five columns, panels of two and teams for four: three panels, and the middle one is done twice. */
  lemma OddPanelsExample()
    ensures var job := Job(Window(true, true, 5, 5, 0, 0), 4, 2, 1, 2);
            job.Valid() && !ComputedOnce(job, 4, 2)
  {
    var job := Job(Window(true, true, 5, 5, 0, 0), 4, 2, 1, 2);
    assert job.BSplit() == ParallelSplit(3, 1, 5, 1, 0, 2);
    assert InMiddlePanel(job, 2);
    MiddleTwice(job, 4, 2);
  }

  /**
   * Cropping leaves no empty rows: each row a thread computes on the front side, or on either side of a
   * lower C, has a stored element in its panel.
   */
  lemma NoEmptyRows(job: Job, t: int, lhs: bool, i: int, j: int)
    requires job.Valid() && job.Computes(t, lhs, i, j) && (lhs || job.c.lower)
    ensures var p := job.PanelOf(job.TeamOf(t), lhs);
            exists j' :: Owns(p, job.BSplit(), j') && NonVirtual(job.c, i, j')
  {
    ComputesIsAssigned(job, t, lhs, i, j);
    PanelFacts(job);
    TeamNat(job, t);
    CropInside(job, job.TeamOf(t), lhs);
    hide MakeParallelSplit, Start, Work, Consecutive, Job.TeamsA, Job.TeamsB, Job.TeamOf, Job.PlaceOf, Job.BlockOf;
    var team := job.TeamOf(t);
    var p, s := job.PanelOf(team, lhs), job.BSplit();
    var j' := Start(p, s) + job.HighStrd(team);
    assert Work(p, s) > 0 && Work(team, s) > 0;
    CntgBoundsExact(StrdPanel(job.c, Start(p, s), Work(p, s)), i, job.HighStrd(team), Yes);
    assert Owns(p, s, j') && NonVirtual(job.c, i, j');
  }
}
