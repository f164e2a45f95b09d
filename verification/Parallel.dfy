/** Splitting a one-dimensional workload into consecutive ranges, one per thread. */
module Parallel {
  import opened NumericUtils

  datatype ParallelSplit = ParallelSplit(
    threads: int,
    workPerThread: int,
    totalActualWork: int,
    modifier: int,
    modifiedThreads: int,
    interleavedRows: int)

  /** The trivial split leaves interleavedRows at its default, zero. */
  function MakeParallelSplit(dimension: int, interleave: int, maxThreads: int): ParallelSplit
    requires dimension >= 0 && interleave >= 1 && maxThreads >= 1
  {
    if maxThreads == 1 || dimension == 0 then
      ParallelSplit(1, dimension, dimension, 0, 1, 0)
    else
      IRoundDivBounds(dimension, interleave);
      var actualWork := IRoundDiv(dimension, interleave);
      var threads := Min(maxThreads, actualWork);
      var workPerThread := actualWork / threads;
      ParallelSplit(threads, workPerThread, dimension, 1, actualWork - threads * workPerThread, interleave)
  }

  /** First element of the range of a thread. */
  function Start(thread: int, split: ParallelSplit): int {
    (split.workPerThread * thread
     + if thread < split.modifiedThreads then thread * split.modifier else split.modifiedThreads)
    * split.interleavedRows
  }

  /** Number of elements in the range of a thread; the last thread takes what is left. */
  function Work(thread: int, split: ParallelSplit): int {
    if thread == split.threads - 1 then
      split.totalActualWork - Start(thread, split)
    else
      (split.workPerThread + if thread < split.modifiedThreads then split.modifier else 0) * split.interleavedRows
  }

  method WorkDistribution(threadNum: int, split: ParallelSplit) returns (first: int, size: int)
    ensures first == Start(threadNum, split) && size == Work(threadNum, split)
  {
    var start := split.workPerThread * threadNum;
    var threadWork := split.workPerThread;
    if threadNum < split.modifiedThreads {
      threadWork := threadWork + split.modifier;
      start := start + threadNum * split.modifier;
    } else {
      start := start + split.modifiedThreads;
    }
    first := start * split.interleavedRows;
    if threadNum == split.threads - 1 {
      size := split.totalActualWork - first;
    } else {
      size := threadWork * split.interleavedRows;
    }
  }

  /** Threads 0 .. threads - 1 own consecutive ranges that together are [0, dimension). */
  ghost predicate Consecutive(split: ParallelSplit, dimension: int) {
    && split.threads >= 1
    && Start(0, split) == 0
    && (forall i :: 0 <= i < split.threads - 1 ==> Start(i + 1, split) == Start(i, split) + Work(i, split))
    && Start(split.threads - 1, split) + Work(split.threads - 1, split) == dimension
    && forall i :: 0 <= i < split.threads ==> Work(i, split) >= 0
  }

  /** x lies in the range of a thread. */
  predicate Owns(thread: int, split: ParallelSplit, x: int) {
    Start(thread, split) <= x < Start(thread, split) + Work(thread, split)
  }

  // ---------- the even split ----------

  /** A split of `units` blocks in which the first modifiedThreads threads take one more. */
  ghost predicate Even(s: ParallelSplit, dimension: int, interleave: int, units: int) {
    && interleave >= 1 && s.interleavedRows == interleave && s.totalActualWork == dimension
    && s.threads >= 1 && s.workPerThread >= 1 && s.modifier == 1 && 0 <= s.modifiedThreads < s.threads
    && units == s.workPerThread * s.threads + s.modifiedThreads
    && (units - 1) * interleave < dimension <= units * interleave
  }

  /** Blocks before the range of a thread, and blocks in it. */
  ghost function UnitStart(i: int, s: ParallelSplit): int {
    s.workPerThread * i + Min(i, s.modifiedThreads)
  }

  ghost function UnitShare(i: int, s: ParallelSplit): int {
    s.workPerThread + if i < s.modifiedThreads then 1 else 0
  }

  lemma MakeIsEven(dimension: int, interleave: int, maxThreads: int)
    requires dimension >= 1 && interleave >= 1 && maxThreads >= 2
    ensures var s := MakeParallelSplit(dimension, interleave, maxThreads);
            Even(s, dimension, interleave, IRoundDiv(dimension, interleave)) && s.threads <= maxThreads
  {
    IRoundDivBounds(dimension, interleave);
    hide IRoundDiv;
    var units := IRoundDiv(dimension, interleave);
    var threads := Min(maxThreads, units);
    DivModEquation(units, threads);
    MulCancelLess(0, units / threads, threads);
  }

  lemma UnitStep(i: int, s: ParallelSplit)
    ensures UnitStart(i + 1, s) == UnitStart(i, s) + UnitShare(i, s)
    ensures s.modifiedThreads >= 0 ==> UnitStart(0, s) == 0
    ensures s.modifiedThreads < s.threads ==> UnitStart(s.threads, s) == s.workPerThread * s.threads + s.modifiedThreads
  {
    MulAdd(i, 1, s.workPerThread);
  }

  lemma EvenRange(i: int, s: ParallelSplit, dimension: int, interleave: int, units: int)
    requires Even(s, dimension, interleave, units) && 0 <= i < s.threads
    ensures Start(i, s) == UnitStart(i, s) * interleave
    ensures Start(i, s) + UnitShare(i, s) * interleave == UnitStart(i + 1, s) * interleave
    ensures i < s.threads - 1 ==> Work(i, s) == UnitShare(i, s) * interleave
    ensures i == s.threads - 1 ==> Start(i, s) + Work(i, s) == dimension
    ensures i == s.threads - 1 ==>
              UnitStart(i + 1, s) * interleave - interleave < dimension <= UnitStart(i + 1, s) * interleave
    ensures UnitShare(i, s) * interleave >= interleave
  {
    UnitStep(i, s);
    MulAdd(UnitStart(i, s), UnitShare(i, s), interleave);
    MulMonotone(1, UnitShare(i, s), interleave);
    MulAdd(units, 1, interleave);
  }

  lemma EvenIsConsecutive(s: ParallelSplit, dimension: int, interleave: int, units: int)
    requires Even(s, dimension, interleave, units)
    ensures Consecutive(s, dimension)
    ensures forall i :: 0 <= i < s.threads ==> Work(i, s) > 0 && Start(i, s) % interleave == 0
  {
    UnitStep(0, s);
    forall i | 0 <= i < s.threads
      ensures Work(i, s) > 0 && Start(i, s) % interleave == 0
      ensures i < s.threads - 1 ==> Start(i + 1, s) == Start(i, s) + Work(i, s)
      ensures i == s.threads - 1 ==> Start(i, s) + Work(i, s) == dimension
      ensures i == 0 ==> Start(i, s) == 0
    {
      hide UnitStart, UnitShare, Start, Work;
      EvenRange(i, s, dimension, interleave, units);
      ModOfMultiple(UnitStart(i, s), interleave);
      if i < s.threads - 1 {
        EvenRange(i + 1, s, dimension, interleave, units);
      }
    }
  }

  lemma TrivialIsConsecutive(dimension: int, interleave: int)
    requires dimension >= 0 && interleave >= 1
    ensures var s := ParallelSplit(1, dimension, dimension, 0, 1, 0);
            Consecutive(s, dimension) && Start(0, s) == 0 && Work(0, s) == dimension && 0 % interleave == 0
  {
    ModOfMultiple(0, interleave);
  }

  /** make_parallel_split and work_distribution: consecutive, and non-empty when there is work. */
  lemma SplitIsConsecutive(dimension: int, interleave: int, maxThreads: int)
    requires dimension >= 0 && interleave >= 1 && maxThreads >= 1
    ensures var s := MakeParallelSplit(dimension, interleave, maxThreads);
            && Consecutive(s, dimension)
            && s.threads <= maxThreads
            && (dimension > 0 ==> forall i :: 0 <= i < s.threads ==> Work(i, s) > 0)
            && (forall i :: 0 <= i < s.threads ==> Start(i, s) % interleave == 0)
  {
    if maxThreads == 1 || dimension == 0 {
      TrivialIsConsecutive(dimension, interleave);
    } else {
      MakeIsEven(dimension, interleave, maxThreads);
      hide MakeParallelSplit, IRoundDiv, Start, Work, Even, Consecutive;
      EvenIsConsecutive(MakeParallelSplit(dimension, interleave, maxThreads), dimension, interleave,
                        IRoundDiv(dimension, interleave));
    }
  }

  lemma EvenSharesOrdered(s: ParallelSplit, dimension: int, interleave: int, units: int, i: int, j: int)
    requires Even(s, dimension, interleave, units) && 0 <= i < j < s.threads
    ensures Work(j, s) <= Work(i, s) && (j < s.threads - 1 ==> Work(i, s) <= Work(j, s) + interleave)
  {
    hide Start, Work, UnitStart;
    EvenRange(i, s, dimension, interleave, units);
    EvenRange(j, s, dimension, interleave, units);
    MulMonotone(UnitShare(j, s), UnitShare(i, s), interleave);
    MulMonotone(UnitShare(i, s), UnitShare(j, s) + 1, interleave);
    MulAdd(UnitShare(j, s), 1, interleave);
  }

  /** Ranges never grow with the thread number, and all but the last differ by at most one unit. */
  lemma SplitIsEven(dimension: int, interleave: int, maxThreads: int, i: int, j: int)
    requires dimension >= 0 && interleave >= 1 && maxThreads >= 1
    requires 0 <= i <= j < MakeParallelSplit(dimension, interleave, maxThreads).threads
    ensures var s := MakeParallelSplit(dimension, interleave, maxThreads);
            Work(j, s) <= Work(i, s) && (j < s.threads - 1 ==> Work(i, s) <= Work(j, s) + interleave)
  {
    if maxThreads >= 2 && dimension >= 1 && i < j {
      MakeIsEven(dimension, interleave, maxThreads);
      hide MakeParallelSplit, IRoundDiv, Start, Work, Even;
      EvenSharesOrdered(MakeParallelSplit(dimension, interleave, maxThreads), dimension, interleave,
                        IRoundDiv(dimension, interleave), i, j);
    }
  }

  /** A split uses every thread it may, unless each of those it uses already has no more than one unit. */
  lemma NoThreadLeftOut(dimension: int, interleave: int, maxThreads: int, i: int)
    requires dimension >= 1 && interleave >= 1 && maxThreads >= 1
    requires 0 <= i < MakeParallelSplit(dimension, interleave, maxThreads).threads
    ensures var s := MakeParallelSplit(dimension, interleave, maxThreads);
            && s.threads <= maxThreads
            && (s.threads < maxThreads ==> Work(i, s) <= interleave)
  {
    if maxThreads >= 2 {
      MakeIsEven(dimension, interleave, maxThreads);
      IRoundDivBounds(dimension, interleave);
      var s, units := MakeParallelSplit(dimension, interleave, maxThreads), IRoundDiv(dimension, interleave);
      hide IRoundDiv, Start, Work;
      if s.threads < maxThreads {
        assert s.threads == units;
        OneUnitEach(s, dimension, interleave, units, i);
      }
    }
  }

  lemma OneUnitEach(s: ParallelSplit, dimension: int, interleave: int, units: int, i: int)
    requires Even(s, dimension, interleave, units) && s.threads == units && 0 <= i < units
    ensures Work(i, s) <= interleave
  {
    OneAndNothing(s.workPerThread, s.threads, s.modifiedThreads);
    assert UnitShare(i, s) == 1;
    hide Start, Work, UnitStart, UnitShare;
    EvenRange(i, s, dimension, interleave, units);
  }

  lemma OneAndNothing(share: int, threads: int, rest: int)
    requires share >= 1 && threads >= 1 && rest >= 0 && threads == share * threads + rest
    ensures share == 1 && rest == 0
  {
    if share >= 2 {
      MulMonotone(2, share, threads);
    }
  }

  // ---------- exact cover, for any consecutive split ----------

  lemma {:induction false} StartsOrdered(split: ParallelSplit, dimension: int, i: int, j: int)
    requires Consecutive(split, dimension) && 0 <= i < j < split.threads
    ensures Start(i, split) + Work(i, split) <= Start(j, split)
    decreases j - i
  {
    if i + 1 < j {
      StartsOrdered(split, dimension, i, j - 1);
    }
  }

  /** Ranges stay inside [0, dimension) and no element has two owners. */
  lemma OwnerUnique(split: ParallelSplit, dimension: int, x: int, i: int, j: int)
    requires Consecutive(split, dimension) && 0 <= i < split.threads && 0 <= j < split.threads
    ensures Owns(i, split, x) ==> 0 <= x < dimension
    ensures Owns(i, split, x) && Owns(j, split, x) ==> i == j
  {
    if i < j { StartsOrdered(split, dimension, i, j); }
    if j < i { StartsOrdered(split, dimension, j, i); }
    RangeInside(split, dimension, i);
  }

  lemma RangeInside(split: ParallelSplit, dimension: int, i: int)
    requires Consecutive(split, dimension) && 0 <= i < split.threads
    ensures 0 <= Start(i, split) <= Start(i, split) + Work(i, split) <= dimension
  {
    if 0 < i { StartsOrdered(split, dimension, 0, i); }
    if i < split.threads - 1 { StartsOrdered(split, dimension, i, split.threads - 1); }
  }

  lemma {:induction false} FindOwner(split: ParallelSplit, dimension: int, x: int, k: int) returns (i: int)
    requires Consecutive(split, dimension) && 0 <= k < split.threads
    requires 0 <= x < Start(k, split) + Work(k, split)
    ensures 0 <= i <= k && Owns(i, split, x)
    decreases k
  {
    if Start(k, split) <= x {
      i := k;
    } else {
      i := FindOwner(split, dimension, x, k - 1);
    }
  }

  /** Every element of [0, dimension) has exactly one owner. */
  lemma ExactCover(dimension: int, interleave: int, maxThreads: int, x: int) returns (owner: int)
    requires interleave >= 1 && maxThreads >= 1 && 0 <= x < dimension
    ensures var s := MakeParallelSplit(dimension, interleave, maxThreads);
            && 0 <= owner < s.threads
            && forall i :: 0 <= i < s.threads ==> (Owns(i, s, x) <==> i == owner)
  {
    var s := MakeParallelSplit(dimension, interleave, maxThreads);
    SplitIsConsecutive(dimension, interleave, maxThreads);
    owner := FindOwner(s, dimension, x, s.threads - 1);
    forall i | 0 <= i < s.threads
      ensures Owns(i, s, x) <==> i == owner
    {
      OwnerUnique(s, dimension, x, i, owner);
    }
  }

  // ---------- splits with a preferred chunk size ----------

  datatype ChunkMode = ChunkSpread | ChunkFill

  datatype Option<T> = None | Some(value: T)

  /** None stands for the division by a zero modifier. */
  function MakeParallelSplitChunked(dimension: int, maxThreads: int, firstChunk: int, mode: ChunkMode)
    : Option<ParallelSplit>
    requires dimension >= 0 && maxThreads >= 1 && firstChunk >= 1
  {
    var workloads := IRoundDiv(dimension, firstChunk);
    var split := MakeParallelSplit(dimension, 1, Max(Min(maxThreads, workloads), 1));
    if mode.ChunkFill? && workloads <= maxThreads then
      var modifier := firstChunk - split.workPerThread;
      if modifier == 0 then None
      else Some(split.(modifier := modifier,
                       modifiedThreads := TruncatedQuotient(split.workPerThread * split.threads, modifier)))
    else
      Some(split)
  }

  function TruncatedQuotient(n: int, d: int): int
    requires d != 0
  {
    if n >= 0 then (if d > 0 then n / d else -(n / -d)) else (if d > 0 then -((-n) / d) else (-n) / (-d))
  }

  lemma QuotientAtMost(dimension: int, w: int, r: int)
    requires w >= 1 && r >= 1 && 0 <= dimension <= r * w
    ensures 0 <= dimension / w <= r && (dimension / w == r <==> dimension == r * w)
  {
    DivModEquation(dimension, w);
    MulAdd(r, 1, w);
    MulCancelLess(dimension / w, r + 1, w);
    MulCancelLess(-1, dimension / w, w);
    if dimension == r * w {
      ModOfMultiple(r, w);
    }
  }

  lemma UnitBlocks(n: int)
    requires n >= 0
    ensures IRoundDiv(n, 1) == n
  {
    IRoundDivBounds(n, 1);
  }

  /** The share of a filled split: all of the dimension for one chunk, else the even quotient. */
  lemma FillShape(dimension: int, w: int, firstChunk: int)
    requires dimension >= 1 && 1 <= w <= dimension && firstChunk >= 1 && dimension <= w * firstChunk
    ensures var s := MakeParallelSplit(dimension, 1, w);
            && s.threads == w && s.workPerThread == dimension / w
            && s.interleavedRows == (if w == 1 then 0 else 1) && s.totalActualWork == dimension
            && 0 <= s.workPerThread <= firstChunk
            && (s.workPerThread == firstChunk <==> dimension == w * firstChunk)
  {
    UnitBlocks(dimension);
    hide IRoundDiv;
    QuotientAtMost(dimension, w, firstChunk);
  }

  lemma DividesWhenFull(dimension: int, w: int, r: int)
    requires r >= 1 && (w - 1) * r < dimension <= w * r
    ensures dimension == w * r <==> dimension % r == 0
  {
    MulAdd(w, 1, r);
    if dimension == w * r {
      ModOfMultiple(w, r);
    } else {
      DivMod(w - 1, dimension - (w - 1) * r, r);
    }
  }

  /** Filling divides by zero exactly when the chunk size divides a non-empty dimension. */
  lemma FillFailsWhenChunkDivides(dimension: int, maxThreads: int, firstChunk: int)
    requires dimension >= 0 && maxThreads >= 1 && firstChunk >= 1
    requires IRoundDiv(dimension, firstChunk) <= maxThreads
    ensures MakeParallelSplitChunked(dimension, maxThreads, firstChunk, ChunkFill).None?
            <==> dimension > 0 && dimension % firstChunk == 0
  {
    if dimension > 0 {
      IRoundDivBounds(dimension, firstChunk);
      FillShape(dimension, IRoundDiv(dimension, firstChunk), firstChunk);
      DividesWhenFull(dimension, IRoundDiv(dimension, firstChunk), firstChunk);
      hide IRoundDiv, MakeParallelSplit;
    }
  }

  /** Two or more chunks that do not fill the dimension leave at least half a chunk to each thread. */
  lemma ShareIsHalfAChunk(dimension: int, w: int, firstChunk: int, q: int)
    requires w >= 2 && (w - 1) * firstChunk < dimension && dimension < q * w + w && 0 <= q
    ensures firstChunk <= 2 * q
  {
    var e := firstChunk - 2 * q;
    assert (w - 1) * firstChunk == 2 * (q * w) - 2 * q + e * (w - 1);
    assert q * (w - 2) == q * w - 2 * q;
    MulMonotone(0, q, w - 2);
    MulCancelLess(e, 1, w - 1);
  }

  /** Then every thread up to the last counts as modified. */
  lemma FillModifiesEveryThread(w: int, d: int, q: int)
    requires w >= 1 && 1 <= d <= q
    ensures (q * w) / d >= w
  {
    MulMonotone(d, q, w);
    DivModEquation(q * w, d);
    MulAdd((q * w) / d, 1, d);
    MulCancelLess(w, (q * w) / d + 1, d);
  }

  lemma FillStart(i: int, s: ParallelSplit, firstChunk: int)
    requires s.modifier == firstChunk - s.workPerThread && 0 <= i < s.modifiedThreads && s.interleavedRows == 1
    ensures Start(i, s) == i * firstChunk
  {
    MulAdd(s.workPerThread, s.modifier, i);
  }

  /** A filled split gives every thread but the last exactly one chunk, and the last the rest. */
  lemma FillIsExact(dimension: int, maxThreads: int, firstChunk: int)
    requires dimension >= 1 && maxThreads >= 1 && firstChunk >= 1
    requires IRoundDiv(dimension, firstChunk) <= maxThreads && dimension % firstChunk != 0
    ensures var o := MakeParallelSplitChunked(dimension, maxThreads, firstChunk, ChunkFill);
            && o.Some?
            && o.value.threads == IRoundDiv(dimension, firstChunk)
            && Consecutive(o.value, dimension)
            && (forall i :: 0 <= i < o.value.threads - 1 ==>
                  Start(i, o.value) == i * firstChunk && Work(i, o.value) == firstChunk)
            && 0 < Work(o.value.threads - 1, o.value) < firstChunk
  {
    FillFailsWhenChunkDivides(dimension, maxThreads, firstChunk);
    IRoundDivBounds(dimension, firstChunk);
    var w := IRoundDiv(dimension, firstChunk);
    FillShape(dimension, w, firstChunk);
    DividesWhenFull(dimension, w, firstChunk);
    var s := MakeParallelSplitChunked(dimension, maxThreads, firstChunk, ChunkFill).value;
    if w >= 2 {
      DivModEquation(dimension, w);
      ShareIsHalfAChunk(dimension, w, firstChunk, s.workPerThread);
      FillModifiesEveryThread(w, s.modifier, s.workPerThread);
      hide IRoundDiv, MakeParallelSplit, MakeParallelSplitChunked;
      FilledIsConsecutive(s, dimension, w, firstChunk);
    }
  }

  lemma FilledIsConsecutive(s: ParallelSplit, dimension: int, w: int, firstChunk: int)
    requires s.threads == w >= 2 && s.modifiedThreads >= w && s.interleavedRows == 1
    requires s.modifier == firstChunk - s.workPerThread && s.totalActualWork == dimension && firstChunk >= 1
    requires (w - 1) * firstChunk < dimension < w * firstChunk
    ensures Consecutive(s, dimension)
    ensures forall i :: 0 <= i < w - 1 ==> Start(i, s) == i * firstChunk && Work(i, s) == firstChunk
    ensures 0 < Work(w - 1, s) < firstChunk
  {
    MulAdd(w, 1, firstChunk);
    forall i | 0 <= i < w
      ensures Start(i, s) == i * firstChunk && (i < w - 1 ==> Work(i, s) == firstChunk)
      ensures i < w - 1 ==> Start(i + 1, s) == Start(i, s) + firstChunk
    {
      FillStart(i, s, firstChunk);
      if i < w - 1 {
        FillStart(i + 1, s, firstChunk);
        MulAdd(i, 1, firstChunk);
      }
    }
  }

  // ---------- every mode and every size ----------

  /** The number of chunks of a dimension that is not empty. */
  lemma Chunks(dimension: int, firstChunk: int)
    requires dimension >= 1 && firstChunk >= 1
    ensures var w := IRoundDiv(dimension, firstChunk);
            1 <= w <= dimension && (w - 1) * firstChunk < dimension <= w * firstChunk
  {
    IRoundDivBounds(dimension, firstChunk);
  }

  /** Units of one: a range is the even share, or one more while there are threads to be modified. */
  lemma UnitRange(dimension: int, m: int, i: int)
    requires 1 <= m <= dimension && 0 <= i < m
    ensures var s := MakeParallelSplit(dimension, 1, m);
            && s.threads == m
            && dimension / m <= Work(i, s) <= dimension / m + (if dimension % m == 0 then 0 else 1)
  {
    var s := MakeParallelSplit(dimension, 1, m);
    DivModEquation(dimension, m);
    if m == 1 {
      DivMod(dimension, 0, 1);
    } else {
      UnitBlocks(dimension);
      MakeIsEven(dimension, 1, m);
      hide IRoundDiv;
      assert s.workPerThread == dimension / m && s.modifiedThreads == dimension % m;
      hide Start, Work, MakeParallelSplit;
      EvenRange(i, s, dimension, 1, dimension);
    }
  }

  /** Whatever the mode and the size, a split that exists is a partition into ranges that are not empty. */
  lemma ChunkedIsConsecutive(dimension: int, maxThreads: int, firstChunk: int, mode: ChunkMode)
    requires dimension >= 0 && maxThreads >= 1 && firstChunk >= 1
    requires MakeParallelSplitChunked(dimension, maxThreads, firstChunk, mode).Some?
    ensures var s := MakeParallelSplitChunked(dimension, maxThreads, firstChunk, mode).value;
            && Consecutive(s, dimension) && s.threads <= maxThreads
            && (dimension > 0 ==> forall i :: 0 <= i < s.threads ==> Work(i, s) > 0)
  {
    var w := IRoundDiv(dimension, firstChunk);
    if dimension == 0 {
      IRoundDivBounds(0, firstChunk);
      SplitIsConsecutive(0, 1, Max(Min(maxThreads, w), 1));
      EmptyFill(maxThreads, firstChunk, mode);
    } else if mode.ChunkFill? && w <= maxThreads {
      FillFailsWhenChunkDivides(dimension, maxThreads, firstChunk);
      hide MakeParallelSplitChunked, MakeParallelSplit, Start;
      FillIsExact(dimension, maxThreads, firstChunk);
    } else {
      SplitIsConsecutive(dimension, 1, Max(Min(maxThreads, w), 1));
      hide MakeParallelSplit, Start, Work, Consecutive, IRoundDiv;
    }
  }

  lemma EmptyFill(maxThreads: int, firstChunk: int, mode: ChunkMode)
    requires maxThreads >= 1 && firstChunk >= 1
    ensures var o := MakeParallelSplitChunked(0, maxThreads, firstChunk, mode);
            o.Some? && o.value.threads == 1 && Consecutive(o.value, 0)
  {
  }

  /**
   * The chunk size is a target: with no more chunks than threads, spreading them gives each chunk's worth
   * to a thread and no thread more; with more chunks than threads, every thread gets at least a chunk, and
   * ranges still differ by at most one.
   */
  lemma ChunkIsATarget(dimension: int, maxThreads: int, firstChunk: int, mode: ChunkMode, i: int)
    requires dimension >= 1 && maxThreads >= 1 && firstChunk >= 1
    requires MakeParallelSplitChunked(dimension, maxThreads, firstChunk, mode).Some?
    requires 0 <= i < MakeParallelSplitChunked(dimension, maxThreads, firstChunk, mode).value.threads
    ensures var s := MakeParallelSplitChunked(dimension, maxThreads, firstChunk, mode).value;
            var w := IRoundDiv(dimension, firstChunk);
            && s.threads == Min(maxThreads, w)
            && (w <= maxThreads && mode.ChunkSpread? ==> Work(i, s) <= firstChunk)
            && (w > maxThreads ==> Work(i, s) >= firstChunk)
            && (w > maxThreads || mode.ChunkSpread? ==>
                  dimension / s.threads <= Work(i, s) <= dimension / s.threads + 1)
  {
    var w := IRoundDiv(dimension, firstChunk);
    Chunks(dimension, firstChunk);
    if mode.ChunkFill? && w <= maxThreads {
      FillFailsWhenChunkDivides(dimension, maxThreads, firstChunk);
      hide MakeParallelSplitChunked, MakeParallelSplit, Start;
      FillIsExact(dimension, maxThreads, firstChunk);
    } else {
      var m := Min(maxThreads, w);
      UnitRange(dimension, m, i);
      hide MakeParallelSplit, Start, Work, IRoundDiv;
      ShareAndChunk(dimension, m, w, firstChunk);
    }
  }

  lemma ShareAndChunk(dimension: int, m: int, w: int, firstChunk: int)
    requires 1 <= m <= w && firstChunk >= 1 && (w - 1) * firstChunk < dimension <= w * firstChunk
    ensures m == w ==> dimension / m + (if dimension % m == 0 then 0 else 1) <= firstChunk
    ensures m < w ==> firstChunk <= dimension / m
  {
    DivModEquation(dimension, m);
    if m == w {
      MulCancelLess(dimension / m, firstChunk + 1, m);
      MulAdd(firstChunk, 1, m);
      if dimension % m != 0 {
        MulCancelLess(dimension / m, firstChunk, m);
      }
    } else {
      MulMonotone(m, w - 1, firstChunk);
      MulAdd(dimension / m, 1, m);
      MulCancelLess(firstChunk, dimension / m + 1, m);
    }
  }
}
