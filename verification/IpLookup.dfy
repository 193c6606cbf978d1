/** The two lookup functions of cuda_iplookup/cuda_iplookup.cu. The host reads the table for every
    query in order; on the GPU every thread works through its own slice, and the scheduler
    interleaves the threads freely. */
module IpLookup {
  import opened Unsigned
  import opened FibTable
  import opened Wrappers

  const INT_MAX: int := 0x7fff_ffff

  /** A product as a signed 32-bit `int` holds it. */
  function Wrap32(x: int): int
  {
    (x + 0x8000_0000) % 0x1_0000_0000 - 0x8000_0000
  }

  /** C's division, truncating towards zero. */
  function TruncDiv(a: int, b: int): int
    requires b > 0
  {
    if a >= 0 then a / b else -((-a) / b)
  }

  /** `routing_count*idx/total`, the first query of thread idx and the end of thread idx - 1. */
  function SliceStart(count: nat, total: nat, idx: nat): int
    requires total > 0
  {
    TruncDiv(Wrap32(count * idx), total)
  }

  lemma MulMonotone(a: nat, x: nat, y: nat)
    requires x <= y
    ensures a * x <= a * y
  {}

  /** None of the products overflows if and only if the largest of them does not; the benchmark's,
      for 14880950 queries on 128 threads, does not. */
  lemma ProductsFit(count: nat, total: nat)
    ensures INT_MAX == 0x7fff_ffff
    ensures (forall idx: nat :: idx <= total ==> count * idx <= INT_MAX) <==> count * total <= INT_MAX
    ensures count == 14880950 && total == 128 ==> count * total <= INT_MAX
  {
    forall idx: nat | idx <= total ensures count * idx <= count * total { MulMonotone(count, idx, total); }
  }

  /** Beyond that the slices are wrong: 2^25 queries on 64 threads, and the last slice would end at
      -2^25. */
  lemma OverflowExample()
    ensures SliceStart(0x200_0000, 64, 64) == -0x200_0000
  {}

  lemma StartIsQuotient(count: nat, total: nat, idx: nat)
    requires total > 0 && idx <= total && count * total <= INT_MAX
    ensures SliceStart(count, total, idx) == (count * idx) / total
  {
    MulMonotone(count, idx, total);
    WrapFits(count * idx);
  }

  lemma WrapFits(x: nat)
    requires x <= INT_MAX
    ensures Wrap32(x) == x
  {}

  /** Adding r < t to the dividend raises the quotient by at most one. */
  lemma QuotientStep(x: nat, r: nat, t: nat)
    requires r < t
    ensures x / t <= (x + r) / t <= x / t + 1
  {
    var q, m := x / t, x % t;
    assert x == q * t + m;
    if m + r < t {
      QuotientUnique(x + r, t, q, m + r);
    } else {
      assert (q + 1) * t == q * t + t;
      QuotientUnique(x + r, t, q + 1, m + r - t);
    }
  }

  lemma QuotientShift(x: nat, q: nat, t: nat)
    requires t > 0
    ensures (x + q * t) / t == x / t + q
  {
    var p, m := x / t, x % t;
    assert x == p * t + m;
    assert (p + q) * t == p * t + q * t;
    QuotientUnique(x + q * t, t, p + q, m);
  }

  /** Every slice has the average length, rounded down or up. */
  lemma SliceLength(count: nat, total: nat, idx: nat)
    requires total > 0 && idx < total && count * total <= INT_MAX
    ensures count / total
         <= SliceStart(count, total, idx + 1) - SliceStart(count, total, idx)
         <= count / total + 1
  {
    hide SliceStart;
    StartIsQuotient(count, total, idx);
    StartIsQuotient(count, total, idx + 1);
    var q, r := count / total, count % total;
    var x := count * idx;
    assert count * (idx + 1) == x + r + q * total;
    QuotientShift(x + r, q, total);
    QuotientStep(x, r, total);
  }

  /** The first slice starts at 0 and the last one ends at count. */
  lemma SliceEnds(count: nat, total: nat)
    requires total > 0 && count * total <= INT_MAX
    ensures SliceStart(count, total, 0) == 0
    ensures SliceStart(count, total, total) == count
  {
    hide SliceStart;
    StartIsQuotient(count, total, 0);
    QuotientUnique(count * 0, total, 0, 0);
    StartIsQuotient(count, total, total);
    QuotientUnique(count * total, total, count, 0);
  }

  lemma {:induction false} SlicesOrdered(count: nat, total: nat, a: nat, b: nat)
    requires total > 0 && a <= b <= total && count * total <= INT_MAX
    ensures SliceStart(count, total, a) <= SliceStart(count, total, b)
    decreases b
  {
    hide SliceStart;
    if a < b {
      SlicesOrdered(count, total, a, b - 1);
      SliceLength(count, total, b - 1);
    }
  }

  /** Query i belongs to the slice of thread idx. */
  ghost predicate InSlice(count: nat, total: nat, idx: nat, i: int)
    requires total > 0
  {
    SliceStart(count, total, idx) <= i < SliceStart(count, total, idx + 1)
  }

  /** The slices partition the work: every query belongs to exactly one thread. */
  lemma SlicesPartition(count: nat, total: nat, i: nat) returns (owner: nat)
    requires total > 0 && i < count && count * total <= INT_MAX
    ensures owner < total && InSlice(count, total, owner, i)
    ensures forall idx: nat :: idx < total && InSlice(count, total, idx, i) ==> idx == owner
  {
    hide SliceStart;
    SliceEnds(count, total);
    owner := 0;
    while SliceStart(count, total, owner + 1) <= i
      invariant owner < total && SliceStart(count, total, owner) <= i
      decreases total - owner
    {
      owner := owner + 1;
    }
    forall idx: nat | idx < total && InSlice(count, total, idx, i) ensures idx == owner {
      if idx < owner { SlicesOrdered(count, total, idx + 1, owner); }
      if owner < idx { SlicesOrdered(count, total, owner + 1, idx); }
    }
  }

  /** `iplookup_host` */
  method IpLookupHost(table: array<Uint32>, routing: array<Uint32>, results: array<Uint32>, count: nat)
    requires table.Length == TABLE_SIZE && count <= routing.Length && count <= results.Length
    requires results != table && results != routing
    modifies results
    ensures results[..] == HostResults(table[..], routing[..], count, old(results[..]))
  {
    for i := 0 to count
      invariant forall k :: 0 <= k < i ==> results[k] == table[routing[k] / 0x100]
      invariant forall k :: i <= k < results.Length ==> results[k] == old(results[k])
    {
      results[i] := table[routing[i] / 0x100];
    }
  }

  /** Every query answered by one table read; what lies past the queries is untouched. */
  function HostResults(table: seq<Uint32>, routing: seq<Uint32>, count: nat, before: seq<Uint32>): (r: seq<Uint32>)
    requires |table| == TABLE_SIZE && count <= |routing| && count <= |before|
  {
    seq(|before|, i requires 0 <= i < |before| => if i < count then table[routing[i] / 0x100] else before[i])
  }

  /** What a kernel launch is given. */
  datatype Launch = Launch(table: seq<Uint32>, routing: seq<Uint32>, count: nat, total: nat)
  {
    ghost predicate Valid()
    {
      |table| == TABLE_SIZE && count <= |routing| && total > 0 && count * total <= INT_MAX
    }
  }

  /** A launch is valid if the table has 2^24 cells, there are as many queries as it says, and the
      slices' products fit; the benchmark's, 14880950 queries on 128 threads, is. */
  lemma ValidLaunch(l: Launch)
    ensures l.Valid() <==> |l.table| == 0x100_0000 && l.count <= |l.routing| && 0 < l.total
                           && l.count * l.total <= 0x7fff_ffff
    ensures |l.table| == 0x100_0000 && |l.routing| == l.count == 14880950 && l.total == 128 ==> l.Valid()
  {}

  /** A thread: its loop index and the table entry it has read and not yet stored. */
  datatype Thread = Thread(i: int, reg: Option<Uint32>)

  datatype Gpu = Gpu(threads: seq<Thread>, results: seq<Uint32>)

  function Limit(l: Launch, t: nat): int
    requires l.total > 0
  {
    SliceStart(l.count, l.total, t + 1)
  }

  function Start(l: Launch, before: seq<Uint32>): (g: Gpu)
    requires l.total > 0
  {
    Gpu(seq(l.total, t requires 0 <= t < l.total => Thread(SliceStart(l.count, l.total, t), None)), before)
  }

  /** Thread t has not reached the end of its slice. */
  predicate Running(l: Launch, g: Gpu, t: nat)
    requires l.total > 0
  {
    t < |g.threads| && g.threads[t].i < Limit(l, t)
  }

  /** What every reachable state satisfies: each thread is inside its slice, an entry it has read
      is the right one, everything it has passed is answered, and nothing past the queries has
      been written. */
  ghost predicate Consistent(l: Launch, before: seq<Uint32>, g: Gpu)
    requires l.Valid() && l.count <= |before|
  {
    && |g.threads| == l.total && |g.results| == |before|
    && (forall t :: 0 <= t < l.total ==> ThreadConsistent(l, g, t))
    && forall k :: l.count <= k < |before| ==> g.results[k] == before[k]
  }

  ghost predicate ThreadConsistent(l: Launch, g: Gpu, t: nat)
    requires l.Valid() && t < |g.threads|
  {
    var thread := g.threads[t];
    && 0 <= SliceStart(l.count, l.total, t) <= thread.i <= Limit(l, t) <= l.count <= |g.results|
    && (thread.reg.Some? ==> thread.i < Limit(l, t) && thread.reg.value == Answer(l, thread.i))
    && forall k :: SliceStart(l.count, l.total, t) <= k < thread.i ==> g.results[k] == Answer(l, k)
  }

  function Answer(l: Launch, i: nat): Uint32
    requires |l.table| == TABLE_SIZE && i < |l.routing|
  {
    l.table[l.routing[i] / 0x100]
  }

  /** One step of thread t: a read of the table, or the store of what was read. A thread that has
      finished idles. */
  ghost function Step(l: Launch, before: seq<Uint32>, g: Gpu, t: nat): Gpu
    requires l.Valid() && l.count <= |before| && Consistent(l, before, g)
  {
    if t < l.total && Running(l, g, t) then
      assert ThreadConsistent(l, g, t);
      var thread := g.threads[t];
      match thread.reg
      case None => g.(threads := g.threads[t := thread.(reg := Some(Answer(l, thread.i)))])
      case Some(v) => Gpu(g.threads[t := Thread(thread.i + 1, None)], g.results[thread.i := v])
    else g
  }

  lemma StartConsistent(l: Launch, before: seq<Uint32>)
    requires l.Valid() && l.count <= |before|
    ensures Consistent(l, before, Start(l, before))
  {
    hide SliceStart;
    SliceEnds(l.count, l.total);
    forall t: nat | t < l.total ensures ThreadConsistent(l, Start(l, before), t) {
      SlicesOrdered(l.count, l.total, 0, t);
      SlicesOrdered(l.count, l.total, t, t + 1);
      SlicesOrdered(l.count, l.total, t + 1, l.total);
    }
  }

  lemma StepConsistent(l: Launch, before: seq<Uint32>, g: Gpu, t: nat)
    requires l.Valid() && l.count <= |before| && Consistent(l, before, g)
    ensures Consistent(l, before, Step(l, before, g, t))
  {
    hide SliceStart;
    var g' := Step(l, before, g, t);
    forall u: nat | u < l.total ensures ThreadConsistent(l, g', u) {
      assert ThreadConsistent(l, g, u);
      if t < l.total { assert ThreadConsistent(l, g, t); }
    }
    if t < l.total { assert ThreadConsistent(l, g, t); }
  }

  /** The state after a schedule: the scheduler picks a thread for every step. */
  ghost function Execute(l: Launch, before: seq<Uint32>, g: Gpu, schedule: seq<nat>): (g': Gpu)
    requires l.Valid() && l.count <= |before| && Consistent(l, before, g)
    ensures Consistent(l, before, g')
    decreases |schedule|
  {
    if schedule == [] then g
    else
      StepConsistent(l, before, g, schedule[0]);
      Execute(l, before, Step(l, before, g, schedule[0]), schedule[1..])
  }

  ghost predicate Finished(l: Launch, g: Gpu)
    requires l.total > 0
  {
    forall t: nat :: t < |g.threads| ==> !Running(l, g, t)
  }

  /** A consistent state in which all threads have finished holds the host's results. */
  lemma FinishedIsHost(l: Launch, before: seq<Uint32>, g: Gpu)
    requires l.Valid() && l.count <= |before| && Consistent(l, before, g) && Finished(l, g)
    ensures g.results == HostResults(l.table, l.routing, l.count, before)
  {
    hide SliceStart;
    forall k | 0 <= k < |before|
      ensures g.results[k] == HostResults(l.table, l.routing, l.count, before)[k]
    {
      if k < l.count {
        var t := SlicesPartition(l.count, l.total, k);
        assert ThreadConsistent(l, g, t);
        assert !Running(l, g, t);
        assert SliceStart(l.count, l.total, t) <= k < g.threads[t].i;
      }
    }
  }

  /** Every complete schedule agrees with the host: however the scheduler interleaves the threads,
      when all have finished the results are those of the sequential loop. */
  lemma EveryScheduleAgrees(l: Launch, before: seq<Uint32>, schedule: seq<nat>)
    requires l.Valid() && l.count <= |before|
    ensures Consistent(l, before, Start(l, before))
    ensures var g := Execute(l, before, Start(l, before), schedule);
            Finished(l, g) ==> g.results == HostResults(l.table, l.routing, l.count, before)
  {
    hide Start, Execute, HostResults, Consistent;
    StartConsistent(l, before);
    var g := Execute(l, before, Start(l, before), schedule);
    if Finished(l, g) { FinishedIsHost(l, before, g); }
  }

  /** The steps thread t has still to take: a read and a store for every query left to it. */
  function ThreadWork(l: Launch, g: Gpu, t: nat): int
    requires l.total > 0 && t < |g.threads|
  {
    2 * (Limit(l, t) - g.threads[t].i) - if g.threads[t].reg.Some? then 1 else 0
  }

  /** The steps the first n threads have still to take. */
  function Work(l: Launch, g: Gpu, n: nat): int
    requires l.total > 0 && n <= |g.threads|
    decreases n
  {
    if n == 0 then 0 else Work(l, g, n - 1) + ThreadWork(l, g, n - 1)
  }

  /** The number of steps in a schedule that a running thread takes. */
  ghost function Effective(l: Launch, before: seq<Uint32>, g: Gpu, schedule: seq<nat>): nat
    requires l.Valid() && l.count <= |before| && Consistent(l, before, g)
    decreases |schedule|
  {
    if schedule == [] then 0
    else
      StepConsistent(l, before, g, schedule[0]);
      (if Running(l, g, schedule[0]) then 1 else 0)
        + Effective(l, before, Step(l, before, g, schedule[0]), schedule[1..])
  }

  /** A step of a running thread does one unit of work, and leaves the other threads' work alone. */
  lemma {:induction false} StepWork(l: Launch, before: seq<Uint32>, g: Gpu, t: nat, n: nat)
    requires l.Valid() && l.count <= |before| && Consistent(l, before, g) && n <= l.total
    ensures |Step(l, before, g, t).threads| == l.total
    ensures Work(l, Step(l, before, g, t), n) == Work(l, g, n) - if t < n && Running(l, g, t) then 1 else 0
    decreases n
  {
    hide SliceStart;
    if n > 0 { StepWork(l, before, g, t, n - 1); }
  }

  lemma {:induction false} ScheduleWork(l: Launch, before: seq<Uint32>, g: Gpu, schedule: seq<nat>)
    requires l.Valid() && l.count <= |before| && Consistent(l, before, g)
    ensures Work(l, Execute(l, before, g, schedule), l.total)
         == Work(l, g, l.total) - Effective(l, before, g, schedule)
    decreases |schedule|
  {
    hide Work, Step;
    if schedule != [] {
      StepConsistent(l, before, g, schedule[0]);
      StepWork(l, before, g, schedule[0], l.total);
      assert Running(l, g, schedule[0]) ==> schedule[0] < l.total;
      ScheduleWork(l, before, Step(l, before, g, schedule[0]), schedule[1..]);
    }
  }

  lemma {:induction false} StartWork(l: Launch, before: seq<Uint32>, n: nat)
    requires l.Valid() && n <= l.total
    ensures Work(l, Start(l, before), n) == 2 * SliceStart(l.count, l.total, n)
    decreases n
  {
    hide SliceStart;
    if n == 0 {
      SliceEnds(l.count, l.total);
    } else {
      StartWork(l, before, n - 1);
    }
  }

  /** No work is left among the first n threads exactly when all of them have finished. */
  lemma {:induction false} NoWorkLeft(l: Launch, before: seq<Uint32>, g: Gpu, n: nat)
    requires l.Valid() && l.count <= |before| && Consistent(l, before, g) && n <= l.total
    ensures Work(l, g, n) >= 0
    ensures Work(l, g, n) == 0 <==> forall t: nat :: t < n ==> !Running(l, g, t)
    decreases n
  {
    hide SliceStart;
    if n > 0 {
      NoWorkLeft(l, before, g, n - 1);
      assert ThreadConsistent(l, g, n - 1);
      assert ThreadWork(l, g, n - 1) >= 0;
      assert ThreadWork(l, g, n - 1) == 0 <==> !Running(l, g, n - 1);
      assert (forall t: nat :: t < n ==> !Running(l, g, t))
         <==> (forall t: nat :: t < n - 1 ==> !Running(l, g, t)) && !Running(l, g, n - 1);
    }
  }

  /** Conservation of work: a schedule is complete if and only if it contains exactly two steps of
      running threads per query, whatever their order; then the results are the host's. */
  lemma CompleteIffAllSteps(l: Launch, before: seq<Uint32>, schedule: seq<nat>)
    requires l.Valid() && l.count <= |before|
    ensures Consistent(l, before, Start(l, before))
    ensures Effective(l, before, Start(l, before), schedule) <= 2 * l.count
    ensures Finished(l, Execute(l, before, Start(l, before), schedule))
       <==> Effective(l, before, Start(l, before), schedule) == 2 * l.count
  {
    hide Start, Execute, Effective, Consistent, SliceStart, Work;
    StartConsistent(l, before);
    var g := Execute(l, before, Start(l, before), schedule);
    ScheduleWork(l, before, Start(l, before), schedule);
    StartWork(l, before, l.total);
    SliceEnds(l.count, l.total);
    NoWorkLeft(l, before, g, l.total);
    assert |g.threads| == l.total by { ThreadCount(l, before, g); }
  }

  /** From every consistent state all threads can be run to the end, in as many steps as there is
      work left. */
  lemma {:induction false} RunsToTheEnd(l: Launch, before: seq<Uint32>, g: Gpu) returns (schedule: seq<nat>)
    requires l.Valid() && l.count <= |before| && Consistent(l, before, g)
    ensures Finished(l, Execute(l, before, g, schedule)) && |schedule| == Work(l, g, l.total)
    decreases Work(l, g, l.total)
  {
    hide Consistent, Step, Work, Running;
    ThreadCount(l, before, g);
    NoWorkLeft(l, before, g, l.total);
    if t: nat :| t < l.total && Running(l, g, t) {
      StepConsistent(l, before, g, t);
      StepWork(l, before, g, t, l.total);
      var rest := RunsToTheEnd(l, before, Step(l, before, g, t));
      schedule := [t] + rest;
      assert schedule[1..] == rest;
    } else {
      schedule := [];
    }
  }

  lemma {:induction false} ExecuteAppend(l: Launch, before: seq<Uint32>, g: Gpu, first: seq<nat>, later: seq<nat>)
    requires l.Valid() && l.count <= |before| && Consistent(l, before, g)
    ensures Execute(l, before, g, first + later) == Execute(l, before, Execute(l, before, g, first), later)
    decreases |first|
  {
    hide Consistent, Step;
    if first == [] {
      assert first + later == later;
    } else {
      assert (first + later)[1..] == first[1..] + later;
      StepConsistent(l, before, g, first[0]);
      ExecuteAppend(l, before, Step(l, before, g, first[0]), first[1..], later);
    }
  }

  /** No choice of steps blocks a thread: whatever the scheduler has done so far, it can go on to a
      complete schedule, and then the results are the host's. */
  lemma EveryScheduleCanComplete(l: Launch, before: seq<Uint32>, first: seq<nat>) returns (later: seq<nat>)
    requires l.Valid() && l.count <= |before|
    ensures Consistent(l, before, Start(l, before))
    ensures var g := Execute(l, before, Start(l, before), first + later);
            Finished(l, g) && g.results == HostResults(l.table, l.routing, l.count, before)
  {
    hide Start, Execute, HostResults, Consistent, Work;
    StartConsistent(l, before);
    later := RunsToTheEnd(l, before, Execute(l, before, Start(l, before), first));
    ExecuteAppend(l, before, Start(l, before), first, later);
    EveryScheduleAgrees(l, before, first + later);
  }

  lemma ThreadCount(l: Launch, before: seq<Uint32>, g: Gpu)
    requires l.Valid() && l.count <= |before| && Consistent(l, before, g)
    ensures |g.threads| == l.total
  {}

  /** The table holds the longest-prefix gateway of every address, as `mapping_fib` leaves it. */
  ghost predicate IsTableFor(fib: seq<Entry>, table: seq<Uint32>)
    requires |table| == TABLE_SIZE
  {
    forall ip: Uint32 :: table[ip / 0x100] == Gateway(fib, ip, 2)
  }

  /** End to end: after `mapping_fib`, every complete schedule answers every query with its
      longest-prefix gateway. */
  lemma EveryScheduleIsLongestPrefixMatch(fib: seq<Entry>, l: Launch, before: seq<Uint32>, schedule: seq<nat>, i: nat)
    requires l.Valid() && l.count <= |before| && IsTableFor(fib, l.table) && i < l.count
    ensures Consistent(l, before, Start(l, before))
    ensures var g := Execute(l, before, Start(l, before), schedule);
            Finished(l, g) ==> g.results[i] == Gateway(fib, l.routing[i], 2)
  {
    hide Start, Execute, Gateway, Consistent;
    EveryScheduleAgrees(l, before, schedule);
  }

  /** `iplookup_gpu` on one thread: its slice is answered and nothing else is written. */
  method IpLookupGpu(table: array<Uint32>, routing: array<Uint32>, results: array<Uint32>,
                     count: nat, total: nat, idx: nat)
    requires table.Length == TABLE_SIZE && count <= routing.Length && count <= results.Length
    requires results != table && results != routing
    requires idx < total && count * total <= INT_MAX
    modifies results
    ensures forall k :: 0 <= k < results.Length ==>
              results[k] == if k < count && InSlice(count, total, idx, k) then table[routing[k] / 0x100]
                            else old(results[k])
  {
    hide SliceStart;
    SliceEnds(count, total);
    SlicesOrdered(count, total, 0, idx);
    SlicesOrdered(count, total, idx, idx + 1);
    SlicesOrdered(count, total, idx + 1, total);
    var i := SliceStart(count, total, idx);
    while i < SliceStart(count, total, idx + 1)
      invariant SliceStart(count, total, idx) <= i <= SliceStart(count, total, idx + 1)
      invariant forall k :: 0 <= k < results.Length ==>
                  results[k] == if SliceStart(count, total, idx) <= k < i then table[routing[k] / 0x100]
                                else old(results[k])
    {
      results[i] := table[routing[i] / 0x100];
      i := i + 1;
    }
  }

  /** Two running threads never work on the same query, so no two of them write one result. */
  lemma NoSharedQuery(l: Launch, before: seq<Uint32>, g: Gpu, t: nat, u: nat)
    requires l.Valid() && l.count <= |before| && Consistent(l, before, g)
    requires t < u < l.total && Running(l, g, t) && Running(l, g, u)
    ensures g.threads[t].i < g.threads[u].i
  {
    hide SliceStart;
    assert ThreadConsistent(l, g, t) && ThreadConsistent(l, g, u);
    SlicesOrdered(l.count, l.total, t + 1, u);
  }
}
