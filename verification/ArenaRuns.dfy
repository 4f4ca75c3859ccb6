/** Whole runs of the arena: the counters refine the multiset of live blocks. */
module ArenaRuns {
  import opened Arith
  import opened Sums
  import opened ClassTables
  import opened ArenaModel

  // ---- measures of a live block ------------------------------------------------

  ghost function InClass(t: Table, c: int): nat -> int {
    (n: nat) => if ClassOf(t, n) == c then 1 else 0
  }

  ghost function Size(): nat -> int {
    n => n
  }

  /** Bytes a live block occupies: its slot, or its own size in the huge tier. */
  ghost function Footprint(t: Table): nat -> int {
    (n: nat) => if ClassOf(t, n) < 0 then n else SlotSize(t, ClassOf(t, n))
  }

  lemma {:induction false} CountNonNegative(t: Table, live: multiset<nat>, c: int)
    ensures Fold(live, InClass(t, c)) >= 0
    decreases |live|
  {
    hide ClassOf;
    if live != multiset{} {
      var x :| x in live;
      FoldRemove(live, InClass(t, c), x);
      CountNonNegative(t, live - multiset{x}, c);
    }
  }

  /** Number of live blocks of class `c`. */
  ghost function LiveIn(t: Table, live: multiset<nat>, c: int): nat {
    CountNonNegative(t, live, c);
    Fold(live, InClass(t, c))
  }

  // ---- the refinement relation ---------------------------------------------------

  /** Every class counts its live blocks and keeps its slot bookkeeping. */
  ghost predicate CountsLive(t: Table, s: State, live: multiset<nat>) {
    && Fits(t, s)
    && forall c :: 0 <= c < |s.cls| ==>
                     && ClassInv(s.cls[c], NSlots(t, c))
                     && s.cls[c].used == LiveIn(t, live, c)
  }

  /** `huge` lists exactly the live blocks that no class serves. */
  ghost predicate HugeIs(t: Table, huge: seq<nat>, live: multiset<nat>) {
    forall n: nat :: multiset(huge)[n] == if ClassOf(t, n) < 0 then live[n] else 0
  }

  /** Slots in use plus live huge blocks occupy the live blocks' footprint. */
  ghost predicate BytesExact(t: Table, s: State, live: multiset<nat>)
    requires Fits(t, s)
  {
    SumSeq(UsedBytes(t, s.cls)) + SumSeq(s.hugeLive) == Fold(live, Footprint(t))
  }

  // ---- counting --------------------------------------------------------------------

  lemma CountPositive(t: Table, live: multiset<nat>, n: nat)
    requires n in live
    ensures Fold(live, InClass(t, ClassOf(t, n))) >= 1
  {
    hide ClassOf;
    FoldRemove(live, InClass(t, ClassOf(t, n)), n);
    CountNonNegative(t, live - multiset{n}, ClassOf(t, n));
  }

  /** Removing a block that is live, or that no class serves and is not live. */
  lemma CountRemove(t: Table, live: multiset<nat>, n: nat, c: int)
    requires n in live || ClassOf(t, n) != c
    ensures Fold(live - multiset{n}, InClass(t, c)) == Fold(live, InClass(t, c)) - InClass(t, c)(n)
  {
    if n in live {
      FoldRemove(live, InClass(t, c), n);
    } else {
      assert live - multiset{n} == live;
    }
  }

  // ---- acquire, release and trim keep the counts -------------------------------------

  lemma AcquireCountsLive(t: Table, s: State, live: multiset<nat>, n: nat, hint: Hint)
    requires CountsLive(t, s, live) && ClassOf(t, n) < |t.slots|
    ensures CountsLive(t, Acquire(t, s, n, hint), live + multiset{n})
  {
    hide ClassOf, ClassInv, AcquireCounts, NSlots;
    var s2 := Acquire(t, s, n, hint);
    var cid := ClassOf(t, n);
    forall c | 0 <= c < |s.cls|
      ensures ClassInv(s2.cls[c], NSlots(t, c))
      ensures s2.cls[c].used == Fold(live + multiset{n}, InClass(t, c))
    {
      FoldAdd(live, InClass(t, c), n);
      AcquireClass(s.cls[c], NSlots(t, c));
    }
  }

  lemma ReleaseCountsLive(t: Table, cache: int, s: State, live: multiset<nat>, n: nat, hint: Hint)
    requires CountsLive(t, s, live) && ClassOf(t, n) < |t.slots|
    requires n in live || ClassOf(t, n) < 0
    ensures CountsLive(t, Release(t, cache, s, n, hint), live - multiset{n})
  {
    hide ClassOf, ClassInv, NSlots;
    var s2 := Release(t, cache, s, n, hint);
    forall c | 0 <= c < |s.cls|
      ensures ClassInv(s2.cls[c], NSlots(t, c))
      ensures s2.cls[c].used == Fold(live - multiset{n}, InClass(t, c))
    {
      CountRemove(t, live, n, c);
      if c == ClassOf(t, n) {
        CountPositive(t, live, n);
        ReleaseClass(s.cls[c], NSlots(t, c));
      }
    }
  }

  lemma TrimCountsLive(t: Table, s: State, live: multiset<nat>, level: int)
    requires CountsLive(t, s, live)
    ensures CountsLive(t, Trim(t, s, level), live)
  {
    hide ClassOf, ClassInv, NSlots, TrimCounts;
    forall c | 0 <= c < |s.cls|
      ensures ClassInv(Trim(t, s, level).cls[c], NSlots(t, c))
      ensures Trim(t, s, level).cls[c].used == s.cls[c].used
    {
      TrimClass(s.cls[c], NSlots(t, c));
    }
  }

  // ---- runs of allocations, releases and trims ------------------------------------------

  datatype Op = Alloc(n: nat, ahint: Hint) | Free(m: nat, fhint: Hint) | TrimTo(level: int)

  ghost function LiveAfter(ops: seq<Op>): multiset<nat> {
    if ops == [] then multiset{}
    else
      var before := LiveAfter(ops[..|ops| - 1]);
      match ops[|ops| - 1]
      case Alloc(n, _) => before + multiset{n}
      case Free(m, _) => before - multiset{m}
      case TrimTo(_) => before
  }

  /** Every release is of a block that is live at that moment. */
  ghost predicate Matched(ops: seq<Op>) {
    forall i :: 0 <= i < |ops| && ops[i].Free? ==> ops[i].m in LiveAfter(ops[..i])
  }

  ghost function Run(t: Table, cache: int, ops: seq<Op>): (s: State)
    requires Total(t) && SlotsOk(t)
    ensures Fits(t, s)
  {
    if ops == [] then Empty(t)
    else
      var s := Run(t, cache, ops[..|ops| - 1]);
      match ops[|ops| - 1]
      case Alloc(n, h) => Acquire(t, s, n, h)
      case Free(m, h) => Release(t, cache, s, m, h)
      case TrimTo(level) => Trim(t, s, level)
  }

  lemma MatchedPrefix(ops: seq<Op>)
    requires Matched(ops) && ops != []
    ensures Matched(ops[..|ops| - 1])
    ensures ops[|ops| - 1].Free? ==> ops[|ops| - 1].m in LiveAfter(ops[..|ops| - 1])
  {
    var p := ops[..|ops| - 1];
    forall i | 0 <= i < |p| && p[i].Free?
      ensures p[i].m in LiveAfter(p[..i])
    {
      assert p[..i] == ops[..i];
    }
  }

  lemma EmptyCountsLive(t: Table)
    requires SlotsOk(t)
    ensures CountsLive(t, Empty(t), multiset{})
  {
  }

  /** In every state reached by allocations, matched releases and trims in any order,
      each class satisfies `used + free = segments * nslots`,
      `used <= highWater <= segments * nslots` and `segments = ceil(highWater / nslots)`,
      and `used` is the number of live blocks of the class. */
  lemma {:induction false} EveryRunCountsLive(t: Table, cache: int, ops: seq<Op>)
    requires Total(t) && SlotsOk(t) && Matched(ops)
    ensures CountsLive(t, Run(t, cache, ops), LiveAfter(ops))
  {
    hide CountsLive, ClassOf, Acquire, Release, Trim, Empty, SlotsOk;
    if ops == [] {
      EmptyCountsLive(t);
    } else {
      MatchedPrefix(ops);
      var p := ops[..|ops| - 1];
      EveryRunCountsLive(t, cache, p);
      var s := Run(t, cache, p);
      match ops[|ops| - 1]
      case Alloc(n, h) => AcquireCountsLive(t, s, LiveAfter(p), n, h);
      case Free(m, h) => ReleaseCountsLive(t, cache, s, LiveAfter(p), m, h);
      case TrimTo(level) => TrimCountsLive(t, s, LiveAfter(p), level);
    }
  }

  /** In every reachable state the compaction plan of every class is feasible and
      cannot be enlarged. */
  lemma EveryRunPlanOptimal(t: Table, cache: int, ops: seq<Op>, c: nat)
    requires Total(t) && SlotsOk(t) && Matched(ops) && c < |t.slots|
    ensures var k, ns := Run(t, cache, ops).cls[c], NSlots(t, c);
            && k.segments - Spares(k, ns) == Max(Min(1, k.segments), CeilDiv(LiveIn(t, LiveAfter(ops), c), ns))
            && Packs(k, ns, Spares(k, ns))
            && forall m :: Spares(k, ns) < m <= k.segments - 1 ==> !Packs(k, ns, m)
  {
    EveryRunCountsLive(t, cache, ops);
    hide Run, ClassOf, ClassInv, CeilDiv, NSlots, Fold, Spares;
    PlanOptimal(Run(t, cache, ops).cls[c], NSlots(t, c));
  }

  function Trims(level: int, times: nat): seq<Op> {
    seq(times, i => TrimTo(level))
  }

  /** A run that ends in `times` trims trims each class that many times. */
  lemma {:induction false} RunTrims(t: Table, cache: int, ops: seq<Op>, level: int, times: nat, c: nat)
    requires Total(t) && SlotsOk(t) && c < |t.slots|
    ensures Run(t, cache, ops + Trims(level, times)).cls[c]
            == TrimTimes(Run(t, cache, ops).cls[c], NSlots(t, c), times)
  {
    hide Total, ClassOf, TrimCounts, NSlots, SlotsOk;
    var all := ops + Trims(level, times);
    if times == 0 {
      assert all == ops;
    } else {
      RunTrims(t, cache, ops, level, times - 1, c);
      assert all[..|all| - 1] == ops + Trims(level, times - 1);
      assert all[|all| - 1] == TrimTo(level);
    }
  }

  /** From every reachable state, enough trims leave each class with the least number
      of segments that hold its live blocks. */
  lemma EveryRunTrimsToMinimum(t: Table, cache: int, ops: seq<Op>, level: int, times: nat, c: nat)
    requires Total(t) && SlotsOk(t) && Matched(ops) && c < |t.slots|
    requires Run(t, cache, ops).cls[c].highWater < Pow2(times)
    ensures Run(t, cache, ops + Trims(level, times)).cls[c].segments
            == CeilDiv(LiveIn(t, LiveAfter(ops), c), NSlots(t, c))
  {
    EveryRunCountsLive(t, cache, ops);
    hide Run, ClassOf, ClassInv, CeilDiv, NSlots, Fold, Pow2, TrimTimes;
    RunTrims(t, cache, ops, level, times, c);
    TrimReachesMinimum(Run(t, cache, ops).cls[c], NSlots(t, c), times);
  }

  /** No class has ever held more blocks than the run has steps. */
  lemma {:induction false} MarkBound(t: Table, cache: int, ops: seq<Op>, c: nat)
    requires Total(t) && SlotsOk(t) && Matched(ops) && c < |t.slots|
    ensures Run(t, cache, ops).cls[c].highWater <= |ops|
  {
    hide ClassOf, Total, SlotsOk, CountsLive, NSlots, Run;
    if ops == [] {
      EmptyMark(t, cache, c);
    } else {
      var p := ops[..|ops| - 1];
      MatchedPrefix(ops);
      MarkBound(t, cache, p, c);
      EveryRunCountsLive(t, cache, p);
      MarkStep(t, cache, ops, c);
    }
  }

  lemma EmptyMark(t: Table, cache: int, c: nat)
    requires Total(t) && SlotsOk(t) && c < |t.slots|
    ensures Run(t, cache, []).cls[c].highWater == 0
  {
    hide ClassOf, NSlots;
  }

  lemma MarkStep(t: Table, cache: int, ops: seq<Op>, c: nat)
    requires Total(t) && SlotsOk(t) && ops != [] && c < |t.slots|
    requires CountsLive(t, Run(t, cache, ops[..|ops| - 1]), LiveAfter(ops[..|ops| - 1]))
    ensures Run(t, cache, ops).cls[c].highWater <= Run(t, cache, ops[..|ops| - 1]).cls[c].highWater + 1
  {
    hide ClassOf, Fold, LiveAfter, Acquire, Release, Trim;
    var s := Run(t, cache, ops[..|ops| - 1]);
    assert ClassInv(s.cls[c], NSlots(t, c));
    hide ClassInv, NSlots;
    match ops[|ops| - 1]
    case Alloc(n, h) => MarkAcquire(t, s, n, h, c);
    case Free(m, h) => MarkRelease(t, cache, s, m, h, c);
    case TrimTo(level) => MarkTrim(t, s, level, c);
  }

  lemma MarkAcquire(t: Table, s: State, n: nat, h: Hint, c: nat)
    requires Fits(t, s) && ClassOf(t, n) < |t.slots| && c < |t.slots| && ClassInv(s.cls[c], NSlots(t, c))
    ensures Acquire(t, s, n, h).cls[c].highWater <= s.cls[c].highWater + 1
  {
    assert s.cls[c].used <= s.cls[c].highWater;
    hide ClassOf, NSlots, RemoveFirst, ClassInv, SlotsOk;
  }

  lemma MarkRelease(t: Table, cache: int, s: State, n: nat, h: Hint, c: nat)
    requires Fits(t, s) && ClassOf(t, n) < |t.slots| && c < |t.slots|
    ensures Release(t, cache, s, n, h).cls[c].highWater == s.cls[c].highWater
  {
    hide ClassOf, NSlots, RemoveFirst, Count, SlotsOk;
  }

  lemma MarkTrim(t: Table, s: State, level: int, c: nat)
    requires Fits(t, s) && c < |t.slots| && ClassInv(s.cls[c], NSlots(t, c))
    ensures Trim(t, s, level).cls[c].highWater <= s.cls[c].highWater
  {
    hide NSlots, CeilDiv;
    TrimClass(s.cls[c], NSlots(t, c));
  }

  /** From every reachable state: once `times` reaches the length of the run, or two to
      its power exceeds it, every class at once holds the least number of segments for its
      live blocks. */
  lemma EveryRunReachesMinimum(t: Table, cache: int, ops: seq<Op>, level: int, times: nat)
    requires Total(t) && SlotsOk(t) && Matched(ops)
    requires |ops| <= times || |ops| < Pow2(times)
    ensures forall c :: 0 <= c < |t.slots| ==>
              Run(t, cache, ops + Trims(level, times)).cls[c].segments
              == CeilDiv(LiveIn(t, LiveAfter(ops), c), NSlots(t, c))
  {
    hide Run, ClassOf, CeilDiv, Fold, Pow2, Total, Matched, Trims;
    Pow2Above(|ops|);
    if |ops| <= times {
      Pow2Mono(|ops|, times);
    }
    forall c | 0 <= c < |t.slots|
      ensures Run(t, cache, ops + Trims(level, times)).cls[c].segments
              == CeilDiv(LiveIn(t, LiveAfter(ops), c), NSlots(t, c))
    {
      MarkBound(t, cache, ops, c);
      EveryRunTrimsToMinimum(t, cache, ops, level, times, c);
    }
  }

  // ---- the huge cache -----------------------------------------------------------------------

  /** Each size is cached at most `cache` times, and only sizes of the huge tier are. */
  ghost predicate CacheOk(t: Table, cache: int, cached: seq<nat>) {
    && (forall n: nat :: Count(cached, n) <= Max(0, cache))
    && (forall n: nat :: n in cached ==> ClassOf(t, n) < 0)
  }

  lemma CacheTaken(t: Table, cache: int, cached: seq<nat>, x: nat)
    requires CacheOk(t, cache, cached)
    ensures CacheOk(t, cache, RemoveFirst(cached, x))
  {
    hide ClassOf, RemoveFirst, Count;
    RemoveFirstMultiset(cached, x);
    var less := RemoveFirst(cached, x);
    forall n: nat
      ensures Count(less, n) <= Max(0, cache) && (n in less ==> ClassOf(t, n) < 0)
    {
      CountMultiset(cached, n);
      CountMultiset(less, n);
      assert n in less <==> n in multiset(less);
      assert n in cached <==> n in multiset(cached);
    }
  }

  lemma CacheGiven(t: Table, cache: int, cached: seq<nat>, x: nat)
    requires CacheOk(t, cache, cached) && ClassOf(t, x) < 0 && Count(cached, x) < cache
    ensures CacheOk(t, cache, cached + [x])
  {
    hide ClassOf;
    var more := cached + [x];
    assert more[..|cached|] == cached;
    forall n: nat
      ensures Count(more, n) <= Max(0, cache)
    {
      assert Count(more, n) == Count(cached, n) + if n == x then 1 else 0;
    }
  }

  lemma CacheAcquire(t: Table, cache: int, s: State, n: nat, h: Hint)
    requires Fits(t, s) && ClassOf(t, n) < |t.slots| && CacheOk(t, cache, s.hugeCached)
    ensures CacheOk(t, cache, Acquire(t, s, n, h).hugeCached)
  {
    hide ClassOf, NSlots, RemoveFirst, CacheOk, SlotsOk;
    CacheTaken(t, cache, s.hugeCached, n);
  }

  lemma CacheRelease(t: Table, cache: int, s: State, n: nat, h: Hint)
    requires Fits(t, s) && ClassOf(t, n) < |t.slots| && CacheOk(t, cache, s.hugeCached)
    ensures CacheOk(t, cache, Release(t, cache, s, n, h).hugeCached)
  {
    hide ClassOf, NSlots, RemoveFirst, CacheOk, SlotsOk, Count;
    if ClassOf(t, n) < 0 && Count(s.hugeCached, n) < cache {
      CacheGiven(t, cache, s.hugeCached, n);
    }
  }

  lemma CacheEmpty(t: Table, cache: int)
    ensures CacheOk(t, cache, [])
  {
    hide ClassOf;
  }

  /** In every state reached by allocations, releases and trims, matched or not, no size is
      cached more often than `huge_cache` allows, and no slotted size is cached at all. */
  lemma {:induction false} EveryRunCacheBounded(t: Table, cache: int, ops: seq<Op>)
    requires Total(t) && SlotsOk(t)
    ensures CacheOk(t, cache, Run(t, cache, ops).hugeCached)
  {
    hide CacheOk, ClassOf, Acquire, Release, SlotsOk, TrimClasses;
    CacheEmpty(t, cache);
    if ops != [] {
      var p := ops[..|ops| - 1];
      EveryRunCacheBounded(t, cache, p);
      var s := Run(t, cache, p);
      match ops[|ops| - 1]
      case Alloc(n, h) => CacheAcquire(t, cache, s, n, h);
      case Free(m, h) => CacheRelease(t, cache, s, m, h);
      case TrimTo(level) =>
    }
  }

  // ---- what a trim gives back -------------------------------------------------------------

  /** The value `trim` returns: the payload of every segment given back. */
  ghost function FreedBytes(t: Table, cls: seq<Counts>): seq<int>
    requires |cls| == |t.slots| && SlotsOk(t)
  {
    seq(|cls|, c requires 0 <= c < |cls| =>
      (cls[c].segments - TrimCounts(cls[c], NSlots(t, c)).segments) * Payload(t, c))
  }

  /** Trim's result is exactly the drop in bytes committed to segments. */
  lemma FreedIsCommitDrop(t: Table, s: State, level: int)
    requires Fits(t, s)
    ensures SumSeq(FreedBytes(t, s.cls))
            == SumSeq(SegmentBytes(t, s.cls)) - SumSeq(SegmentBytes(t, Trim(t, s, level).cls))
  {
    var v, w, d := SegmentBytes(t, s.cls), SegmentBytes(t, Trim(t, s, level).cls), FreedBytes(t, s.cls);
    forall c | 0 <= c < |v|
      ensures d[c] == v[c] - w[c]
    {
      var a, b, p := s.cls[c].segments, TrimCounts(s.cls[c], NSlots(t, c)).segments, Payload(t, c);
      assert (a - b) * p == a * p - b * p;
    }
    SumDiff(v, w, d);
  }

  // ---- committed bytes cover the live bytes --------------------------------------------

  lemma SegmentsCoverUsed(t: Table, s: State, live: multiset<nat>)
    requires CountsLive(t, s, live)
    ensures SumSeq(UsedBytes(t, s.cls)) <= SumSeq(SegmentBytes(t, s.cls))
  {
    hide ClassOf;
    var v, w := UsedBytes(t, s.cls), SegmentBytes(t, s.cls);
    forall c | 0 <= c < |v|
      ensures v[c] <= w[c]
    {
      SegmentCoversUsed(s.cls[c], NSlots(t, c), t.slots[c]);
      assert w[c] == s.cls[c].segments * (NSlots(t, c) * t.slots[c]);
    }
    SumMono(v, w);
  }

  lemma SegmentCoversUsed(k: Counts, ns: nat, slot: nat)
    requires ns > 0 && ClassInv(k, ns)
    ensures k.used * slot <= k.segments * (ns * slot)
  {
    ClassInvBounds(k, ns);
    MulMono(k.used, k.segments * ns, slot);
    assert k.segments * ns * slot == k.segments * (ns * slot);
  }

  lemma {:induction false} SumNonNegative(v: seq<nat>)
    ensures SumSeq(v) >= 0
  {
    if v != [] {
      SumNonNegative(v[..|v| - 1]);
    }
  }

  /** With exact bookkeeping, a covering table commits at least the live bytes and the
      waste metric is the live blocks' footprint minus their size, never clamped. */
  lemma CommitCoversLive(t: Table, s: State, live: multiset<nat>)
    requires CountsLive(t, s, live) && BytesExact(t, s, live) && Covers(t)
    requires s.logical == Fold(live, Size())
    ensures RawWaste(t, s) == Fold(live, Footprint(t)) - Fold(live, Size()) >= 0
    ensures Commit(t, s) >= s.logical
  {
    forall n | n in live
      ensures Size()(n) <= Footprint(t)(n)
    {
      if ClassOf(t, n) >= 0 {
        assert 1 <= n <= t.smallMax && Serves(t, n);
      }
    }
    hide ClassOf, Covers;
    FoldMono(live, Size(), Footprint(t));
    SegmentsCoverUsed(t, s, live);
    SumNonNegative(s.hugeCached);
  }
}
