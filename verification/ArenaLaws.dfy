/** What single operations of the arena and whole histories do to the cache of huge
    blocks, the counters and the committed bytes. */
module ArenaLaws {
  import opened Arith
  import opened Sums
  import opened ClassTables
  import opened ArenaModel
  import opened ArenaRuns
  import opened ArenaReplay

  // ---- one operation on a huge size --------------------------------------------------

  /** The number of cached blocks of size `n` is `d` more, and of no other size changes. */
  ghost predicate CountMoves(before: seq<nat>, after: seq<nat>, n: nat, d: int) {
    forall m: nat :: Count(after, m) == Count(before, m) + if m == n then d else 0
  }

  lemma CountAppend(v: seq<nat>, n: nat)
    ensures CountMoves(v, v + [n], n, 1)
  {
    assert (v + [n])[..|v|] == v;
  }

  lemma CountRemoveFirst(v: seq<nat>, n: nat)
    requires n in v
    ensures CountMoves(v, RemoveFirst(v, n), n, -1)
  {
    hide Count, RemoveFirst;
    RemoveFirstMultiset(v, n);
    assert n in multiset(v);
    forall m: nat
      ensures Count(RemoveFirst(v, n), m) == Count(v, m) + if m == n then -1 else 0
    {
      CountMultiset(v, m);
      CountMultiset(RemoveFirst(v, n), m);
    }
  }

  lemma CountIn(v: seq<nat>, n: nat)
    ensures Count(v, n) > 0 <==> n in v
  {
    CountMultiset(v, n);
  }

  /** Releasing a huge size caches it below the limit and leaves the cache alone at it. */
  lemma ReleaseCaches(t: Table, cache: int, s: State, n: nat, h: Hint)
    requires Fits(t, s) && ClassOf(t, n) < 0
    ensures var s2 := Release(t, cache, s, n, h);
            && (Count(s.hugeCached, n) < cache ==> CountMoves(s.hugeCached, s2.hugeCached, n, 1))
            && (Count(s.hugeCached, n) >= cache ==> s2.hugeCached == s.hugeCached)
            && s2.wouldHugeReuse == s.wouldHugeReuse && s2.cls == s.cls
    ensures n in s.hugeLive ==>
              Commit(t, Release(t, cache, s, n, h))
              == Commit(t, s) - if Count(s.hugeCached, n) < cache then 0 else n
  {
    hide ClassOf, Count, RemoveFirst, CountMoves, SumSeq, SegmentBytes, SlotsOk;
    CountAppend(s.hugeCached, n);
    if n in s.hugeLive {
      SumRemoveFirst(s.hugeLive, n);
    }
    SumAppend(s.hugeCached, n);
  }

  /** Acquiring a huge size takes a cached block of that size if there is one, and commits
      new bytes only if there is none. */
  lemma AcquireReuses(t: Table, s: State, n: nat, h: Hint)
    requires Fits(t, s) && ClassOf(t, n) < 0
    ensures var s2 := Acquire(t, s, n, h);
            && (Count(s.hugeCached, n) > 0 ==>
                  && CountMoves(s.hugeCached, s2.hugeCached, n, -1)
                  && s2.wouldHugeReuse == s.wouldHugeReuse + 1
                  && Commit(t, s2) == Commit(t, s))
            && (Count(s.hugeCached, n) == 0 ==>
                  && s2.hugeCached == s.hugeCached
                  && s2.wouldHugeReuse == s.wouldHugeReuse
                  && Commit(t, s2) == Commit(t, s) + n)
  {
    hide ClassOf, Count, RemoveFirst, CountMoves, SumSeq, SegmentBytes, SlotsOk;
    CountIn(s.hugeCached, n);
    SumAppend(s.hugeLive, n);
    if n in s.hugeCached {
      CountRemoveFirst(s.hugeCached, n);
      SumRemoveFirst(s.hugeCached, n);
    }
  }

  // ---- one operation on a slotted size ------------------------------------------------

  /** A slotted acquisition reuses a free slot if there is one and opens a segment if there
      is none; the huge tier is not touched. */
  lemma AcquireSlotted(t: Table, s: State, n: nat, h: Hint)
    requires Fits(t, s) && 0 <= ClassOf(t, n) < |t.slots|
    ensures var c, s2 := ClassOf(t, n), Acquire(t, s, n, h);
            && s2.hugeCached == s.hugeCached && s2.hugeLive == s.hugeLive && s2.wouldHugeReuse == s.wouldHugeReuse
            && s2.wouldReuse - s.wouldReuse == (if s.cls[c].free > 0 then 1 else 0)
            && s2.wouldSegments - s.wouldSegments == (if s.cls[c].free > 0 then 0 else 1)
            && Commit(t, s2) == Commit(t, s) + (if s.cls[c].free > 0 then 0 else Payload(t, c))
  {
    hide ClassOf, SumSeq, SegmentBytes;
    var c, s2 := ClassOf(t, n), Acquire(t, s, n, h);
    SegmentsMove(t, s.cls, c, s2.cls[c], if s.cls[c].free > 0 then 0 else 1);
  }

  /** A slotted release gives back a slot and no memory. */
  lemma ReleaseSlotted(t: Table, cache: int, s: State, n: nat, h: Hint)
    requires Fits(t, s) && 0 <= ClassOf(t, n) < |t.slots|
    ensures var s2 := Release(t, cache, s, n, h);
            && s2.hugeCached == s.hugeCached && s2.hugeLive == s.hugeLive
            && s2.wouldReuse == s.wouldReuse && s2.wouldSegments == s.wouldSegments
            && s2.wouldHugeReuse == s.wouldHugeReuse
            && Commit(t, s2) == Commit(t, s)
  {
    hide ClassOf, SumSeq, SegmentBytes;
    var c, s2 := ClassOf(t, n), Release(t, cache, s, n, h);
    SegmentsMove(t, s.cls, c, s2.cls[c], 0);
  }

  lemma SegmentsMove(t: Table, cls: seq<Counts>, c: nat, k: Counts, d: int)
    requires |cls| == |t.slots| && SlotsOk(t) && c < |cls| && k.segments == cls[c].segments + d
    ensures SumSeq(SegmentBytes(t, cls[c := k])) == SumSeq(SegmentBytes(t, cls)) + d * Payload(t, c)
  {
    hide NSlots, Payload;
    var v, p := SegmentBytes(t, cls), Payload(t, c);
    assert (cls[c].segments + d) * p == cls[c].segments * p + d * p;
    assert SegmentBytes(t, cls[c := k]) == v[c := v[c] + d * p];
    SumUpdate(v, c, v[c] + d * p);
  }

  /** A trim empties the huge cache from level 1 on and leaves it alone at level 0. */
  lemma TrimCaches(t: Table, s: State, level: int)
    requires Fits(t, s)
    ensures var s2 := Trim(t, s, level);
            && s2.hugeCached == (if level >= 1 then [] else s.hugeCached) && s2.hugeLive == s.hugeLive
            && Commit(t, s2) == Commit(t, s) - SumSeq(FreedBytes(t, s.cls))
                                - if level >= 1 then SumSeq(s.hugeCached) else 0
  {
    hide TrimClasses, FreedBytes, SegmentBytes;
    FreedIsCommitDrop(t, s, level);
    assert SumSeq([]) == 0;
  }

  /** The classes after the planned segments have been emptied and given back. */
  ghost function Compacted(t: Table, cls: seq<Counts>): seq<Counts>
    requires |cls| == |t.slots| && SlotsOk(t)
  {
    seq(|cls|, c requires 0 <= c < |cls| =>
      cls[c].(segments := cls[c].segments - Spares(cls[c], NSlots(t, c)),
              free := cls[c].free - Spares(cls[c], NSlots(t, c)) * NSlots(t, c)))
  }

  /** What the compaction plan reports is what carrying it out would give back. */
  lemma PlanIsCommitDrop(t: Table, cls: seq<Counts>)
    requires |cls| == |t.slots| && SlotsOk(t)
    ensures SumSeq(PlanBytes(t, cls)) == SumSeq(SegmentBytes(t, cls)) - SumSeq(SegmentBytes(t, Compacted(t, cls)))
  {
    hide NSlots, Payload;
    var v, w, d := SegmentBytes(t, cls), SegmentBytes(t, Compacted(t, cls)), PlanBytes(t, cls);
    forall c | 0 <= c < |v|
      ensures d[c] == v[c] - w[c]
    {
      var a, m, p := cls[c].segments, Spares(cls[c], NSlots(t, c)), Payload(t, c);
      assert (a - m) * p == a * p - m * p;
    }
    SumDiff(v, w, d);
  }

  // ---- the cache from the history --------------------------------------------------------

  /** How many blocks of size `n` are cached after a history of operations. */
  ghost function CachedAfter(t: Table, cache: int, ops: seq<Op>, n: nat): nat {
    if ops == [] then 0
    else
      var before := CachedAfter(t, cache, ops[..|ops| - 1], n);
      match ops[|ops| - 1]
      case Alloc(m, _) => if m == n && ClassOf(t, n) < 0 && before > 0 then before - 1 else before
      case Free(m, _) => if m == n && ClassOf(t, n) < 0 && before < cache then before + 1 else before
      case TrimTo(level) => if level >= 1 then 0 else before
  }

  /** How many allocations of a history found a cached block of their size. */
  ghost function ReusesAfter(t: Table, cache: int, ops: seq<Op>): nat {
    if ops == [] then 0
    else
      var p, op := ops[..|ops| - 1], ops[|ops| - 1];
      ReusesAfter(t, cache, p)
      + if op.Alloc? && ClassOf(t, op.n) < 0 && CachedAfter(t, cache, p, op.n) > 0 then 1 else 0
  }

  ghost predicate CacheIs(t: Table, cache: int, s: State, ops: seq<Op>) {
    forall n: nat :: Count(s.hugeCached, n) == CachedAfter(t, cache, ops, n)
  }

  /** The state after one operation. */
  ghost function OpStep(t: Table, cache: int, s: State, op: Op): State
    requires Fits(t, s) && Total(t)
  {
    match op
    case Alloc(n, h) => Acquire(t, s, n, h)
    case Free(m, h) => Release(t, cache, s, m, h)
    case TrimTo(level) => Trim(t, s, level)
  }

  lemma CacheStep(t: Table, cache: int, s: State, ops: seq<Op>, op: Op)
    requires Fits(t, s) && Total(t) && CacheIs(t, cache, s, ops)
    ensures var s2 := OpStep(t, cache, s, op);
            && CacheIs(t, cache, s2, ops + [op])
            && s2.wouldHugeReuse - s.wouldHugeReuse
               == if op.Alloc? && ClassOf(t, op.n) < 0 && CachedAfter(t, cache, ops, op.n) > 0 then 1 else 0
  {
    hide ClassOf, Count, Fits, Acquire, Release, Trim, Commit;
    assert (ops + [op])[..|ops|] == ops;
    match op
    case Alloc(n, h) =>
      if ClassOf(t, n) < 0 {
        AcquireReuses(t, s, n, h);
      } else {
        AcquireSlotted(t, s, n, h);
      }
    case Free(m, h) =>
      if ClassOf(t, m) < 0 {
        ReleaseCaches(t, cache, s, m, h);
      } else {
        ReleaseSlotted(t, cache, s, m, h);
      }
    case TrimTo(level) =>
      TrimCaches(t, s, level);
      TrimCounters(t, s, level);
      forall n: nat
        ensures Count([], n) == 0
      {
        CountMultiset([], n);
      }
  }

  lemma TrimCounters(t: Table, s: State, level: int)
    requires Fits(t, s)
    ensures var s2 := Trim(t, s, level);
            && s2.wouldHugeReuse == s.wouldHugeReuse
            && s2.wouldReuse == s.wouldReuse && s2.wouldSegments == s.wouldSegments
  {
  }

  /** In every reachable state the cache and the number of reuses are those of the history. */
  lemma {:induction false} EveryRunCaches(t: Table, cache: int, ops: seq<Op>)
    requires Total(t) && SlotsOk(t)
    ensures CacheIs(t, cache, Run(t, cache, ops), ops)
    ensures Run(t, cache, ops).wouldHugeReuse == ReusesAfter(t, cache, ops)
  {
    if ops == [] {
      forall n: nat
        ensures Count([], n) == 0
      {
        CountMultiset([], n);
      }
    } else {
      hide ClassOf, Total, SlotsOk, CacheIs, Acquire, Release, Trim, CachedAfter;
      var p, op := ops[..|ops| - 1], ops[|ops| - 1];
      assert ops == p + [op];
      EveryRunCaches(t, cache, p);
      CacheStep(t, cache, Run(t, cache, p), p, op);
    }
  }

  // ---- the counters of a history -----------------------------------------------------------

  ghost function SlottedAllocs(t: Table, ops: seq<Op>): nat {
    if ops == [] then 0
    else
      var op := ops[|ops| - 1];
      SlottedAllocs(t, ops[..|ops| - 1]) + if op.Alloc? && ClassOf(t, op.n) >= 0 then 1 else 0
  }

  lemma HugeCounters(t: Table, cache: int, s: State, n: nat, h: Hint)
    requires Fits(t, s) && ClassOf(t, n) < 0
    ensures Acquire(t, s, n, h).wouldReuse == s.wouldReuse && Acquire(t, s, n, h).wouldSegments == s.wouldSegments
    ensures var s2 := Release(t, cache, s, n, h);
            s2.wouldReuse == s.wouldReuse && s2.wouldSegments == s.wouldSegments
  {
    hide ClassOf, RemoveFirst, Count;
  }

  /** Every slotted allocation is either a reuse or a new segment. */
  lemma {:induction false} EveryRunCountsAllocs(t: Table, cache: int, ops: seq<Op>)
    requires Total(t) && SlotsOk(t)
    ensures Run(t, cache, ops).wouldReuse + Run(t, cache, ops).wouldSegments == SlottedAllocs(t, ops)
  {
    hide ClassOf, SlotsOk, Acquire, Release, Trim, Commit;
    if ops != [] {
      var p := ops[..|ops| - 1];
      var s := Run(t, cache, p);
      EveryRunCountsAllocs(t, cache, p);
      match ops[|ops| - 1]
      case Alloc(n, h) => AllocCounted(t, cache, s, n, h);
      case Free(m, h) => FreeCounted(t, cache, s, m, h);
      case TrimTo(level) => TrimCounters(t, s, level);
    }
  }

  lemma AllocCounted(t: Table, cache: int, s: State, n: nat, h: Hint)
    requires Fits(t, s) && ClassOf(t, n) < |t.slots|
    ensures var s2 := Acquire(t, s, n, h);
            s2.wouldReuse + s2.wouldSegments
            == s.wouldReuse + s.wouldSegments + if ClassOf(t, n) >= 0 then 1 else 0
  {
    hide ClassOf, Acquire, Fits, Commit;
    if ClassOf(t, n) < 0 {
      HugeCounters(t, cache, s, n, h);
    } else {
      AcquireSlotted(t, s, n, h);
    }
  }

  lemma FreeCounted(t: Table, cache: int, s: State, n: nat, h: Hint)
    requires Fits(t, s) && ClassOf(t, n) < |t.slots|
    ensures var s2 := Release(t, cache, s, n, h);
            s2.wouldReuse == s.wouldReuse && s2.wouldSegments == s.wouldSegments
  {
    hide ClassOf, Release, Fits, Commit;
    if ClassOf(t, n) < 0 {
      HugeCounters(t, cache, s, n, h);
    } else {
      ReleaseSlotted(t, cache, s, n, h);
    }
  }

  // ---- traces as histories -------------------------------------------------------------------

  /** The operations a plan asks for: a block that moves between classes is taken before
      it is given back, and one that stays in its class asks for nothing. */
  function PlanOps(p: Plan): seq<Op> {
    match p
    case Skip => []
    case Take(n, h) => [Alloc(n, h)]
    case Give(o, h) => [Free(o, h)]
    case Move(o, n, h) => [Alloc(n, h), Free(o, NoHint)]
    case Keep(_, _) => []
  }

  function History(t: Table, recs: seq<Record>): seq<Op> {
    if recs == [] then [] else History(t, recs[..|recs| - 1]) + PlanOps(PlanOf(t, recs[|recs| - 1]))
  }

  /** Equal but for the two fields that only the replay keeps. */
  predicate SameArena(a: State, b: State) {
    a.(logical := b.logical, calls := b.calls) == b
  }

  lemma SameAcquire(t: Table, a: State, b: State, n: nat, h: Hint)
    requires Fits(t, a) && Fits(t, b) && SameArena(a, b) && ClassOf(t, n) < |t.slots|
    ensures SameArena(Acquire(t, a, n, h), Acquire(t, b, n, h))
  {
    hide ClassOf, NSlots, RemoveFirst, AcquireCounts, SlotsOk;
  }

  lemma SameRelease(t: Table, cache: int, a: State, b: State, n: nat, h: Hint)
    requires Fits(t, a) && Fits(t, b) && SameArena(a, b) && ClassOf(t, n) < |t.slots|
    ensures SameArena(Release(t, cache, a, n, h), Release(t, cache, b, n, h))
  {
    hide ClassOf, NSlots, RemoveFirst, Count, SlotsOk;
  }

  /** One more operation at the end of a run. */
  lemma RunOne(t: Table, cache: int, ops: seq<Op>, op: Op)
    requires Total(t) && SlotsOk(t)
    ensures Run(t, cache, ops + [op]) == OpStep(t, cache, Run(t, cache, ops), op)
  {
    assert (ops + [op])[..|ops|] == ops;
  }

  lemma SameLogical(a: State, b: State, d: int)
    requires SameArena(a, b)
    ensures SameArena(AddLogical(a, d), b)
  {
  }

  lemma SameTaken(t: Table, cache: int, s: State, ops: seq<Op>, n: nat, h: Hint)
    requires Total(t) && SlotsOk(t) && Fits(t, s) && SameArena(s, Run(t, cache, ops))
    ensures SameArena(Acquire(t, s, n, h), Run(t, cache, ops + [Alloc(n, h)]))
  {
    hide ClassOf, Run, Acquire, SameArena;
    SameAcquire(t, s, Run(t, cache, ops), n, h);
    RunOne(t, cache, ops, Alloc(n, h));
  }

  lemma SameGiven(t: Table, cache: int, s: State, ops: seq<Op>, n: nat, h: Hint)
    requires Total(t) && SlotsOk(t) && Fits(t, s) && SameArena(s, Run(t, cache, ops))
    ensures SameArena(Release(t, cache, s, n, h), Run(t, cache, ops + [Free(n, h)]))
  {
    hide ClassOf, Run, Release, SameArena;
    SameRelease(t, cache, s, Run(t, cache, ops), n, h);
    RunOne(t, cache, ops, Free(n, h));
  }

  lemma SameCarry(t: Table, cache: int, s: State, ops: seq<Op>, p: Plan)
    requires Total(t) && SlotsOk(t) && Fits(t, s) && SameArena(s, Run(t, cache, ops))
    ensures SameArena(Carry(t, cache, s, p), Run(t, cache, ops + PlanOps(p)))
  {
    hide ClassOf, Run, Acquire, Release, SameArena, Fits;
    var all := ops + PlanOps(p);
    match p
    case Skip => assert all == ops;
    case Keep(o, n) =>
      assert all == ops;
      SameLogical(s, Run(t, cache, ops), n - o);
    case Take(n, h) =>
      SameTaken(t, cache, s, ops, n, h);
      SameLogical(Acquire(t, s, n, h), Run(t, cache, all), n);
    case Give(o, h) =>
      SameGiven(t, cache, s, ops, o, h);
      SameLogical(Release(t, cache, s, o, h), Run(t, cache, all), 0 - o);
    case Move(o, n, h) =>
      SameTaken(t, cache, s, ops, n, h);
      AcquireFits(t, s, n, h);
      SameGiven(t, cache, Acquire(t, s, n, h), ops + [Alloc(n, h)], o, NoHint);
      assert ops + [Alloc(n, h)] + [Free(o, NoHint)] == all;
      SameLogical(Release(t, cache, Acquire(t, s, n, h), o, NoHint), Run(t, cache, all), n - o);
  }

  /** A replay is the run of the history of its trace. */
  lemma {:induction false} ReplayIsRun(t: Table, cache: int, recs: seq<Record>)
    requires Total(t) && SlotsOk(t)
    ensures SameArena(Replayed(t, cache, recs), Run(t, cache, History(t, recs)))
  {
    hide Total, ClassOf, PlanOps, PlanOf, Carry, SlotsOk, SameArena, Run;
    if recs == [] {
      EmptySame(t, cache);
    } else {
      var k := |recs| - 1;
      var s := Replayed(t, cache, recs[..k]);
      ReplayIsRun(t, cache, recs[..k]);
      SameCalls(s, Run(t, cache, History(t, recs[..k])));
      SameCarry(t, cache, s.(calls := s.calls + 1), History(t, recs[..k]), PlanOf(t, recs[k]));
    }
  }

  lemma SameCalls(a: State, b: State)
    requires SameArena(a, b)
    ensures SameArena(a.(calls := a.calls + 1), b)
  {
  }

  lemma EmptySame(t: Table, cache: int)
    requires Total(t) && SlotsOk(t)
    ensures SameArena(Empty(t), Run(t, cache, []))
  {
    hide ClassOf;
  }

  /** What a replay predicts: reuses of the huge cache, and a reuse or a new segment for
      every slotted acquisition. */
  lemma ReplayPredicts(t: Table, cache: int, recs: seq<Record>)
    requires Total(t) && SlotsOk(t)
    ensures var s, ops := Replayed(t, cache, recs), History(t, recs);
            && CacheIs(t, cache, s, ops)
            && s.wouldHugeReuse == ReusesAfter(t, cache, ops)
            && s.wouldReuse + s.wouldSegments == SlottedAllocs(t, ops)
  {
    hide Total, ClassOf, SlotsOk, Replayed, Run, History, Count;
    var ops := History(t, recs);
    ReplayIsRun(t, cache, recs);
    EveryRunCaches(t, cache, ops);
    EveryRunCountsAllocs(t, cache, ops);
  }

  /** Every record is counted as one call. */
  lemma {:induction false} ReplayCountsCalls(t: Table, cache: int, recs: seq<Record>)
    requires Total(t) && SlotsOk(t)
    ensures Replayed(t, cache, recs).calls == |recs|
  {
    hide Total, ClassOf, SlotsOk, Carry;
    if recs != [] {
      var k := |recs| - 1;
      ReplayCountsCalls(t, cache, recs[..k]);
      var s := Replayed(t, cache, recs[..k]);
      CallsFit(t, s, s.(calls := s.calls + 1));
      CarryCalls(t, cache, s.(calls := s.calls + 1), PlanOf(t, recs[k]));
    }
  }

  lemma CarryCalls(t: Table, cache: int, s: State, p: Plan)
    requires Fits(t, s) && Total(t)
    ensures Carry(t, cache, s, p).calls == s.calls
  {
    hide Acquire, Release, ClassOf, Fits;
    match p
    case Skip =>
    case Take(n, h) => SideFields(t, cache, s, n, h);
    case Give(o, h) => SideFields(t, cache, s, o, h);
    case Move(o, n, h) =>
      SideFields(t, cache, s, n, h);
      AcquireFits(t, s, n, h);
      SideFields(t, cache, Acquire(t, s, n, h), o, NoHint);
    case Keep(o, n) =>
  }

  // ---- what is reported ------------------------------------------------------------------------

  /** The note on a record whose class the engine got differently: a freed size on a free or
      a resize to nothing, else the new size; the engine's class, then the table's. */
  function NoteOf(t: Table, r: Record): Mismatch
    requires r.hint.Hint?
  {
    if r.kind.FreeRec? || (r.kind.ReallocRec? && r.nsize == 0) then
      FreeMismatch(r.osize, r.hint.cls, ClassOf(t, r.osize))
    else AllocMismatch(r.nsize, r.hint.cls, ClassOf(t, r.nsize))
  }

  /** A record adds its note if its class disagrees and it does not resize within a class,
      and nothing otherwise. */
  lemma StepNotes(t: Table, cache: int, s: State, r: Record)
    requires Fits(t, s) && Total(t)
    ensures Step(t, cache, s, r).mismatch
            == s.mismatch + if Disagrees(t, r) && !PlanOf(t, r).Keep? then [NoteOf(t, r)] else []
  {
    hide ClassOf, Carry, NoteTaken, NoteGiven;
    var s1 := s.(calls := s.calls + 1);
    CallsFit(t, s, s1);
    CarryNotes(t, cache, s1, PlanOf(t, r));
    PlanNotes(t, r);
  }

  /** The notes a plan leads to. */
  function NotesOf(t: Table, p: Plan): seq<Mismatch> {
    match p
    case Take(n, h) => NoteTaken(t, n, h)
    case Give(o, h) => NoteGiven(t, o, h)
    case Move(o, n, h) => NoteTaken(t, n, h)
    case _ => []
  }

  lemma PlanNotes(t: Table, r: Record)
    ensures NotesOf(t, PlanOf(t, r)) == if Disagrees(t, r) && !PlanOf(t, r).Keep? then [NoteOf(t, r)] else []
  {
    hide ClassOf;
  }

  lemma CarryNotes(t: Table, cache: int, s: State, p: Plan)
    requires Fits(t, s) && Total(t)
    ensures Carry(t, cache, s, p).mismatch == s.mismatch + NotesOf(t, p)
  {
    hide Acquire, Release, ClassOf, Fits, NoteTaken, NoteGiven;
    match p
    case Skip =>
    case Take(n, h) => NotesTaken(t, s, n, h);
    case Give(o, h) => NotesGiven(t, cache, s, o, h);
    case Move(o, n, h) =>
      NotesTaken(t, s, n, h);
      AcquireFits(t, s, n, h);
      NotesGiven(t, cache, Acquire(t, s, n, h), o, NoHint);
      assert NoteGiven(t, o, NoHint) == [] by { NoHintNoNote(t, o); }
    case Keep(o, n) =>
  }

  function NoteTaken(t: Table, n: nat, h: Hint): seq<Mismatch> {
    if h.Hint? && h.cls != ClassOf(t, n) then [AllocMismatch(n, h.cls, ClassOf(t, n))] else []
  }

  function NoteGiven(t: Table, n: nat, h: Hint): seq<Mismatch> {
    if h.Hint? && h.cls != ClassOf(t, n) then [FreeMismatch(n, h.cls, ClassOf(t, n))] else []
  }

  lemma NoHintNoNote(t: Table, n: nat)
    ensures NoteGiven(t, n, NoHint) == []
  {
  }

  lemma NotesTaken(t: Table, s: State, n: nat, h: Hint)
    requires Fits(t, s) && ClassOf(t, n) < |t.slots|
    ensures Acquire(t, s, n, h).mismatch == s.mismatch + NoteTaken(t, n, h)
  {
    hide ClassOf, NSlots, RemoveFirst, AcquireCounts;
  }

  lemma NotesGiven(t: Table, cache: int, s: State, n: nat, h: Hint)
    requires Fits(t, s) && ClassOf(t, n) < |t.slots|
    ensures Release(t, cache, s, n, h).mismatch == s.mismatch + NoteGiven(t, n, h)
  {
    hide ClassOf, NSlots, RemoveFirst, Count;
  }
}
