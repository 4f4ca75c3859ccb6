/** The accounting of the Lua arena (scripts/lua_mem_model.py) as a function of
    its state, and what every run of it keeps. */
module ArenaModel {
  import opened Arith
  import opened Sums
  import opened ClassTables

  /** The per-class counters. */
  datatype Counts = Counts(used: int, free: int, segments: int, highWater: int)

  datatype Hint = NoHint | Hint(cls: int)

  /** A recorded disagreement between the engine's class and the model's. */
  datatype Mismatch = AllocMismatch(nsize: nat, hinted: int, derived: int)
                    | FreeMismatch(osize: nat, hinted: int, derived: int)

  datatype State = State(
    cls: seq<Counts>,
    hugeLive: seq<nat>,
    hugeCached: seq<nat>,
    logical: int,
    calls: int,
    wouldSegments: int,
    wouldReuse: int,
    wouldHugeReuse: int,
    mismatch: seq<Mismatch>)

  ghost predicate Fits(t: Table, s: State) {
    |s.cls| == |t.slots| && SlotsOk(t)
  }

  function Empty(t: Table): State {
    State(seq(|t.slots|, i => Counts(0, 0, 0, 0)), [], [], 0, 0, 0, 0, 0, [])
  }

  // ---- acquire ----------------------------------------------------------------

  function AcquireCounts(k: Counts, ns: nat): Counts {
    var used := k.used + 1;
    if k.free > 0 then Counts(used, k.free - 1, k.segments, Max(k.highWater, used))
    else Counts(used, ns - 1, k.segments + 1, Max(k.highWater, used))
  }

  function NoteAlloc(s: State, n: nat, hint: Hint, cid: int): State {
    if hint.Hint? && hint.cls != cid then s.(mismatch := s.mismatch + [AllocMismatch(n, hint.cls, cid)]) else s
  }

  function AcquireHuge(s: State, n: nat): State {
    if n in s.hugeCached then
      s.(hugeCached := RemoveFirst(s.hugeCached, n), hugeLive := s.hugeLive + [n],
         wouldHugeReuse := s.wouldHugeReuse + 1)
    else s.(hugeLive := s.hugeLive + [n])
  }

  function AcquireSlot(s: State, cid: nat, ns: nat): State
    requires cid < |s.cls|
  {
    var s' := s.(cls := s.cls[cid := AcquireCounts(s.cls[cid], ns)]);
    if s.cls[cid].free > 0 then s'.(wouldReuse := s.wouldReuse + 1)
    else s'.(wouldSegments := s.wouldSegments + 1)
  }

  ghost function Acquire(t: Table, s: State, n: nat, hint: Hint): State
    requires Fits(t, s) && ClassOf(t, n) < |t.slots|
  {
    var cid := ClassOf(t, n);
    var noted := NoteAlloc(s, n, hint, cid);
    if cid < 0 then AcquireHuge(noted, n) else AcquireSlot(noted, cid, NSlots(t, cid))
  }

  // ---- release ----------------------------------------------------------------

  function NoteFree(s: State, n: nat, hint: Hint, cid: int): State {
    if hint.Hint? && hint.cls != cid then s.(mismatch := s.mismatch + [FreeMismatch(n, hint.cls, cid)]) else s
  }

  function ReleaseHuge(s: State, n: nat, cache: int): State {
    var s' := s.(hugeLive := RemoveFirst(s.hugeLive, n));
    if Count(s.hugeCached, n) < cache then s'.(hugeCached := s.hugeCached + [n]) else s'
  }

  function ReleaseCounts(k: Counts): Counts {
    k.(used := k.used - 1, free := k.free + 1)
  }

  ghost function Release(t: Table, cache: int, s: State, n: nat, hint: Hint): State
    requires Fits(t, s) && ClassOf(t, n) < |t.slots|
  {
    var cid := ClassOf(t, n);
    var noted := NoteFree(s, n, hint, cid);
    if cid < 0 then ReleaseHuge(noted, n, cache)
    else noted.(cls := s.cls[cid := ReleaseCounts(s.cls[cid])])
  }

  // ---- trim ---------------------------------------------------------------------

  /** Give back whole free segments while more than `need` are held. */
  function Shed(k: Counts, need: int, ns: nat): Counts
    decreases k.segments - need
  {
    if k.segments > need && k.free >= ns then
      Shed(k.(segments := k.segments - 1, free := k.free - ns), need, ns)
    else k
  }

  function TrimTarget(k: Counts): int {
    Max(k.used, k.highWater / 2)
  }

  function TrimCounts(k: Counts, ns: nat): Counts
    requires ns > 0
  {
    if k.segments == 0 then k
    else Shed(k.(highWater := TrimTarget(k)), (TrimTarget(k) + ns - 1) / ns, ns)
  }

  ghost function TrimClasses(t: Table, cls: seq<Counts>): seq<Counts>
    requires |cls| == |t.slots| && SlotsOk(t)
  {
    seq(|cls|, c requires 0 <= c < |cls| => TrimCounts(cls[c], NSlots(t, c)))
  }

  ghost function Trim(t: Table, s: State, level: int): State
    requires Fits(t, s)
  {
    s.(cls := TrimClasses(t, s.cls), hugeCached := if level >= 1 then [] else s.hugeCached)
  }

  // ---- the reported metrics -----------------------------------------------------

  /** Bytes committed in segments, class by class. */
  ghost function SegmentBytes(t: Table, cls: seq<Counts>): seq<int>
    requires |cls| == |t.slots| && SlotsOk(t)
  {
    seq(|cls|, c requires 0 <= c < |cls| => cls[c].segments * Payload(t, c))
  }

  /** Bytes of the slots in use, class by class. */
  ghost function UsedBytes(t: Table, cls: seq<Counts>): seq<int>
    requires |cls| == |t.slots|
  {
    seq(|cls|, c requires 0 <= c < |cls| => cls[c].used * t.slots[c])
  }

  ghost function Commit(t: Table, s: State): int
    requires Fits(t, s)
  {
    SumSeq(SegmentBytes(t, s.cls)) + SumSeq(s.hugeLive) + SumSeq(s.hugeCached)
  }

  /** The difference whose negative part `internal_waste` clamps away. */
  ghost function RawWaste(t: Table, s: State): int
    requires Fits(t, s)
  {
    SumSeq(UsedBytes(t, s.cls)) + SumSeq(s.hugeLive) - s.logical
  }

  function Spares(k: Counts, ns: nat): int
    requires ns > 0
  {
    if k.segments < 2 then 0 else Min(k.free / ns, k.segments - 1)
  }

  ghost function PlanBytes(t: Table, cls: seq<Counts>): seq<int>
    requires |cls| == |t.slots| && SlotsOk(t)
  {
    seq(|cls|, c requires 0 <= c < |cls| => Spares(cls[c], NSlots(t, c)) * Payload(t, c))
  }

  // ---- one class ------------------------------------------------------------------

  /** Slots are neither lost nor invented, and the segments are exactly those
      the high-water mark calls for. */
  predicate ClassInv(k: Counts, ns: nat)
    requires ns > 0
  {
    && 0 <= k.used <= k.highWater
    && k.used + k.free == k.segments * ns
    && k.segments == CeilDiv(k.highWater, ns)
  }

  lemma ClassInvBounds(k: Counts, ns: nat)
    requires ns > 0 && ClassInv(k, ns)
    ensures k.highWater <= k.segments * ns < k.highWater + ns
    ensures k.free >= 0 && k.segments >= 0
  {
    CeilDivLeast(k.highWater, ns, 0);
  }

  /** A quotient rounded up is fixed by its bounds. */
  lemma CeilDivUnique(a: nat, b: nat, q: nat)
    requires b > 0 && a <= q * b < a + b
    ensures CeilDiv(a, b) == q
  {
    DivUnique(a + b - 1, b, q);
  }

  lemma AcquireClass(k: Counts, ns: nat)
    requires ns > 0 && ClassInv(k, ns)
    ensures ClassInv(AcquireCounts(k, ns), ns)
    ensures AcquireCounts(k, ns).used == k.used + 1
  {
    ClassInvBounds(k, ns);
    hide CeilDiv;
    var k2 := AcquireCounts(k, ns);
    if k.free == 0 {
      assert k2.segments * ns == k.segments * ns + ns;
    }
    CeilDivUnique(k2.highWater, ns, k2.segments);
  }

  lemma ReleaseClass(k: Counts, ns: nat)
    requires ns > 0 && ClassInv(k, ns) && k.used >= 1
    ensures ClassInv(ReleaseCounts(k), ns)
  {
  }

  /** Shedding goes all the way down to `need` when `need` segments hold the used slots. */
  lemma {:induction false} ShedAll(k: Counts, need: nat, ns: nat)
    requires ns > 0 && k.used + k.free == k.segments * ns
    requires k.used <= need * ns && need <= k.segments
    ensures var r := Shed(k, need, ns);
            && r.segments == need && r.used == k.used && r.highWater == k.highWater
            && r.used + r.free == need * ns
    decreases k.segments - need
  {
    if k.segments > need {
      MulMono(need + 1, k.segments, ns);
      assert (need + 1) * ns == need * ns + ns;
      var k2 := k.(segments := k.segments - 1, free := k.free - ns);
      assert k2.segments * ns == k.segments * ns - ns;
      ShedAll(k2, need, ns);
    }
  }

  /** Trim leaves exactly the segments that half the high-water mark (or the used
      slots) calls for; the guard on free slots never stops it early. */
  lemma TrimClass(k: Counts, ns: nat)
    requires ns > 0 && ClassInv(k, ns)
    ensures var r := TrimCounts(k, ns);
            && ClassInv(r, ns)
            && r.used == k.used
            && r.highWater == Max(k.used, k.highWater / 2)
            && r.segments == CeilDiv(Max(k.used, k.highWater / 2), ns)
            && r.segments <= k.segments
  {
    var target: nat := TrimTarget(k);
    ClassInvBounds(k, ns);
    CeilDivLeast(target, ns, k.segments);
    if k.segments == 0 {
      assert target == 0 == k.highWater;
    } else {
      ShedAll(k.(highWater := target), CeilDiv(target, ns), ns);
    }
  }

  // ---- repeated trims: geometric decay to the minimum --------------------------

  function TrimTimes(k: Counts, ns: nat, times: nat): Counts
    requires ns > 0
  {
    if times == 0 then k else TrimCounts(TrimTimes(k, ns, times - 1), ns)
  }

  /** After `times` trims with no traffic the mark is `max(used, hw0 / 2^times)`. */
  lemma {:induction false} TrimDecay(k: Counts, ns: nat, times: nat)
    requires ns > 0 && ClassInv(k, ns)
    ensures var r := TrimTimes(k, ns, times);
            && ClassInv(r, ns)
            && r.used == k.used
            && r.highWater == Max(k.used, k.highWater / Pow2(times))
  {
    if times == 0 {
      assert k.highWater / 1 == k.highWater;
    } else {
      TrimDecay(k, ns, times - 1);
      var r := TrimTimes(k, ns, times - 1);
      TrimClass(r, ns);
      HalveTwice(k.highWater, Pow2(times - 1));
      if k.highWater / Pow2(times - 1) <= k.used {
        assert r.highWater == k.used;
      }
    }
  }

  /** Enough trims reach the least number of segments that hold the used slots. */
  lemma TrimReachesMinimum(k: Counts, ns: nat, times: nat)
    requires ns > 0 && ClassInv(k, ns) && k.highWater < Pow2(times)
    ensures TrimTimes(k, ns, times).segments == CeilDiv(k.used, ns)
    ensures forall m: nat :: k.used <= m * ns ==> TrimTimes(k, ns, times).segments <= m
  {
    TrimDecay(k, ns, times);
    assert k.highWater / Pow2(times) == 0 by {
      DivUnique(k.highWater, Pow2(times), 0);
    }
    forall m: nat | k.used <= m * ns
      ensures CeilDiv(k.used, ns) <= m
    {
      CeilDivLeast(k.used, ns, m);
    }
  }

  // ---- the compaction plan --------------------------------------------------------

  /** The live slots still fit after `m` segments are emptied. */
  predicate Packs(k: Counts, ns: nat, m: int) {
    k.used <= (k.segments - m) * ns
  }

  /** The plan keeps the fewest segments that hold the live slots, but at least one if
      there is one: it is feasible, and one more emptied segment would not be. */
  lemma PlanOptimal(k: Counts, ns: nat)
    requires ns > 0 && ClassInv(k, ns)
    ensures var m := Spares(k, ns);
            && k.segments - m == Max(Min(1, k.segments), CeilDiv(k.used, ns))
            && Packs(k, ns, m)
            && m * ns <= k.free
    ensures forall m :: Spares(k, ns) < m <= k.segments - 1 ==> !Packs(k, ns, m)
  {
    var need := CeilDiv(k.used, ns);
    CeilDivLeast(k.used, ns, k.segments);
    ClassInvBounds(k, ns);
    hide CeilDiv;
    var q := k.segments - need;
    assert q * ns == k.segments * ns - need * ns;
    DivUnique(k.free, ns, q);
    var kept := k.segments - Spares(k, ns);
    MulMono(need, kept, ns);
    assert Spares(k, ns) * ns == k.segments * ns - kept * ns;
    forall m | Spares(k, ns) < m <= k.segments - 1
      ensures !Packs(k, ns, m)
    {
      CeilDivLeast(k.used, ns, k.segments - m);
    }
  }
}
