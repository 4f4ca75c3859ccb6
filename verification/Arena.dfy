/** The arena object: counters and huge-block lists updated in place, tied to the
    functions of `ArenaModel` and, for a whole trace, of `ArenaReplay`. */
module ArenaObjects {
  import opened Arith
  import opened Sums
  import opened ClassTables
  import opened ClassTableBuild
  import opened ArenaRuns
  import opened ArenaReplay
  import opened Model = ArenaModel

  class Arena {
    const table: ClassTable
    const hugeCache: int
    /** The four per-class lists of the source, as one list of records. */
    var cls: seq<Counts>
    var hugeLive: seq<nat>
    var hugeCached: seq<nat>
    var logical: int
    var calls: int
    var wouldSegments: int
    var wouldReuse: int
    var wouldHugeReuse: int
    var mismatch: seq<Mismatch>

    ghost function View(): State
      reads this
    {
      State(cls, hugeLive, hugeCached, logical, calls, wouldSegments, wouldReuse, wouldHugeReuse, mismatch)
    }

    ghost predicate Valid()
      reads this, table
    {
      |cls| == |table.slots| && WellBuilt(table.View())
    }

    lemma ViewFits()
      requires Valid()
      ensures Fits(table.View(), View())
    {
    }

    constructor (table: ClassTable, hugeCache: int)
      requires WellBuilt(table.View())
      ensures this.table == table && this.hugeCache == hugeCache
      ensures Valid() && View() == Empty(table.View())
    {
      this.table, this.hugeCache := table, hugeCache;
      var n := |table.slots|;
      cls := seq(n, i => Counts(0, 0, 0, 0));
      hugeLive, hugeCached, mismatch := [], [], [];
      logical, calls, wouldSegments, wouldReuse, wouldHugeReuse := 0, 0, 0, 0, 0;
    }

    method Acquire(n: nat, hinted: Hint)
      requires Valid() && ClassOf(table.View(), n) < |table.slots|
      modifies this
      ensures Valid() && View() == Model.Acquire(table.View(), old(View()), n, hinted)
    {
      hide WellBuilt, ClassOf, RemoveFirst;
      var cid := table.Classify(n);
      if hinted.Hint? && hinted.cls != cid {
        mismatch := mismatch + [AllocMismatch(n, hinted.cls, cid)];
      }
      if cid < 0 {
        TakeHuge(n);
        return;
      }
      var k := cls[cid];
      k := k.(used := k.used + 1);
      if k.free > 0 {
        k := k.(free := k.free - 1);
        wouldReuse := wouldReuse + 1;
      } else {
        SlotPositive(table.View(), cid);
        k := k.(segments := k.segments + 1, free := NSlots(table.View(), cid) - 1);
        wouldSegments := wouldSegments + 1;
      }
      k := k.(highWater := Max(k.highWater, k.used));
      cls := cls[cid := k];
    }

    /** Reuse the first cached block of exactly this size, if there is one. */
    method TakeHuge(n: nat)
      modifies this`hugeCached, this`hugeLive, this`wouldHugeReuse
      ensures View() == AcquireHuge(old(View()), n)
    {
      var i := 0;
      while i < |hugeCached|
        invariant 0 <= i <= |hugeCached| && n !in hugeCached[..i]
        invariant View() == old(View())
      {
        if hugeCached[i] == n {
          RemoveAt(hugeCached, i, n);
          assert n in hugeCached;
          hugeCached := hugeCached[..i] + hugeCached[i + 1..];
          hugeLive := hugeLive + [n];
          wouldHugeReuse := wouldHugeReuse + 1;
          return;
        }
        i := i + 1;
      }
      assert hugeCached[..i] == hugeCached;
      hugeLive := hugeLive + [n];
    }

    method Release(n: nat, hinted: Hint)
      requires Valid() && ClassOf(table.View(), n) < |table.slots|
      modifies this
      ensures Valid() && View() == Model.Release(table.View(), hugeCache, old(View()), n, hinted)
    {
      hide WellBuilt, ClassOf, RemoveFirst, Count;
      var cid := table.Classify(n);
      if hinted.Hint? && hinted.cls != cid {
        mismatch := mismatch + [FreeMismatch(n, hinted.cls, cid)];
      }
      if cid < 0 {
        GiveHuge(n);
        return;
      }
      cls := cls[cid := cls[cid].(used := cls[cid].used - 1, free := cls[cid].free + 1)];
    }

    /** Drop one live entry of this size, and cache the block unless enough are cached. */
    method GiveHuge(n: nat)
      modifies this`hugeCached, this`hugeLive
      ensures View() == ReleaseHuge(old(View()), n, hugeCache)
    {
      if n in hugeLive {
        hugeLive := RemoveFirst(hugeLive, n);
      } else {
        RemoveAbsent(hugeLive, n);
      }
      var same, i := 0, 0;
      while i < |hugeCached|
        invariant 0 <= i <= |hugeCached| && same == Count(hugeCached[..i], n)
      {
        if hugeCached[i] == n {
          same := same + 1;
        }
        assert hugeCached[..i + 1][..i] == hugeCached[..i];
        i := i + 1;
      }
      assert hugeCached[..i] == hugeCached;
      if same < hugeCache {
        hugeCached := hugeCached + [n];
      }
    }

    /** One class of `trim`: lower the mark, then give back whole free segments. */
    method TrimClassAt(cid: nat, ns: nat, payload: nat) returns (freed: int)
      requires cid < |cls| && ns > 0
      modifies this`cls
      ensures cls == old(cls)[cid := TrimCounts(old(cls)[cid], ns)]
      ensures freed == (old(cls)[cid].segments - cls[cid].segments) * payload
    {
      freed := 0;
      var k := cls[cid];
      if k.segments == 0 {
        return;
      }
      var target := Max(k.used, k.highWater / 2);
      var need := (target + ns - 1) / ns;
      k := k.(highWater := target);
      while k.segments > need && k.free >= ns
        invariant Shed(k, need, ns) == TrimCounts(old(cls)[cid], ns)
        invariant freed == (old(cls)[cid].segments - k.segments) * payload
        decreases k.segments - need
      {
        k := k.(segments := k.segments - 1, free := k.free - ns);
        freed := freed + payload;
      }
      cls := cls[cid := k];
    }

    method Trim(level: int) returns (freed: int)
      requires Valid()
      modifies this
      ensures Valid() && View() == Model.Trim(table.View(), old(View()), level)
      ensures freed == SumSeq(FreedBytes(table.View(), old(cls)))
    {
      freed := TrimAll();
      if level >= 1 {
        hugeCached := [];
      }
    }

    method TrimAll() returns (freed: int)
      requires Valid()
      modifies this`cls
      ensures Valid() && cls == TrimClasses(table.View(), old(cls))
      ensures freed == SumSeq(FreedBytes(table.View(), old(cls)))
    {
      ViewFits();
      ghost var t := table.View();
      ghost var gains := FreedBytes(t, cls);
      ghost var after := TrimClasses(t, cls);
      hide WellBuilt, TrimCounts, NSlots, Payload, SumSeq;
      freed := 0;
      SumZero(gains[..0]);
      var cid := 0;
      while cid < |cls|
        invariant 0 <= cid <= |cls| == |old(cls)| == |table.slots|
        invariant forall c :: 0 <= c < cid ==> cls[c] == after[c]
        invariant forall c :: cid <= c < |cls| ==> cls[c] == old(cls)[c]
        invariant freed == SumSeq(gains[..cid])
      {
        SlotPositive(table.View(), cid);
        var more := TrimClassAt(cid, NSlots(table.View(), cid), Payload(table.View(), cid));
        SumAppend(gains[..cid], gains[cid]);
        assert gains[..cid + 1] == gains[..cid] + [gains[cid]];
        freed := freed + more;
        cid := cid + 1;
      }
      assert cls == after;
      assert gains[..cid] == gains;
    }

    /** Sum `v` from left to right. */
    static method SumList(v: seq<int>) returns (total: int)
      ensures total == SumSeq(v)
    {
      total := 0;
      for i := 0 to |v|
        invariant total == SumSeq(v[..i])
      {
        SumAppend(v[..i], v[i]);
        assert v[..i + 1] == v[..i] + [v[i]];
        total := total + v[i];
      }
      assert v[..|v|] == v;
    }

    method Commit() returns (total: int)
      requires Valid()
      ensures Fits(table.View(), View()) && total == Model.Commit(table.View(), View())
    {
      ViewFits();
      ghost var v := SegmentBytes(table.View(), cls);
      hide WellBuilt, Payload, NSlots;
      total := 0;
      for cid := 0 to |cls|
        invariant total == SumSeq(v[..cid])
      {
        SumAppend(v[..cid], v[cid]);
        assert v[..cid + 1] == v[..cid] + [v[cid]];
        SlotPositive(table.View(), cid);
        total := total + cls[cid].segments * Payload(table.View(), cid);
      }
      assert v[..|cls|] == v;
      var live := SumList(hugeLive);
      var cached := SumList(hugeCached);
      total := total + live + cached;
    }

    method CompactionPlan() returns (would: int)
      requires Valid()
      ensures Fits(table.View(), View()) && would == SumSeq(PlanBytes(table.View(), View().cls))
    {
      ViewFits();
      ghost var v := PlanBytes(table.View(), cls);
      hide WellBuilt, Payload, NSlots;
      would := 0;
      for cid := 0 to |cls|
        invariant would == SumSeq(v[..cid])
      {
        SumAppend(v[..cid], v[cid]);
        assert v[..cid + 1] == v[..cid] + [v[cid]];
        SlotPositive(table.View(), cid);
        var perSeg := NSlots(table.View(), cid);
        if !(cls[cid].segments < 2 || perSeg == 0) {
          var spares := Min(cls[cid].free / perSeg, cls[cid].segments - 1);
          would := would + spares * Payload(table.View(), cid);
        }
      }
      assert v[..|cls|] == v;
    }

    method InternalWaste() returns (waste: int)
      requires Valid()
      ensures Fits(table.View(), View()) && waste == Max(0, RawWaste(table.View(), View()))
    {
      ViewFits();
      ghost var v := UsedBytes(table.View(), cls);
      hide WellBuilt;
      var slotted := 0;
      for cid := 0 to |cls|
        invariant slotted == SumSeq(v[..cid])
      {
        SumAppend(v[..cid], v[cid]);
        assert v[..cid + 1] == v[..cid] + [v[cid]];
        slotted := slotted + cls[cid].used * SlotSize(table.View(), cid);
      }
      assert v[..|cls|] == v;
      var live := SumList(hugeLive);
      waste := Max(0, slotted + live - logical);
    }

    /** What the replay decides to do with a record. */
    method Decide(r: Record) returns (p: Plan)
      requires Valid()
      ensures p == PlanOf(table.View(), r)
    {
      hide WellBuilt, ClassOf;
      match r.kind
      case FreeRec =>
        p := if r.osize != 0 then Give(r.osize, r.hint) else Skip;
      case AllocRec =>
        p := Take(r.nsize, r.hint);
      case ReallocRec =>
        if r.nsize == 0 {
          p := Give(r.osize, r.hint);
        } else if r.osize == 0 {
          p := Take(r.nsize, r.hint);
        } else {
          var was := table.Classify(r.osize);
          var now := table.Classify(r.nsize);
          p := if was != now then Move(r.osize, r.nsize, r.hint) else Keep(r.osize, r.nsize);
        }
      case OtherRec =>
        p := Skip;
    }

    method CarryOut(p: Plan)
      requires Valid() && Total(table.View())
      modifies this
      ensures Valid() && View() == Carry(table.View(), hugeCache, old(View()), p)
    {
      ViewFits();
      hide WellBuilt, ClassOf, Model.Acquire, Model.Release;
      match p
      case Skip =>
      case Take(n, h) =>
        Acquire(n, h);
        logical := logical + n;
      case Give(o, h) =>
        Release(o, h);
        logical := logical - o;
      case Move(o, n, h) =>
        Acquire(n, h);
        Release(o, NoHint);
        logical := logical + (n - o);
      case Keep(o, n) =>
        logical := logical + (n - o);
    }

    /** One record of a trace. */
    method Apply(r: Record)
      requires Valid() && Total(table.View())
      modifies this
      ensures Valid() && View() == Step(table.View(), hugeCache, old(View()), r)
    {
      ViewFits();
      hide WellBuilt, ClassOf, Carry, PlanOf;
      calls := calls + 1;
      assert View() == old(View()).(calls := old(View()).calls + 1);
      var plan := Decide(r);
      CarryOut(plan);
    }
  }

  lemma SlotPositive(t: Table, cid: nat)
    requires WellBuilt(t) && cid < |t.slots|
    ensures t.slots[cid] > 0
  {
  }

  /** Replay a trace file: blank lines are skipped, a line that is not JSON ends it. */
  method Replay(lines: seq<Line>, table: ClassTable, hugeCache: int) returns (arena: Arena)
    requires WellBuilt(table.View()) && Total(table.View())
    ensures fresh(arena) && arena.table == table && arena.hugeCache == hugeCache && arena.Valid()
    ensures arena.View() == Replayed(table.View(), hugeCache, Records(lines))
  {
    arena := new Arena(table, hugeCache);
    ghost var t := table.View();
    ghost var done: seq<Record> := [];
    var i := 0;
    assert lines[0..] == lines && done + Records(lines) == Records(lines);
    hide WellBuilt, Step, Total, SlotsOk, Empty, Records, Replayed;
    ReplayedNone(t, hugeCache);
    while i < |lines|
      invariant 0 <= i <= |lines| && arena.Valid() && t == table.View() && SlotsOk(t)
      invariant done + Records(lines[i..]) == Records(lines)
      invariant arena.View() == Replayed(t, hugeCache, done)
    {
      RecordsAt(lines, i, done);
      var line := lines[i];
      if line.NotJson? {
        return;
      }
      if line.Entry? {
        arena.Apply(line.rec);
        ReplayedSnoc(t, hugeCache, done, line.rec);
        done := done + [line.rec];
      }
      i := i + 1;
    }
    RecordsAt(lines, i, done);
  }

  lemma ReplayedNone(t: Table, cache: int)
    requires WellBuilt(t) && Total(t)
    ensures SlotsOk(t) && Replayed(t, cache, []) == Empty(t)
  {
  }

  lemma ReplayedSnoc(t: Table, cache: int, done: seq<Record>, r: Record)
    requires SlotsOk(t) && Total(t)
    ensures Replayed(t, cache, done + [r]) == Step(t, cache, Replayed(t, cache, done), r)
  {
    hide Step, SlotsOk, Total;
    assert (done + [r])[..|done|] == done;
  }

  lemma RecordsAt(lines: seq<Line>, i: nat, done: seq<Record>)
    requires i <= |lines|
    ensures i == |lines| || lines[i].NotJson? ==> done + Records(lines[i..]) == done
    ensures i < |lines| && lines[i].Blank? ==> Records(lines[i..]) == Records(lines[i + 1..])
    ensures i < |lines| && lines[i].Entry? ==>
              done + Records(lines[i..]) == done + [lines[i].rec] + Records(lines[i + 1..])
  {
    if i < |lines| {
      assert lines[i..][1..] == lines[i + 1..];
    }
  }
}
