/** Replaying an allocation trace refines a multiset of live blocks
    (scripts/lua_mem_model.py, `replay`). */
module ArenaReplay {
  import opened Sums
  import opened ClassTables
  import opened ArenaModel
  import opened ArenaRuns

  datatype Kind = FreeRec | AllocRec | ReallocRec | OtherRec

  datatype Record = Record(kind: Kind, osize: nat, nsize: nat, hint: Hint)

  /** A line of the trace file after stripping. */
  datatype Line = Blank | NotJson | Entry(rec: Record)

  /** The records the replay looks at: it skips blank lines and stops at the first
      line that is not JSON. */
  function Records(lines: seq<Line>): seq<Record> {
    if lines == [] || lines[0].NotJson? then []
    else if lines[0].Blank? then Records(lines[1..])
    else [lines[0].rec] + Records(lines[1..])
  }

  /** Blank lines are skipped, records kept in order, and everything from the first line
      that is not JSON is ignored. */
  lemma {:induction false} RecordsExactly(a: seq<Line>, b: seq<Line>, rec: Record)
    requires forall i :: 0 <= i < |a| ==> !a[i].NotJson?
    ensures Records(a + [Entry(rec)] + b) == Records(a) + [rec] + Records(b)
    ensures Records(a + [Blank] + b) == Records(a) + Records(b)
    ensures Records(a + [NotJson] + b) == Records(a)
  {
    if a == [] {
      assert a + [Entry(rec)] + b == [Entry(rec)] + b && a + [Blank] + b == [Blank] + b;
      assert a + [NotJson] + b == [NotJson] + b;
    } else {
      RecordsExactly(a[1..], b, rec);
      assert (a + [Entry(rec)] + b)[1..] == a[1..] + [Entry(rec)] + b;
      assert (a + [Blank] + b)[1..] == a[1..] + [Blank] + b;
      assert (a + [NotJson] + b)[1..] == a[1..] + [NotJson] + b;
    }
  }

  /** What the replay decides to do with a record. */
  datatype Plan =
    | Skip
    | Take(n: nat, h: Hint)
    | Give(o: nat, h: Hint)
    | Move(o: nat, n: nat, h: Hint)
    | Keep(o: nat, n: nat)

  function PlanOf(t: Table, r: Record): Plan {
    match r.kind
    case FreeRec => if r.osize == 0 then Skip else Give(r.osize, r.hint)
    case AllocRec => Take(r.nsize, r.hint)
    case ReallocRec =>
      if r.nsize == 0 then Give(r.osize, r.hint)
      else if r.osize == 0 then Take(r.nsize, r.hint)
      else if ClassOf(t, r.osize) != ClassOf(t, r.nsize) then Move(r.osize, r.nsize, r.hint)
      else Keep(r.osize, r.nsize)
    case OtherRec => Skip
  }

  function AddLogical(s: State, d: int): State {
    s.(logical := s.logical + d)
  }

  /** A slot that moves is taken before it is given back. */
  ghost function Carry(t: Table, cache: int, s: State, p: Plan): (s2: State)
    requires Fits(t, s) && Total(t)
    ensures Fits(t, s2)
  {
    match p
    case Skip => s
    case Take(n, h) => AddLogical(Acquire(t, s, n, h), n)
    case Give(o, h) => AddLogical(Release(t, cache, s, o, h), 0 - o)
    case Move(o, n, h) => AddLogical(Release(t, cache, Acquire(t, s, n, h), o, NoHint), n - o)
    case Keep(o, n) => AddLogical(s, n - o)
  }

  /** What one record does to the arena. */
  ghost function Step(t: Table, cache: int, s: State, r: Record): (s2: State)
    requires Fits(t, s) && Total(t)
    ensures Fits(t, s2)
  {
    Carry(t, cache, s.(calls := s.calls + 1), PlanOf(t, r))
  }

  /** The live blocks after one record, whatever the arena makes of it. */
  function LiveStep(live: multiset<nat>, r: Record): multiset<nat> {
    match r.kind
    case FreeRec => if r.osize == 0 then live else live - multiset{r.osize}
    case AllocRec => live + multiset{r.nsize}
    case ReallocRec =>
      if r.nsize == 0 then live - multiset{r.osize}
      else if r.osize == 0 then live + multiset{r.nsize}
      else live + multiset{r.nsize} - multiset{r.osize}
    case OtherRec => live
  }

  /** A record may only free or resize a block that is live. */
  predicate StepOk(live: multiset<nat>, r: Record) {
    (r.kind.FreeRec? || r.kind.ReallocRec?) && r.osize != 0 ==> r.osize in live
  }

  ghost function LiveOf(recs: seq<Record>): multiset<nat> {
    if recs == [] then multiset{} else LiveStep(LiveOf(recs[..|recs| - 1]), recs[|recs| - 1])
  }

  ghost predicate WellFormed(recs: seq<Record>) {
    forall i :: 0 <= i < |recs| ==> StepOk(LiveOf(recs[..i]), recs[i])
  }

  ghost function Replayed(t: Table, cache: int, recs: seq<Record>): (s: State)
    requires SlotsOk(t) && Total(t)
    ensures Fits(t, s)
  {
    if recs == [] then Empty(t)
    else Step(t, cache, Replayed(t, cache, recs[..|recs| - 1]), recs[|recs| - 1])
  }

  /** A kept block whose two sizes are different and huge: the one plan whose effect the
      arena does not carry out. */
  predicate DropsMove(t: Table, p: Plan) {
    p.Keep? && p.o != p.n && ClassOf(t, p.o) < 0
  }

  /** A record that resizes between two different sizes of the huge tier. */
  predicate HugeResize(t: Table, r: Record) {
    DropsMove(t, PlanOf(t, r))
  }

  /** The live blocks after a plan. */
  function PlanLive(live: multiset<nat>, p: Plan): multiset<nat> {
    match p
    case Skip => live
    case Take(n, _) => live + multiset{n}
    case Give(o, _) => live - multiset{o}
    case Move(o, n, _) => live + multiset{n} - multiset{o}
    case Keep(o, n) => live + multiset{n} - multiset{o}
  }

  /** A plan only gives back what is live, or a block of no bytes. */
  predicate PlanOk(t: Table, live: multiset<nat>, p: Plan) {
    match p
    case Skip => true
    case Take(_, _) => true
    case Give(o, _) => o in live || ClassOf(t, o) < 0
    case Move(o, n, _) => o in live
    case Keep(o, n) => o in live && ClassOf(t, o) == ClassOf(t, n)
  }

  lemma PlanMeaning(t: Table, live: multiset<nat>, r: Record)
    requires StepOk(live, r)
    ensures PlanLive(live, PlanOf(t, r)) == LiveStep(live, r)
    ensures PlanOk(t, live, PlanOf(t, r))
  {
    hide ClassOf;
    assert PlanOk(t, live, PlanOf(t, r)) by {
      hide PlanLive, LiveStep;
      ClassOfZero(t);
    }
    hide PlanOk, StepOk;
    var plan := PlanOf(t, r);
    match r.kind
    case FreeRec =>
      assert plan == if r.osize == 0 then Skip else Give(r.osize, r.hint);
    case AllocRec =>
    case OtherRec =>
    case ReallocRec =>
      ResizeMeaning(t, live, r);
  }

  lemma ResizeMeaning(t: Table, live: multiset<nat>, r: Record)
    requires r.kind.ReallocRec?
    ensures PlanLive(live, PlanOf(t, r)) == LiveStep(live, r)
  {
    hide ClassOf;
    var plan := PlanOf(t, r);
    if r.nsize == 0 {
      assert plan == Give(r.osize, r.hint);
    } else if r.osize == 0 {
      assert plan == Take(r.nsize, r.hint);
    } else if ClassOf(t, r.osize) != ClassOf(t, r.nsize) {
      assert plan == Move(r.osize, r.nsize, r.hint);
    } else {
      assert plan == Keep(r.osize, r.nsize);
    }
  }

  lemma ClassOfZero(t: Table)
    ensures ClassOf(t, 0) < 0
  {
  }

  // ---- the slotted classes ---------------------------------------------------------

  lemma CountsOnly(t: Table, s: State, s2: State, live: multiset<nat>)
    requires CountsLive(t, s, live) && s2.cls == s.cls
    ensures CountsLive(t, s2, live)
  {
  }

  lemma CountsFit(t: Table, s: State, live: multiset<nat>)
    requires CountsLive(t, s, live)
    ensures Fits(t, s)
  {
  }

  /** Keeping the slot on a same-class resize leaves every class count right. */
  lemma ResizeCounts(t: Table, s: State, live: multiset<nat>, o: nat, n: nat)
    requires CountsLive(t, s, live) && o in live && ClassOf(t, o) == ClassOf(t, n)
    ensures CountsLive(t, s, live + multiset{n} - multiset{o})
  {
    hide ClassOf, ClassInv;
    forall c | 0 <= c < |s.cls|
      ensures Fold(live + multiset{n} - multiset{o}, InClass(t, c)) == Fold(live, InClass(t, c))
    {
      FoldSwap(live, InClass(t, c), o, n);
    }
  }

  lemma CarryCounts(t: Table, cache: int, s: State, live: multiset<nat>, p: Plan)
    requires CountsLive(t, s, live) && Total(t) && PlanOk(t, live, p)
    ensures CountsLive(t, Carry(t, cache, s, p), PlanLive(live, p))
  {
    CountsFit(t, s, live);
    hide CountsLive, Acquire, Release, ClassOf, Fits;
    var s2 := Carry(t, cache, s, p);
    match p
    case Skip =>
    case Take(n, h) =>
      AcquireCountsLive(t, s, live, n, h);
      CountsOnly(t, Acquire(t, s, n, h), s2, live + multiset{n});
    case Give(o, h) =>
      ReleaseCountsLive(t, cache, s, live, o, h);
      CountsOnly(t, Release(t, cache, s, o, h), s2, live - multiset{o});
    case Move(o, n, h) =>
      var a := Acquire(t, s, n, h);
      AcquireCountsLive(t, s, live, n, h);
      CountsFit(t, a, live + multiset{n});
      ReleaseCountsLive(t, cache, a, live + multiset{n}, o, NoHint);
      CountsOnly(t, Release(t, cache, a, o, NoHint), s2, live + multiset{n} - multiset{o});
    case Keep(o, n) =>
      ResizeCounts(t, s, live, o, n);
      CountsOnly(t, s, s2, live + multiset{n} - multiset{o});
  }

  // ---- the logical size --------------------------------------------------------------

  lemma SideFields(t: Table, cache: int, s: State, n: nat, h: Hint)
    requires Fits(t, s) && ClassOf(t, n) < |t.slots|
    ensures Acquire(t, s, n, h).logical == s.logical && Acquire(t, s, n, h).calls == s.calls
    ensures Release(t, cache, s, n, h).logical == s.logical && Release(t, cache, s, n, h).calls == s.calls
  {
    hide ClassOf, NSlots;
  }

  function Delta(p: Plan): int {
    match p
    case Skip => 0
    case Take(n, _) => n
    case Give(o, _) => 0 - o
    case Move(o, n, _) => n - o
    case Keep(o, n) => n - o
  }

  lemma PlanSize(t: Table, live: multiset<nat>, p: Plan)
    requires PlanOk(t, live, p) && (p.Give? ==> p.o in live || p.o == 0)
    ensures Fold(PlanLive(live, p), Size()) == Fold(live, Size()) + Delta(p)
  {
    hide Fold, ClassOf;
    match p
    case Skip =>
    case Take(n, h) => FoldAdd(live, Size(), n);
    case Give(o, h) =>
      if o in live {
        FoldRemove(live, Size(), o);
      } else {
        assert live - multiset{o} == live;
      }
    case Move(o, n, h) => FoldSwap(live, Size(), o, n);
    case Keep(o, n) => FoldSwap(live, Size(), o, n);
  }

  lemma CarryLogical(t: Table, cache: int, s: State, p: Plan)
    requires Fits(t, s) && Total(t)
    ensures Carry(t, cache, s, p).logical == s.logical + Delta(p)
  {
    hide Acquire, Release, ClassOf, Fits;
    match p
    case Skip =>
    case Take(n, h) => SideFields(t, cache, s, n, h);
    case Give(o, h) => SideFields(t, cache, s, o, h);
    case Move(o, n, h) =>
      SideFields(t, cache, s, n, h);
      AcquireFits(t, s, n, h);
      SideFields(t, cache, Acquire(t, s, n, h), o, NoHint);
    case Keep(o, n) =>
  }

  lemma AcquireFits(t: Table, s: State, n: nat, h: Hint)
    requires Fits(t, s) && ClassOf(t, n) < |t.slots|
    ensures Fits(t, Acquire(t, s, n, h))
  {
    hide ClassOf, NSlots, SlotsOk;
  }

  // ---- the huge tier -------------------------------------------------------------------

  lemma HugeFields(t: Table, cache: int, s: State, n: nat, h: Hint)
    requires Fits(t, s) && ClassOf(t, n) < |t.slots|
    ensures Acquire(t, s, n, h).hugeLive == if ClassOf(t, n) < 0 then s.hugeLive + [n] else s.hugeLive
    ensures Release(t, cache, s, n, h).hugeLive == if ClassOf(t, n) < 0 then RemoveFirst(s.hugeLive, n) else s.hugeLive
  {
    hide ClassOf, NSlots, RemoveFirst, Count;
  }

  lemma HugeTaken(t: Table, huge: seq<nat>, live: multiset<nat>, n: nat)
    requires HugeIs(t, huge, live)
    ensures HugeIs(t, if ClassOf(t, n) < 0 then huge + [n] else huge, live + multiset{n})
  {
    hide ClassOf;
    assert multiset(huge + [n]) == multiset(huge) + multiset{n};
  }

  lemma HugeGiven(t: Table, huge: seq<nat>, live: multiset<nat>, n: nat)
    requires HugeIs(t, huge, live)
    ensures HugeIs(t, if ClassOf(t, n) < 0 then RemoveFirst(huge, n) else huge, live - multiset{n})
  {
    hide ClassOf, RemoveFirst;
    RemoveFirstMultiset(huge, n);
  }

  lemma HugeKept(t: Table, huge: seq<nat>, live: multiset<nat>, o: nat, n: nat)
    requires HugeIs(t, huge, live) && o in live && ClassOf(t, o) == ClassOf(t, n)
    ensures HugeIs(t, huge, live + multiset{n} - multiset{o}) <==> o == n || ClassOf(t, o) >= 0
  {
    hide ClassOf;
    var live2 := live + multiset{n} - multiset{o};
    if o != n && ClassOf(t, o) < 0 {
      assert live2[o] == live[o] - 1;
    }
  }

  /** A plan keeps the huge list exact if and only if it does not drop a move. */
  lemma CarryHuge(t: Table, cache: int, s: State, live: multiset<nat>, p: Plan)
    requires Fits(t, s) && Total(t) && PlanOk(t, live, p) && HugeIs(t, s.hugeLive, live)
    ensures HugeIs(t, Carry(t, cache, s, p).hugeLive, PlanLive(live, p)) <==> !DropsMove(t, p)
  {
    hide Acquire, Release, ClassOf, Fits, HugeIs;
    match p
    case Skip =>
    case Take(n, h) =>
      HugeFields(t, cache, s, n, h);
      HugeTaken(t, s.hugeLive, live, n);
    case Give(o, h) =>
      HugeFields(t, cache, s, o, h);
      HugeGiven(t, s.hugeLive, live, o);
    case Move(o, n, h) =>
      HugeFields(t, cache, s, n, h);
      HugeTaken(t, s.hugeLive, live, n);
      AcquireFits(t, s, n, h);
      var a := Acquire(t, s, n, h);
      HugeFields(t, cache, a, o, NoHint);
      HugeGiven(t, a.hugeLive, live + multiset{n}, o);
    case Keep(o, n) =>
      HugeKept(t, s.hugeLive, live, o, n);
  }

  // ---- the occupied bytes ----------------------------------------------------------------

  /** Changing one class's use by `d` slots changes the sum by `d` slot sizes. */
  lemma UsedUpdate(t: Table, cls: seq<Counts>, c: nat, k: Counts, d: int)
    requires |cls| == |t.slots| && c < |cls| && k.used == cls[c].used + d
    ensures SumSeq(UsedBytes(t, cls[c := k])) == SumSeq(UsedBytes(t, cls)) + d * t.slots[c]
  {
    var v := UsedBytes(t, cls);
    assert (cls[c].used + d) * t.slots[c] == cls[c].used * t.slots[c] + d * t.slots[c];
    assert UsedBytes(t, cls[c := k]) == v[c := v[c] + d * t.slots[c]];
    SumUpdate(v, c, v[c] + d * t.slots[c]);
  }

  lemma AcquireBytes(t: Table, s: State, live: multiset<nat>, n: nat, h: Hint)
    requires Fits(t, s) && BytesExact(t, s, live) && ClassOf(t, n) < |t.slots|
    ensures Fits(t, Acquire(t, s, n, h)) && BytesExact(t, Acquire(t, s, n, h), live + multiset{n})
  {
    hide ClassOf, NSlots, RemoveFirst, SlotsOk, SumSeq, UsedBytes, Fold;
    FoldAdd(live, Footprint(t), n);
    var s2 := Acquire(t, s, n, h);
    var c := ClassOf(t, n);
    if c < 0 {
      SumAppend(s.hugeLive, n);
    } else {
      UsedUpdate(t, s.cls, c, s2.cls[c], 1);
    }
  }

  lemma FootprintRemove(t: Table, live: multiset<nat>, n: nat)
    ensures Fold(live - multiset{n}, Footprint(t))
            == Fold(live, Footprint(t)) - (if n in live then Footprint(t)(n) else 0)
  {
    hide Fold, Footprint;
    if n in live {
      FoldRemove(live, Footprint(t), n);
    } else {
      assert live - multiset{n} == live;
    }
  }

  lemma HugeBytes(t: Table, huge: seq<nat>, live: multiset<nat>, n: nat)
    requires HugeIs(t, huge, live) && ClassOf(t, n) < 0
    ensures SumSeq(RemoveFirst(huge, n)) == SumSeq(huge) - (if n in live then n else 0)
  {
    assert n in live <==> n in multiset(huge);
    hide HugeIs, ClassOf;
    if n in live {
      SumRemoveFirst(huge, n);
    } else {
      RemoveAbsent(huge, n);
    }
  }

  lemma ReleaseBytes(t: Table, cache: int, s: State, live: multiset<nat>, n: nat, h: Hint)
    requires Fits(t, s) && HugeIs(t, s.hugeLive, live) && BytesExact(t, s, live) && ClassOf(t, n) < |t.slots|
    requires n in live || ClassOf(t, n) < 0
    ensures BytesExact(t, Release(t, cache, s, n, h), live - multiset{n})
  {
    hide ClassOf, NSlots, RemoveFirst, Count, SlotsOk, SumSeq, UsedBytes, HugeIs, Fold;
    FootprintRemove(t, live, n);
    var s2 := Release(t, cache, s, n, h);
    var c := ClassOf(t, n);
    if c >= 0 {
      UsedUpdate(t, s.cls, c, s2.cls[c], -1);
    } else {
      HugeBytes(t, s.hugeLive, live, n);
    }
  }

  lemma CarryBytes(t: Table, cache: int, s: State, live: multiset<nat>, p: Plan)
    requires Fits(t, s) && Total(t) && PlanOk(t, live, p) && !DropsMove(t, p)
    requires HugeIs(t, s.hugeLive, live) && BytesExact(t, s, live)
    ensures BytesExact(t, Carry(t, cache, s, p), PlanLive(live, p))
  {
    hide Acquire, Release, ClassOf, HugeIs, Fits, BytesExact;
    match p
    case Skip =>
    case Take(n, h) =>
      AcquireBytes(t, s, live, n, h);
      BytesLogical(t, Acquire(t, s, n, h), live + multiset{n}, n);
    case Give(o, h) =>
      ReleaseBytes(t, cache, s, live, o, h);
      ReleaseFits(t, cache, s, o, h);
      BytesLogical(t, Release(t, cache, s, o, h), live - multiset{o}, 0 - o);
    case Move(o, n, h) =>
      MoveBytes(t, cache, s, live, o, n, h);
    case Keep(o, n) =>
      KeepBytes(t, s, live, o, n);
  }

  lemma MoveBytes(t: Table, cache: int, s: State, live: multiset<nat>, o: nat, n: nat, h: Hint)
    requires Fits(t, s) && Total(t) && o in live && HugeIs(t, s.hugeLive, live) && BytesExact(t, s, live)
    ensures BytesExact(t, Carry(t, cache, s, Move(o, n, h)), live + multiset{n} - multiset{o})
  {
    hide Acquire, Release, ClassOf, HugeIs, Fits, BytesExact;
    var a := Acquire(t, s, n, h);
    AcquireBytes(t, s, live, n, h);
    HugeFields(t, cache, s, n, h);
    HugeTaken(t, s.hugeLive, live, n);
    ReleaseBytes(t, cache, a, live + multiset{n}, o, NoHint);
    ReleaseFits(t, cache, a, o, NoHint);
    BytesLogical(t, Release(t, cache, a, o, NoHint), live + multiset{n} - multiset{o}, n - o);
  }

  lemma BytesLogical(t: Table, s: State, live: multiset<nat>, d: int)
    requires Fits(t, s) && BytesExact(t, s, live)
    ensures BytesExact(t, AddLogical(s, d), live)
  {
    hide ClassOf, SumSeq, Fold;
  }

  lemma ReleaseFits(t: Table, cache: int, s: State, n: nat, h: Hint)
    requires Fits(t, s) && ClassOf(t, n) < |t.slots|
    ensures Fits(t, Release(t, cache, s, n, h))
  {
    hide ClassOf, NSlots, SlotsOk;
  }

  /** Within a class, or without a change of size, a resize changes no footprint. */
  lemma KeepBytes(t: Table, s: State, live: multiset<nat>, o: nat, n: nat)
    requires Fits(t, s) && BytesExact(t, s, live) && ClassOf(t, o) < |t.slots|
    requires o in live && ClassOf(t, o) == ClassOf(t, n) && (o == n || ClassOf(t, o) >= 0)
    ensures BytesExact(t, AddLogical(s, n - o), live + multiset{n} - multiset{o})
  {
    hide ClassOf, SlotsOk, SumSeq, UsedBytes, Fold;
    FoldSwap(live, Footprint(t), o, n);
  }

  // ---- whole traces ------------------------------------------------------------------------

  lemma WellFormedPrefix(recs: seq<Record>, i: nat)
    requires WellFormed(recs) && i <= |recs|
    ensures WellFormed(recs[..i])
  {
    forall j | 0 <= j < i
      ensures StepOk(LiveOf(recs[..i][..j]), recs[..i][j])
    {
      assert recs[..i][..j] == recs[..j];
    }
  }

  lemma LastOk(recs: seq<Record>)
    requires WellFormed(recs) && recs != []
    ensures StepOk(LiveOf(recs[..|recs| - 1]), recs[|recs| - 1])
  {
  }

  /** For every well-formed trace, each class counts exactly its live blocks, and the
      logical size is the total size of the live blocks. */
  lemma {:induction false} ReplayRefinesLive(t: Table, cache: int, recs: seq<Record>)
    requires SlotsOk(t) && Total(t) && WellFormed(recs)
    ensures CountsLive(t, Replayed(t, cache, recs), LiveOf(recs))
    ensures Replayed(t, cache, recs).logical == Fold(LiveOf(recs), Size())
  {
    hide CountsLive, Carry, PlanOf, LiveStep, Fold, ClassOf, Total, SlotsOk;
    if recs == [] {
      EmptyCountsLive(t);
      FoldEmpty(Size());
    } else {
      var p, r := recs[..|recs| - 1], recs[|recs| - 1];
      WellFormedPrefix(recs, |recs| - 1);
      LastOk(recs);
      ReplayRefinesLive(t, cache, p);
      StepRefines(t, cache, Replayed(t, cache, p), LiveOf(p), r);
    }
  }

  lemma FoldEmpty(f: nat -> int)
    ensures Fold(multiset{}, f) == 0
  {
  }

  lemma StepRefines(t: Table, cache: int, s: State, live: multiset<nat>, r: Record)
    requires CountsLive(t, s, live) && Total(t) && StepOk(live, r) && s.logical == Fold(live, Size())
    ensures CountsLive(t, Step(t, cache, s, r), LiveStep(live, r))
    ensures Step(t, cache, s, r).logical == Fold(LiveStep(live, r), Size())
  {
    hide ClassOf, Carry, Fold;
    var s1 := s.(calls := s.calls + 1);
    PlanMeaning(t, live, r);
    CountsOnly(t, s, s1, live);
    CarryCounts(t, cache, s1, live, PlanOf(t, r));
    CarryLogical(t, cache, s1, PlanOf(t, r));
    PlanSize(t, live, PlanOf(t, r));
  }

  ghost predicate NoHugeResize(t: Table, recs: seq<Record>) {
    forall i :: 0 <= i < |recs| ==> !HugeResize(t, recs[i])
  }

  /** The huge list and the byte totals are exact after every record. */
  lemma {:induction false} ReplayRefinesHuge(t: Table, cache: int, recs: seq<Record>)
    requires SlotsOk(t) && Total(t) && WellFormed(recs) && NoHugeResize(t, recs)
    ensures HugeIs(t, Replayed(t, cache, recs).hugeLive, LiveOf(recs))
    ensures BytesExact(t, Replayed(t, cache, recs), LiveOf(recs))
  {
    hide Carry, PlanOf, LiveStep, Fold, ClassOf, Total, HugeIs, BytesExact, HugeResize, SlotsOk;
    if recs == [] {
      EmptyExact(t);
    } else {
      var p, r := recs[..|recs| - 1], recs[|recs| - 1];
      WellFormedPrefix(recs, |recs| - 1);
      LastOk(recs);
      assert NoHugeResize(t, p);
      ReplayRefinesHuge(t, cache, p);
      StepHuge(t, cache, Replayed(t, cache, p), LiveOf(p), r);
      StepBytes(t, cache, Replayed(t, cache, p), LiveOf(p), r);
    }
  }

  lemma EmptyExact(t: Table)
    requires SlotsOk(t)
    ensures HugeIs(t, Empty(t).hugeLive, multiset{}) && BytesExact(t, Empty(t), multiset{})
  {
    hide ClassOf;
    FoldEmpty(Footprint(t));
    SumZero(UsedBytes(t, Empty(t).cls));
  }

  /** The huge list stays exact across a record if and only if the record is not a
      resize between two different huge sizes. */
  lemma StepHuge(t: Table, cache: int, s: State, live: multiset<nat>, r: Record)
    requires Fits(t, s) && Total(t) && StepOk(live, r) && HugeIs(t, s.hugeLive, live)
    ensures HugeIs(t, Step(t, cache, s, r).hugeLive, LiveStep(live, r)) <==> !HugeResize(t, r)
  {
    hide ClassOf, Carry, HugeIs, Fits, DropsMove, LiveStep;
    var s1 := s.(calls := s.calls + 1);
    CallsFit(t, s, s1);
    PlanMeaning(t, live, r);
    CarryHuge(t, cache, s1, live, PlanOf(t, r));
  }

  lemma CallsFit(t: Table, s: State, s1: State)
    requires Fits(t, s) && s1.cls == s.cls
    ensures Fits(t, s1)
  {
  }

  lemma StepBytes(t: Table, cache: int, s: State, live: multiset<nat>, r: Record)
    requires Fits(t, s) && Total(t) && StepOk(live, r) && !HugeResize(t, r)
    requires HugeIs(t, s.hugeLive, live) && BytesExact(t, s, live)
    ensures BytesExact(t, Step(t, cache, s, r), LiveStep(live, r))
  {
    hide ClassOf, Carry, HugeIs, DropsMove, LiveStep, Fold;
    var s1 := s.(calls := s.calls + 1);
    CallsFit(t, s, s1);
    PlanMeaning(t, live, r);
    CarryBytes(t, cache, s1, live, PlanOf(t, r));
  }

  /** The huge list is exact at every moment of a replay if and only if the trace has
      no resize between two different huge sizes. */
  lemma HugeExactThroughout(t: Table, cache: int, recs: seq<Record>)
    requires SlotsOk(t) && Total(t) && WellFormed(recs)
    ensures (forall i :: 0 <= i <= |recs| ==> HugeIs(t, Replayed(t, cache, recs[..i]).hugeLive, LiveOf(recs[..i])))
            <==> NoHugeResize(t, recs)
  {
    hide Step, LiveStep, ClassOf, Total, HugeIs, HugeResize, SlotsOk;
    if NoHugeResize(t, recs) {
      forall i | 0 <= i <= |recs|
        ensures HugeIs(t, Replayed(t, cache, recs[..i]).hugeLive, LiveOf(recs[..i]))
      {
        WellFormedPrefix(recs, i);
        ReplayRefinesHuge(t, cache, recs[..i]);
      }
    } else {
      var i :| 0 <= i < |recs| && HugeResize(t, recs[i]);
      var p, q := recs[..i], recs[..i + 1];
      assert q[..i] == p && q[|q| - 1] == recs[i];
      if HugeIs(t, Replayed(t, cache, p).hugeLive, LiveOf(p)) {
        StepHuge(t, cache, Replayed(t, cache, p), LiveOf(p), recs[i]);
        assert !HugeIs(t, Replayed(t, cache, q).hugeLive, LiveOf(q));
      }
    }
  }

  /** Without such a resize, committed memory covers the live bytes and the waste
      metric is never clamped. */
  lemma ReplayCommits(t: Table, cache: int, recs: seq<Record>)
    requires SlotsOk(t) && Total(t) && Covers(t) && WellFormed(recs) && NoHugeResize(t, recs)
    ensures Commit(t, Replayed(t, cache, recs)) >= Replayed(t, cache, recs).logical
    ensures RawWaste(t, Replayed(t, cache, recs)) == Fold(LiveOf(recs), Footprint(t)) - Fold(LiveOf(recs), Size()) >= 0
  {
    hide *;
    ReplayRefinesLive(t, cache, recs);
    ReplayRefinesHuge(t, cache, recs);
    CommitCoversLive(t, Replayed(t, cache, recs), LiveOf(recs));
  }

  /** What the dropped move costs: the logical size follows the resize, the committed
      bytes do not, so both promises break exactly when the growth exceeds the slack. */
  lemma DroppedMoveCost(t: Table, cache: int, s: State, r: Record)
    requires Fits(t, s) && Total(t) && HugeResize(t, r)
    ensures var s2 := Step(t, cache, s, r);
            && RawWaste(t, s2) == RawWaste(t, s) - (r.nsize - r.osize)
            && Commit(t, s2) - s2.logical == Commit(t, s) - s.logical - (r.nsize - r.osize)
    ensures RawWaste(t, Step(t, cache, s, r)) >= 0 <==> r.nsize - r.osize <= RawWaste(t, s)
  {
    hide ClassOf, SumSeq, UsedBytes, SegmentBytes, SlotsOk;
  }

  /** The family of traces that breaks both promises: grow a lone huge block. */
  lemma GrownHugeBlock(t: Table, cache: int, o: nat, n: nat)
    requires SlotsOk(t) && Total(t) && 0 < o < n && t.smallMax < o
    ensures var recs := [Record(AllocRec, 0, o, NoHint), Record(ReallocRec, o, n, NoHint)];
            && WellFormed(recs)
            && Commit(t, Replayed(t, cache, recs)) == o
            && Replayed(t, cache, recs).logical == n
            && RawWaste(t, Replayed(t, cache, recs)) == o - n < 0
  {
    var r1, r2 := Record(AllocRec, 0, o, NoHint), Record(ReallocRec, o, n, NoHint);
    var recs := [r1, r2];
    assert recs[..1] == [r1] && [r1][..0] == [];
    var s1 := Step(t, cache, Empty(t), r1);
    assert WellFormed(recs) by {
      assert LiveOf([r1]) == multiset{o};
    }
    assert Replayed(t, cache, [r1]) == s1;
    hide LiveOf, WellFormed, Step, PlanOf;
    LoneHugeBlock(t, cache, o);
    assert HugeResize(t, r2) by { GrowthIsHuge(t, o, n); }
    DroppedMoveCost(t, cache, s1, r2);
    StepLogical(t, cache, s1, r2);
    assert PlanOf(t, r2) == Keep(o, n) by { GrowthIsHuge(t, o, n); }
  }

  lemma GrowthIsHuge(t: Table, o: nat, n: nat)
    requires 0 < o < n && t.smallMax < o
    ensures PlanOf(t, Record(ReallocRec, o, n, NoHint)) == Keep(o, n)
    ensures HugeResize(t, Record(ReallocRec, o, n, NoHint))
  {
    assert ClassOf(t, o) == ClassOf(t, n) == -1;
  }

  lemma LoneHugeBlock(t: Table, cache: int, o: nat)
    requires SlotsOk(t) && Total(t) && 0 < o && t.smallMax < o
    ensures var s := Step(t, cache, Empty(t), Record(AllocRec, 0, o, NoHint));
            Commit(t, s) == o && s.logical == o && RawWaste(t, s) == 0
  {
    assert ClassOf(t, o) == -1;
    hide ClassOf, Step, SumSeq, UsedBytes, SegmentBytes;
    var s := Step(t, cache, Empty(t), Record(AllocRec, 0, o, NoHint));
    LoneHugeFields(t, cache, o);
    EmptySums(t, s.cls);
    SumAppend([], o);
    assert [] + [o] == [o] && SumSeq([]) == 0 by { NoSum(); }
  }

  lemma NoSum()
    ensures SumSeq([]) == 0
  {
  }

  lemma LoneHugeFields(t: Table, cache: int, o: nat)
    requires SlotsOk(t) && Total(t) && ClassOf(t, o) == -1
    ensures var s := Step(t, cache, Empty(t), Record(AllocRec, 0, o, NoHint));
            s.cls == Empty(t).cls && s.hugeLive == [o] && s.hugeCached == [] && s.logical == o
  {
    hide ClassOf, Total, SlotsOk;
    assert [] + [o] == [o];
  }

  lemma EmptySums(t: Table, cls: seq<Counts>)
    requires SlotsOk(t) && cls == Empty(t).cls
    ensures SumSeq(UsedBytes(t, cls)) == 0 && SumSeq(SegmentBytes(t, cls)) == 0
  {
    hide SumSeq;
    SumZero(UsedBytes(t, cls));
    SumZero(SegmentBytes(t, cls));
  }

  lemma StepLogical(t: Table, cache: int, s: State, r: Record)
    requires Fits(t, s) && Total(t)
    ensures Step(t, cache, s, r).logical == s.logical + Delta(PlanOf(t, r))
  {
    hide ClassOf, Carry;
    CarryLogical(t, cache, s.(calls := s.calls + 1), PlanOf(t, r));
  }

  // ---- the reported counters -------------------------------------------------------------------

  /** The size whose class the engine records. */
  function Recorded(r: Record): nat {
    if r.kind.FreeRec? || (r.kind.ReallocRec? && r.nsize == 0) then r.osize else r.nsize
  }

  /** The engine's class is not the model's, on a record that classifies something. */
  predicate Disagrees(t: Table, r: Record) {
    && r.hint.Hint? && r.hint.cls != ClassOf(t, Recorded(r))
    && !r.kind.OtherRec? && !(r.kind.FreeRec? && r.osize == 0)
  }

  lemma NotesMismatch(t: Table, cache: int, s: State, n: nat, h: Hint)
    requires Fits(t, s) && ClassOf(t, n) < |t.slots|
    ensures var more := if h.Hint? && h.cls != ClassOf(t, n) then 1 else 0;
            && |Acquire(t, s, n, h).mismatch| == |s.mismatch| + more
            && |Release(t, cache, s, n, h).mismatch| == |s.mismatch| + more
  {
    hide ClassOf, NSlots, RemoveFirst, Count;
  }

  lemma CarryReports(t: Table, cache: int, s: State, p: Plan)
    requires Fits(t, s) && Total(t)
    ensures |Carry(t, cache, s, p).mismatch| == |s.mismatch| + match p
              case Take(n, h) => if h.Hint? && h.cls != ClassOf(t, n) then 1 else 0
              case Give(o, h) => if h.Hint? && h.cls != ClassOf(t, o) then 1 else 0
              case Move(o, n, h) => if h.Hint? && h.cls != ClassOf(t, n) then 1 else 0
              case _ => 0
  {
    hide ClassOf, Acquire, Release, Fits;
    match p
    case Skip =>
    case Take(n, h) => NotesMismatch(t, cache, s, n, h);
    case Give(o, h) => NotesMismatch(t, cache, s, o, h);
    case Move(o, n, h) =>
      NotesMismatch(t, cache, s, n, h);
      AcquireFits(t, s, n, h);
      NotesMismatch(t, cache, Acquire(t, s, n, h), o, NoHint);
    case Keep(o, n) =>
  }

  /** A disagreement is reported, once, unless the record resizes within one class. */
  lemma StepReports(t: Table, cache: int, s: State, r: Record)
    requires Fits(t, s) && Total(t)
    ensures |Step(t, cache, s, r).mismatch|
            == |s.mismatch| + (if Disagrees(t, r) && !PlanOf(t, r).Keep? then 1 else 0)
  {
    hide ClassOf, Carry;
    CarryReports(t, cache, s.(calls := s.calls + 1), PlanOf(t, r));
  }

  /** `--check-engine` passes exactly the traces whose only disagreements are on resizes
      within one class. */
  lemma {:induction false} ReplayReports(t: Table, cache: int, recs: seq<Record>)
    requires SlotsOk(t) && Total(t)
    ensures Replayed(t, cache, recs).mismatch == [] <==>
              forall i :: 0 <= i < |recs| && Disagrees(t, recs[i]) ==> PlanOf(t, recs[i]).Keep?
  {
    hide Step, Disagrees, PlanOf, ClassOf, Total, SlotsOk;
    if recs != [] {
      var k := |recs| - 1;
      ReplayReports(t, cache, recs[..k]);
      StepReports(t, cache, Replayed(t, cache, recs[..k]), recs[k]);
      assert forall i :: 0 <= i < k ==> recs[..k][i] == recs[i];
    }
  }

  /** The family of traces that goes unreported: a resize within a class, recorded with
      any other class. */
  lemma UnreportedResize(t: Table, cache: int, o: nat, n: nat, wrong: int)
    requires SlotsOk(t) && Total(t) && o > 0 && n > 0
    requires ClassOf(t, o) == ClassOf(t, n) != wrong
    ensures var recs := [Record(AllocRec, 0, o, NoHint), Record(ReallocRec, o, n, Hint(wrong))];
            && WellFormed(recs) && Disagrees(t, recs[1])
            && Replayed(t, cache, recs).mismatch == []
  {
    hide ClassOf, Replayed;
    var r1, r2 := Record(AllocRec, 0, o, NoHint), Record(ReallocRec, o, n, Hint(wrong));
    var recs := [r1, r2];
    assert recs[..1] == [r1] && [r1][..0] == [];
    assert LiveOf([r1]) == multiset{o};
    ReplayReports(t, cache, recs);
  }

  lemma CarryCache(t: Table, cache: int, s: State, p: Plan)
    requires Fits(t, s) && Total(t) && CacheOk(t, cache, s.hugeCached)
    ensures CacheOk(t, cache, Carry(t, cache, s, p).hugeCached)
  {
    hide ClassOf, Acquire, Release, Fits, CacheOk;
    match p
    case Skip =>
    case Take(n, h) => CacheAcquire(t, cache, s, n, h);
    case Give(o, h) => CacheRelease(t, cache, s, o, h);
    case Move(o, n, h) =>
      CacheAcquire(t, cache, s, n, h);
      AcquireFits(t, s, n, h);
      CacheRelease(t, cache, Acquire(t, s, n, h), o, NoHint);
    case Keep(o, n) =>
  }

  /** After every trace, well formed or not, the huge cache is within its limit. */
  lemma {:induction false} ReplayCacheBounded(t: Table, cache: int, recs: seq<Record>)
    requires SlotsOk(t) && Total(t)
    ensures CacheOk(t, cache, Replayed(t, cache, recs).hugeCached)
  {
    hide Carry, PlanOf, ClassOf, Total, SlotsOk, CacheOk;
    if recs == [] {
      CacheEmpty(t, cache);
    } else {
      var k := |recs| - 1;
      ReplayCacheBounded(t, cache, recs[..k]);
      var s := Replayed(t, cache, recs[..k]);
      CallsFit(t, s, s.(calls := s.calls + 1));
      CarryCache(t, cache, s.(calls := s.calls + 1), PlanOf(t, recs[k]));
    }
  }

  ghost function Segments(cls: seq<Counts>): seq<int> {
    seq(|cls|, c requires 0 <= c < |cls| => cls[c].segments)
  }

  lemma SegmentsUpdate(cls: seq<Counts>, c: nat, k: Counts)
    requires c < |cls|
    ensures SumSeq(Segments(cls[c := k])) == SumSeq(Segments(cls)) + k.segments - cls[c].segments
  {
    assert Segments(cls[c := k]) == Segments(cls)[c := k.segments];
    SumUpdate(Segments(cls), c, k.segments);
  }

  /** `would_segments` minus the segments held; an operation never changes it. */
  ghost function SegmentDebt(s: State): int {
    s.wouldSegments - SumSeq(Segments(s.cls))
  }

  lemma DebtKept(t: Table, cache: int, s: State, n: nat, h: Hint)
    requires Fits(t, s) && ClassOf(t, n) < |t.slots|
    ensures SegmentDebt(Acquire(t, s, n, h)) == SegmentDebt(s) == SegmentDebt(Release(t, cache, s, n, h))
  {
    hide ClassOf, NSlots, RemoveFirst, Count, SumSeq, Segments;
    var c := ClassOf(t, n);
    if c >= 0 {
      SegmentsUpdate(s.cls, c, AcquireCounts(s.cls[c], NSlots(t, c)));
      SegmentsUpdate(s.cls, c, ReleaseCounts(s.cls[c]));
    }
  }

  lemma CarryDebt(t: Table, cache: int, s: State, p: Plan)
    requires Fits(t, s) && Total(t)
    ensures SegmentDebt(Carry(t, cache, s, p)) == SegmentDebt(s)
  {
    hide ClassOf, Acquire, Release, Fits, SumSeq, Segments;
    match p
    case Skip =>
    case Take(n, h) => DebtKept(t, cache, s, n, h);
    case Give(o, h) => DebtKept(t, cache, s, o, h);
    case Move(o, n, h) =>
      DebtKept(t, cache, s, n, h);
      AcquireFits(t, s, n, h);
      DebtKept(t, cache, Acquire(t, s, n, h), o, NoHint);
    case Keep(o, n) =>
  }

  /** Conservation: after a replay every predicted segment is still held by some class. */
  lemma {:induction false} SegmentsConserved(t: Table, cache: int, recs: seq<Record>)
    requires SlotsOk(t) && Total(t)
    ensures Replayed(t, cache, recs).wouldSegments == SumSeq(Segments(Replayed(t, cache, recs).cls))
  {
    hide Carry, PlanOf, ClassOf, Total, SlotsOk;
    if recs == [] {
      SumZero(Segments(Empty(t).cls));
    } else {
      var k := |recs| - 1;
      SegmentsConserved(t, cache, recs[..k]);
      var s := Replayed(t, cache, recs[..k]);
      CallsFit(t, s, s.(calls := s.calls + 1));
      CarryDebt(t, cache, s.(calls := s.calls + 1), PlanOf(t, recs[k]));
    }
  }
}
