/** The lock-file protocol of scripts/build_locked.py as interleaved steps of
    unboundedly many processes with fresh process ids. */
module BuildLock {
  import opened Options

  /** Seconds a dead owner's file must be old before a waiter may remove it. */
  const GRACE := 30.0

  /** The lock file: its creator (not visible to the processes), the PID text once it
      has been written, and the modification time. */
  datatype File = File(owner: nat, text: Option<nat>, mtime: real)

  /** Where a process stands. */
  datatype Pc =
    | Trying                                            // about to create the file exclusively
    | Created                                           // created, PID not written yet
    | Holding                                           // the lock is held, the command runs
    | Releasing                                         // about to read the file back
    | Removing                                          // read its own PID, about to remove
    | Reading                                           // creation failed, about to read the PID
    | Judging(pid: nat, readAt: real)                   // about to test whether `pid` lives
    | Timing(pid: nat, readAt: real)                    // `pid` is dead, about to read the clock
    | Aging(pid: nat, readAt: real, clock: real)        // about to compare with the mtime
    | Reclaiming(pid: nat)                              // old enough, about to remove
    | Waiting                                           // about to check the deadline and sleep
    | Gone                                              // exited or crashed

  datatype Proc = Proc(pc: Pc, deadline: real)

  datatype State = State(now: real, file: Option<File>, procs: map<nat, Proc>)

  datatype Step =
    | Tick(time: real)
    | Start(p: nat, timeout: real)
    | Create(p: nat)
    | Write(p: nat)
    | Read(p: nat)
    | Probe(p: nat)
    | ReadClock(p: nat)
    | Stat(p: nat)
    | Remove(p: nat)
    | StatAndRemove(p: nat)
    | Deadline(p: nat)
    | Finish(p: nat)
    | ReleaseRead(p: nat)
    | ReleaseRemove(p: nat)
    | Crash(p: nat)

  function At(s: State, p: nat): Pc {
    if p in s.procs then s.procs[p].pc else Gone
  }

  function Goto(s: State, p: nat, pc: Pc): State {
    if p in s.procs then s.(procs := s.procs[p := s.procs[p].(pc := pc)]) else s
  }

  /** `os.kill(pid, 0)` succeeds exactly for a process that has not ended. */
  predicate Alive(s: State, p: nat) {
    p in s.procs && s.procs[p].pc != Gone
  }

  predicate OldEnough(s: State, clock: real) {
    s.file.Some? && clock - s.file.value.mtime > GRACE
  }

  /** One step; a step that is not enabled changes nothing. */
  function Next(s: State, step: Step): State {
    match step
    case Tick(time) => if time >= s.now then s.(now := time) else s
    case Start(p, timeout) =>
      if p > 0 && p !in s.procs then s.(procs := s.procs[p := Proc(Trying, s.now + timeout)]) else s
    case Create(p) =>
      if At(s, p) != Trying then s
      else if s.file.Some? then Goto(s, p, Reading)
      else Goto(s.(file := Some(File(p, None, s.now))), p, Created)
    case Write(p) =>
      if At(s, p) != Created then s
      else if s.file.Some? && s.file.value.owner == p then
        Goto(s.(file := Some(File(p, Some(p), s.now))), p, Holding)
      else Goto(s, p, Holding)
    case Read(p) =>
      if At(s, p) != Reading then s
      else if s.file.Some? && s.file.value.text.Some? && s.file.value.text.value > 0 then
        Goto(s, p, Judging(s.file.value.text.value, s.now))
      else Goto(s, p, Waiting)
    case Probe(p) =>
      if !At(s, p).Judging? then s
      else if Alive(s, At(s, p).pid) then Goto(s, p, Waiting)
      else Goto(s, p, Timing(At(s, p).pid, At(s, p).readAt))
    case ReadClock(p) =>
      if At(s, p).Timing? then Goto(s, p, Aging(At(s, p).pid, At(s, p).readAt, s.now)) else s
    case Stat(p) =>
      if !At(s, p).Aging? then s
      else if s.file.None? then Goto(s, p, Gone)
      else if OldEnough(s, At(s, p).clock) then Goto(s, p, Reclaiming(At(s, p).pid))
      else Goto(s, p, Waiting)
    case Remove(p) =>
      if !At(s, p).Reclaiming? then s
      else if s.file.None? then Goto(s, p, Waiting)
      else Goto(s.(file := None), p, Trying)
    case StatAndRemove(p) =>
      if At(s, p).Aging? && OldEnough(s, At(s, p).clock) then Goto(s.(file := None), p, Trying) else s
    case Deadline(p) =>
      if At(s, p) != Waiting then s
      else Goto(s, p, if s.now >= s.procs[p].deadline then Gone else Trying)
    case Finish(p) => if At(s, p) == Holding then Goto(s, p, Releasing) else s
    case ReleaseRead(p) =>
      if At(s, p) != Releasing then s
      else if s.file.Some? && s.file.value.text == Some(p) then Goto(s, p, Removing)
      else Goto(s, p, Gone)
    case ReleaseRemove(p) => if At(s, p) == Removing then Goto(s.(file := None), p, Gone) else s
    case Crash(p) => Goto(s, p, Gone)
  }

  function Init(now: real): State {
    State(now, None, map[])
  }

  /** The state after a run. */
  function After(now: real, steps: seq<Step>): State {
    if steps == [] then Init(now) else Next(After(now, steps[..|steps| - 1]), steps[|steps| - 1])
  }

  // ---- what the theorems assume of a run ------------------------------------------

  /** The clock is read within `delay` seconds of the PID read. */
  predicate PromptWithin(s: State, step: Step, delay: real) {
    step.ReadClock? && At(s, step.p).Timing? ==> s.now - At(s, step.p).readAt <= delay
  }

  /** The clock is read within the grace period of the PID read. */
  predicate Prompt(s: State, step: Step) {
    PromptWithin(s, step, GRACE)
  }

  /** A passed age test and the removal it licenses are one step. */
  predicate Atomic(s: State, step: Step) {
    step.Stat? && At(s, step.p).Aging? ==> !OldEnough(s, At(s, step.p).clock)
  }

  /** No process dies between creating the file and removing it. */
  predicate OwnerSurvives(s: State, step: Step) {
    step.Crash? ==> !Holder(At(s, step.p))
  }

  predicate Holder(pc: Pc) {
    pc.Created? || pc.Holding? || pc.Releasing? || pc.Removing?
  }

  // ---- invariants ---------------------------------------------------------------------

  predicate HasRead(pc: Pc) {
    pc.Judging? || pc.Timing? || pc.Aging?
  }

  /** A holder owns the file, which carries its PID from the write on. */
  predicate OwnsFile(s: State, p: nat) {
    Holder(At(s, p)) ==>
      && s.file.Some? && s.file.value.owner == p
      && s.file.value.text == if At(s, p).Created? then None else Some(p)
  }

  /** A waiter's knowledge: a file last written before it read still holds the PID it
      read, and a PID found dead stays dead. */
  predicate KnowsOwner(s: State, p: nat) {
    var pc := At(s, p);
    && (HasRead(pc) ==>
          && pc.readAt <= s.now && pc.pid in s.procs
          && (s.file.Some? && s.file.value.mtime < pc.readAt ==> s.file.value.text == Some(pc.pid)))
    && (pc.Timing? || pc.Aging? ==> At(s, pc.pid) == Gone)
    && (pc.Aging? ==> pc.clock - pc.readAt <= GRACE)
    && !pc.Reclaiming?
  }

  predicate FileOk(s: State) {
    s.file.Some? ==>
      && s.file.value.mtime <= s.now && s.file.value.owner in s.procs
      && (s.file.value.text.Some? ==> s.file.value.text.value == s.file.value.owner)
  }

  ghost predicate Inv(s: State) {
    && FileOk(s)
    && (forall p :: p in s.procs ==> p > 0 && OwnsFile(s, p) && KnowsOwner(s, p))
  }

  /** How a step by `p` may change the file. */
  predicate FileStep(s: State, s2: State, p: nat) {
    || s2.file == s.file
    || (s.file.None? && s2.file == Some(File(p, None, s.now)))
    || (At(s, p).Created? && s2.file == Some(File(p, Some(p), s.now)))
    || (s2.file.None? && (s.file.Some? ==> s.file.value.owner == p || !Holder(At(s, s.file.value.owner))))
  }

  /** Only `p` moves, at most along its own program counter. */
  predicate Moves(s: State, s2: State, p: nat) {
    && s2.now == s.now && p in s.procs && p in s2.procs
    && s2.procs == s.procs[p := s2.procs[p]]
    && (At(s, p) == Gone ==> At(s2, p) == Gone)
    && FileStep(s, s2, p)
  }

  /** What one process does leaves the others' invariants alone. */
  lemma OthersKept(s: State, s2: State, p: nat, w: nat)
    requires Inv(s) && Moves(s, s2, p) && w != p && w in s.procs
    ensures OwnsFile(s2, w) && KnowsOwner(s2, w)
  {
    assert OwnsFile(s, w) && KnowsOwner(s, w) && OwnsFile(s, p);
  }

  lemma InvFromMover(s: State, s2: State, p: nat)
    requires Inv(s) && Moves(s, s2, p) && FileOk(s2) && OwnsFile(s2, p) && KnowsOwner(s2, p)
    ensures Inv(s2)
  {
    forall w | w in s2.procs
      ensures w > 0 && OwnsFile(s2, w) && KnowsOwner(s2, w)
    {
      if w != p {
        OthersKept(s, s2, p, w);
      }
    }
  }

  /** An age test that passes only ever condemns the file of a dead process. */
  lemma AgedFileIsOrphan(s: State, p: nat)
    requires Inv(s) && At(s, p).Aging? && OldEnough(s, At(s, p).clock)
    ensures s.file.value.owner == At(s, p).pid && At(s, s.file.value.owner) == Gone
  {
    assert KnowsOwner(s, p);
  }

  lemma TickKeeps(s: State, time: real)
    requires Inv(s) && time >= s.now
    ensures Inv(s.(now := time))
  {
    var s2 := s.(now := time);
    forall w | w in s2.procs
      ensures w > 0 && OwnsFile(s2, w) && KnowsOwner(s2, w)
    {
      assert OwnsFile(s, w) && KnowsOwner(s, w);
    }
  }

  lemma StartKeeps(s: State, p: nat, timeout: real)
    requires Inv(s) && p > 0 && p !in s.procs
    ensures Inv(Next(s, Start(p, timeout)))
  {
    var s2 := Next(s, Start(p, timeout));
    forall w | w in s2.procs
      ensures w > 0 && OwnsFile(s2, w) && KnowsOwner(s2, w)
    {
      if w != p {
        assert OwnsFile(s, w) && KnowsOwner(s, w);
      }
    }
  }

  /** Every step keeps the invariant, under the two assumptions. */
  lemma StepKeeps(s: State, step: Step)
    requires Inv(s) && Prompt(s, step) && Atomic(s, step)
    ensures Inv(Next(s, step))
  {
    var s2 := Next(s, step);
    if step.Tick? {
      if step.time >= s.now {
        TickKeeps(s, step.time);
      }
    } else if step.Start? {
      if step.p > 0 && step.p !in s.procs {
        StartKeeps(s, step.p, step.timeout);
      }
    } else if step.p in s.procs {
      var p := step.p;
      assert OwnsFile(s, p) && KnowsOwner(s, p);
      if step.StatAndRemove? && At(s, p).Aging? && OldEnough(s, At(s, p).clock) {
        AgedFileIsOrphan(s, p);
      }
      MoverKeeps(s, step, p);
      InvFromMover(s, s2, p);
    }
  }

  lemma MoverKeeps(s: State, step: Step, p: nat)
    requires FileOk(s) && OwnsFile(s, p) && KnowsOwner(s, p) && p > 0
    requires !step.Tick? && !step.Start? && step.p == p && p in s.procs
    requires Prompt(s, step) && Atomic(s, step)
    requires step.StatAndRemove? && At(s, p).Aging? && OldEnough(s, At(s, p).clock) ==>
               !Holder(At(s, s.file.value.owner))
    ensures Moves(s, Next(s, step), p) && FileOk(Next(s, step))
    ensures OwnsFile(Next(s, step), p) && KnowsOwner(Next(s, step), p)
  {
  }

  // ---- whole runs ------------------------------------------------------------------------

  ghost predicate PromptRunWithin(now: real, steps: seq<Step>, delay: real) {
    forall i :: 0 <= i < |steps| ==> PromptWithin(After(now, steps[..i]), steps[i], delay)
  }

  /** Every step of the run satisfies `Prompt`, and so on. */
  ghost predicate PromptRun(now: real, steps: seq<Step>) {
    PromptRunWithin(now, steps, GRACE)
  }

  ghost predicate AtomicRun(now: real, steps: seq<Step>) {
    forall i :: 0 <= i < |steps| ==> Atomic(After(now, steps[..i]), steps[i])
  }

  ghost predicate OwnersSurvive(now: real, steps: seq<Step>) {
    forall i :: 0 <= i < |steps| ==> OwnerSurvives(After(now, steps[..i]), steps[i])
  }

  /** A run whose clock reads come within `d` seconds of the PID reads, with a one-step
      reclaim or with owners that survive where asked for. */
  ghost predicate Run(now: real, steps: seq<Step>, d: real, atomic: bool, surviving: bool) {
    && PromptRunWithin(now, steps, d)
    && (atomic ==> AtomicRun(now, steps))
    && (surviving ==> OwnersSurvive(now, steps))
  }

  lemma PrefixOfPrefix(steps: seq<Step>)
    requires steps != []
    ensures forall i :: 0 <= i < |steps| - 1 ==> steps[..|steps| - 1][..i] == steps[..i]
  {
  }

  lemma {:induction false} AtomicRunsKeepInv(now: real, steps: seq<Step>)
    requires PromptRun(now, steps) && AtomicRun(now, steps)
    ensures Inv(After(now, steps))
  {
    hide Next, PromptWithin, Atomic;
    if steps != [] {
      var k := |steps| - 1;
      PrefixOfPrefix(steps);
      AtomicRunsKeepInv(now, steps[..k]);
      StepKeeps(After(now, steps[..k]), steps[k]);
    }
  }

  /** The file exists only while its creator holds the lock. */
  predicate NoOrphan(s: State) {
    s.file.Some? ==> Holder(At(s, s.file.value.owner))
  }

  /** With no orphaned file an age test cannot pass, so the one-step assumption is free. */
  lemma NoOrphanAtomic(s: State, step: Step)
    requires Inv(s) && NoOrphan(s)
    ensures Atomic(s, step)
    ensures step.StatAndRemove? ==> Next(s, step) == s
  {
    if (step.Stat? || step.StatAndRemove?) && At(s, step.p).Aging? && OldEnough(s, At(s, step.p).clock) {
      AgedFileIsOrphan(s, step.p);
    }
  }

  lemma NoOrphanKept(s: State, step: Step)
    requires Inv(s) && NoOrphan(s) && OwnerSurvives(s, step)
    ensures NoOrphan(Next(s, step))
  {
    if !step.Tick? && !step.Start? && step.p in s.procs {
      assert OwnsFile(s, step.p) && KnowsOwner(s, step.p);
      NoOrphanAtomic(s, step);
    }
  }

  lemma {:induction false} SurvivingRunsKeepInv(now: real, steps: seq<Step>)
    requires PromptRun(now, steps) && OwnersSurvive(now, steps)
    ensures Inv(After(now, steps)) && NoOrphan(After(now, steps))
  {
    hide Next, PromptWithin, Atomic, OwnerSurvives;
    if steps != [] {
      var k := |steps| - 1;
      PrefixOfPrefix(steps);
      SurvivingRunsKeepInv(now, steps[..k]);
      var s := After(now, steps[..k]);
      NoOrphanAtomic(s, steps[k]);
      StepKeeps(s, steps[k]);
      NoOrphanKept(s, steps[k]);
    }
  }

  /** At most one process is between creating and removing the file. */
  ghost predicate Exclusive(s: State) {
    forall p, q :: Holder(At(s, p)) && Holder(At(s, q)) ==> p == q
  }

  lemma InvExclusive(s: State)
    requires Inv(s)
    ensures Exclusive(s)
  {
    forall p, q | Holder(At(s, p)) && Holder(At(s, q))
      ensures p == q
    {
      assert OwnsFile(s, p) && OwnsFile(s, q);
    }
  }

  /** Mutual exclusion in every interleaving with any crashes, given a prompt clock
      read and a one-step reclaim ... */
  lemma MutualExclusion(now: real, steps: seq<Step>)
    requires PromptRun(now, steps) && AtomicRun(now, steps)
    ensures Exclusive(After(now, steps))
  {
    AtomicRunsKeepInv(now, steps);
    InvExclusive(After(now, steps));
  }

  /** ... and without the one-step assumption when no owner dies holding the lock. */
  lemma MutualExclusionWithoutOrphans(now: real, steps: seq<Step>)
    requires PromptRun(now, steps) && OwnersSurvive(now, steps)
    ensures Exclusive(After(now, steps))
  {
    SurvivingRunsKeepInv(now, steps);
    InvExclusive(After(now, steps));
  }

  /** Whenever the file disappears, its creator removed it or has ended; and a release
      only ever removes the releaser's own file. */
  lemma RemovalsAreSafe(now: real, steps: seq<Step>, step: Step)
    requires PromptRun(now, steps)
    requires AtomicRun(now, steps) || OwnersSurvive(now, steps)
    requires var s := After(now, steps); s.file.Some? && Next(s, step).file.None?
    ensures var s := After(now, steps);
            && !step.Tick? && !step.Start?
            && (step.p == s.file.value.owner || At(s, s.file.value.owner) == Gone)
            && (step.ReleaseRemove? ==> step.p == s.file.value.owner)
  {
    var s := After(now, steps);
    if AtomicRun(now, steps) {
      AtomicRunsKeepInv(now, steps);
    } else {
      SurvivingRunsKeepInv(now, steps);
    }
    hide After;
    assert step.p in s.procs;
    assert OwnsFile(s, step.p) && KnowsOwner(s, step.p);
    if step.StatAndRemove? {
      AgedFileIsOrphan(s, step.p);
    }
  }

  // ---- exactly when ownership survives ------------------------------------------------------

  /** A waiter removes the file of a process that still holds the lock. */
  predicate Robs(s: State, step: Step) {
    && (step.Remove? || step.StatAndRemove?)
    && s.file.Some? && Next(s, step).file.None?
    && Holder(At(s, s.file.value.owner))
  }

  ghost predicate Owned(s: State) {
    && (s.file.Some? ==> s.file.value.owner in s.procs)
    && (forall p :: p in s.procs ==> OwnsFile(s, p))
  }

  lemma OwnedExactly(s: State, step: Step)
    requires Owned(s)
    ensures Owned(Next(s, step)) <==> !Robs(s, step)
  {
    var s2 := Next(s, step);
    if Robs(s, step) {
      var o := s.file.value.owner;
      assert Holder(At(s2, o));
      assert !OwnsFile(s2, o);
    } else {
      forall w | w in s2.procs
        ensures OwnsFile(s2, w)
      {
        assert w in s.procs ==> OwnsFile(s, w);
        if !step.Tick? && step.p in s.procs {
          assert OwnsFile(s, step.p);
        }
      }
    }
  }

  ghost predicate NeverRobs(now: real, steps: seq<Step>) {
    forall i :: 0 <= i < |steps| ==> !Robs(After(now, steps[..i]), steps[i])
  }

  lemma {:induction false} OwnedUnlessRobbed(now: real, steps: seq<Step>)
    requires NeverRobs(now, steps)
    ensures Owned(After(now, steps))
  {
    hide Next, Owned, Robs;
    if steps == [] {
      InitOwned(now);
    } else {
      var k := |steps| - 1;
      PrefixOfPrefix(steps);
      OwnedUnlessRobbed(now, steps[..k]);
      OwnedExactly(After(now, steps[..k]), steps[k]);
    }
  }

  /** Over a whole run: every holder owns the file at every moment if and only if no
      waiter ever removes the file of a process that still holds the lock ... */
  lemma OwnedThroughout(now: real, steps: seq<Step>)
    ensures (forall i :: 0 <= i <= |steps| ==> Owned(After(now, steps[..i]))) <==> NeverRobs(now, steps)
  {
    hide Next, Owned, Robs;
    if NeverRobs(now, steps) {
      forall i | 0 <= i <= |steps|
        ensures Owned(After(now, steps[..i]))
      {
        NeverRobsPrefix(now, steps, i);
        OwnedUnlessRobbed(now, steps[..i]);
      }
    } else {
      var i :| 0 <= i < |steps| && Robs(After(now, steps[..i]), steps[i]);
      assert steps[..i + 1][..i] == steps[..i];
      if Owned(After(now, steps[..i])) {
        OwnedExactly(After(now, steps[..i]), steps[i]);
        assert !Owned(After(now, steps[..i + 1]));
      }
    }
  }

  /** Holders that own the one file are one holder. */
  lemma OwnedExclusive(s: State)
    requires Owned(s)
    ensures Exclusive(s)
  {
    forall p, q | Holder(At(s, p)) && Holder(At(s, q))
      ensures p == q
    {
      assert OwnsFile(s, p) && OwnsFile(s, q);
    }
  }

  /** A robbery costs mutual exclusion as soon as the robber tries again. */
  lemma RobberyBreaks(s: State, step: Step)
    requires Robs(s, step)
    ensures !Exclusive(Next(Next(s, step), Create(step.p)))
  {
    var o := s.file.value.owner;
    var s2 := Next(Next(s, step), Create(step.p));
    assert Holder(At(s2, step.p)) && Holder(At(s2, o));
  }

  /** ... and exactly then the lock is exclusive at every moment and stays so whoever
      tries next. */
  lemma ExclusiveUnlessRobbed(now: real, steps: seq<Step>)
    ensures (forall i, p :: 0 <= i <= |steps| ==> Exclusive(After(now, steps[..i] + [Create(p)])))
       <==> NeverRobs(now, steps)
  {
    hide Next, Owned, Robs, Exclusive, After;
    if NeverRobs(now, steps) {
      forall i, p: nat | 0 <= i <= |steps|
        ensures Exclusive(After(now, steps[..i] + [Create(p)]))
      {
        NeverRobsPrefix(now, steps, i);
        TryKeepsOwned(now, steps[..i], p);
      }
    } else {
      var i :| 0 <= i < |steps| && Robs(After(now, steps[..i]), steps[i]);
      RobbedRun(now, steps, i);
    }
  }

  lemma NeverRobsPrefix(now: real, steps: seq<Step>, i: nat)
    requires NeverRobs(now, steps) && i <= |steps|
    ensures NeverRobs(now, steps[..i])
  {
    hide Robs, After;
    assert forall j :: 0 <= j < i ==> steps[..i][..j] == steps[..j];
  }

  lemma TryKeepsOwned(now: real, steps: seq<Step>, p: nat)
    requires NeverRobs(now, steps)
    ensures Exclusive(After(now, steps + [Create(p)]))
  {
    hide Next, Owned, NeverRobs, Exclusive;
    OwnedUnlessRobbed(now, steps);
    OwnedExactly(After(now, steps), Create(p));
    assert (steps + [Create(p)])[..|steps|] == steps;
    OwnedExclusive(After(now, steps + [Create(p)]));
  }

  lemma RobbedRun(now: real, steps: seq<Step>, i: nat)
    requires i < |steps| && Robs(After(now, steps[..i]), steps[i])
    ensures exists p :: !Exclusive(After(now, steps[..i + 1] + [Create(p)]))
  {
    hide Next, Exclusive;
    var p := steps[i].p;
    assert steps[..i + 1][..i] == steps[..i];
    assert (steps[..i + 1] + [Create(p)])[..i + 1] == steps[..i + 1];
    RobberyBreaks(After(now, steps[..i]), steps[i]);
    assert !Exclusive(After(now, steps[..i + 1] + [Create(p)]));
  }

  lemma InitOwned(now: real)
    ensures Owned(Init(now))
  {
  }

  // ---- deadlines and ends ------------------------------------------------------------------------

  /** Step `i` of the run starts process `p`. */
  ghost predicate Starts(now: real, steps: seq<Step>, i: nat, p: nat) {
    && i < |steps| && steps[i].Start? && steps[i].p == p && p > 0
    && p !in After(now, steps[..i]).procs
  }

  /** When the waiter that step `i` started gives up. */
  ghost function GivesUpAt(now: real, steps: seq<Step>, i: nat): real
    requires i < |steps| && steps[i].Start?
  {
    After(now, steps[..i]).now + steps[i].timeout
  }

  lemma DeadlineSet(s: State, step: Step)
    requires step.Start? && step.p > 0 && step.p !in s.procs
    ensures var s2 := Next(s, step); step.p in s2.procs && s2.procs[step.p].deadline == s.now + step.timeout
  {
  }

  lemma DeadlineStays(s: State, step: Step, p: nat)
    requires p in s.procs
    ensures p in Next(s, step).procs && Next(s, step).procs[p].deadline == s.procs[p].deadline
  {
  }

  lemma {:induction false} DeadlineKept(now: real, steps: seq<Step>, i: nat, p: nat)
    requires Starts(now, steps, i, p)
    ensures p in After(now, steps).procs && After(now, steps).procs[p].deadline == GivesUpAt(now, steps, i)
    decreases |steps|
  {
    hide Next;
    var k := |steps| - 1;
    if i == k {
      DeadlineSet(After(now, steps[..k]), steps[k]);
    } else {
      assert steps[..k][..i] == steps[..i];
      DeadlineKept(now, steps[..k], i, p);
      DeadlineStays(After(now, steps[..k]), steps[k], p);
    }
  }

  /** Every process of a run was started. */
  lemma {:induction false} Started(now: real, steps: seq<Step>, p: nat) returns (i: nat)
    requires p in After(now, steps).procs
    ensures Starts(now, steps, i, p)
  {
    var k := |steps| - 1;
    if p in After(now, steps[..k]).procs {
      i := Started(now, steps[..k], p);
      assert steps[..k][..i] == steps[..i];
    } else {
      i := k;
      assert steps[k].Start? && steps[k].p == p;
    }
  }

  /** Over all runs: a waiter that was started at time t0 with a timeout gives up by a step
      of its own no earlier than t0 plus the timeout. When it looks at the clock before
      then it tries again, and when it looks later it ends without the lock. */
  lemma TimeoutExactly(now: real, steps: seq<Step>, i: nat, p: nat, step: Step)
    requires Starts(now, steps, i, p) && At(After(now, steps), p) == Waiting
    ensures var s, until := After(now, steps), GivesUpAt(now, steps, i);
            && (By(step, p) && !step.Crash? && At(Next(s, step), p) == Gone ==> s.now >= until)
            && (s.now < until ==> At(Next(s, Deadline(p)), p) == Trying)
            && (s.now >= until ==> At(Next(s, Deadline(p)), p) == Gone)
            && Next(s, Deadline(p)).file == s.file
  {
    DeadlineKept(now, steps, i, p);
    hide After;
  }

  /** A process tries again only before its deadline, or right after it removed a file. */
  lemma RetriesExactly(now: real, steps: seq<Step>, i: nat, p: nat, step: Step)
    requires Starts(now, steps, i, p) && By(step, p) && At(After(now, steps), p) != Trying
    requires At(Next(After(now, steps), step), p) == Trying
    ensures var s := After(now, steps);
            || (At(s, p) == Waiting && s.now < GivesUpAt(now, steps, i))
            || (s.file.Some? && Next(s, step).file.None?)
  {
    DeadlineKept(now, steps, i, p);
    hide After;
  }

  /** The ways to end without a crash: a release, a timeout, or a file that vanished before
      its age was read. */
  lemma EndsExactly(s: State, p: nat, step: Step)
    requires By(step, p) && !step.Crash? && p in s.procs && At(s, p) != Gone
    ensures At(Next(s, step), p) == Gone <==>
              || (step.Deadline? && At(s, p) == Waiting && s.now >= s.procs[p].deadline)
              || (step.Stat? && At(s, p).Aging? && s.file.None?)
              || (step.ReleaseRead? && At(s, p) == Releasing
                  && !(s.file.Some? && s.file.value.text == Some(p)))
              || (step.ReleaseRemove? && At(s, p) == Removing)
  {
  }

  /** A holder that nobody disturbs removes its file when it is done. */
  lemma ReleaseFrees(s: State, p: nat)
    requires At(s, p) == Holding && OwnsFile(s, p)
    ensures var s2 := Next(Next(Next(s, Finish(p)), ReleaseRead(p)), ReleaseRemove(p));
            At(s2, p) == Gone && s2.file.None?
  {
    var s1 := Next(s, Finish(p));
    assert s1 == Goto(s, p, Releasing);
    assert Next(s1, ReleaseRead(p)) == Goto(s, p, Removing);
  }

  /** Whatever happens to the file happened now: it holds no PID exactly until its creator
      writes one, and its time is that of the creation or the write. */
  ghost predicate FileFrom(now: real, steps: seq<Step>, f: File, i: nat) {
    && i < |steps|
    && steps[i] == (if f.text.None? then Create(f.owner) else Write(f.owner))
    && f.mtime == After(now, steps[..i]).now
    && (f.text.Some? ==> f.text == Some(f.owner))
  }

  lemma FileChanges(s: State, step: Step)
    requires Next(s, step).file.Some? && Next(s, step).file != s.file
    ensures var f := Next(s, step).file.value;
            && step == (if f.text.None? then Create(f.owner) else Write(f.owner))
            && f.mtime == s.now && (f.text.Some? ==> f.text == Some(f.owner))
  {
  }

  lemma {:induction false} FileHistory(now: real, steps: seq<Step>) returns (i: nat)
    requires After(now, steps).file.Some?
    ensures FileFrom(now, steps, After(now, steps).file.value, i)
  {
    hide Next;
    var k := |steps| - 1;
    var s := After(now, steps[..k]);
    if After(now, steps).file == s.file {
      i := FileHistory(now, steps[..k]);
      assert steps[..k][..i] == steps[..i];
    } else {
      FileChanges(s, steps[k]);
      i := k;
    }
  }

  // ---- reclaiming ------------------------------------------------------------------------------

  /** The owner died between creating the file and writing its PID. */
  predicate EmptyOrphan(s: State) {
    s.file.Some? && s.file.value.text.None? && At(s, s.file.value.owner) == Gone
  }

  lemma EmptyOrphanStays(s: State, step: Step)
    requires Inv(s) && EmptyOrphan(s) && Atomic(s, step)
    ensures EmptyOrphan(Next(s, step)) && Next(s, step).file == s.file
  {
    if !step.Tick? && !step.Start? && step.p in s.procs {
      assert OwnsFile(s, step.p) && KnowsOwner(s, step.p);
    }
  }

  /** With prompt waiters and a one-step reclaim such a file stays for the rest of the run
      and nobody acquires the lock again. */
  lemma {:induction false} EmptyOrphanForever(now: real, steps: seq<Step>, more: seq<Step>)
    requires PromptRun(now, steps + more) && AtomicRun(now, steps + more)
    requires EmptyOrphan(After(now, steps))
    ensures After(now, steps + more).file == After(now, steps).file
    ensures EmptyOrphan(After(now, steps + more))
    ensures forall p :: !Holder(At(After(now, steps + more), p))
    decreases |more|
  {
    var all := steps + more;
    AtomicRunsKeepInv(now, all);
    hide Next, PromptWithin, Atomic, Inv, EmptyOrphan, At, PromptRun, AtomicRun;
    if more == [] {
      assert all == steps;
    } else {
      var k := |all| - 1;
      var rest := more[..|more| - 1];
      assert all[..k] == steps + rest;
      RunPrefix(now, all);
      EmptyOrphanForever(now, steps, rest);
      AtomicRunsKeepInv(now, steps + rest);
      EmptyOrphanStays(After(now, steps + rest), all[k]);
    }
    NobodyHolds(After(now, all));
  }

  lemma RunPrefix(now: real, steps: seq<Step>)
    requires PromptRun(now, steps) && AtomicRun(now, steps) && steps != []
    ensures PromptRun(now, steps[..|steps| - 1]) && AtomicRun(now, steps[..|steps| - 1])
    ensures Atomic(After(now, steps[..|steps| - 1]), steps[|steps| - 1])
  {
    hide PromptWithin, Atomic, After;
    PrefixOfPrefix(steps);
  }

  lemma NobodyHolds(s: State)
    requires Inv(s) && EmptyOrphan(s)
    ensures forall p :: !Holder(At(s, p))
  {
    forall p
      ensures !Holder(At(s, p))
    {
      assert p in s.procs ==> OwnsFile(s, p);
    }
  }

  /** A run gets there without any delay: the owner dies right after creating the file. */
  lemma EmptyOrphanReached(now: real, timeout: real)
    ensures var steps := [Start(1, timeout), Create(1), Crash(1)];
            && PromptRun(now, steps) && AtomicRun(now, steps)
            && EmptyOrphan(After(now, steps))
  {
    var steps := [Start(1, timeout), Create(1), Crash(1)];
    assert steps[..2] == [Start(1, timeout), Create(1)] && steps[..2][..1] == [Start(1, timeout)];
    assert After(now, [Start(1, timeout)]) == State(now, None, map[1 := Proc(Trying, now + timeout)]);
    var f := Some(File(1, None, now));
    assert After(now, steps[..2]) == State(now, f, map[1 := Proc(Created, now + timeout)]);
    assert After(now, steps) == State(now, f, map[1 := Proc(Gone, now + timeout)]);
  }

  // ---- a waiter that polls reclaims -----------------------------------------------------------

  predicate By(step: Step, p: nat) {
    !step.Tick? && step.p == p
  }

  /** The steps of `p` in a run. */
  function Own(steps: seq<Step>, p: nat): seq<Step> {
    if steps == [] then []
    else
      var k := |steps| - 1;
      Own(steps[..k], p) + if By(steps[k], p) then [steps[k]] else []
  }

  /** One round of the loop of a waiter that finds the file old enough. */
  function Poll(p: nat, split: bool): seq<Step> {
    [Create(p), Read(p), Probe(p), ReadClock(p)] + if split then [Stat(p), Remove(p)] else [StatAndRemove(p)]
  }

  /** Where the round stands after `k` steps if the file is still there. */
  predicate Stage(pc: Pc, k: nat, q: nat, since: real, split: bool) {
    match k
    case 0 => pc == Trying
    case 1 => pc == Reading
    case 2 => pc.Judging? && pc.pid == q
    case 3 => pc.Timing? && pc.pid == q
    case 4 => pc.Aging? && pc.clock >= since
    case 5 => split && pc.Reclaiming?
    case _ => false
  }

  predicate Cornered(s: State, f: File, p: nat, k: nat, since: real, split: bool) {
    && f.text == Some(f.owner) && f.owner > 0 && f.owner in s.procs && At(s, f.owner) == Gone
    && s.now >= since && since - f.mtime > GRACE
    && (s.file == Some(f) ==> Stage(At(s, p), k, f.owner, since, split))
  }

  /** Nobody else can disturb the round except by removing the file, and nobody can
      bring the file back. */
  lemma OthersLeaveCornered(s: State, step: Step, f: File, p: nat, k: nat, since: real, split: bool)
    requires Cornered(s, f, p, k, since, split) && !By(step, p)
    ensures Cornered(Next(s, step), f, p, k, since, split)
  {
    hide Stage;
    if !step.Tick? {
      assert At(Next(s, step), p) == At(s, p);
    }
  }

  lemma PollCorners(s: State, f: File, p: nat, k: nat, since: real, split: bool)
    requires Cornered(s, f, p, k, since, split) && k < |Poll(p, split)|
    ensures Cornered(Next(s, Poll(p, split)[k]), f, p, k + 1, since, split)
  {
  }

  lemma {:induction false} PollAlong(now: real, steps: seq<Step>, more: seq<Step>, f: File, p: nat, since: real,
                                     split: bool)
    requires Cornered(After(now, steps), f, p, 0, since, split) && Own(more, p) <= Poll(p, split)
    ensures Cornered(After(now, steps + more), f, p, |Own(more, p)|, since, split)
    decreases |more|
  {
    hide Next, Cornered, Poll;
    if more == [] {
      assert steps + more == steps;
    } else {
      var k := |more| - 1;
      var all := steps + more;
      assert all[..|all| - 1] == steps + more[..k];
      PollAlong(now, steps, more[..k], f, p, since, split);
      if By(more[k], p) {
        PollCorners(After(now, steps + more[..k]), f, p, |Own(more[..k], p)|, since, split);
      } else {
        OthersLeaveCornered(After(now, steps + more[..k]), more[k], f, p, |Own(more[..k], p)|, since, split);
      }
    }
  }

  ghost predicate Sane(s: State) {
    FileOk(s) && forall p :: p in s.procs ==> p > 0
  }

  /** Over any run at all: the file names its creator and is not from the future. */
  lemma {:induction false} SaneAlways(now: real, steps: seq<Step>)
    ensures Sane(After(now, steps))
  {
    hide Next;
    if steps != [] {
      SaneAlways(now, steps[..|steps| - 1]);
      SaneStep(After(now, steps[..|steps| - 1]), steps[|steps| - 1]);
    }
  }

  lemma SaneStep(s: State, step: Step)
    requires Sane(s)
    ensures Sane(Next(s, step))
  {
  }

  /** Stale locks are reclaimed: once a written file's owner is dead and the file is older
      than the grace period, one round of any waiter's loop gets rid of the file, whatever
      the other processes do in between. */
  lemma EveryPollReclaims(now: real, steps: seq<Step>, more: seq<Step>, p: nat, split: bool)
    requires var s := After(now, steps);
             && OldEnough(s, s.now) && s.file.value.text.Some?
             && At(s, s.file.value.owner) == Gone && At(s, p) == Trying
    requires Own(more, p) == Poll(p, split)
    ensures After(now, steps + more).file != After(now, steps).file
  {
    hide Next;
    var s := After(now, steps);
    SaneAlways(now, steps);
    PollAlong(now, steps, more, s.file.value, p, s.now, split);
  }

  /** A written file of a dead owner, by contrast, can always be reclaimed: a live
      process that tries after the grace period gets the lock. */
  lemma DeadOwnerReclaimed(s: State, p: nat)
    requires Inv(s) && At(s, p) == Trying && OldEnough(s, s.now)
    requires s.file.value.text.Some? && At(s, s.file.value.owner) == Gone
    ensures var judged := Next(Next(Next(s, Create(p)), Read(p)), Probe(p));
            var removed := Next(Next(judged, ReadClock(p)), StatAndRemove(p));
            Prompt(judged, ReadClock(p)) && At(Next(removed, Create(p)), p) == Created
  {
    var q := s.file.value.owner;
    var s1 := Next(s, Create(p));
    var s2 := Next(s1, Read(p));
    var s3 := Next(s2, Probe(p));
    assert s1 == Goto(s, p, Reading);
    assert s2 == Goto(s, p, Judging(q, s.now));
    assert s3 == Goto(s, p, Timing(q, s.now));
    ReclaimAfterProbe(s, p, q);
  }

  lemma ReclaimAfterProbe(s: State, p: nat, q: nat)
    requires p in s.procs && OldEnough(s, s.now)
    ensures var judged := Goto(s, p, Timing(q, s.now));
            var removed := Next(Next(judged, ReadClock(p)), StatAndRemove(p));
            Prompt(judged, ReadClock(p)) && At(Next(removed, Create(p)), p) == Created
  {
    var s3 := Goto(s, p, Timing(q, s.now));
    var s4 := Next(s3, ReadClock(p));
    assert s4 == Goto(s, p, Aging(q, s.now, s.now));
    assert Next(s4, StatAndRemove(p)) == Goto(s.(file := None), p, Trying);
  }

  lemma PollRun(now: real, steps: seq<Step>, p: nat)
    requires Run(now, steps, GRACE, true, false) && Inv(After(now, steps))
    requires At(After(now, steps), p) == Trying && OldEnough(After(now, steps), After(now, steps).now)
    requires var s := After(now, steps); s.file.value.text.Some? && At(s, s.file.value.owner) == Gone
    ensures Run(now, steps + Poll(p, false), GRACE, true, false)
  {
    hide After, Inv, PromptRunWithin, AtomicRun;
    var s := After(now, steps);
    DeadOwnerReclaimed(s, p);
    var steps1, steps2 := steps + [Create(p)], steps + [Create(p)] + [Read(p)];
    var steps3, steps4 := steps2 + [Probe(p)], steps2 + [Probe(p)] + [ReadClock(p)];
    Extend(now, steps, Create(p), GRACE);
    Extend(now, steps1, Read(p), GRACE);
    Extend(now, steps2, Probe(p), GRACE);
    Extend(now, steps3, ReadClock(p), GRACE);
    Extend(now, steps4, StatAndRemove(p), GRACE);
    assert steps4 + [StatAndRemove(p)] == steps + Poll(p, false);
  }

  /** With prompt waiters and a one-step reclaim, an old file of a dead owner can still be
      got rid of if and only if its owner lived to write its PID. */
  lemma ReclaimableExactly(now: real, steps: seq<Step>, p: nat)
    requires Run(now, steps, GRACE, true, false)
    requires var s := After(now, steps);
             OldEnough(s, s.now) && At(s, s.file.value.owner) == Gone && At(s, p) == Trying
    ensures (exists more :: && Run(now, steps + more, GRACE, true, false)
                            && After(now, steps + more).file != After(now, steps).file)
       <==> After(now, steps).file.value.text.Some?
  {
    var s := After(now, steps);
    hide After, Next, Poll, PromptRunWithin, AtomicRun;
    AtomicRunsKeepInv(now, steps);
    if s.file.value.text.Some? {
      PollRun(now, steps, p);
      PollIsOwn(p);
      EveryPollReclaims(now, steps, Poll(p, false), p, false);
    } else {
      forall more | Run(now, steps + more, GRACE, true, false)
        ensures After(now, steps + more).file == s.file
      {
        EmptyOrphanForever(now, steps, more);
      }
    }
  }

  lemma PollIsOwn(p: nat)
    ensures Own(Poll(p, false), p) == Poll(p, false)
  {
    OwnAll(Poll(p, false), p);
  }

  lemma {:induction false} OwnAll(steps: seq<Step>, p: nat)
    requires forall i :: 0 <= i < |steps| ==> By(steps[i], p)
    ensures Own(steps, p) == steps
  {
    if steps != [] {
      OwnAll(steps[..|steps| - 1], p);
    }
  }

  // ---- which files of dead owners can still go, over all runs -------------------------------------

  /** A process that has read a PID, or means to remove the file, before it can learn that
      the file holds none. */
  predicate Threatens(s: State, p: nat) {
    var pc := At(s, p);
    pc.Removing? || pc.Reclaiming? || pc.Timing? || pc.Judging? || (pc.Aging? && OldEnough(s, pc.clock))
  }

  /** Only such processes can touch an empty file of a dead owner, and none becomes one. */
  lemma HarmlessStays(s: State, step: Step)
    requires Sane(s) && EmptyOrphan(s) && forall p :: !Threatens(s, p)
    ensures Next(s, step).file == s.file && EmptyOrphan(Next(s, step))
    ensures forall p :: !Threatens(Next(s, step), p)
  {
    var s2 := Next(s, step);
    if !step.Tick? {
      assert !Threatens(s, step.p);
    }
    forall p
      ensures !Threatens(s2, p)
    {
      assert !Threatens(s, p);
    }
  }

  lemma {:induction false} HarmlessForever(now: real, steps: seq<Step>, more: seq<Step>)
    requires EmptyOrphan(After(now, steps)) && forall p :: !Threatens(After(now, steps), p)
    ensures After(now, steps + more).file == After(now, steps).file && EmptyOrphan(After(now, steps + more))
    ensures forall p :: !Threatens(After(now, steps + more), p)
    decreases |more|
  {
    hide Next, EmptyOrphan, Threatens, Sane;
    if more == [] {
      assert steps + more == steps;
    } else {
      var k, all := |more| - 1, steps + more;
      assert all[..|all| - 1] == steps + more[..k];
      HarmlessForever(now, steps, more[..k]);
      SaneAlways(now, steps + more[..k]);
      HarmlessStays(After(now, steps + more[..k]), more[k]);
    }
  }

  /** The file's creator holds the lock or is gone, and nobody reads its own PID. */
  ghost predicate Settled(s: State) {
    && Sane(s)
    && (s.file.Some? ==> Holder(At(s, s.file.value.owner)) || At(s, s.file.value.owner) == Gone)
    && forall p :: p in s.procs && HasRead(At(s, p)) ==> At(s, p).pid != p
  }

  lemma SettledStep(s: State, step: Step)
    requires Settled(s)
    ensures Settled(Next(s, step))
  {
    var s2 := Next(s, step);
    SaneStep(s, step);
    hide Sane;
    assert FileOk(s) by { SaneFile(s); }
    forall p | p in s2.procs && HasRead(At(s2, p))
      ensures At(s2, p).pid != p
    {
      assert p in s.procs && HasRead(At(s, p)) ==> At(s, p).pid != p;
    }
  }

  lemma SaneFile(s: State)
    requires Sane(s)
    ensures FileOk(s)
  {
  }

  lemma {:induction false} SettledAlways(now: real, steps: seq<Step>)
    ensures Settled(After(now, steps))
  {
    hide Next;
    if steps != [] {
      SettledAlways(now, steps[..|steps| - 1]);
      SettledStep(After(now, steps[..|steps| - 1]), steps[|steps| - 1]);
    }
  }

  /** Some continuation of the run ends without the file `f`. */
  ghost predicate CanLose(now: real, steps: seq<Step>, f: Option<File>) {
    exists more :: After(now, steps + more).file != f
  }

  lemma LosesAfter(now: real, steps: seq<Step>, step: Step, f: Option<File>)
    requires CanLose(now, steps + [step], f)
    ensures CanLose(now, steps, f)
  {
    hide After;
    var more :| After(now, steps + [step] + more).file != f;
    assert steps + [step] + more == steps + ([step] + more);
  }

  lemma LosesAt(now: real, steps: seq<Step>, step: Step, f: Option<File>)
    requires Next(After(now, steps), step).file != f
    ensures CanLose(now, steps, f)
  {
    hide Next;
    assert (steps + [step])[..|steps|] == steps;
    assert After(now, steps + [step]).file != f;
  }

  lemma TimingLoses(now: real, steps: seq<Step>, p: nat)
    requires After(now, steps).file.Some? && At(After(now, steps), p).Timing?
    ensures CanLose(now, steps, After(now, steps).file)
  {
    var s := After(now, steps);
    var f := s.file;
    var late := f.value.mtime + GRACE + 1.0;
    var time := if late >= s.now then late else s.now;
    var s1 := Next(s, Tick(time));
    var s2 := Next(s1, ReadClock(p));
    var steps1, steps2 := steps + [Tick(time)], steps + [Tick(time)] + [ReadClock(p)];
    assert s2.file == f && At(s2, p).Aging? && OldEnough(s2, At(s2, p).clock);
    assert Next(s2, StatAndRemove(p)).file.None?;
    assert After(now, steps1) == s1 && After(now, steps2) == s2 by {
      Extend(now, steps, Tick(time), 0.0);
      Extend(now, steps1, ReadClock(p), 0.0);
    }
    hide After, Next, CanLose;
    LosesAt(now, steps2, StatAndRemove(p), f);
    LosesAfter(now, steps1, ReadClock(p), f);
    LosesAfter(now, steps, Tick(time), f);
  }

  lemma JudgingLoses(now: real, steps: seq<Step>, p: nat)
    requires After(now, steps).file.Some? && At(After(now, steps), p).Judging?
    ensures CanLose(now, steps, After(now, steps).file)
  {
    var s := After(now, steps);
    var f, q := s.file, At(s, p).pid;
    assert q != p by { SettledAlways(now, steps); }
    var s1 := Next(s, Crash(q));
    var s2 := Next(s1, Probe(p));
    var steps1, steps2 := steps + [Crash(q)], steps + [Crash(q)] + [Probe(p)];
    assert !Alive(s1, q) && At(s1, p) == At(s, p);
    assert s2.file == f && At(s2, p).Timing?;
    assert After(now, steps1) == s1 && After(now, steps2) == s2 by {
      Extend(now, steps, Crash(q), 0.0);
      Extend(now, steps1, Probe(p), 0.0);
    }
    hide After, Next, CanLose;
    TimingLoses(now, steps2, p);
    LosesAfter(now, steps1, Probe(p), f);
    LosesAfter(now, steps, Crash(q), f);
  }

  lemma ThreatLoses(now: real, steps: seq<Step>, p: nat)
    requires After(now, steps).file.Some? && Threatens(After(now, steps), p)
    ensures CanLose(now, steps, After(now, steps).file)
  {
    var s := After(now, steps);
    hide After, CanLose;
    match At(s, p)
    case Removing => LosesAt(now, steps, ReleaseRemove(p), s.file);
    case Reclaiming(_) => LosesAt(now, steps, Remove(p), s.file);
    case Aging(_, _, _) => LosesAt(now, steps, StatAndRemove(p), s.file);
    case Timing(_, _) => TimingLoses(now, steps, p);
    case Judging(_, _) => JudgingLoses(now, steps, p);
    case _ =>
  }

  /** There is always a process id that has not been used. */
  lemma FreshId(used: set<nat>) returns (p: nat)
    ensures forall q :: q in used ==> q < p
    decreases |used|
  {
    if used == {} {
      p := 0;
    } else {
      var q :| q in used;
      var r := FreshId(used - {q});
      p := if r > q then r else q + 1;
      assert forall x :: x in used ==> x == q || x in used - {q};
    }
  }

  /** A file with the PID of a dead owner goes as soon as anybody comes. */
  lemma WrittenLoses(now: real, steps: seq<Step>)
    requires var s := After(now, steps);
             s.file.Some? && s.file.value.text.Some? && At(s, s.file.value.owner) == Gone
    ensures CanLose(now, steps, After(now, steps).file)
  {
    var s := After(now, steps);
    SaneAlways(now, steps);
    var f := s.file;
    var q := FreshId(s.procs.Keys);
    var p := q + 1;
    assert p !in s.procs.Keys;
    var late := f.value.mtime + GRACE + 1.0;
    var time := if late >= s.now then late else s.now;
    var s1 := Next(s, Start(p, 0.0));
    var s2 := Next(s1, Tick(time));
    var steps1, steps2 := steps + [Start(p, 0.0)], steps + [Start(p, 0.0)] + [Tick(time)];
    assert After(now, steps1) == s1 && After(now, steps2) == s2 by {
      Extend(now, steps, Start(p, 0.0), 0.0);
      Extend(now, steps1, Tick(time), 0.0);
    }
    assert s2.file == f && At(s2, p) == Trying && OldEnough(s2, s2.now) && At(s2, f.value.owner) == Gone;
    hide After, Next, Poll;
    PollIsOwn(p);
    EveryPollReclaims(now, steps2, Poll(p, false), p, false);
    assert CanLose(now, steps2, f);
    hide CanLose;
    LosesAfter(now, steps1, Tick(time), f);
    LosesAfter(now, steps, Start(p, 0.0), f);
  }

  /** Over all runs, with no assumption at all: a file whose owner is dead can still go if
      and only if it holds a PID or some process is past the point of reading one. */
  lemma OrphanRemovableExactly(now: real, steps: seq<Step>)
    requires var s := After(now, steps); s.file.Some? && At(s, s.file.value.owner) == Gone
    ensures (exists more :: After(now, steps + more).file != After(now, steps).file)
       <==> After(now, steps).file.value.text.Some? || exists p :: Threatens(After(now, steps), p)
  {
    var s := After(now, steps);
    hide After, Threatens;
    if s.file.value.text.Some? {
      WrittenLoses(now, steps);
    } else if exists p :: Threatens(s, p) {
      var p :| Threatens(s, p);
      ThreatLoses(now, steps, p);
    } else {
      forall more
        ensures After(now, steps + more).file == s.file
      {
        HarmlessForever(now, steps, more);
      }
    }
  }

  // ---- the assumptions are needed ----------------------------------------------------------------

  lemma Extend(now: real, steps: seq<Step>, step: Step, d: real)
    ensures After(now, steps + [step]) == Next(After(now, steps), step)
    ensures PromptRunWithin(now, steps, d) && PromptWithin(After(now, steps), step, d) ==>
              PromptRunWithin(now, steps + [step], d)
    ensures AtomicRun(now, steps) && Atomic(After(now, steps), step) ==> AtomicRun(now, steps + [step])
    ensures OwnersSurvive(now, steps) && OwnerSurvives(After(now, steps), step) ==>
              OwnersSurvive(now, steps + [step])
  {
    hide Next, PromptWithin, Atomic, OwnerSurvives;
    var all := steps + [step];
    assert all[..|steps|] == steps;
    assert forall i :: 0 <= i < |steps| ==> all[..i] == steps[..i] && all[i] == steps[i];
  }

  /** Some run of the given kind ends in `s`. */
  ghost predicate Reachable(s: State, d: real, atomic: bool, surviving: bool) {
    exists steps :: After(0.0, steps) == s && Run(0.0, steps, d, atomic, surviving)
  }

  lemma Advance(s: State, step: Step, s2: State, d: real, atomic: bool, surviving: bool)
    requires Reachable(s, d, atomic, surviving) && Next(s, step) == s2
    requires PromptWithin(s, step, d) && (atomic ==> Atomic(s, step)) && (surviving ==> OwnerSurvives(s, step))
    ensures Reachable(s2, d, atomic, surviving)
  {
    var steps :| After(0.0, steps) == s && Run(0.0, steps, d, atomic, surviving);
    hide Next, PromptWithin, Atomic, OwnerSurvives, PromptRunWithin, AtomicRun, OwnersSurvive, After;
    Extend(0.0, steps, step, d);
    assert After(0.0, steps + [step]) == s2;
  }

  /** Processes 1, 2 and 3 at the given places. */
  function Three(a: Pc, b: Pc, c: Pc): map<nat, Proc> {
    map[1 := Proc(a, 0.0), 2 := Proc(b, 0.0), 3 := Proc(c, 0.0)]
  }

  lemma MoveThree(now: real, f: Option<File>, a: Pc, b: Pc, c: Pc, x: Pc)
    ensures var s := State(now, f, Three(a, b, c));
            && At(s, 1) == a && At(s, 2) == b && At(s, 3) == c
            && Goto(s, 1, x) == State(now, f, Three(x, b, c))
            && Goto(s, 2, x) == State(now, f, Three(a, x, c))
            && Goto(s, 3, x) == State(now, f, Three(a, b, x))
  {
  }

  lemma ReachInit(d: real, atomic: bool, surviving: bool)
    ensures Reachable(Init(0.0), d, atomic, surviving)
  {
    assert After(0.0, []) == Init(0.0);
  }

  lemma AllStart(d: real, atomic: bool, surviving: bool)
    ensures Reachable(State(0.0, None, Three(Trying, Trying, Trying)), d, atomic, surviving)
  {
    hide Reachable;
    ReachInit(d, atomic, surviving);
    var s1 := State(0.0, None, map[1 := Proc(Trying, 0.0)]);
    var s2 := State(0.0, None, map[1 := Proc(Trying, 0.0), 2 := Proc(Trying, 0.0)]);
    Advance(Init(0.0), Start(1, 0.0), s1, d, atomic, surviving);
    Advance(s1, Start(2, 0.0), s2, d, atomic, surviving);
    Advance(s2, Start(3, 0.0), State(0.0, None, Three(Trying, Trying, Trying)), d, atomic, surviving);
  }

  /** The holder `p` of three, at `x`, having created and written the file at `now`. */
  lemma Takes(now: real, a: Pc, b: Pc, c: Pc, p: nat, d: real, atomic: bool, surviving: bool)
    requires 1 <= p <= 3 && At(State(now, None, Three(a, b, c)), p) == Trying
    requires Reachable(State(now, None, Three(a, b, c)), d, atomic, surviving)
    ensures Reachable(State(now, Some(File(p, Some(p), now)),
                            Three(if p == 1 then Holding else a, if p == 2 then Holding else b,
                                  if p == 3 then Holding else c)),
                      d, atomic, surviving)
  {
    hide Reachable, Three;
    var f1, f2 := Some(File(p, None, now)), Some(File(p, Some(p), now));
    MoveThree(now, None, a, b, c, Created);
    MoveThree(now, f1, a, b, c, Created);
    var a1, b1, c1 := if p == 1 then Created else a, if p == 2 then Created else b, if p == 3 then Created else c;
    MoveThree(now, f1, a1, b1, c1, Holding);
    MoveThree(now, f2, a1, b1, c1, Holding);
    var s0 := State(now, None, Three(a, b, c));
    var s1 := State(now, f1, Three(a1, b1, c1));
    Advance(s0, Create(p), s1, d, atomic, surviving);
    Advance(s1, Write(p), Next(s1, Write(p)), d, atomic, surviving);
  }

  /** Waiter 2 finds process 1's PID in the file. */
  lemma TwoReads(f: File, a: Pc, c: Pc, d: real, atomic: bool, surviving: bool)
    requires f.text == Some(1)
    requires Reachable(State(0.0, Some(f), Three(a, Trying, c)), d, atomic, surviving)
    ensures Reachable(State(0.0, Some(f), Three(a, Judging(1, 0.0), c)), d, atomic, surviving)
  {
    hide Reachable, Three;
    MoveThree(0.0, Some(f), a, Trying, c, Reading);
    MoveThree(0.0, Some(f), a, Reading, c, Judging(1, 0.0));
    var s0 := State(0.0, Some(f), Three(a, Trying, c));
    var s1 := State(0.0, Some(f), Three(a, Reading, c));
    Advance(s0, Create(2), s1, d, atomic, surviving);
    Advance(s1, Read(2), Next(s1, Read(2)), d, atomic, surviving);
  }

  /** Process 1 releases normally while 2 still remembers its PID. */
  lemma OneReleases(d: real)
    requires Reachable(State(0.0, Some(File(1, Some(1), 0.0)), Three(Holding, Judging(1, 0.0), Trying)), d, true, true)
    ensures Reachable(State(0.0, None, Three(Gone, Judging(1, 0.0), Trying)), d, true, true)
  {
    hide Reachable, Three;
    var f, j := File(1, Some(1), 0.0), Judging(1, 0.0);
    var s1 := State(0.0, Some(f), Three(Holding, j, Trying));
    var s2 := State(0.0, Some(f), Three(Releasing, j, Trying));
    var s3 := State(0.0, Some(f), Three(Removing, j, Trying));
    var s4 := State(0.0, None, Three(Gone, j, Trying));
    assert Reachable(s2, d, true, true) by {
      MoveThree(0.0, Some(f), Holding, j, Trying, Releasing);
      Advance(s1, Finish(1), s2, d, true, true);
    }
    assert Reachable(s3, d, true, true) by {
      MoveThree(0.0, Some(f), Releasing, j, Trying, Removing);
      Advance(s2, ReleaseRead(1), s3, d, true, true);
    }
    assert Reachable(s4, d, true, true) by {
      MoveThree(0.0, Some(f), Removing, j, Trying, Gone);
      MoveThree(0.0, None, Removing, j, Trying, Gone);
      Advance(s3, ReleaseRemove(1), s4, d, true, true);
    }
  }

  /** Waiter 2 acts on what it read long ago and removes the file of process 3. */
  lemma SlowWaiterRobs(d: real)
    requires d > GRACE
    requires Reachable(State(0.0, Some(File(3, Some(3), 0.0)), Three(Gone, Judging(1, 0.0), Holding)), d, true, true)
    ensures Reachable(State(d, None, Three(Gone, Trying, Holding)), d, true, true)
  {
    hide Reachable, Three;
    var f, j, t, g := File(3, Some(3), 0.0), Judging(1, 0.0), Timing(1, 0.0), Aging(1, 0.0, d);
    var s0 := State(0.0, Some(f), Three(Gone, j, Holding));
    var s1 := State(d, Some(f), Three(Gone, j, Holding));
    var s2 := State(d, Some(f), Three(Gone, t, Holding));
    var s3 := State(d, Some(f), Three(Gone, g, Holding));
    var s4 := State(d, None, Three(Gone, Trying, Holding));
    assert Reachable(s1, d, true, true) by {
      Advance(s0, Tick(d), s1, d, true, true);
    }
    assert Reachable(s2, d, true, true) by {
      MoveThree(d, Some(f), Gone, j, Holding, t);
      Advance(s1, Probe(2), s2, d, true, true);
    }
    assert Reachable(s3, d, true, true) by {
      MoveThree(d, Some(f), Gone, t, Holding, g);
      Advance(s2, ReadClock(2), s3, d, true, true);
    }
    assert Reachable(s4, d, true, true) by {
      MoveThree(d, Some(f), Gone, g, Holding, Trying);
      MoveThree(d, None, Gone, g, Holding, Trying);
      Advance(s3, StatAndRemove(2), s4, d, true, true);
    }
  }

  /** A waiter that may take longer than the grace period between reading the PID and
      reading the clock breaks mutual exclusion, however little longer, even with a
      one-step reclaim and no crash at all. */
  lemma SlowWaiterBreaksExclusion(d: real)
    requires d > GRACE
    ensures exists steps :: Run(0.0, steps, d, true, true) && !Exclusive(After(0.0, steps))
  {
    SlowWaiterRun(d);
    var s := State(d, Some(File(2, Some(2), d)), Three(Gone, Holding, Holding));
    TwoHolders(d, s.file);
    var steps :| After(0.0, steps) == s && Run(0.0, steps, d, true, true);
  }

  lemma SlowWaiterRun(d: real)
    requires d > GRACE
    ensures Reachable(State(d, Some(File(2, Some(2), d)), Three(Gone, Holding, Holding)), d, true, true)
  {
    hide Reachable, Three;
    AllStart(d, true, true);
    MoveThree(0.0, None, Trying, Trying, Trying, Trying);
    Takes(0.0, Trying, Trying, Trying, 1, d, true, true);
    TwoReads(File(1, Some(1), 0.0), Holding, Trying, d, true, true);
    OneReleases(d);
    MoveThree(0.0, None, Gone, Judging(1, 0.0), Trying, Trying);
    Takes(0.0, Gone, Judging(1, 0.0), Trying, 3, d, true, true);
    SlowWaiterRobs(d);
    MoveThree(d, None, Gone, Trying, Holding, Trying);
    Takes(d, Gone, Trying, Holding, 2, d, true, true);
  }

  lemma TwoHolders(now: real, f: Option<File>)
    ensures !Exclusive(State(now, f, Three(Gone, Holding, Holding)))
  {
    var s := State(now, f, Three(Gone, Holding, Holding));
    assert Holder(At(s, 2)) && Holder(At(s, 3));
  }

  /** Waiter `p` (2 or 3) reads the dead process 1's PID and the clock. */
  lemma ReachAging(now: real, f: File, b: Pc, c: Pc, p: nat, d: real)
    requires d >= 0.0
    requires (p == 2 && b == Trying) || (p == 3 && c == Trying)
    requires f.text == Some(1) && Reachable(State(now, Some(f), Three(Gone, b, c)), d, false, false)
    ensures Reachable(State(now, Some(f), Three(Gone, if p == 2 then Aging(1, now, now) else b,
                                                 if p == 3 then Aging(1, now, now) else c)), d, false, false)
  {
    hide Reachable, Three;
    var s0 := State(now, Some(f), Three(Gone, b, c));
    MoveThree(now, Some(f), Gone, b, c, Reading);
    var s1 := Goto(s0, p, Reading);
    Advance(s0, Create(p), s1, d, false, false);
    MoveThree(now, Some(f), Gone, if p == 2 then Reading else b, if p == 3 then Reading else c, Judging(1, now));
    var s2 := Goto(s1, p, Judging(1, now));
    Advance(s1, Read(p), s2, d, false, false);
    ReachAgingTail(now, f, if p == 2 then Judging(1, now) else b, if p == 3 then Judging(1, now) else c, p, d);
  }

  lemma ReachAgingTail(now: real, f: File, b: Pc, c: Pc, p: nat, d: real)
    requires d >= 0.0
    requires (p == 2 && b == Judging(1, now)) || (p == 3 && c == Judging(1, now))
    requires Reachable(State(now, Some(f), Three(Gone, b, c)), d, false, false)
    ensures Reachable(State(now, Some(f), Three(Gone, if p == 2 then Aging(1, now, now) else b,
                                                 if p == 3 then Aging(1, now, now) else c)), d, false, false)
  {
    hide Reachable, Three;
    var t, g := Timing(1, now), Aging(1, now, now);
    var s2 := State(now, Some(f), Three(Gone, b, c));
    MoveThree(now, Some(f), Gone, b, c, t);
    var s3 := Goto(s2, p, t);
    Advance(s2, Probe(p), s3, d, false, false);
    MoveThree(now, Some(f), Gone, if p == 2 then t else b, if p == 3 then t else c, g);
    Advance(s3, ReadClock(p), Goto(s3, p, g), d, false, false);
  }

  /** Process 1 dies holding the lock; 2 and 3 both find its file old. */
  lemma BothCondemn(d: real)
    requires d >= 0.0
    ensures Reachable(State(31.0, Some(File(1, Some(1), 0.0)), Three(Gone, Reclaiming(1), Aging(1, 31.0, 31.0))),
                      d, false, false)
  {
    hide Reachable, Three;
    var f, g := File(1, Some(1), 0.0), Aging(1, 31.0, 31.0);
    assert Reachable(State(0.0, Some(f), Three(Holding, Trying, Trying)), d, false, false) by {
      AllStart(d, false, false);
      MoveThree(0.0, None, Trying, Trying, Trying, Trying);
      Takes(0.0, Trying, Trying, Trying, 1, d, false, false);
    }
    var s1 := State(0.0, Some(f), Three(Gone, Trying, Trying));
    assert Reachable(s1.(now := 31.0), d, false, false) by {
      MoveThree(0.0, Some(f), Holding, Trying, Trying, Gone);
      Advance(State(0.0, Some(f), Three(Holding, Trying, Trying)), Crash(1), s1, d, false, false);
      Advance(s1, Tick(31.0), s1.(now := 31.0), d, false, false);
    }
    ReachAging(31.0, f, Trying, Trying, 2, d);
    ReachAging(31.0, f, g, Trying, 3, d);
    MoveThree(31.0, Some(f), Gone, g, g, Reclaiming(1));
    Advance(State(31.0, Some(f), Three(Gone, g, g)), Stat(2),
            State(31.0, Some(f), Three(Gone, Reclaiming(1), g)), d, false, false);
  }

  /** Waiter 3 removes the file while 2 still means to. */
  lemma FirstReclaims(d: real)
    requires d >= 0.0
    ensures Reachable(State(31.0, None, Three(Gone, Reclaiming(1), Trying)), d, false, false)
  {
    hide Reachable, Three;
    var f, r, g := Some(File(1, Some(1), 0.0)), Reclaiming(1), Aging(1, 31.0, 31.0);
    BothCondemn(d);
    MoveThree(31.0, f, Gone, r, g, Trying);
    MoveThree(31.0, None, Gone, r, g, Trying);
    Advance(State(31.0, f, Three(Gone, r, g)), StatAndRemove(3),
            State(31.0, None, Three(Gone, r, Trying)), d, false, false);
  }

  lemma SplitReclaimRun(d: real)
    requires d >= 0.0
    ensures Reachable(State(31.0, Some(File(2, Some(2), 31.0)), Three(Gone, Holding, Holding)), d, false, false)
  {
    hide Reachable, Three;
    var r, f3 := Reclaiming(1), Some(File(3, Some(3), 31.0));
    FirstReclaims(d);
    assert Reachable(State(31.0, f3, Three(Gone, r, Holding)), d, false, false) by {
      MoveThree(31.0, None, Gone, r, Trying, Trying);
      Takes(31.0, Gone, r, Trying, 3, d, false, false);
    }
    assert Reachable(State(31.0, None, Three(Gone, Trying, Holding)), d, false, false) by {
      MoveThree(31.0, f3, Gone, r, Holding, Trying);
      MoveThree(31.0, None, Gone, r, Holding, Trying);
      Advance(State(31.0, f3, Three(Gone, r, Holding)), Remove(2),
              State(31.0, None, Three(Gone, Trying, Holding)), d, false, false);
    }
    MoveThree(31.0, None, Gone, Trying, Holding, Trying);
    Takes(31.0, Gone, Trying, Holding, 2, d, false, false);
  }

  /** A reclaim split in two steps breaks mutual exclusion once an owner has died,
      however prompt the waiters are. */
  lemma SplitReclaimBreaksExclusion(d: real)
    requires d >= 0.0
    ensures exists steps :: Run(0.0, steps, d, false, false) && !Exclusive(After(0.0, steps))
  {
    SplitReclaimRun(d);
    var s := State(31.0, Some(File(2, Some(2), 31.0)), Three(Gone, Holding, Holding));
    TwoHolders(31.0, s.file);
    var steps :| After(0.0, steps) == s && Run(0.0, steps, d, false, false);
  }

  /** A reclaim split in two steps can also remove an empty file of a dead owner: the
      threat of `OrphanRemovableExactly` is real, however prompt the waiters are. */
  lemma SplitReclaimFreesOrphan(d: real)
    requires d >= 0.0
    ensures exists steps :: && Run(0.0, steps, d, false, false) && EmptyOrphan(After(0.0, steps))
                            && Next(After(0.0, steps), Remove(2)).file.None?
  {
    OrphanUnderThreat(d);
    var s := State(31.0, Some(File(3, None, 31.0)), Three(Gone, Reclaiming(1), Gone));
    var steps :| After(0.0, steps) == s && Run(0.0, steps, d, false, false);
    hide After, Run, Next, EmptyOrphan, Three;
    ThreatRemoves(s);
  }

  lemma ThreatRemoves(s: State)
    requires s == State(31.0, Some(File(3, None, 31.0)), Three(Gone, Reclaiming(1), Gone))
    ensures EmptyOrphan(s) && Next(s, Remove(2)).file.None?
  {
  }

  lemma OrphanUnderThreat(d: real)
    requires d >= 0.0
    ensures Reachable(State(31.0, Some(File(3, None, 31.0)), Three(Gone, Reclaiming(1), Gone)), d, false, false)
  {
    hide Reachable, Three;
    var r, f := Reclaiming(1), Some(File(3, None, 31.0));
    var s1, s2 := State(31.0, None, Three(Gone, r, Trying)), State(31.0, f, Three(Gone, r, Created));
    assert Reachable(s2, d, false, false) by {
      FirstReclaims(d);
      MoveThree(31.0, None, Gone, r, Trying, Created);
      MoveThree(31.0, f, Gone, r, Trying, Created);
      Advance(s1, Create(3), s2, d, false, false);
    }
    MoveThree(31.0, f, Gone, r, Created, Gone);
    Advance(s2, Crash(3), State(31.0, f, Three(Gone, r, Gone)), d, false, false);
  }

  /** Exactly which assumptions make the lock exclusive: the delay between the two reads
      is at most the grace period, and the reclaim is one step or no owner dies holding. */
  lemma ExclusionExactly(d: real, atomic: bool, surviving: bool)
    requires d >= 0.0
    ensures (forall now, steps :: Run(now, steps, d, atomic, surviving) ==> Exclusive(After(now, steps)))
       <==> d <= GRACE && (atomic || surviving)
  {
    hide Exclusive;
    if d <= GRACE && (atomic || surviving) {
      forall now, steps | Run(now, steps, d, atomic, surviving)
        ensures Exclusive(After(now, steps))
      {
        WithinGrace(now, steps, d);
        if atomic {
          MutualExclusion(now, steps);
        } else {
          MutualExclusionWithoutOrphans(now, steps);
        }
      }
    } else if d > GRACE {
      SlowWaiterBreaksExclusion(d);
    } else {
      SplitReclaimBreaksExclusion(d);
    }
  }

  lemma WithinGrace(now: real, steps: seq<Step>, d: real)
    requires PromptRunWithin(now, steps, d) && d <= GRACE
    ensures PromptRun(now, steps)
  {
    hide After;
  }
}
