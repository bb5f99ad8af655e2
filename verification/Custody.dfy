/** Custody of the one artifact reader: a process-wide flag and a set of
    workspaces behind a mutex, each changed in its own atomic step, with any
    number of readers, waiters, reclaim checks and removals interleaved. */
module Custody {

  type Workspace = string

  /** Where a reader task stands. `Flagged` won the flag and has not yet entered
      its workspace; `Owner` holds the entry, and its file when `reading`;
      `Leaving` has given the entry up and not yet the flag. */
  datatype Phase =
    | Flagged(workspace: Workspace)
    | Owner(workspace: Workspace, reading: bool)
    | Leaving(workspace: Workspace)

  /** `poisoned`: a thread panicked while holding the mutex, so every later lock
      fails. `cleared`: the jobs whose reclaim check passed and whose removal is
      still to come. */
  datatype State = State(flag: bool, custody: set<Workspace>, poisoned: bool, readers: map<nat, Phase>, parked: set<nat>,
                         cleared: map<nat, Workspace>)

  datatype Step =
    | TryFlag(task: nat, workspace: Workspace)
    | EnterWorkspace(task: nat)
    | OpenFile(task: nat)
    | CloseFile(task: nat)
    | DropEntry(task: nat)
    | DropFlag(task: nat)
    | JoinTimesOut(task: nat)
    | Poison
    | CheckReclaim(job: nat, workspace: Workspace)
    | Remove(job: nat)

  const INITIAL := State(false, {}, false, map[], {}, map[])

  /** One atomic step; a step that does not apply leaves the state alone. */
  function Next(s: State, step: Step): (s': State)
  {
    match step
    case TryFlag(task, workspace) =>
      if task in s.readers || s.flag then s
      else s.(flag := true, readers := s.readers[task := Flagged(workspace)])
    case EnterWorkspace(task) =>
      if task !in s.readers || !s.readers[task].Flagged? then s
      else if s.poisoned then s.(readers := s.readers - {task})
      else
        var workspace := s.readers[task].workspace;
        s.(custody := s.custody + {workspace}, readers := s.readers[task := Owner(workspace, false)])
    case OpenFile(task) =>
      if task in s.readers && s.readers[task].Owner? && !s.readers[task].reading
      then s.(readers := s.readers[task := Owner(s.readers[task].workspace, true)]) else s
    case CloseFile(task) =>
      if task in s.readers && s.readers[task].Owner? && s.readers[task].reading
      then s.(readers := s.readers[task := Owner(s.readers[task].workspace, false)]) else s
    case DropEntry(task) =>
      if task !in s.readers || !s.readers[task].Owner? || s.readers[task].reading then s
      else
        var workspace := s.readers[task].workspace;
        s.(custody := if s.poisoned then s.custody else s.custody - {workspace},
           readers := s.readers[task := Leaving(workspace)])
    case DropFlag(task) =>
      if task in s.readers && s.readers[task].Leaving? then s.(flag := false, readers := s.readers - {task}) else s
    case JoinTimesOut(task) => s.(parked := s.parked + {task})
    case Poison => s.(poisoned := true)
    case CheckReclaim(job, workspace) =>
      if Busy(s, workspace) then s else s.(cleared := s.cleared[job := workspace])
    case Remove(job) => s.(cleared := s.cleared - {job})
  }

  /** `workspace_busy`: a lock that fails counts as busy. */
  predicate Busy(s: State, workspace: Workspace) { s.poisoned || workspace in s.custody }

  /** `ensure_reclaimable` lets the workspace go. */
  predicate Reclaimable(s: State, workspace: Workspace) { !Busy(s, workspace) }

  // ----- What every reachable state satisfies -----

  ghost predicate Invariant(s: State)
  {
    && (forall t, u :: t in s.readers && u in s.readers ==> t == u)
    && (s.readers != map[] ==> s.flag)
    && (forall t :: t in s.readers && s.readers[t].Owner? ==> s.readers[t].workspace in s.custody)
    && (!s.poisoned ==>
          && (s.flag ==> s.readers != map[])
          && forall w :: w in s.custody ==>
               exists t :: t in s.readers && s.readers[t].Owner? && s.readers[t].workspace == w)
  }

  ghost function After(steps: seq<Step>): (s: State)
  {
    if steps == [] then INITIAL else Next(After(steps[..|steps| - 1]), steps[|steps| - 1])
  }

  lemma OnlyReader(s: State, task: nat)
    requires Invariant(s) && task in s.readers
    ensures s.readers == map[task := s.readers[task]]
  {
    assert s.readers.Keys == {task};
  }

  lemma StepKeepsInvariant(s: State, step: Step)
    requires Invariant(s)
    ensures Invariant(Next(s, step))
  {
    var s' := Next(s, step);
    match step
    case TryFlag(task, workspace) =>
      if s' != s {
        assert s.readers == map[];
        assert task in s'.readers;
      }
    case EnterWorkspace(task) =>
      if task in s.readers { OnlyReader(s, task); assert s'.readers.Keys <= {task}; }
      if s' != s && !s.poisoned {
        assert task in s'.readers;
        forall w | w in s'.custody
          ensures exists t :: t in s'.readers && s'.readers[t].Owner? && s'.readers[t].workspace == w
        {
          assert w == s.readers[task].workspace;
        }
      }
    case OpenFile(task) =>
      if s' != s { OwnerToggled(s, s', task); }
    case CloseFile(task) =>
      if s' != s { OwnerToggled(s, s', task); }
    case DropEntry(task) =>
      if task in s.readers { OnlyReader(s, task); }
      if s' != s { assert task in s'.readers; }
    case DropFlag(task) =>
      if task in s.readers { OnlyReader(s, task); }
      if s' != s { assert s'.readers == map[]; }
    case JoinTimesOut(task) =>
    case Poison =>
    case CheckReclaim(_, _) =>
    case Remove(_) =>
  }

  lemma OwnerToggled(s: State, s': State, task: nat)
    requires Invariant(s) && task in s.readers && s.readers[task].Owner?
    requires s' == s.(readers := s.readers[task := Owner(s.readers[task].workspace, !s.readers[task].reading)])
    ensures Invariant(s')
  {
    OnlyReader(s, task);
    assert task in s'.readers;
    if !s.poisoned {
      forall w | w in s'.custody
        ensures exists t :: t in s'.readers && s'.readers[t].Owner? && s'.readers[t].workspace == w
      {
        assert s'.readers[task].workspace == w;
      }
    }
  }

  lemma {:induction false} AlwaysInvariant(steps: seq<Step>)
    ensures Invariant(After(steps))
  {
    if steps != [] {
      AlwaysInvariant(steps[..|steps| - 1]);
      StepKeepsInvariant(After(steps[..|steps| - 1]), steps[|steps| - 1]);
    }
  }

  ghost predicate Reading(s: State, task: nat, workspace: Workspace)
  {
    task in s.readers && s.readers[task] == Owner(workspace, true)
  }

  /** In every interleaving: at most one task holds an open file, its workspace
      is refused to reclaim and the flag to every other task. */
  lemma OneReaderInCustody(steps: seq<Step>, task: nat, workspace: Workspace)
    requires Reading(After(steps), task, workspace)
    ensures forall other, w :: Reading(After(steps), other, w) ==> other == task && w == workspace
    ensures !Reclaimable(After(steps), workspace)
    ensures forall other, w :: Next(After(steps), TryFlag(other, w)) == After(steps)
  {
    AlwaysInvariant(steps);
  }

  /** No step of one task, a late release included, takes another's entry. */
  lemma NoForeignRelease(steps: seq<Step>, step: Step, task: nat)
    requires task in After(steps).readers && After(steps).readers[task].Owner?
    requires !(step.DropEntry? && step.task == task)
    ensures var s := After(steps);
            var s' := Next(s, step);
            task in s'.readers && s'.readers[task].Owner? && s.readers[task].workspace in s'.custody
  {
    AlwaysInvariant(steps);
    var s := After(steps);
    OnlyReader(s, task);
  }

  /** A custody entry disappears only with its owner's own release. */
  lemma EntryOutlivesReader(steps: seq<Step>, step: Step, workspace: Workspace)
    requires workspace in After(steps).custody && workspace !in Next(After(steps), step).custody
    ensures step.DropEntry? && step.task in After(steps).readers
    ensures After(steps).readers[step.task] == Owner(workspace, false)
    ensures !After(steps).poisoned
  {
  }

  lemma AfterMore(steps: seq<Step>, more: seq<Step>)
    requires more != []
    ensures After(steps + more) == Next(After(steps + more[..|more| - 1]), more[|more| - 1])
  {
    assert (steps + more)[..|steps + more| - 1] == steps + more[..|more| - 1];
  }

  /** Timeouts free nothing: whatever follows, timeouts of its own join
      included, an owner that has not released its entry still owns it, and its
      workspace cannot be reclaimed. */
  lemma {:induction false} TimeoutFreesNothing(steps: seq<Step>, more: seq<Step>, task: nat)
    requires task in After(steps).readers && After(steps).readers[task].Owner?
    requires DropEntry(task) !in more
    ensures var s, s' := After(steps), After(steps + more);
            && task in s'.readers && s'.readers[task].Owner?
            && s'.readers[task].workspace == s.readers[task].workspace
            && !Reclaimable(s', s.readers[task].workspace)
  {
    if more == [] {
      assert steps + more == steps;
      AlwaysInvariant(steps);
    } else {
      TimeoutFreesNothing(steps, more[..|more| - 1], task);
      AfterMore(steps, more);
      NoForeignRelease(steps + more[..|more| - 1], more[|more| - 1], task);
    }
  }

  /** An owner that closes its file and releases leaves no trace: it is gone, the
      flag is free for the next reader and, unless the mutex is poisoned, its
      workspace can be reclaimed. */
  lemma ReleaseFrees(steps: seq<Step>, task: nat, next: nat, workspace: Workspace)
    requires task in After(steps).readers && After(steps).readers[task].Owner?
    ensures var s := After(steps);
            var left := Next(Next(Next(s, CloseFile(task)), DropEntry(task)), DropFlag(task));
            && left.readers == map[] && !left.flag && left.poisoned == s.poisoned
            && (!s.poisoned ==> Reclaimable(left, s.readers[task].workspace))
            && (!s.poisoned ==>
                  var taken := Next(Next(left, TryFlag(next, workspace)), EnterWorkspace(next));
                  taken.readers == map[next := Owner(workspace, false)] && Busy(taken, workspace))
  {
    AlwaysInvariant(steps);
    var s := After(steps);
    hide After;
    var left := Next(Next(Next(s, CloseFile(task)), DropEntry(task)), DropFlag(task));
    assert forall t :: t in s.readers ==> t == task;
    assert left.readers == map[];
  }

  /** Once every reader is gone, the flag is free and every workspace can be
      reclaimed exactly when the mutex was never poisoned. */
  lemma QuiescenceReleases(steps: seq<Step>)
    requires After(steps).readers == map[]
    ensures !After(steps).flag && (forall w :: Reclaimable(After(steps), w)) <==> !After(steps).poisoned
    ensures !After(steps).poisoned ==> After(steps).custody == {}
  {
    var s := After(steps);
    AlwaysInvariant(steps);
    if !s.poisoned { assert forall w :: w !in s.custody; }
    if s.poisoned { assert !Reclaimable(s, ""); }
  }

  // ----- Reclaiming is a check and a later removal -----

  predicate Owns(s: State, task: nat, workspace: Workspace)
  {
    task in s.readers && s.readers[task].Owner? && s.readers[task].workspace == workspace
  }

  /** The removal of `step` meets a file that is open below the workspace. */
  ghost predicate MeetsOpenFile(s: State, step: Step)
  {
    step.Remove? && step.job in s.cleared && exists task :: Reading(s, task, s.cleared[step.job])
  }

  /** Some task owns a workspace that is cleared for removal. */
  ghost predicate Endangered(s: State)
  {
    exists task, job :: job in s.cleared && Owns(s, task, s.cleared[job])
  }

  /** A reader enters a workspace between a job's check and its removal. */
  ghost predicate Clashes(s: State, step: Step)
  {
    && step.EnterWorkspace? && !s.poisoned && step.task in s.readers && s.readers[step.task].Flagged?
    && exists job :: job in s.cleared && s.cleared[job] == s.readers[step.task].workspace
  }

  /** No reader enters a workspace while a removal of it is pending. */
  ghost predicate Disciplined(steps: seq<Step>)
  {
    forall k :: 0 <= k < |steps| ==> !Clashes(After(steps[..k]), steps[k])
  }

  /** An endangered state is one opening away from a removal that meets a file. */
  lemma EndangeredMeets(s: State)
    ensures Endangered(s) <==> exists task, job :: MeetsOpenFile(Next(s, OpenFile(task)), Remove(job))
  {
    if Endangered(s) {
      var task, job :| job in s.cleared && Owns(s, task, s.cleared[job]);
      assert Reading(Next(s, OpenFile(task)), task, s.cleared[job]);
      assert MeetsOpenFile(Next(s, OpenFile(task)), Remove(job));
    }
    if task, job :| MeetsOpenFile(Next(s, OpenFile(task)), Remove(job)) {
      var s' := Next(s, OpenFile(task));
      var reader :| Reading(s', reader, s'.cleared[job]);
      assert Owns(s, reader, s.cleared[job]);
    }
  }

  lemma DangerArises(s: State, step: Step, task: nat, job: nat)
    requires Invariant(s) && var s' := Next(s, step); job in s'.cleared && Owns(s', task, s'.cleared[job])
    ensures Endangered(s) || Clashes(s, step)
  {
    var w := Next(s, step).cleared[job];
    assert Owns(s, task, w) ==> w in s.custody;
    if job in s.cleared && s.cleared[job] == w {
      if Owns(s, task, w) {
        assert Owns(s, task, s.cleared[job]);
      } else {
        assert step == EnterWorkspace(task);
      }
    }
  }

  lemma DangerEnters(s: State, step: Step)
    requires Invariant(s) && !Endangered(s)
    ensures Endangered(Next(s, step)) <==> Clashes(s, step)
  {
    var s' := Next(s, step);
    if Clashes(s, step) {
      var job :| job in s.cleared && s.cleared[job] == s.readers[step.task].workspace;
      assert Owns(s', step.task, s'.cleared[job]);
    }
    if task, job :| job in s'.cleared && Owns(s', task, s'.cleared[job]) { DangerArises(s, step, task, job); }
  }

  lemma {:induction false} NeverEndangered(steps: seq<Step>)
    requires Disciplined(steps)
    ensures !Endangered(After(steps))
  {
    if steps != [] {
      var before, last := steps[..|steps| - 1], steps[|steps| - 1];
      forall k | 0 <= k < |before| ensures !Clashes(After(before[..k]), before[k]) {
        assert before[..k] == steps[..k];
      }
      NeverEndangered(before);
      AlwaysInvariant(before);
      DangerEnters(After(before), last);
    }
  }

  /** The workspaces of a run are safe at every point exactly when the run is
      disciplined: the check alone does not suffice. */
  lemma RemovalExact(steps: seq<Step>)
    ensures (forall k :: 0 <= k <= |steps| ==> !Endangered(After(steps[..k]))) <==> Disciplined(steps)
  {
    hide Clashes, Endangered, Next;
    if Disciplined(steps) {
      forall k | 0 <= k <= |steps| ensures !Endangered(After(steps[..k])) { DisciplinedPrefix(steps, k); NeverEndangered(steps[..k]); }
    }
    if forall k :: 0 <= k <= |steps| ==> !Endangered(After(steps[..k])) {
      forall k | 0 <= k < |steps| ensures !Clashes(After(steps[..k]), steps[k]) {
        AlwaysInvariant(steps[..k]);
        DangerEnters(After(steps[..k]), steps[k]);
        assert steps[..k + 1][..k] == steps[..k] && steps[..k + 1][k] == steps[k];
        assert !Endangered(After(steps[..k + 1]));
      }
    }
  }

  lemma DisciplinedPrefix(steps: seq<Step>, k: nat)
    requires k <= |steps| && Disciplined(steps)
    ensures Disciplined(steps[..k])
  {
    hide Clashes, After;
    forall i | 0 <= i < k ensures !Clashes(After(steps[..k][..i]), steps[..k][i]) {
      assert steps[..k][..i] == steps[..i];
    }
  }

  /** In a disciplined run no removal meets an open file. */
  lemma NoRemovalMeets(steps: seq<Step>, k: nat)
    requires Disciplined(steps) && k < |steps|
    ensures !MeetsOpenFile(After(steps[..k]), steps[k])
  {
    RemovalExact(steps);
    MeetingIsDanger(After(steps[..k]), steps[k]);
  }

  /** The check alone does not keep a removal from a file: a reader may enter and
      open one after it. */
  lemma CheckedRemovalMeets(workspace: Workspace)
    ensures MeetsOpenFile(After([CheckReclaim(0, workspace), TryFlag(0, workspace), EnterWorkspace(0), OpenFile(0)]), Remove(0))
  {
    var steps := [CheckReclaim(0, workspace), TryFlag(0, workspace), EnterWorkspace(0), OpenFile(0)];
    assert steps[..3][..2][..1][..0] == [] && steps[..3][..2] == steps[..2] && steps[..2][..1] == steps[..1];
    assert After(steps[..1]) == INITIAL.(cleared := map[0 := workspace]);
    assert After(steps[..2]) == After(steps[..1]).(flag := true, readers := map[0 := Flagged(workspace)]);
    assert Owns(After(steps[..3]), 0, workspace) && After(steps[..3]).cleared == map[0 := workspace];
    assert Reading(After(steps), 0, workspace);
  }

  lemma MeetingIsDanger(s: State, step: Step)
    ensures MeetsOpenFile(s, step) ==> Endangered(s)
  {
    if MeetsOpenFile(s, step) {
      var task :| Reading(s, task, s.cleared[step.job]);
      assert Owns(s, task, s.cleared[step.job]);
    }
  }

  // ----- A poisoned mutex fails closed -----

  /** The flag is set and no task is left to clear it. */
  predicate Leaked(s: State) { s.flag && s.readers == map[] }

  /** `acquire` has won the flag and fails to lock. */
  predicate FailsToLock(s: State, step: Step)
  {
    step.EnterWorkspace? && step.task in s.readers && s.readers[step.task].Flagged? && s.poisoned
  }

  lemma {:induction false} PoisonIsForever(steps: seq<Step>, more: seq<Step>)
    requires After(steps).poisoned
    ensures After(steps + more).poisoned
  {
    if more == [] {
      assert steps + more == steps;
    } else {
      PoisonIsForever(steps, more[..|more| - 1]);
      assert (steps + more)[..|steps + more| - 1] == steps + more[..|more| - 1];
    }
  }

  /** A leaked flag stays set for good: no task ever holds a file again, and
      nothing is reclaimed. */
  lemma {:induction false} LeakedFlagIsForever(steps: seq<Step>, more: seq<Step>)
    requires Leaked(After(steps))
    ensures Leaked(After(steps + more))
    ensures forall w :: !Reclaimable(After(steps + more), w)
  {
    AlwaysInvariant(steps);
    PoisonIsForever(steps, more);
    if more == [] {
      assert steps + more == steps;
    } else {
      LeakedFlagIsForever(steps, more[..|more| - 1]);
      AfterMore(steps, more);
    }
  }

  lemma LeakStep(s: State, step: Step)
    requires Invariant(s)
    ensures Leaked(Next(s, step)) <==> Leaked(s) || FailsToLock(s, step)
  {
    if step.EnterWorkspace? && step.task in s.readers {
      OnlyReader(s, step.task);
      if FailsToLock(s, step) { assert Next(s, step).readers == map[]; }
    }
    if step.DropFlag? && step.task in s.readers { OnlyReader(s, step.task); }
    if step.TryFlag? && Next(s, step) != s { assert step.task in Next(s, step).readers; }
  }

  ghost predicate LockFailed(steps: seq<Step>)
  {
    exists k :: 0 <= k < |steps| && FailsToLock(After(steps[..k]), steps[k])
  }

  /** The flag leaks exactly when some acquire won it and then failed to lock. */
  lemma {:induction false} LeaksExactly(steps: seq<Step>)
    ensures Leaked(After(steps)) <==> LockFailed(steps)
  {
    if steps != [] {
      var before, last := steps[..|steps| - 1], steps[|steps| - 1];
      LeaksExactly(before);
      AlwaysInvariant(before);
      LeakStep(After(before), last);
      FailedSnoc(before, last);
      assert steps == before + [last];
    }
  }

  lemma FailedSnoc(before: seq<Step>, last: Step)
    ensures LockFailed(before + [last]) <==> LockFailed(before) || FailsToLock(After(before), last)
  {
    hide FailsToLock, After;
    var steps := before + [last];
    assert forall k :: 0 <= k < |before| ==> steps[..k] == before[..k] && steps[k] == before[k];
    assert steps[..|before|] == before && steps[|before|] == last;
    if LockFailed(before) {
      var k :| 0 <= k < |before| && FailsToLock(After(before[..k]), before[k]);
      assert FailsToLock(After(steps[..k]), steps[k]);
    }
    if FailsToLock(After(before), last) { assert FailsToLock(After(steps[..|before|]), steps[|before|]); }
  }

  /** A run that leaks: a poisoned mutex and one acquire. */
  lemma PoisonThenAcquireLeaks(workspace: Workspace)
    ensures Leaked(After([Poison, TryFlag(0, workspace), EnterWorkspace(0)]))
  {
    var steps := [Poison, TryFlag(0, workspace), EnterWorkspace(0)];
    var s := After(steps[..2]);
    assert steps[..2][..1] == [Poison] && [Poison][..0] == [];
    assert After([Poison]) == INITIAL.(poisoned := true);
    assert s.readers == map[0 := Flagged(workspace)];
    assert FailsToLock(s, steps[2]);
    LeaksExactly(steps);
  }

  /** After poisoning no reader ever enters a workspace again. */
  lemma NoOwnerAfterPoison(s: State, step: Step, task: nat)
    requires s.poisoned && !(task in s.readers && s.readers[task].Owner?)
    ensures var s' := Next(s, step); !(task in s'.readers && s'.readers[task].Owner?)
  {
  }
}
