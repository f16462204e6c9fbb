/**
 Letting go of library folders (library.rs): opens and closes displace folders, and each is released
 on a thread of its own behind the releases before it.
 */
module ReleaseChain {
  import opened Wrappers

  /** A folder's rescan: whether the folder still holds the thread's handle, and whether it runs. */
  datatype Folder = Folder(handle: bool, rescanning: bool)

  /**
   A release thread between its critical steps. `Unspawned` is registered but has no thread yet;
   `Lost` never got one, and everything it held was dropped on the spot.
   */
  datatype Phase = Unspawned | Stopping | Joining | Waiting | Dropping | Reporting | Lost

  datatype Release = Release(folder: Folder, phase: Phase, stopped: bool, dropped: bool, done: bool)

  /**
   The open folder, those displaced whose release has not been registered yet, and the releases in
   the order `last_release` saw them; the last one is what `last_release` holds.
   */
  datatype State = State(current: Option<Folder>, displaced: seq<Folder>, releases: seq<Release>)

  datatype Step =
    | Open(rescanStarts: bool)
    | Close
    | TakeHandle
    | CurrentRescanEnds
    | DisplacedRescanEnds(k: nat)
    | RescanEnds(i: nat)
    | Register(k: nat)
    | Spawn(i: nat)
    | SpawnFails(i: nat)
    | Stop(i: nat)
    | JoinRescan(i: nat)
    | WaitEarlier(i: nat)
    | DropSession(i: nat)
    | Finish(i: nat)

  function Displace(s: State): seq<Folder> {
    if s.current.Some? then s.displaced + [s.current.value] else s.displaced
  }

  predicate InPhase(s: State, i: nat, phase: Phase) {
    i < |s.releases| && s.releases[i].phase == phase
  }

  function With(s: State, i: nat, r: Release): State
    requires i < |s.releases|
  {
    s.(releases := s.releases[i := r])
  }

  ghost predicate Next(s: State, step: Step, t: State) {
    match step
    case Open(starts) => t == s.(current := Some(Folder(starts, starts)), displaced := Displace(s))
    case Close => t == s.(current := None, displaced := Displace(s))
    case TakeHandle => s.current.Some? && t == s.(current := Some(s.current.value.(handle := false)))
    case CurrentRescanEnds => s.current.Some? && t == s.(current := Some(s.current.value.(rescanning := false)))
    case DisplacedRescanEnds(k) =>
      k < |s.displaced| && t == s.(displaced := s.displaced[k := s.displaced[k].(rescanning := false)])
    case RescanEnds(i) =>
      i < |s.releases| && t == With(s, i, s.releases[i].(folder := s.releases[i].folder.(rescanning := false)))
    case Register(k) =>
      k < |s.displaced|
      && t == s.(displaced := s.displaced[..k] + s.displaced[k + 1..],
                 releases := s.releases + [Release(s.displaced[k], Unspawned, false, false, false)])
    case Spawn(i) => InPhase(s, i, Unspawned) && t == With(s, i, s.releases[i].(phase := Stopping))
    case SpawnFails(i) => InPhase(s, i, Unspawned) && t == With(s, i, s.releases[i].(phase := Lost, dropped := true))
    case Stop(i) => InPhase(s, i, Stopping) && t == With(s, i, s.releases[i].(phase := Joining, stopped := true))
    case JoinRescan(i) =>
      InPhase(s, i, Joining) && (s.releases[i].folder.handle ==> !s.releases[i].folder.rescanning)
      && t == With(s, i, s.releases[i].(phase := Waiting))
    case WaitEarlier(i) =>
      InPhase(s, i, Waiting) && (i > 0 ==> s.releases[i - 1].done) && t == With(s, i, s.releases[i].(phase := Dropping))
    case DropSession(i) => InPhase(s, i, Dropping) && t == With(s, i, s.releases[i].(phase := Reporting, dropped := true))
    case Finish(i) =>
      (InPhase(s, i, Reporting) || InPhase(s, i, Lost)) && t == With(s, i, s.releases[i].(done := true))
  }

  // ---- What every step keeps ------------------------------------------------------------------

  predicate IsPast(phase: Phase) {
    phase == Dropping || phase == Reporting
  }

  /** A session is dropped by a release that has stopped, joined and waited, or by one that was lost. */
  ghost predicate ReleaseAt(s: State, i: nat) {
    i < |s.releases|
    && var r := s.releases[i];
       && (r.phase in {Joining, Waiting, Dropping, Reporting} ==> r.stopped)
       && (r.phase in {Waiting, Dropping, Reporting} ==> !(r.folder.handle && r.folder.rescanning))
       && (IsPast(r.phase) && i > 0 ==> s.releases[i - 1].done)
       && (r.dropped <==> r.phase == Reporting || r.phase == Lost)
       && (r.done ==> r.dropped)
  }

  ghost predicate Chained(s: State) {
    forall i :: 0 <= i < |s.releases| ==> ReleaseAt(s, i)
  }

  lemma OneReleaseMoves(s: State, i: nat, r: Release)
    requires Chained(s) && i < |s.releases| && ReleaseAt(With(s, i, r), i) && (s.releases[i].done ==> r.done)
    ensures Chained(With(s, i, r))
  {
    var t := With(s, i, r);
    forall j | 0 <= j < |t.releases| ensures ReleaseAt(t, j) {
      assert ReleaseAt(s, j);
    }
  }

  lemma OthersStayChained(s: State, t: State)
    requires Chained(s) && t.releases == s.releases
    ensures Chained(t)
  {
    forall i | 0 <= i < |t.releases| ensures ReleaseAt(t, i) {
      assert ReleaseAt(s, i);
    }
  }

  lemma RegisterIsChained(s: State, t: State, folder: Folder)
    requires Chained(s) && t.releases == s.releases + [Release(folder, Unspawned, false, false, false)]
    ensures Chained(t)
  {
    forall i | 0 <= i < |t.releases| ensures ReleaseAt(t, i) {
      if i < |s.releases| {
        assert ReleaseAt(s, i);
      }
    }
  }

  predicate MovesRelease(step: Step) {
    step.RescanEnds? || step.Spawn? || step.SpawnFails? || step.Stop? || step.JoinRescan? || step.WaitEarlier?
    || step.DropSession? || step.Finish?
  }

  lemma StepIsChained(s: State, step: Step, t: State)
    requires Chained(s) && Next(s, step, t)
    ensures Chained(t)
  {
    if MovesRelease(step) {
      assert ReleaseAt(s, step.i);
      OneReleaseMoves(s, step.i, t.releases[step.i]);
    } else if step.Register? {
      RegisterIsChained(s, t, s.displaced[step.k]);
    } else {
      OthersStayChained(s, t);
    }
  }

  ghost predicate Run(states: seq<State>, steps: seq<Step>) {
    |states| == |steps| + 1 && states[0].releases == []
    && forall i :: 0 <= i < |steps| ==> Next(states[i], steps[i], states[i + 1])
  }

  lemma {:induction false} RunIsChained(states: seq<State>, steps: seq<Step>, n: nat)
    requires Run(states, steps) && n <= |steps|
    ensures Chained(states[n])
  {
    hide Next;
    if n > 0 {
      RunIsChained(states, steps, n - 1);
      StepIsChained(states[n - 1], steps[n - 1], states[n]);
    }
  }

  // ---- What that means ------------------------------------------------------------------------

  /**
   A folder whose release got its thread is closed only once its runner was told to stop, the rescan
   it holds has ended, and the release before it is done.
   */
  lemma NothingIsClosedUnderItsUsers(states: seq<State>, steps: seq<Step>, n: nat, i: nat)
    requires Run(states, steps) && n <= |steps| && i < |states[n].releases|
    requires states[n].releases[i].dropped && states[n].releases[i].phase != Lost
    ensures var s := states[n];
            s.releases[i].stopped && !(s.releases[i].folder.handle && s.releases[i].folder.rescanning)
            && (i > 0 ==> s.releases[i - 1].done)
  {
    RunIsChained(states, steps, n);
    assert ReleaseAt(states[n], i);
  }

  ghost predicate LostBetween(s: State, j: nat, i: nat) {
    exists k :: j < k <= i && k < |s.releases| && s.releases[k].phase == Lost
  }

  lemma LostWidens(s: State, j: nat, i: nat)
    ensures LostBetween(s, j, i) ==> LostBetween(s, j, i + 1)
  {
  }

  lemma {:induction false} DoneReachesBack(s: State, j: nat, i: nat)
    requires Chained(s) && j <= i < |s.releases| && s.releases[i].done && !LostBetween(s, j, i)
    ensures s.releases[j].done
    decreases i
  {
    assert ReleaseAt(s, i);
    if j < i {
      assert s.releases[i].phase != Lost;
      LostWidens(s, j, i - 1);
      DoneReachesBack(s, j, i - 1);
    }
  }

  ghost predicate AllReleased(s: State) {
    forall i :: 0 <= i < |s.releases| ==> s.releases[i].done && s.releases[i].dropped
  }

  /**
   Waiting on the last `Done` alone: it stands for every release unless a release behind an
   unfinished one never got its thread.
   */
  lemma LastDoneStandsForAll(states: seq<State>, steps: seq<Step>, n: nat)
    requires Run(states, steps) && n <= |steps| && states[n].releases != []
    requires var s := states[n]; s.releases[|s.releases| - 1].done
    ensures AllReleased(states[n])
            || exists j :: 0 <= j < |states[n].releases| && !states[n].releases[j].done
                 && LostBetween(states[n], j, |states[n].releases| - 1)
    ensures (forall k :: 0 <= k < |states[n].releases| ==> states[n].releases[k].phase != Lost) ==> AllReleased(states[n])
  {
    var s := states[n];
    RunIsChained(states, steps, n);
    forall j | 0 <= j < |s.releases| && !LostBetween(s, j, |s.releases| - 1) ensures s.releases[j].done && s.releases[j].dropped {
      DoneReachesBack(s, j, |s.releases| - 1);
      assert ReleaseAt(s, j);
    }
    if !AllReleased(s) {
      var j :| 0 <= j < |s.releases| && !(s.releases[j].done && s.releases[j].dropped);
      assert ReleaseAt(s, j);
    }
  }

  /** Once done, a release stays done: a wait that returned does not become wrong later. */
  lemma DoneStays(s: State, step: Step, t: State, i: nat)
    requires Next(s, step, t) && i < |s.releases| && s.releases[i].done
    ensures i < |t.releases| && t.releases[i].done
  {
  }

  // ---- When the last flag speaks for all ------------------------------------------------------

  /** No release is done before one registered earlier. */
  ghost predicate PrefixDone(s: State) {
    forall i, j :: 0 <= j <= i < |s.releases| && s.releases[i].done ==> s.releases[j].done
  }

  /** The failed-spawn branch: a release without a thread reports itself done ahead of its turn. */
  predicate FinishesOutOfTurn(s: State, step: Step) {
    step.Finish? && InPhase(s, step.i, Lost) && step.i > 0 && !s.releases[step.i - 1].done
  }

  lemma ReportIsInTurn(s: State, i: nat)
    requires Chained(s) && InPhase(s, i, Reporting) && i > 0
    ensures s.releases[i - 1].done
  {
    assert ReleaseAt(s, i);
  }

  /** One step keeps the flags in order exactly when it is not that branch out of turn. */
  lemma StepKeepsPrefixDone(s: State, step: Step, t: State)
    requires Chained(s) && PrefixDone(s) && Next(s, step, t)
    ensures PrefixDone(t) <==> !FinishesOutOfTurn(s, step)
  {
    if FinishesOutOfTurn(s, step) {
      assert t.releases[step.i].done && !t.releases[step.i - 1].done;
    } else if step.Finish? {
      if InPhase(s, step.i, Reporting) && step.i > 0 {
        ReportIsInTurn(s, step.i);
      }
      assert forall j :: 0 <= j < step.i ==> s.releases[j].done;
    }
  }

  /** Over a whole run: the flags stay in order throughout exactly when that branch is never taken out of turn. */
  lemma {:induction false} FlagsStayInOrder(states: seq<State>, steps: seq<Step>, n: nat)
    requires Run(states, steps) && n <= |steps|
    ensures (forall k :: 0 <= k <= n ==> PrefixDone(states[k]))
            <==> forall k :: 0 <= k < n ==> !FinishesOutOfTurn(states[k], steps[k])
  {
    hide Next, PrefixDone, FinishesOutOfTurn;
    if n == 0 {
      NothingIsDoneYet(states[0]);
    } else {
      FlagsStayInOrder(states, steps, n - 1);
      RunIsChained(states, steps, n - 1);
      if PrefixDone(states[n - 1]) {
        StepKeepsPrefixDone(states[n - 1], steps[n - 1], states[n]);
      }
    }
  }

  lemma NothingIsDoneYet(s: State)
    requires s.releases == []
    ensures PrefixDone(s)
  {
  }

  /** Waiting on the last flag is waiting for everything, in every run in which that branch keeps its turn. */
  lemma WaitingOnTheLastIsEnough(states: seq<State>, steps: seq<Step>, n: nat)
    requires Run(states, steps) && n <= |steps| && states[n].releases != []
    requires forall k :: 0 <= k < n ==> !FinishesOutOfTurn(states[k], steps[k])
    ensures var s := states[n]; s.releases[|s.releases| - 1].done <==> AllReleased(s)
  {
    hide Next, FinishesOutOfTurn;
    var s := states[n];
    RunIsChained(states, steps, n);
    FlagsStayInOrder(states, steps, n);
    assert PrefixDone(s);
    var last := |s.releases| - 1;
    forall j | 0 <= j <= last && s.releases[last].done ensures s.releases[j].done && s.releases[j].dropped {
      assert ReleaseAt(s, j);
    }
  }

  // ---- When a session outlives its rescan -----------------------------------------------------

  /** A rescan that runs can be joined: whoever holds the folder holds its handle. */
  predicate IsHeld(f: Folder) {
    f.rescanning ==> f.handle
  }

  ghost predicate Held(s: State) {
    && (s.current.Some? ==> IsHeld(s.current.value))
    && (forall k :: 0 <= k < |s.displaced| ==> IsHeld(s.displaced[k]))
    && (forall i :: 0 <= i < |s.releases| ==> IsHeld(s.releases[i].folder))
  }

  /** A `settle` that takes the handle of a rescan still running. */
  predicate TakesRunningRescan(s: State, step: Step) {
    step.TakeHandle? && s.current.Some? && s.current.value.rescanning
  }

  lemma ReleasesStayHeld(s: State, step: Step, t: State)
    requires Held(s) && Next(s, step, t) && MovesRelease(step)
    ensures Held(t)
  {
    assert IsHeld(s.releases[step.i].folder);
  }

  lemma FoldersStayHeld(s: State, step: Step, t: State)
    requires Held(s) && Next(s, step, t) && !MovesRelease(step) && !step.TakeHandle?
    ensures Held(t)
  {
    if step.Register? {
      assert IsHeld(s.displaced[step.k]);
      assert forall j :: 0 <= j < |t.displaced| ==> t.displaced[j] == s.displaced[if j < step.k then j else j + 1];
    }
  }

  /** Rescans can be joined for as long as no `settle` takes one that is running, and only so long. */
  lemma StepKeepsHeld(s: State, step: Step, t: State)
    requires Held(s) && Next(s, step, t)
    ensures Held(t) <==> !TakesRunningRescan(s, step)
  {
    if MovesRelease(step) {
      ReleasesStayHeld(s, step, t);
    } else if !step.TakeHandle? {
      FoldersStayHeld(s, step, t);
    }
  }

  predicate IsLetGo(r: Release) {
    r.phase == Waiting || r.phase == Dropping || r.phase == Reporting
  }

  /** No release that is past its join has its rescan still running. */
  ghost predicate NoDropUnderRescan(s: State) {
    forall i :: 0 <= i < |s.releases| && IsLetGo(s.releases[i]) ==> !s.releases[i].folder.rescanning
  }

  /** A join that passes because there is no handle, with the rescan still running. */
  predicate JoinsNothing(s: State, step: Step) {
    step.JoinRescan? && step.i < |s.releases| && s.releases[step.i].folder.rescanning
  }

  lemma StepKeepsRescansJoined(s: State, step: Step, t: State)
    requires NoDropUnderRescan(s) && Next(s, step, t)
    ensures NoDropUnderRescan(t) <==> !JoinsNothing(s, step)
  {
    if JoinsNothing(s, step) {
      assert IsLetGo(t.releases[step.i]);
    }
  }

  /** No session at all is gone while its rescan runs, be its release lost or not. */
  ghost predicate NoneOutlived(s: State) {
    forall i :: 0 <= i < |s.releases| && s.releases[i].dropped ==> !s.releases[i].folder.rescanning
  }

  /** The failed-spawn branch drops the folder on the spot, rescan or no rescan. */
  predicate LosesRunningRescan(s: State, step: Step) {
    step.SpawnFails? && step.i < |s.releases| && s.releases[step.i].folder.rescanning
  }

  /** Where every join joins, a failed spawn is the one step that drops a session under its rescan. */
  lemma StepOutlivesNothing(s: State, step: Step, t: State)
    requires NoDropUnderRescan(s) && NoneOutlived(s) && Next(s, step, t)
    ensures NoneOutlived(t) <==> !LosesRunningRescan(s, step)
  {
    if LosesRunningRescan(s, step) {
      assert t.releases[step.i].dropped;
    } else if step.DropSession? {
      assert IsLetGo(s.releases[step.i]);
    }
  }

  /** Over a whole run: no release is past its join with its rescan running exactly when no join passes over a running one. */
  lemma {:induction false} RescansStayJoined(states: seq<State>, steps: seq<Step>, n: nat)
    requires Run(states, steps) && n <= |steps|
    ensures (forall k :: 0 <= k <= n ==> NoDropUnderRescan(states[k]))
            <==> forall k :: 0 <= k < n ==> !JoinsNothing(states[k], steps[k])
  {
    hide Next, NoDropUnderRescan, JoinsNothing;
    if n == 0 {
      NothingIsReleasedYet(states[0]);
    } else {
      RescansStayJoined(states, steps, n - 1);
      if NoDropUnderRescan(states[n - 1]) {
        StepKeepsRescansJoined(states[n - 1], steps[n - 1], states[n]);
      }
    }
  }

  lemma NothingIsReleasedYet(s: State)
    requires s.releases == []
    ensures NoDropUnderRescan(s)
  {
  }

  lemma HeldJoinsEverything(s: State, step: Step, t: State)
    requires Held(s) && Next(s, step, t)
    ensures !JoinsNothing(s, step)
  {
  }

  lemma {:induction false} HandlesStayHeld(states: seq<State>, steps: seq<Step>, n: nat)
    requires Run(states, steps) && n <= |steps| && Held(states[0])
    requires forall k :: 0 <= k < n ==> !TakesRunningRescan(states[k], steps[k])
    ensures forall k :: 0 <= k <= n ==> Held(states[k])
  {
    hide Next, Held, TakesRunningRescan;
    if n > 0 {
      HandlesStayHeld(states, steps, n - 1);
      StepKeepsHeld(states[n - 1], steps[n - 1], states[n]);
    }
  }

  /**
   As long as no `settle` takes the handle of a running rescan, no release that got its thread drops
   a session under its rescan.
   */
  lemma NothingIsDroppedUnderItsRescan(states: seq<State>, steps: seq<Step>, n: nat, i: nat)
    requires Run(states, steps) && n <= |steps| && Held(states[0])
    requires forall k :: 0 <= k < n ==> !TakesRunningRescan(states[k], steps[k])
    requires i < |states[n].releases| && states[n].releases[i].dropped && states[n].releases[i].phase != Lost
    ensures !states[n].releases[i].folder.rescanning
  {
    hide Next, Held, TakesRunningRescan, JoinsNothing;
    HandlesStayHeld(states, steps, n);
    forall k | 0 <= k < n ensures !JoinsNothing(states[k], steps[k]) {
      HeldJoinsEverything(states[k], steps[k], states[k + 1]);
    }
    RescansStayJoined(states, steps, n);
    assert NoDropUnderRescan(states[n]);
    RunIsChained(states, steps, n);
    assert ReleaseAt(states[n], i);
  }

  // ---- The exceptions -------------------------------------------------------------------------

  const SCANNING := Folder(true, true)
  const UNHELD := Folder(false, true)

  function Begun(phase: Phase): Release {
    Release(SCANNING, phase, false, phase == Lost, false)
  }

  /** Two folders opened and closed; the second one's release finds no thread. */
  function FailingState(k: nat): State
    requires k <= 8
  {
    var r := Begun(Unspawned);
    if k == 0 then State(None, [], [])
    else if k == 1 then State(Some(SCANNING), [], [])
    else if k == 2 then State(None, [SCANNING], [])
    else if k == 3 then State(None, [], [r])
    else if k == 4 then State(Some(SCANNING), [], [r])
    else if k == 5 then State(None, [SCANNING], [r])
    else if k == 6 then State(None, [], [r, r])
    else if k == 7 then State(None, [], [r, Begun(Lost)])
    else State(None, [], [r, Begun(Lost).(done := true)])
  }

  const FAILING_STEPS := [Open(true), Close, Register(0), Open(true), Close, Register(0), SpawnFails(1), Finish(1)]

  lemma FailingStep(k: nat)
    requires k < 8
    ensures Next(FailingState(k), FAILING_STEPS[k], FailingState(k + 1))
  {
    assert [SCANNING][..0] + [SCANNING][1..] == [];
    assert [Begun(Unspawned)] + [Begun(Unspawned)] == [Begun(Unspawned), Begun(Unspawned)];
    assert [] + [Begun(Unspawned)] == [Begun(Unspawned)];
    if k < 4 {
    } else if k < 6 {
    } else {
      assert FailingState(k).releases[1 := FailingState(k + 1).releases[1]] == FailingState(k + 1).releases;
    }
  }

  /**
   A release whose thread could not be created reports itself done at once: waiting on the last
   `Done` returns while an earlier folder is still rescanning and open. Its own session is gone while
   its rescan runs.
   */
  lemma FailedSpawnBreaksTheChain() returns (states: seq<State>, steps: seq<Step>)
    ensures Run(states, steps)
    ensures var s := states[|steps|];
            |s.releases| == 2 && s.releases[1].done && !s.releases[0].done && !s.releases[0].dropped
            && s.releases[0].folder.rescanning && s.releases[1].dropped && s.releases[1].folder.rescanning
  {
    hide Next;
    steps := FAILING_STEPS;
    states := seq(9, k requires 0 <= k < 9 => FailingState(k));
    forall i | 0 <= i < |steps| ensures Next(states[i], steps[i], states[i + 1]) {
      FailingStep(i);
    }
  }

  /** One folder whose rescan handle a `settle` has taken, closed and released. */
  function SettlingState(k: nat): State
    requires k <= 9
  {
    if k == 0 then State(None, [], [])
    else if k == 1 then State(Some(SCANNING), [], [])
    else if k == 2 then State(Some(UNHELD), [], [])
    else if k == 3 then State(None, [UNHELD], [])
    else State(None, [], [SettlingRelease(k)])
  }

  function SettlingRelease(k: nat): Release {
    var phase := if k <= 4 then Unspawned else if k == 5 then Stopping else if k == 6 then Joining
                 else if k == 7 then Waiting else if k == 8 then Dropping else Reporting;
    Release(UNHELD, phase, k >= 6, k >= 9, false)
  }

  const SETTLING_STEPS := [Open(true), TakeHandle, Close, Register(0), Spawn(0), Stop(0), JoinRescan(0), WaitEarlier(0), DropSession(0)]

  lemma SettlingStep(k: nat)
    requires k < 9
    ensures Next(SettlingState(k), SETTLING_STEPS[k], SettlingState(k + 1))
  {
    if k < 4 {
      assert [UNHELD][..0] + [UNHELD][1..] == [];
      assert [] + [SettlingRelease(4)] == [SettlingRelease(4)];
    } else {
      assert SettlingState(k).releases[0 := SettlingRelease(k + 1)] == [SettlingRelease(k + 1)];
    }
  }

  /**
   A `settle` that has taken the open folder's rescan handle leaves that folder's release nothing to
   join: its session is dropped while the rescan still runs.
   */
  lemma SettlingHidesTheRescan() returns (states: seq<State>, steps: seq<Step>)
    ensures Run(states, steps)
    ensures var s := states[|steps|];
            |s.releases| == 1 && s.releases[0].phase == Reporting && s.releases[0].dropped && s.releases[0].folder.rescanning
  {
    hide Next;
    steps := SETTLING_STEPS;
    states := seq(10, k requires 0 <= k < 10 => SettlingState(k));
    forall i | 0 <= i < |steps| ensures Next(states[i], steps[i], states[i + 1]) {
      SettlingStep(i);
    }
  }
}
