/**
 Every interleaving of claims, picture writes, outcomes, crashes and rescans: when a finished
 preview row speaks for the bytes the library last saw, and when it does not.
 */
module PreviewRuns {
  import opened Words
  import opened Wrappers
  import opened PreviewQueue

  /** A job in flight, and whether it has written its picture. */
  datatype Flight = Flight(job: Job, written: bool)

  /**
   `pictures` says which version's job wrote the PNG of a file last; `judged` which version the job
   worked on that put the row into its terminal state. Neither is a column.
   */
  datatype State = State(
    db: Db,
    flights: map<nat, Flight>,
    pictures: map<string, Option<Hash>>,
    judged: map<string, Option<Hash>>)

  datatype Step =
    | Claim(kinds: seq<Kind>, limit: nat, now: int, jobs: seq<Job>, numbers: seq<nat>)
    | WritePng(n: nat)
    | Finish(n: nat, outcome: Outcome, at: int)
    | Crash(n: nat)
    | Rescan(id: string, hash: Hash, kind: Kind, at: int)
    | Reclassify(id: string, kind: Kind, at: int)
    | AddFile(id: string, hash: Hash, kind: Kind, at: int)
    | RemoveFile(id: string)
    | SetProject(id: string, ok: bool)

  function Fresh(at: int): Row {
    Row(Pending, 0, None, None, at)
  }

  /** A row sent back to the queue keeps the hash of its last picture. */
  function Reset(row: Row, at: int): Row {
    Row(Pending, 0, None, row.sourceHash, at)
  }

  function Repended(db: Db, id: string, at: int): map<string, Row> {
    db.rows[id := if id in db.rows then Reset(db.rows[id], at) else Fresh(at)]
  }

  /** What a rescan does with a file whose size or time moved. */
  function Rescanned(db: Db, id: string, hash: Hash, kind: Kind, at: int): Db
    requires id in db.files
  {
    var files := db.files[id := db.files[id].(kind := kind, contentHash := Some(hash))];
    if id in db.rows && db.rows[id].sourceHash == Some(hash) then Db(db.rows, files) else Db(Repended(db, id, at), files)
  }

  /** What a rescan does with an untouched file the classifier now sees differently. */
  function Reclassified(db: Db, id: string, kind: Kind, at: int): Db
    requires id in db.files
  {
    var files := db.files[id := db.files[id].(kind := kind)];
    if kind == db.files[id].kind then Db(db.rows, files) else Db(Repended(db, id, at), files)
  }

  ghost predicate FlightsAfterClaim(s: State, t: State, jobs: seq<Job>, numbers: seq<nat>) {
    && |numbers| == |jobs|
    && (forall i, j :: 0 <= i < j < |numbers| ==> numbers[i] != numbers[j])
    && (forall i :: 0 <= i < |numbers| ==> numbers[i] !in s.flights)
    && (forall n :: n in t.flights <==> n in s.flights || n in numbers)
    && (forall n :: n in s.flights ==> t.flights[n] == s.flights[n])
    && (forall i :: 0 <= i < |numbers| ==> t.flights[numbers[i]] == Flight(jobs[i], false))
  }

  /** A picture has to be on disk before its row is called ready. */
  predicate CanFinish(s: State, n: nat, outcome: Outcome) {
    n in s.flights && (outcome == Rendered ==> s.flights[n].written)
  }

  function AfterFinish(s: State, n: nat, outcome: Outcome, at: int): State
    requires n in s.flights
  {
    var job := s.flights[n].job;
    State(
      Finished(s.db, job, outcome, at),
      s.flights - {n},
      s.pictures,
      if Owns(s.db, job) && outcome != Released then s.judged[job.id := job.contentHash] else s.judged)
  }

  ghost predicate Next(s: State, step: Step, t: State) {
    match step
    case Claim(kinds, limit, now, jobs, numbers) =>
      && Claims(s.db, t.db, kinds, limit, now, jobs) && FlightsAfterClaim(s, t, jobs, numbers)
      && t.pictures == s.pictures && t.judged == s.judged
    case WritePng(n) =>
      n in s.flights
      && t == s.(flights := s.flights[n := s.flights[n].(written := true)],
                 pictures := s.pictures[s.flights[n].job.id := s.flights[n].job.contentHash])
    case Finish(n, outcome, at) => CanFinish(s, n, outcome) && t == AfterFinish(s, n, outcome, at)
    case Crash(n) => n in s.flights && t == s.(flights := s.flights - {n})
    case Rescan(id, hash, kind, at) => id in s.db.files && t == s.(db := Rescanned(s.db, id, hash, kind, at))
    case Reclassify(id, kind, at) => id in s.db.files && t == s.(db := Reclassified(s.db, id, kind, at))
    case AddFile(id, hash, kind, at) =>
      id !in s.db.files
      && t == s.(db := Db(s.db.rows[id := Fresh(at)], s.db.files[id := File(kind, Some(hash), true)]))
    case RemoveFile(id) => t == s.(db := Db(s.db.rows - {id}, s.db.files - {id}))
    case SetProject(id, ok) =>
      id in s.db.files && t == s.(db := s.db.(files := s.db.files[id := s.db.files[id].(projectOk := ok)]))
  }

  // ---- A finished row speaks for the file's recorded version ----------------------------------

  ghost predicate RowsHaveFiles(s: State) {
    forall id :: id in s.db.rows ==> id in s.db.files
  }

  /** A terminal row was judged on the version the library records, and a ready one says so itself. */
  ghost predicate RowIsCurrent(s: State, id: string) {
    id in s.db.rows && id in s.db.files && s.db.rows[id].state != Pending ==>
      && id in s.judged && s.judged[id] == s.db.files[id].contentHash
      && (s.db.rows[id].state == Ready ==> s.db.rows[id].sourceHash == s.db.files[id].contentHash)
  }

  /** Whoever may still write the row works on the recorded version. */
  ghost predicate OwnerIsCurrent(s: State, n: nat) {
    n in s.flights && Owns(s.db, s.flights[n].job) && s.flights[n].job.id in s.db.files ==>
      s.flights[n].job.contentHash == s.db.files[s.flights[n].job.id].contentHash
  }

  ghost predicate Current(s: State) {
    RowsHaveFiles(s) && (forall id :: RowIsCurrent(s, id)) && (forall n :: OwnerIsCurrent(s, n))
  }

  /** A lease time that an older job of the same row, on another version, still holds. */
  ghost predicate ReusesLease(s: State, now: int, jobs: seq<Job>) {
    exists n, i :: n in s.flights && 0 <= i < |jobs|
      && s.flights[n].job.id == jobs[i].id && s.flights[n].job.claimedAt == now
      && s.flights[n].job.contentHash != jobs[i].contentHash
  }

  /**
   The file's bytes go back to those of its last picture while the row has since been given to a
   job, or judged, on other bytes. The rescan takes the matching hash for "nothing to do".
   */
  ghost predicate RevertsUnderJudgement(s: State, id: string, hash: Hash) {
    && id in s.db.rows && id in s.db.files
    && s.db.rows[id].sourceHash == Some(hash) && s.db.files[id].contentHash != Some(hash)
    && (s.db.rows[id].state != Pending || exists n :: n in s.flights && s.flights[n].job.id == id && Owns(s.db, s.flights[n].job))
  }

  ghost predicate Harmful(s: State, step: Step) {
    match step
    case Claim(_, _, now, jobs, _) => ReusesLease(s, now, jobs)
    case Rescan(id, hash, _, _) => RevertsUnderJudgement(s, id, hash)
    case _ => false
  }

  lemma ClaimKeepsCurrent(s: State, step: Step, t: State)
    requires step.Claim? && Current(s) && Next(s, step, t)
    ensures Current(t) <==> !ReusesLease(s, step.now, step.jobs)
  {
    hide OldestFirst, Claimable, RowIsCurrent;
    if ReusesLease(s, step.now, step.jobs) {
      ReuseBreaksCurrent(s, step, t);
    } else {
      RowsAfterClaim(s, step, t);
      forall n ensures OwnerIsCurrent(t, n) {
        if n in t.flights && Owns(t.db, t.flights[n].job) {
          OwnerAfterClaim(s, step, t, n);
        }
      }
    }
  }

  lemma ReuseBreaksCurrent(s: State, step: Step, t: State)
    requires step.Claim? && Current(s) && Next(s, step, t) && ReusesLease(s, step.now, step.jobs)
    ensures !Current(t)
  {
    hide OldestFirst, Claimable, RowIsCurrent;
    TakenRowsPend(s, step);
    var n, i :| n in s.flights && 0 <= i < |step.jobs|
      && s.flights[n].job.id == step.jobs[i].id && s.flights[n].job.claimedAt == step.now
      && s.flights[n].job.contentHash != step.jobs[i].contentHash;
    ClaimableIsThere(s.db, step.jobs[i].id, step.kinds, step.now);
    assert IsJobFor(step.jobs, step.jobs[i].id);
    assert Owns(t.db, s.flights[n].job);
    assert !OwnerIsCurrent(t, n);
  }

  lemma RowsAfterClaim(s: State, step: Step, t: State)
    requires step.Claim? && Current(s) && Next(s, step, t)
    ensures forall id :: RowIsCurrent(t, id)
    ensures RowsHaveFiles(t)
  {
    hide OldestFirst, Claimable;
    TakenRowsPend(s, step);
    forall id ensures RowIsCurrent(t, id) {
      assert RowIsCurrent(s, id);
    }
  }

  lemma TakenRowsPend(s: State, step: Step)
    requires step.Claim? && JobsFit(s.db, step.kinds, step.now, step.jobs)
    ensures forall i :: 0 <= i < |step.jobs| ==> step.jobs[i].id in s.db.rows && s.db.rows[step.jobs[i].id].state == Pending
  {
  }

  lemma OwnerAfterClaim(s: State, step: Step, t: State, n: nat)
    requires step.Claim? && Current(s) && Next(s, step, t) && !ReusesLease(s, step.now, step.jobs)
    requires n in t.flights && Owns(t.db, t.flights[n].job)
    ensures OwnerIsCurrent(t, n)
  {
    hide OldestFirst, Claimable;
    if n in s.flights {
      var job := s.flights[n].job;
      if IsJobFor(step.jobs, job.id) {
        var i :| 0 <= i < |step.jobs| && step.jobs[i].id == job.id;
        assert job.contentHash == step.jobs[i].contentHash;
      } else {
        assert OwnerIsCurrent(s, n);
      }
    } else {
      assert n in step.numbers;
      var i :| 0 <= i < |step.numbers| && step.numbers[i] == n;
    }
  }

  lemma RescanKeepsCurrent(s: State, step: Step, t: State)
    requires step.Rescan? && Current(s) && Next(s, step, t)
    ensures Current(t) <==> !RevertsUnderJudgement(s, step.id, step.hash)
  {
    var id := step.id;
    assert RowIsCurrent(s, id);
    if RevertsUnderJudgement(s, id, step.hash) {
      if s.db.rows[id].state != Pending {
        assert !RowIsCurrent(t, id);
      } else {
        var n :| n in s.flights && s.flights[n].job.id == id && Owns(s.db, s.flights[n].job);
        assert OwnerIsCurrent(s, n);
        assert !OwnerIsCurrent(t, n);
      }
    } else {
      forall other ensures RowIsCurrent(t, other) {
        assert RowIsCurrent(s, other);
      }
      forall n ensures OwnerIsCurrent(t, n) {
        assert OwnerIsCurrent(s, n);
      }
    }
  }

  lemma FinishKeepsCurrent(s: State, step: Step, t: State)
    requires step.Finish? && Current(s) && Next(s, step, t)
    ensures Current(t)
  {
    var job := s.flights[step.n].job;
    assert OwnerIsCurrent(s, step.n);
    forall id ensures RowIsCurrent(t, id) {
      assert RowIsCurrent(s, id);
    }
    forall n ensures OwnerIsCurrent(t, n) {
      assert OwnerIsCurrent(s, n);
    }
  }

  lemma OtherStepsKeepCurrent(s: State, step: Step, t: State)
    requires !step.Claim? && !step.Rescan? && !step.Finish? && Current(s) && Next(s, step, t)
    ensures Current(t)
  {
    hide Finished, Rescanned;
    forall id ensures RowIsCurrent(t, id) {
      assert RowIsCurrent(s, id);
    }
    forall n ensures OwnerIsCurrent(t, n) {
      assert OwnerIsCurrent(s, n);
    }
  }

  /** One step keeps every finished row current exactly when it is not one of the two harmful kinds. */
  lemma StepKeepsCurrent(s: State, step: Step, t: State)
    requires Current(s) && Next(s, step, t)
    ensures Current(t) <==> !Harmful(s, step)
  {
    hide Next, Current, ReusesLease, RevertsUnderJudgement;
    if step.Claim? {
      ClaimKeepsCurrent(s, step, t);
    } else if step.Rescan? {
      RescanKeepsCurrent(s, step, t);
    } else if step.Finish? {
      FinishKeepsCurrent(s, step, t);
    } else {
      OtherStepsKeepCurrent(s, step, t);
    }
  }

  // ---- Whole runs -----------------------------------------------------------------------------

  ghost predicate Run(states: seq<State>, steps: seq<Step>) {
    |states| == |steps| + 1 && forall i :: 0 <= i < |steps| ==> Next(states[i], steps[i], states[i + 1])
  }

  ghost predicate HarmlessUpTo(states: seq<State>, steps: seq<Step>, n: nat)
    requires Run(states, steps) && n <= |steps|
  {
    forall i :: 0 <= i < n ==> !Harmful(states[i], steps[i])
  }

  /** No finished preview is ever stale in a run without a harmful step, whatever the scheduler does. */
  lemma {:induction false} NoStalePreview(states: seq<State>, steps: seq<Step>, n: nat)
    requires Run(states, steps) && n <= |steps| && Current(states[0]) && HarmlessUpTo(states, steps, n)
    ensures Current(states[n])
  {
    hide Next, Current, Harmful;
    if n > 0 {
      NoStalePreview(states, steps, n - 1);
      StepKeepsCurrent(states[n - 1], steps[n - 1], states[n]);
    }
  }

  // ---- Attempts and leases --------------------------------------------------------------------

  ghost predicate AttemptsBounded(s: State) {
    forall id :: id in s.db.rows ==> 0 <= s.db.rows[id].attempts <= 3
  }

  lemma StepBoundsAttempts(s: State, step: Step, t: State)
    requires AttemptsBounded(s) && Next(s, step, t)
    ensures AttemptsBounded(t)
  {
    hide OldestFirst;
    if step.Claim? {
      forall id | id in t.db.rows ensures 0 <= t.db.rows[id].attempts <= 3 {
        if IsJobFor(step.jobs, id) {
          var i :| 0 <= i < |step.jobs| && step.jobs[i].id == id;
        }
      }
    }
  }

  /** In every run, whatever crashes, no row is claimed more than the budget between resets. */
  lemma {:induction false} AttemptsStayBounded(states: seq<State>, steps: seq<Step>, n: nat)
    requires Run(states, steps) && n <= |steps| && AttemptsBounded(states[0])
    ensures AttemptsBounded(states[n])
  {
    hide Next, AttemptsBounded;
    if n > 0 {
      AttemptsStayBounded(states, steps, n - 1);
      StepBoundsAttempts(states[n - 1], steps[n - 1], states[n]);
    }
  }

  ghost predicate ClaimsRow(step: Step, id: string) {
    step.Claim? && IsJobFor(step.jobs, id)
  }

  /** A step after which the row no longer carries the lease it did: an outcome, a reset, a removal. */
  ghost predicate Unclaims(s: State, step: Step, id: string) {
    match step
    case Finish(n, _, _) => n in s.flights && s.flights[n].job.id == id && Owns(s.db, s.flights[n].job)
    case Rescan(other, hash, _, _) => other == id && !(id in s.db.rows && s.db.rows[id].sourceHash == Some(hash))
    case Reclassify(other, kind, _) => other == id && id in s.db.files && kind != s.db.files[id].kind
    case AddFile(other, _, _, _) => other == id
    case RemoveFile(other) => other == id
    case _ => false
  }

  /** Those are all such steps: short of a new claim, any other leaves the lease where it is. */
  lemma LeaseStays(s: State, step: Step, t: State, id: string)
    requires Next(s, step, t) && id in s.db.rows && s.db.rows[id].claimedAt.Some? && !ClaimsRow(step, id)
    ensures id in t.db.rows && t.db.rows[id].claimedAt == s.db.rows[id].claimedAt <==> !Unclaims(s, step, id)
  {
    hide OldestFirst, JobsFit;
  }

  lemma {:induction false} LeaseStaysThrough(states: seq<State>, steps: seq<Step>, i: nat, j: nat, id: string)
    requires Run(states, steps) && i <= j <= |steps|
    requires id in states[i].db.rows && states[i].db.rows[id].claimedAt.Some?
    requires forall k :: i <= k < j ==> !ClaimsRow(steps[k], id) && !Unclaims(states[k], steps[k], id)
    ensures id in states[j].db.rows && states[j].db.rows[id].claimedAt == states[i].db.rows[id].claimedAt
    decreases j - i
  {
    hide Next, Unclaims, ClaimsRow;
    if i < j {
      LeaseStaysThrough(states, steps, i, j - 1, id);
      LeaseStays(states[j - 1], steps[j - 1], states[j], id);
    }
  }

  lemma ClaimSetsLease(s: State, step: Step, t: State, id: string)
    requires Next(s, step, t) && ClaimsRow(step, id)
    ensures id in s.db.rows && id in t.db.rows && t.db.rows[id].claimedAt == Some(step.now)
    ensures s.db.rows[id].claimedAt.Some? ==> s.db.rows[id].claimedAt.value + PREVIEW_LEASE_MS <= step.now
  {
    hide OldestFirst;
    var i :| 0 <= i < |step.jobs| && step.jobs[i].id == id;
  }

  /** Two claims of one row with nothing in between that unclaims it are a whole lease apart. */
  lemma ClaimsAreALeaseApart(states: seq<State>, steps: seq<Step>, i: nat, j: nat, id: string)
    requires Run(states, steps) && i < j < |steps| && ClaimsRow(steps[i], id) && ClaimsRow(steps[j], id)
    requires forall k :: i < k < j ==> !ClaimsRow(steps[k], id) && !Unclaims(states[k], steps[k], id)
    ensures steps[j].now - steps[i].now >= 15 * 60 * 1000
  {
    hide Next, Unclaims, ClaimsRow;
    ClaimSetsLease(states[i], steps[i], states[i + 1], id);
    LeaseStaysThrough(states, steps, i + 1, j, id);
    ClaimSetsLease(states[j], steps[j], states[j + 1], id);
  }

  // ---- The picture on disk --------------------------------------------------------------------

  ghost predicate PictureIs(s: State, id: string, hash: Option<Hash>) {
    id in s.pictures && s.pictures[id] == hash
  }

  /**
   The PNG under a ready row is the one its hash names, and the PNG a job has written stays its own
   for as long as the job may still call the row ready.
   */
  ghost predicate PicturesMatch(s: State) {
    && (forall id :: id in s.db.rows && s.db.rows[id].state == Ready ==> PictureIs(s, id, s.db.rows[id].sourceHash))
    && (forall n :: n in s.flights && s.flights[n].written && Owns(s.db, s.flights[n].job) ==>
          PictureIs(s, s.flights[n].job.id, s.flights[n].job.contentHash))
  }

  /** A claim at a time no job in flight for a row it takes was handed out at. */
  ghost predicate LeasesDistinct(s: State, step: Step) {
    step.Claim? ==> forall n :: n in s.flights && IsJobFor(step.jobs, s.flights[n].job.id) ==> s.flights[n].job.claimedAt != step.now
  }

  /** A write onto a picture that a ready row, or another job about to make its row ready, relies on. */
  ghost predicate Overwrites(s: State, step: Step) {
    step.WritePng? && step.n in s.flights
    && var job := s.flights[step.n].job;
       || (job.id in s.db.rows && s.db.rows[job.id].state == Ready && s.db.rows[job.id].sourceHash != job.contentHash)
       || exists m :: m in s.flights && s.flights[m].written && Owns(s.db, s.flights[m].job)
            && s.flights[m].job.id == job.id && s.flights[m].job.contentHash != job.contentHash
  }

  lemma NewFlightsHaveNotWritten(s: State, t: State, jobs: seq<Job>, numbers: seq<nat>)
    requires FlightsAfterClaim(s, t, jobs, numbers)
    ensures forall n :: n in t.flights && t.flights[n].written ==> n in s.flights
  {
    forall n | n in numbers ensures !t.flights[n].written {
      var i :| 0 <= i < |numbers| && numbers[i] == n;
    }
  }

  lemma ClaimKeepsPictures(s: State, step: Step, t: State)
    requires step.Claim? && PicturesMatch(s) && Next(s, step, t) && LeasesDistinct(s, step)
    ensures PicturesMatch(t)
  {
    hide OldestFirst, Claimable;
    TakenRowsPend(s, step);
    NewFlightsHaveNotWritten(s, t, step.jobs, step.numbers);
    forall n | n in t.flights && t.flights[n].written && Owns(t.db, t.flights[n].job)
      ensures PictureIs(t, t.flights[n].job.id, t.flights[n].job.contentHash)
    {
      assert Owns(s.db, s.flights[n].job);
    }
  }

  lemma WriteKeepsPictures(s: State, step: Step, t: State)
    requires step.WritePng? && PicturesMatch(s) && Next(s, step, t)
    ensures PicturesMatch(t) <==> !Overwrites(s, step)
  {
    var job := s.flights[step.n].job;
    if Overwrites(s, step) {
      if job.id in s.db.rows && s.db.rows[job.id].state == Ready && s.db.rows[job.id].sourceHash != job.contentHash {
        assert !PictureIs(t, job.id, t.db.rows[job.id].sourceHash);
      } else {
        var m :| m in s.flights && s.flights[m].written && Owns(s.db, s.flights[m].job)
          && s.flights[m].job.id == job.id && s.flights[m].job.contentHash != job.contentHash;
        assert m != step.n;
        assert t.flights[m] == s.flights[m];
        assert !PictureIs(t, t.flights[m].job.id, t.flights[m].job.contentHash);
      }
    } else {
      forall id | id in t.db.rows && t.db.rows[id].state == Ready ensures PictureIs(t, id, t.db.rows[id].sourceHash) {
        assert PictureIs(s, id, s.db.rows[id].sourceHash);
      }
      forall n | n in t.flights && t.flights[n].written && Owns(t.db, t.flights[n].job)
        ensures PictureIs(t, t.flights[n].job.id, t.flights[n].job.contentHash)
      {
        if n != step.n {
          assert t.flights[n] == s.flights[n];
          assert PictureIs(s, s.flights[n].job.id, s.flights[n].job.contentHash);
        }
      }
    }
  }

  lemma OtherStepsKeepPictures(s: State, step: Step, t: State)
    requires !step.Claim? && !step.WritePng? && PicturesMatch(s) && Next(s, step, t)
    ensures PicturesMatch(t)
  {
    forall id | id in t.db.rows && t.db.rows[id].state == Ready ensures PictureIs(t, id, t.db.rows[id].sourceHash) {
      if step.Finish? && s.flights[step.n].job.id == id && Owns(s.db, s.flights[step.n].job) {
        assert PictureIs(s, id, s.flights[step.n].job.contentHash);
      } else {
        assert PictureIs(s, id, s.db.rows[id].sourceHash);
      }
    }
    forall n | n in t.flights && t.flights[n].written && Owns(t.db, t.flights[n].job)
      ensures PictureIs(t, t.flights[n].job.id, t.flights[n].job.contentHash)
    {
      assert PictureIs(s, s.flights[n].job.id, s.flights[n].job.contentHash);
    }
  }

  /** With distinct leases, pictures stop matching their rows exactly at an overwriting write. */
  lemma StepKeepsPictures(s: State, step: Step, t: State)
    requires PicturesMatch(s) && Next(s, step, t) && LeasesDistinct(s, step)
    ensures PicturesMatch(t) <==> !Overwrites(s, step)
  {
    hide Next, PicturesMatch, Overwrites, LeasesDistinct;
    if step.Claim? {
      ClaimKeepsPictures(s, step, t);
      assert !Overwrites(s, step) by { OnlyWritesOverwrite(s, step); }
    } else if step.WritePng? {
      WriteKeepsPictures(s, step, t);
    } else {
      OtherStepsKeepPictures(s, step, t);
      assert !Overwrites(s, step) by { OnlyWritesOverwrite(s, step); }
    }
  }

  lemma OnlyWritesOverwrite(s: State, step: Step)
    requires !step.WritePng?
    ensures !Overwrites(s, step)
  {
  }

  lemma {:induction false} PicturesStayFaithful(states: seq<State>, steps: seq<Step>, n: nat)
    requires Run(states, steps) && n <= |steps| && PicturesMatch(states[0])
    requires forall i :: 0 <= i < n ==> LeasesDistinct(states[i], steps[i]) && !Overwrites(states[i], steps[i])
    ensures PicturesMatch(states[n])
  {
    hide Next, PicturesMatch, Overwrites, LeasesDistinct;
    if n > 0 {
      PicturesStayFaithful(states, steps, n - 1);
      StepKeepsPictures(states[n - 1], steps[n - 1], states[n]);
    }
  }

  /** The guard that protects the row would protect the picture: the owner of a row overwrites nothing. */
  lemma OwnersOverwriteNothing(s: State, step: Step)
    requires step.WritePng? && step.n in s.flights && Owns(s.db, s.flights[step.n].job)
    requires forall n, m :: n in s.flights && m in s.flights && n != m && s.flights[n].job.id == s.flights[m].job.id ==>
               s.flights[n].job.claimedAt != s.flights[m].job.claimedAt
    ensures !Overwrites(s, step)
  {
  }

  // ---- Two runs that go wrong -----------------------------------------------------------------

  const EMPTY := State(Db(map[], map[]), map[], map[], map[])

  function OneFile(id: string, row: Row, hash: Hash): Db {
    Db(map[id := row], map[id := File(Model, Some(hash), true)])
  }

  lemma ClaimOne(id: string, row: Row, hash: Hash, now: int)
    requires row.state == Pending && 0 <= row.attempts < MAX_PREVIEW_ATTEMPTS && row.claimedAt == None
    ensures Claims(OneFile(id, row, hash), OneFile(id, ClaimedRow(row, now), hash), [Model], 1, now, [Job(id, now, Some(hash), Model)])
  {
    var jobs := [Job(id, now, Some(hash), Model)];
    assert jobs[0].id == id;
    assert Claimable(OneFile(id, row, hash), id, [Model], now) by { assert Model in [Model]; }
  }

  lemma OneMoreFlight(s: State, t: State, job: Job, n: nat)
    requires n !in s.flights && t.flights == s.flights[n := Flight(job, false)]
    ensures FlightsAfterClaim(s, t, [job], [n])
  {
  }

  /** Where the reverting run stands after each of its steps. */
  function RevertingState(id: string, a: Hash, b: Hash, k: nat): State
    requires 1 <= k <= 9
  {
    var first, second := Job(id, 10, Some(a), Model), Job(id, 30, Some(b), Model);
    var ready := Row(Ready, 1, None, Some(a), 11);
    var waiting := Row(Pending, 0, None, Some(a), 20);
    var claimed := Row(Pending, 1, Some(30), Some(a), 20);
    var drawn, judged := map[id := Some(a)], map[id := Some(a)];
    if k == 1 then State(OneFile(id, Fresh(0), a), map[], map[], map[])
    else if k == 2 then State(OneFile(id, Row(Pending, 1, Some(10), None, 0), a), map[0 := Flight(first, false)], map[], map[])
    else if k == 3 then State(OneFile(id, Row(Pending, 1, Some(10), None, 0), a), map[0 := Flight(first, true)], drawn, map[])
    else if k == 4 then State(OneFile(id, ready, a), map[], drawn, judged)
    else if k == 5 then State(OneFile(id, waiting, b), map[], drawn, judged)
    else if k == 6 then State(OneFile(id, claimed, b), map[1 := Flight(second, false)], drawn, judged)
    else if k == 7 then State(OneFile(id, claimed, a), map[1 := Flight(second, false)], drawn, judged)
    else if k == 8 then State(OneFile(id, claimed, a), map[1 := Flight(second, true)], map[id := Some(b)], judged)
    else State(OneFile(id, Row(Ready, 1, None, Some(b), 41), a), map[], map[id := Some(b)], map[id := Some(b)])
  }

  function RevertingSteps(id: string, a: Hash, b: Hash): seq<Step> {
    [
      AddFile(id, a, Model, 0),
      Claim([Model], 1, 10, [Job(id, 10, Some(a), Model)], [0]),
      WritePng(0),
      Finish(0, Rendered, 11),
      Rescan(id, b, Model, 20),
      Claim([Model], 1, 30, [Job(id, 30, Some(b), Model)], [1]),
      Rescan(id, a, Model, 40),
      WritePng(1),
      Finish(1, Rendered, 41)
    ]
  }

  lemma RevertingClaim(id: string, a: Hash, b: Hash, k: nat)
    requires a != b && (k == 1 || k == 5)
    ensures Next(RevertingState(id, a, b, k), RevertingSteps(id, a, b)[k], RevertingState(id, a, b, k + 1))
  {
    hide Claims, FlightsAfterClaim;
    var s, t := RevertingState(id, a, b, k), RevertingState(id, a, b, k + 1);
    if k == 1 {
      ClaimOne(id, Fresh(0), a, 10);
      OneMoreFlight(s, t, Job(id, 10, Some(a), Model), 0);
    } else {
      ClaimOne(id, Row(Pending, 0, None, Some(a), 20), b, 30);
      OneMoreFlight(s, t, Job(id, 30, Some(b), Model), 1);
    }
  }

  lemma RevertingStep(id: string, a: Hash, b: Hash, k: nat)
    requires a != b && 1 <= k <= 8
    ensures Next(RevertingState(id, a, b, k), RevertingSteps(id, a, b)[k], RevertingState(id, a, b, k + 1))
  {
    if k == 1 || k == 5 {
      RevertingClaim(id, a, b, k);
    } else {
      hide Claims, FlightsAfterClaim;
      var t := RevertingState(id, a, b, k + 1);
      assert t.db == OneFile(id, t.db.rows[id], t.db.files[id].contentHash.value);
    }
  }

  /**
   A file edited and put back while its job runs ends up ready with the picture of the edit, though
   no lease expires, none is reused and nothing crashes.
   */
  lemma PuttingAFileBackLeavesTheWrongPicture(id: string, a: Hash, b: Hash) returns (states: seq<State>, steps: seq<Step>)
    requires a != b
    ensures Run(states, steps) && states[0] == EMPTY
    ensures forall i :: 0 <= i < |steps| ==> LeasesDistinct(states[i], steps[i]) && !steps[i].Crash?
    ensures var last := states[|steps|].db;
            id in last.rows && last.rows[id].state == Ready && last.rows[id].sourceHash == Some(b)
            && id in last.files && last.files[id].contentHash == Some(a)
  {
    hide Next;
    steps := RevertingSteps(id, a, b);
    states := [EMPTY] + seq(9, k requires 0 <= k < 9 => RevertingState(id, a, b, k + 1));
    assert Next(states[0], steps[0], states[1]) by { FirstStep(id, a, b); }
    forall i | 0 <= i < |steps| ensures Next(states[i], steps[i], states[i + 1]) {
      if i > 0 {
        RevertingStep(id, a, b, i);
      }
    }
  }

  lemma FirstStep(id: string, a: Hash, b: Hash)
    ensures Next(EMPTY, AddFile(id, a, Model, 0), RevertingState(id, a, b, 1))
  {
  }

  function SlowState(id: string, a: Hash, b: Hash, k: nat): State
    requires 1 <= k <= 7
  {
    var slow, quick := Job(id, 10, Some(a), Model), Job(id, 30, Some(b), Model);
    var ready := Row(Ready, 1, None, Some(b), 31);
    var judged := map[id := Some(b)];
    if k == 1 then State(OneFile(id, Fresh(0), a), map[], map[], map[])
    else if k == 2 then State(OneFile(id, Row(Pending, 1, Some(10), None, 0), a), map[0 := Flight(slow, false)], map[], map[])
    else if k == 3 then State(OneFile(id, Row(Pending, 0, None, None, 20), b), map[0 := Flight(slow, false)], map[], map[])
    else if k == 4 then
      State(OneFile(id, Row(Pending, 1, Some(30), None, 20), b), map[0 := Flight(slow, false), 1 := Flight(quick, false)], map[], map[])
    else if k == 5 then
      State(
        OneFile(id, Row(Pending, 1, Some(30), None, 20), b),
        map[0 := Flight(slow, false), 1 := Flight(quick, true)],
        map[id := Some(b)],
        map[])
    else if k == 6 then State(OneFile(id, ready, b), map[0 := Flight(slow, false)], map[id := Some(b)], judged)
    else State(OneFile(id, ready, b), map[0 := Flight(slow, true)], map[id := Some(a)], judged)
  }

  function SlowSteps(id: string, a: Hash, b: Hash): seq<Step> {
    [
      AddFile(id, a, Model, 0),
      Claim([Model], 1, 10, [Job(id, 10, Some(a), Model)], [0]),
      Rescan(id, b, Model, 20),
      Claim([Model], 1, 30, [Job(id, 30, Some(b), Model)], [1]),
      WritePng(1),
      Finish(1, Rendered, 31),
      WritePng(0)
    ]
  }

  lemma SlowClaim(id: string, a: Hash, b: Hash, k: nat)
    requires a != b && (k == 1 || k == 3)
    ensures Next(SlowState(id, a, b, k), SlowSteps(id, a, b)[k], SlowState(id, a, b, k + 1))
  {
    hide Claims, FlightsAfterClaim;
    var s, t := SlowState(id, a, b, k), SlowState(id, a, b, k + 1);
    if k == 1 {
      ClaimOne(id, Fresh(0), a, 10);
      OneMoreFlight(s, t, Job(id, 10, Some(a), Model), 0);
    } else {
      ClaimOne(id, Row(Pending, 0, None, None, 20), b, 30);
      OneMoreFlight(s, t, Job(id, 30, Some(b), Model), 1);
    }
  }

  lemma SlowStep(id: string, a: Hash, b: Hash, k: nat)
    requires a != b && 1 <= k <= 6
    ensures Next(SlowState(id, a, b, k), SlowSteps(id, a, b)[k], SlowState(id, a, b, k + 1))
  {
    if k == 1 || k == 3 {
      SlowClaim(id, a, b, k);
    } else {
      hide Claims, FlightsAfterClaim;
      var t := SlowState(id, a, b, k + 1);
      assert t.db == OneFile(id, t.db.rows[id], t.db.files[id].contentHash.value);
    }
  }

  /**
   A job overtaken by a rescan writes its picture over the one a newer job's ready row serves: the
   write of the PNG does not carry the guard the row's update carries.
   */
  lemma SlowJobReplacesThePicture(id: string, a: Hash, b: Hash) returns (states: seq<State>, steps: seq<Step>)
    requires a != b
    ensures Run(states, steps) && states[0] == EMPTY
    ensures forall i :: 0 <= i < |steps| ==>
              LeasesDistinct(states[i], steps[i]) && !Harmful(states[i], steps[i]) && !steps[i].Crash?
    ensures var last := states[|steps|];
            id in last.db.rows && last.db.rows[id].state == Ready && last.db.rows[id].sourceHash == Some(b)
            && id in last.db.files && last.db.files[id].contentHash == Some(b) && PictureIs(last, id, Some(a))
  {
    hide Next;
    steps := SlowSteps(id, a, b);
    states := [EMPTY] + seq(7, k requires 0 <= k < 7 => SlowState(id, a, b, k + 1));
    assert SlowState(id, a, b, 1) == RevertingState(id, a, b, 1);
    assert Next(states[0], steps[0], states[1]) by { FirstStep(id, a, b); }
    forall i | 0 <= i < |steps| ensures Next(states[i], steps[i], states[i + 1]) {
      if i > 0 {
        SlowStep(id, a, b, i);
      }
    }
  }
}

/** The workers of one batch, sharing the index of the next job (previews/queue.rs). */
module PreviewWorkers {
  import opened Wrappers

  datatype Counts = Counts(ready: nat, failed: nat, unsupported: nat)
  datatype Result = RecordedReady | RecordedFailed | RecordedUnsupported | NotRecorded

  /** What a worker is doing: about to take an index, running one, or gone. */
  datatype Worker = Taking | Running(index: nat) | Gone

  datatype State = State(next: nat, workers: map<nat, Worker>, started: seq<nat>, finished: set<nat>, counts: Counts)

  datatype Step = Take(w: nat) | Report(w: nat, result: Result)

  function Counted(c: Counts, result: Result): Counts {
    match result
    case RecordedReady => c.(ready := c.ready + 1)
    case RecordedFailed => c.(failed := c.failed + 1)
    case RecordedUnsupported => c.(unsupported := c.unsupported + 1)
    case NotRecorded => c
  }

  ghost predicate Next(jobs: nat, s: State, step: Step, t: State) {
    match step
    case Take(w) =>
      w in s.workers && s.workers[w] == Taking
      && t == if s.next < jobs
              then s.(next := s.next + 1, workers := s.workers[w := Running(s.next)], started := s.started + [s.next])
              else s.(next := s.next + 1, workers := s.workers[w := Gone])
    case Report(w, result) =>
      w in s.workers && s.workers[w].Running?
      && t == s.(workers := s.workers[w := Taking], finished := s.finished + {s.workers[w].index}, counts := Counted(s.counts, result))
  }

  ghost predicate Start(s: State) {
    s.next == 0 && s.started == [] && s.finished == {} && s.counts == Counts(0, 0, 0)
    && s.workers != map[] && forall w :: w in s.workers ==> s.workers[w] == Taking
  }

  predicate RunsNow(s: State, k: nat) {
    exists w :: w in s.workers && s.workers[w] == Running(k)
  }

  /** Jobs are started in order, each once; a started job is with one worker or finished. */
  ghost predicate Orderly(jobs: nat, s: State) {
    && |s.started| <= jobs && (s.next < jobs ==> |s.started| == s.next) && (s.next >= jobs ==> |s.started| == jobs)
    && (forall k :: 0 <= k < |s.started| ==> s.started[k] == k)
    && (forall k :: k in s.finished ==> k < |s.started|)
    && (forall w :: w in s.workers && s.workers[w].Running? ==> s.workers[w].index < |s.started| && s.workers[w].index !in s.finished)
    && (forall v, w :: v in s.workers && w in s.workers && s.workers[v].Running? && s.workers[v] == s.workers[w] ==> v == w)
    && (forall k :: 0 <= k < |s.started| ==> k in s.finished || RunsNow(s, k))
    && (forall w :: w in s.workers && s.workers[w].Gone? ==> s.next >= jobs)
    && s.workers != map[]
  }

  lemma StepIsOrderly(jobs: nat, s: State, step: Step, t: State)
    requires Orderly(jobs, s) && Next(jobs, s, step, t)
    ensures Orderly(jobs, t)
  {
    var w := step.w;
    assert w in t.workers;
    forall k | 0 <= k < |t.started| ensures k in t.finished || RunsNow(t, k) {
      if k < |s.started| && k !in s.finished {
        var v :| v in s.workers && s.workers[v] == Running(k);
        if v != w {
          assert t.workers[v] == Running(k);
        }
      } else if k == |s.started| {
        assert t.workers[w] == Running(k);
      }
    }
  }

  ghost predicate Run(jobs: nat, states: seq<State>, steps: seq<Step>) {
    |states| == |steps| + 1 && Start(states[0])
    && forall i :: 0 <= i < |steps| ==> Next(jobs, states[i], steps[i], states[i + 1])
  }

  lemma {:induction false} RunIsOrderly(jobs: nat, states: seq<State>, steps: seq<Step>, n: nat)
    requires Run(jobs, states, steps) && n <= |steps|
    ensures Orderly(jobs, states[n])
  {
    hide Next, Orderly;
    if n == 0 {
      assert Orderly(jobs, states[0]) by { StartIsOrderly(jobs, states[0]); }
    } else {
      RunIsOrderly(jobs, states, steps, n - 1);
      StepIsOrderly(jobs, states[n - 1], steps[n - 1], states[n]);
    }
  }

  lemma StartIsOrderly(jobs: nat, s: State)
    requires Start(s)
    ensures Orderly(jobs, s)
  {
  }

  /** How many jobs of a run ended with that result. */
  function Reports(steps: seq<Step>, result: Result): nat {
    if steps == [] then 0
    else
      var last := steps[|steps| - 1];
      Reports(steps[..|steps| - 1], result) + if last.Report? && last.result == result then 1 else 0
  }

  lemma OneReport(steps: seq<Step>, step: Step, result: Result)
    ensures Reports(steps + [step], result) == Reports(steps, result) + if step.Report? && step.result == result then 1 else 0
  {
    assert (steps + [step])[..|steps|] == steps;
  }

  lemma StepCounts(jobs: nat, s: State, step: Step, t: State)
    requires Orderly(jobs, s) && Next(jobs, s, step, t)
    ensures t.counts == if step.Report? then Counted(s.counts, step.result) else s.counts
    ensures |t.finished| == |s.finished| + if step.Report? then 1 else 0
  {
  }

  /** The counters count the reports, one for each finished job. */
  lemma {:induction false} CountsAreReports(jobs: nat, states: seq<State>, steps: seq<Step>, n: nat)
    requires Run(jobs, states, steps) && n <= |steps|
    ensures var done, c := steps[..n], states[n].counts;
            && c == Counts(Reports(done, RecordedReady), Reports(done, RecordedFailed), Reports(done, RecordedUnsupported))
            && c.ready + c.failed + c.unsupported + Reports(done, NotRecorded) == |states[n].finished|
  {
    hide Next, Orderly, Reports;
    if n == 0 {
      NoReports();
    } else {
      CountsAreReports(jobs, states, steps, n - 1);
      RunIsOrderly(jobs, states, steps, n - 1);
      StepCounts(jobs, states[n - 1], steps[n - 1], states[n]);
      assert steps[..n] == steps[..n - 1] + [steps[n - 1]];
      OneReport(steps[..n - 1], steps[n - 1], RecordedReady);
      OneReport(steps[..n - 1], steps[n - 1], RecordedFailed);
      OneReport(steps[..n - 1], steps[n - 1], RecordedUnsupported);
      OneReport(steps[..n - 1], steps[n - 1], NotRecorded);
    }
  }

  lemma NoReports()
    ensures forall result :: Reports([], result) == 0
  {
  }

  /** When the last worker is gone, every claimed job has been run once and is counted once, by its result. */
  lemma EveryJobRunsOnce(jobs: nat, states: seq<State>, steps: seq<Step>)
    requires Run(jobs, states, steps)
    requires forall w :: w in states[|steps|].workers ==> states[|steps|].workers[w] == Gone
    ensures var s := states[|steps|];
            && |s.started| == jobs && (forall k :: 0 <= k < jobs ==> s.started[k] == k)
            && s.finished == Below(jobs)
            && s.counts == Counts(Reports(steps, RecordedReady), Reports(steps, RecordedFailed), Reports(steps, RecordedUnsupported))
            && s.counts.ready + s.counts.failed + s.counts.unsupported + Reports(steps, NotRecorded) == jobs
  {
    var s := states[|steps|];
    RunIsOrderly(jobs, states, steps, |steps|);
    CountsAreReports(jobs, states, steps, |steps|);
    assert steps[..|steps|] == steps;
    var w :| w in s.workers;
    forall k | 0 <= k < jobs ensures k in s.finished {
      assert k in s.finished || RunsNow(s, k);
    }
    BelowMembers(jobs);
  }

  function Below(n: nat): set<nat> {
    if n == 0 then {} else Below(n - 1) + {n - 1}
  }

  lemma {:induction false} BelowMembers(n: nat)
    ensures |Below(n)| == n && forall k: nat :: k in Below(n) <==> k < n
  {
    if n > 0 {
      BelowMembers(n - 1);
    }
  }
}
