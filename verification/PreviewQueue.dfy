/**
 The preview queue (previews/queue.rs) over the rows that rescans also write (projects/rescan.rs):
 first what each statement does to the database, then every interleaving of those statements.
 */
module PreviewQueue {
  import opened Words
  import opened Wrappers
  import Sorting

  type Hash = seq<byte>
  datatype Kind = Model | SlicerProject | Other
  datatype RowState = Pending | Ready | Failed | Unsupported

  datatype Row = Row(state: RowState, attempts: int, claimedAt: Option<int>, sourceHash: Option<Hash>, updatedAt: int)
  datatype File = File(kind: Kind, contentHash: Option<Hash>, projectOk: bool)
  datatype Db = Db(rows: map<string, Row>, files: map<string, File>)

  /** One file, and the lease its row was handed out under. */
  datatype Job = Job(id: string, claimedAt: int, contentHash: Option<Hash>, kind: Kind)

  const MAX_PREVIEW_ATTEMPTS := 3
  const PREVIEW_LEASE_MS := 15 * 60 * 1000

  // ---- Claiming -------------------------------------------------------------------------------

  predicate Claimable(db: Db, id: string, kinds: seq<Kind>, now: int) {
    && id in db.rows && id in db.files
    && db.rows[id].state == Pending && db.rows[id].attempts < MAX_PREVIEW_ATTEMPTS
    && db.files[id].projectOk && db.files[id].kind in kinds
    && (db.rows[id].claimedAt.None? || db.rows[id].claimedAt.value <= now - PREVIEW_LEASE_MS)
  }

  predicate IsJobFor(jobs: seq<Job>, id: string) {
    exists i :: 0 <= i < |jobs| && jobs[i].id == id
  }

  function ClaimedRow(row: Row, now: int): Row {
    row.(claimedAt := Some(now), attempts := row.attempts + 1)
  }

  /** Each job is one claimable row, taken once, with the version of the file at the claim. */
  ghost predicate JobsFit(db: Db, kinds: seq<Kind>, now: int, jobs: seq<Job>) {
    && (forall i :: 0 <= i < |jobs| ==>
          Claimable(db, jobs[i].id, kinds, now)
          && jobs[i] == Job(jobs[i].id, now, db.files[jobs[i].id].contentHash, db.files[jobs[i].id].kind))
    && (forall i, j :: 0 <= i < j < |jobs| ==> jobs[i].id != jobs[j].id)
  }

  /** The longest waiting rows come first, and only a full batch leaves a claimable row behind. */
  ghost predicate OldestFirst(db: Db, kinds: seq<Kind>, limit: nat, now: int, jobs: seq<Job>)
    requires JobsFit(db, kinds, now, jobs)
  {
    && |jobs| <= limit
    && (forall i, j :: 0 <= i < j < |jobs| ==> db.rows[jobs[i].id].updatedAt <= db.rows[jobs[j].id].updatedAt)
    && (forall id :: Claimable(db, id, kinds, now) && !IsJobFor(jobs, id) ==>
          |jobs| == limit && forall i :: 0 <= i < |jobs| ==> db.rows[jobs[i].id].updatedAt <= db.rows[id].updatedAt)
  }

  ghost predicate RowsClaimed(before: Db, after: Db, now: int, jobs: seq<Job>) {
    && after.files == before.files && after.rows.Keys == before.rows.Keys
    && forall id :: id in before.rows ==>
         after.rows[id] == if IsJobFor(jobs, id) then ClaimedRow(before.rows[id], now) else before.rows[id]
  }

  /** The whole claim transaction. */
  ghost predicate Claims(before: Db, after: Db, kinds: seq<Kind>, limit: nat, now: int, jobs: seq<Job>) {
    JobsFit(before, kinds, now, jobs) && OldestFirst(before, kinds, limit, now, jobs) && RowsClaimed(before, after, now, jobs)
  }

  // ---- Finishing ------------------------------------------------------------------------------

  datatype Outcome = Rendered | Broken | Nothing | Released

  /** Nobody has touched the row since the job took it. */
  predicate Owns(db: Db, job: Job) {
    job.id in db.rows && db.rows[job.id].state == Pending && db.rows[job.id].claimedAt == Some(job.claimedAt)
  }

  function FinishedRow(row: Row, job: Job, outcome: Outcome, now: int): Row {
    match outcome
    case Rendered => row.(state := Ready, claimedAt := None, sourceHash := job.contentHash, updatedAt := now)
    case Broken => row.(state := Failed, claimedAt := None, updatedAt := now)
    case Nothing => row.(state := Unsupported, claimedAt := None, updatedAt := now)
    case Released => row.(claimedAt := None)
  }

  /** The guarded update: an outcome lands on the claimed row or nowhere. */
  function Finished(db: Db, job: Job, outcome: Outcome, now: int): Db {
    if Owns(db, job) then db.(rows := db.rows[job.id := FinishedRow(db.rows[job.id], job, outcome, now)]) else db
  }

  // ---- The queue as it runs -------------------------------------------------------------------

  /** What one handler said: not mine, a picture, or that the file is broken (a panic included). */
  datatype Answer = NotMine | Picture | Breaks

  /** Handlers in order, the first that does not pass decides; `writes` says the PNG could be written. */
  function OutcomeOf(answers: seq<Answer>, writes: bool): Outcome
  {
    if answers == [] then Released else Decided(answers, writes)
  }

  function Decided(answers: seq<Answer>, writes: bool): Outcome {
    if answers == [] then Nothing
    else if answers[0] == Picture then if writes then Rendered else Broken
    else if answers[0] == Breaks then Broken
    else Decided(answers[1..], writes)
  }

  datatype Candidate = Candidate(id: string, updatedAt: int)

  predicate Older(a: Candidate, b: Candidate) {
    a.updatedAt <= b.updatedAt
  }

  /** The library's preview rows, its pictures on disk, and one batch's counters. */
  class Previews {
    var db: Db
    var pictures: map<string, Option<Hash>>
    var ready: nat
    var failed: nat
    var unsupported: nat

    /** The claim; `scan` is whatever order the database visits its rows in. */
    method ClaimPendingPreviews(scan: seq<string>, kinds: seq<Kind>, limit: nat, now: int) returns (jobs: seq<Job>)
      requires Sorting.NoRepeats(scan) && forall id :: id in scan <==> id in db.rows
      modifies this`db
      ensures Claims(old(db), db, kinds, limit, now, jobs)
    {
      hide Claimable, Sorting.Sorted, Sorting.Sort, JobsFit, RowsClaimed, OldestFirst, Older, ClaimedRow, Sorting.NoRepeats;
      var candidates := SelectClaimable(scan, kinds, now);
      var ordered := Sorting.Sort(Older, candidates);
      var taken := if |ordered| <= limit then ordered else ordered[..limit];
      jobs := [];
      ghost var before := db;
      CandidatesOrdered(before, kinds, now, candidates);
      NoJobsYet(before, kinds, now);
      for i := 0 to |taken|
        invariant |jobs| == i && JobsFit(before, kinds, now, jobs) && RowsClaimed(before, db, now, jobs)
        invariant forall k :: 0 <= k < i ==> jobs[k].id == ordered[k].id
      {
        var id := taken[i].id;
        OneMoreJob(before, db, kinds, now, jobs, id);
        var file := db.files[id];
        db := db.(rows := db.rows[id := ClaimedRow(db.rows[id], now)]);
        jobs := jobs + [Job(id, now, file.contentHash, file.kind)];
      }
      TakenAreOldest(before, kinds, limit, now, ordered, jobs);
    }

    method SelectClaimable(scan: seq<string>, kinds: seq<Kind>, now: int) returns (candidates: seq<Candidate>)
      requires Sorting.NoRepeats(scan) && forall id :: id in scan <==> id in db.rows
      ensures CandidatesAre(db, kinds, now, candidates)
    {
      hide Claimable;
      candidates := [];
      for i := 0 to |scan|
        invariant forall k :: 0 <= k < |candidates| ==>
                    Claimable(db, candidates[k].id, kinds, now) && HasAge(db, candidates[k]) && candidates[k].id in scan[..i]
        invariant forall k, l :: 0 <= k < l < |candidates| ==> candidates[k].id != candidates[l].id
        invariant forall j :: 0 <= j < i && Claimable(db, scan[j], kinds, now) ==> IsCandidate(candidates, scan[j])
      {
        var id := scan[i];
        assert id in scan;
        assert id !in scan[..i];
        ghost var earlier := candidates;
        if Claimable(db, id, kinds, now) {
          candidates := candidates + [Candidate(id, db.rows[id].updatedAt)];
          assert candidates[|candidates| - 1].id == id;
        }
        forall j | 0 <= j <= i && Claimable(db, scan[j], kinds, now) ensures IsCandidate(candidates, scan[j]) {
          if j < i {
            var k :| 0 <= k < |earlier| && earlier[k].id == scan[j];
            assert candidates[k].id == scan[j];
          }
        }
      }
      forall id | Claimable(db, id, kinds, now) ensures IsCandidate(candidates, id) {
        ClaimableIsThere(db, id, kinds, now);
        assert id in scan;
      }
    }

    /** The guarded write; whether it landed. */
    method Finish(job: Job, outcome: Outcome, now: int) returns (landed: bool)
      modifies this`db
      ensures db == Finished(old(db), job, outcome, now) && landed == Owns(old(db), job)
    {
      landed := job.id in db.rows && db.rows[job.id].state == Pending && db.rows[job.id].claimedAt == Some(job.claimedAt);
      if landed {
        db := db.(rows := db.rows[job.id := FinishedRow(db.rows[job.id], job, outcome, now)]);
      }
    }

    /** One job: ask the handlers, write the picture if there is one, then record the outcome. */
    method RunOne(job: Job, answers: seq<Answer>, writes: bool, now: int)
      modifies this
      ensures db == Finished(old(db), job, OutcomeOf(answers, writes), now)
      ensures pictures == if OutcomeOf(answers, writes) == Rendered then old(pictures)[job.id := job.contentHash] else old(pictures)
      ensures ready == old(ready) + if Owns(old(db), job) && OutcomeOf(answers, writes) == Rendered then 1 else 0
      ensures failed == old(failed) + if Owns(old(db), job) && OutcomeOf(answers, writes) == Broken then 1 else 0
      ensures unsupported == old(unsupported) + if Owns(old(db), job) && OutcomeOf(answers, writes) == Nothing then 1 else 0
    {
      if answers == [] {
        var _ := Finish(job, Released, now);
        return;
      }
      var i := 0;
      assert answers[0..] == answers;
      while i < |answers| && answers[i] == NotMine
        invariant i <= |answers| && Decided(answers, writes) == Decided(answers[i..], writes)
      {
        assert answers[i..][1..] == answers[i + 1..];
        i := i + 1;
      }
      if i == |answers| {
        var landed := Finish(job, Nothing, now);
        if landed {
          unsupported := unsupported + 1;
        }
      } else if answers[i] == Picture && writes {
        pictures := pictures[job.id := job.contentHash];
        var landed := Finish(job, Rendered, now);
        if landed {
          ready := ready + 1;
        }
      } else {
        var landed := Finish(job, Broken, now);
        if landed {
          failed := failed + 1;
        }
      }
    }
  }

  predicate HasAge(db: Db, c: Candidate) {
    c.id in db.rows && c.updatedAt == db.rows[c.id].updatedAt
  }

  predicate IsCandidate(candidates: seq<Candidate>, id: string) {
    exists k :: 0 <= k < |candidates| && candidates[k].id == id
  }

  /** Exactly the claimable rows, each once, with its age. */
  ghost predicate CandidatesAre(db: Db, kinds: seq<Kind>, now: int, candidates: seq<Candidate>) {
    && (forall k :: 0 <= k < |candidates| ==> Claimable(db, candidates[k].id, kinds, now) && HasAge(db, candidates[k]))
    && DistinctIds(candidates)
    && (forall id :: Claimable(db, id, kinds, now) ==> IsCandidate(candidates, id))
  }

  lemma ClaimableIsThere(db: Db, id: string, kinds: seq<Kind>, now: int)
    requires Claimable(db, id, kinds, now)
    ensures id in db.rows && id in db.files
  {
  }

  lemma OlderIsTotal()
    ensures Sorting.TotalPreorder(Older)
  {
  }

  ghost predicate DistinctIds(candidates: seq<Candidate>) {
    forall k, l :: 0 <= k < l < |candidates| ==> candidates[k].id != candidates[l].id
  }

  lemma DistinctIdsPermuted(a: seq<Candidate>, b: seq<Candidate>)
    requires DistinctIds(a) && multiset(a) == multiset(b)
    ensures DistinctIds(b)
  {
    Sorting.NoRepeatsPermuted(a, b);
    forall k, l | 0 <= k < l < |b| ensures b[k].id != b[l].id {
      assert b[k] in multiset(a) && b[l] in multiset(a);
      var i :| 0 <= i < |a| && a[i] == b[k];
      var j :| 0 <= j < |a| && a[j] == b[l];
      assert i != j;
    }
  }

  lemma CandidatesOrdered(db: Db, kinds: seq<Kind>, now: int, candidates: seq<Candidate>)
    requires CandidatesAre(db, kinds, now, candidates)
    ensures CandidatesAre(db, kinds, now, Sorting.Sort(Older, candidates))
    ensures Sorting.Sorted(Older, Sorting.Sort(Older, candidates))
  {
    hide Claimable, HasAge, Older, DistinctIds, Sorting.Sort;
    var ordered := Sorting.Sort(Older, candidates);
    OlderIsTotal();
    Sorting.SortSorted(Older, candidates);
    DistinctIdsPermuted(candidates, ordered);
    Sorting.SameMembers(candidates, ordered);
    assert forall k :: 0 <= k < |ordered| ==> ordered[k] in candidates;
    forall id | Claimable(db, id, kinds, now) ensures IsCandidate(ordered, id) {
      var k :| 0 <= k < |candidates| && candidates[k].id == id;
      assert candidates[k] in ordered;
    }
  }

  lemma NoJobsYet(db: Db, kinds: seq<Kind>, now: int)
    ensures JobsFit(db, kinds, now, []) && RowsClaimed(db, db, now, [])
  {
  }

  lemma OneMoreJob(before: Db, db: Db, kinds: seq<Kind>, now: int, jobs: seq<Job>, id: string)
    requires JobsFit(before, kinds, now, jobs) && RowsClaimed(before, db, now, jobs)
    requires Claimable(before, id, kinds, now) && !IsJobFor(jobs, id)
    ensures id in db.rows && id in db.files
    ensures var more := jobs + [Job(id, now, db.files[id].contentHash, db.files[id].kind)];
            && JobsFit(before, kinds, now, more)
            && RowsClaimed(before, db.(rows := db.rows[id := ClaimedRow(db.rows[id], now)]), now, more)
  {
    hide Claimable;
    ClaimableIsThere(before, id, kinds, now);
    var more := jobs + [Job(id, now, db.files[id].contentHash, db.files[id].kind)];
    forall other ensures IsJobFor(more, other) <==> IsJobFor(jobs, other) || other == id {
      if IsJobFor(jobs, other) {
        var i :| 0 <= i < |jobs| && jobs[i].id == other;
        assert more[i].id == other;
      }
      assert more[|jobs|].id == id;
    }
  }

  lemma TakenAreOldest(db: Db, kinds: seq<Kind>, limit: nat, now: int, ordered: seq<Candidate>, jobs: seq<Job>)
    requires JobsFit(db, kinds, now, jobs) && CandidatesAre(db, kinds, now, ordered) && Sorting.Sorted(Older, ordered)
    requires |jobs| == if |ordered| <= limit then |ordered| else limit
    requires forall k :: 0 <= k < |jobs| ==> jobs[k].id == ordered[k].id
    ensures OldestFirst(db, kinds, limit, now, jobs)
  {
    hide Claimable;
    assert forall m :: 0 <= m < |jobs| ==> IsJobFor(jobs, jobs[m].id);
    forall id | Claimable(db, id, kinds, now) && !IsJobFor(jobs, id)
      ensures |jobs| == limit && forall i :: 0 <= i < |jobs| ==> db.rows[jobs[i].id].updatedAt <= db.rows[id].updatedAt
    {
      var k :| 0 <= k < |ordered| && ordered[k].id == id;
      forall i | 0 <= i < |jobs| ensures db.rows[jobs[i].id].updatedAt <= db.rows[id].updatedAt {
        assert Older(ordered[i], ordered[k]);
      }
    }
    forall i, j | 0 <= i < j < |jobs| ensures db.rows[jobs[i].id].updatedAt <= db.rows[jobs[j].id].updatedAt {
      assert Older(ordered[i], ordered[j]);
    }
  }

  // ---- What that comes to ---------------------------------------------------------------------

  /**
   A claim takes a row only when it waits, has been tried fewer than three times, is wanted, and no
   lease of fifteen minutes runs on it; and a row for which all that holds is left only by a full batch.
   */
  lemma WhoIsClaimed(before: Db, after: Db, kinds: seq<Kind>, limit: nat, now: int, jobs: seq<Job>, id: string)
    requires Claims(before, after, kinds, limit, now, jobs) && id in before.rows && id in before.files
    ensures var row, file := before.rows[id], before.files[id];
            var due := row.state == Pending && row.attempts < 3 && file.projectOk && file.kind in kinds
                       && (row.claimedAt.None? || now - row.claimedAt.value >= 15 * 60 * 1000);
            && id in after.rows && |jobs| <= limit
            && (IsJobFor(jobs, id) ==> due && after.rows[id] == row.(claimedAt := Some(now), attempts := row.attempts + 1))
            && (!IsJobFor(jobs, id) ==> after.rows[id] == row)
            && (due && !IsJobFor(jobs, id) ==>
                  |jobs| == limit && forall i :: 0 <= i < |jobs| ==>
                    jobs[i].id in before.rows && before.rows[jobs[i].id].updatedAt <= row.updatedAt)
  {
    assert IsJobFor(jobs, id) ==> Claimable(before, id, kinds, now);
  }

  /** Each row is handed out once, with the version of its file, the longest waiting first. */
  lemma WhatIsHandedOut(before: Db, after: Db, kinds: seq<Kind>, limit: nat, now: int, jobs: seq<Job>, i: nat, j: nat)
    requires Claims(before, after, kinds, limit, now, jobs) && i <= j < |jobs|
    ensures jobs[i].id in before.files && jobs[i].id in before.rows && jobs[j].id in before.rows
    ensures jobs[i] == Job(jobs[i].id, now, before.files[jobs[i].id].contentHash, before.files[jobs[i].id].kind)
    ensures before.rows[jobs[i].id].updatedAt <= before.rows[jobs[j].id].updatedAt
    ensures jobs[i].id == jobs[j].id ==> i == j
  {
  }

  /** The first handler with an opinion decides; none with one means nothing to show, no handler means later. */
  lemma FirstAnswerDecides(answers: seq<Answer>, k: nat, writes: bool)
    requires k <= |answers| && forall i :: 0 <= i < k ==> answers[i] == NotMine
    ensures answers == [] ==> OutcomeOf(answers, writes) == Released
    ensures answers != [] && k == |answers| ==> OutcomeOf(answers, writes) == Nothing
    ensures k < |answers| && answers[k] == Picture ==> OutcomeOf(answers, writes) == if writes then Rendered else Broken
    ensures k < |answers| && answers[k] == Breaks ==> OutcomeOf(answers, writes) == Broken
  {
    PassedOver(answers, k, writes);
  }

  lemma {:induction false} PassedOver(answers: seq<Answer>, k: nat, writes: bool)
    requires k <= |answers| && forall i :: 0 <= i < k ==> answers[i] == NotMine
    ensures Decided(answers, writes) == Decided(answers[k..], writes)
  {
    if 0 < k {
      PassedOver(answers[1..], k - 1, writes);
      assert answers[1..][k - 1..] == answers[k..];
    } else {
      assert answers[0..] == answers;
    }
  }

  /**
   What an outcome makes of the row it lands on: only a picture changes the hash, only a released row
   waits again, no longer claimed and with its attempt spent.
   */
  lemma OutcomeIsRecorded(db: Db, job: Job, outcome: Outcome, now: int)
    requires Owns(db, job)
    ensures var before, after := db.rows[job.id], Finished(db, job, outcome, now).rows[job.id];
            && after.claimedAt == None && after.attempts == before.attempts
            && (after.state == Ready <==> outcome == Rendered) && (after.state == Failed <==> outcome == Broken)
            && (after.state == Unsupported <==> outcome == Nothing) && (after.state == Pending <==> outcome == Released)
            && after.sourceHash == (if outcome == Rendered then job.contentHash else before.sourceHash)
            && after.updatedAt == (if outcome == Released then before.updatedAt else now)
    ensures Finished(db, job, outcome, now).files == db.files
    ensures Finished(db, job, outcome, now).rows - {job.id} == db.rows - {job.id}
  {
  }
}
