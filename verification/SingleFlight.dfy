/**
 One answer shared by every caller that arrived while a question was open (sync.rs): every
 interleaving of the critical sections of `run` and of the leader's guard, panics included.
 */
module SingleFlight {
  import opened Wrappers

  type Answer = int

  datatype Outcome = Pending | Ready(answer: Answer) | Abandoned

  /** Where one call of `run` stands; the flight it is in is the argument. */
  datatype Place =
    | Start                                           // about to look at `current`
    | Asking(f: nat)                                  // the leader, running its closure
    | Answered(f: nat, answer: Answer)                // about to store the answer
    | Settling(f: nat, result: Option<Answer>)        // the guard, about to mark an unanswered flight
    | Clearing(f: nat, result: Option<Answer>)        // the guard, about to clear `current`
    | Notifying(f: nat, result: Option<Answer>)       // the guard, about to wake the waiters
    | Checking(f: nat)                                // a waiter, about to look at the outcome
    | Asleep(f: nat)                                  // a waiter, on the condition variable
    | Returned(f: nat, answer: Answer)
    | Panicked(f: nat)

  /**
   `flights` are all flights ever opened, `leaders` who opened each. `asked` are the calls whose
   closure has been taken.
   */
  datatype State = State(current: Option<nat>, flights: seq<Outcome>, leaders: seq<nat>, places: map<nat, Place>, asked: set<nat>)

  datatype Step =
    | Look(c: nat)
    | ClosureReturns(c: nat, answer: Answer)
    | ClosurePanics(c: nat)
    | Store(c: nat)
    | Settle(c: nat)
    | Clear(c: nat)
    | Notify(c: nat)
    | Check(c: nat)
    | WakeSpuriously(c: nat)
    | Arrive(c: nat)

  function At(s: State, c: nat, p: Place): map<nat, Place> {
    s.places[c := p]
  }

  /** `notify_all` on one flight. */
  function Woken(places: map<nat, Place>, f: nat): map<nat, Place> {
    map c | c in places :: if places[c] == Asleep(f) then Checking(f) else places[c]
  }

  /** Join the open flight, or open one and lead it. */
  function AfterLook(s: State, c: nat): State {
    if s.current.Some? then s.(places := At(s, c, Checking(s.current.value)))
    else State(Some(|s.flights|), s.flights + [Pending], s.leaders + [c], At(s, c, Asking(|s.flights|)), s.asked + {c})
  }

  ghost predicate Next(s: State, step: Step, t: State) {
    match step
    case Arrive(c) => c !in s.places && t == s.(places := At(s, c, Start))
    case Look(c) =>
      c in s.places && s.places[c] == Start && t == AfterLook(s, c)
    case ClosureReturns(c, answer) =>
      c in s.places && s.places[c].Asking? && t == s.(places := At(s, c, Answered(s.places[c].f, answer)))
    case ClosurePanics(c) =>
      c in s.places && s.places[c].Asking? && t == s.(places := At(s, c, Settling(s.places[c].f, None)))
    case Store(c) =>
      c in s.places && s.places[c].Answered? && s.places[c].f < |s.flights|
      && var p := s.places[c];
         t == s.(flights := s.flights[p.f := Ready(p.answer)], places := At(s, c, Settling(p.f, Some(p.answer))))
    case Settle(c) =>
      c in s.places && s.places[c].Settling? && s.places[c].f < |s.flights|
      && var p := s.places[c];
         t == s.(flights := if s.flights[p.f] == Pending then s.flights[p.f := Abandoned] else s.flights,
                 places := At(s, c, Clearing(p.f, p.result)))
    case Clear(c) =>
      c in s.places && s.places[c].Clearing?
      && var p := s.places[c];
         t == s.(current := if s.current == Some(p.f) then None else s.current, places := At(s, c, Notifying(p.f, p.result)))
    case Notify(c) =>
      c in s.places && s.places[c].Notifying?
      && var p := s.places[c];
         t == s.(places := Woken(s.places, p.f)[c := if p.result.Some? then Returned(p.f, p.result.value) else Panicked(p.f)])
    case Check(c) =>
      c in s.places && s.places[c].Checking? && s.places[c].f < |s.flights|
      && var f := s.places[c].f;
         t == s.(places := At(s, c, match s.flights[f]
                                    case Ready(answer) => Returned(f, answer)
                                    case Abandoned => Start
                                    case Pending => Asleep(f)))
    case WakeSpuriously(c) =>
      c in s.places && s.places[c].Asleep? && t == s.(places := At(s, c, Checking(s.places[c].f)))
  }

  ghost predicate Begin(s: State) {
    s.current == None && s.flights == [] && s.leaders == [] && s.asked == {} && s.places == map[]
  }

  // ---- What every step keeps ------------------------------------------------------------------

  /** The call whose flight is still in `current`. */
  predicate Leads(p: Place, f: nat) {
    p == Asking(f) || (p.Answered? && p.f == f) || (p.Settling? && p.f == f) || (p.Clearing? && p.f == f)
  }

  /** The call that will still notify a flight's waiters. */
  predicate WillNotify(p: Place, f: nat) {
    Leads(p, f) || (p.Notifying? && p.f == f)
  }

  ghost predicate LeaderAt(s: State, f: nat)
    requires |s.leaders| == |s.flights|
  {
    && f < |s.flights| && s.leaders[f] in s.places
    && var p := s.places[s.leaders[f]];
       && (Leads(p, f) <==> s.current == Some(f))
       && (match s.flights[f]
           case Pending => p == Asking(f) || (p.Answered? && p.f == f) || p == Settling(f, None)
           case Ready(v) => p == Settling(f, Some(v)) || p == Clearing(f, Some(v)) || p == Notifying(f, Some(v)) || p == Returned(f, v)
           case Abandoned => p == Clearing(f, None) || p == Notifying(f, None) || p == Panicked(f))
  }

  ghost predicate CallAt(s: State, c: nat)
    requires |s.leaders| == |s.flights|
  {
    c in s.places
    && match s.places[c]
       case Start => c !in s.asked
       case Checking(f) => c !in s.asked && f < |s.flights| && s.leaders[f] != c
       case Asleep(f) => c !in s.asked && f < |s.flights| && s.leaders[f] != c
         && s.leaders[f] in s.places && WillNotify(s.places[s.leaders[f]], f)
       case Returned(f, v) => f < |s.flights| && s.flights[f] == Ready(v)
       case p => p.f < |s.flights| && s.leaders[p.f] == c
  }

  ghost predicate Sound(s: State) {
    && |s.leaders| == |s.flights|
    && (s.current.Some? ==> s.current.value < |s.flights|)
    && (forall f :: 0 <= f < |s.flights| ==> LeaderAt(s, f))
    && (forall c :: c in s.places ==> CallAt(s, c))
    && (forall c :: c in s.asked <==> c in s.leaders)
    && (forall f, g :: 0 <= f < g < |s.leaders| ==> s.leaders[f] != s.leaders[g])
  }

  /** A step that moves one call and leaves the flights alone needs checking for that call only. */
  lemma OneCallMoves(s: State, t: State, c: nat, p: Place)
    requires Sound(s) && c in s.places && t == s.(places := At(s, c, p)) && CallAt(t, c)
    requires forall f :: 0 <= f < |s.flights| && s.leaders[f] == c ==> LeaderAt(t, f) && (WillNotify(s.places[c], f) ==> WillNotify(p, f))
    ensures Sound(t)
  {
    forall f | 0 <= f < |t.flights| ensures LeaderAt(t, f) {
      assert LeaderAt(s, f);
    }
    forall d | d in t.places ensures CallAt(t, d) {
      assert CallAt(s, d);
      if s.places[d].Asleep? {
        assert LeaderAt(s, s.places[d].f);
      }
    }
  }

  lemma LookIsSound(s: State, step: Step, t: State)
    requires Sound(s) && step.Look? && Next(s, step, t)
    ensures Sound(t)
  {
    var c := step.c;
    assert CallAt(s, c);
    if s.current.Some? {
      assert c !in s.leaders;
      OneCallMoves(s, t, c, Checking(s.current.value));
    } else {
      forall f | 0 <= f < |t.flights| ensures LeaderAt(t, f) {
        if f < |s.flights| {
          assert LeaderAt(s, f);
          assert s.leaders[f] in s.leaders;
        }
      }
      forall d | d in t.places ensures CallAt(t, d) {
        assert CallAt(s, d);
        if s.places[d].Asleep? {
          assert LeaderAt(s, s.places[d].f);
          assert s.leaders[s.places[d].f] in s.leaders;
        }
      }
    }
  }

  lemma LeaderMoves(s: State, step: Step, t: State)
    requires Sound(s) && (step.ClosureReturns? || step.ClosurePanics?) && Next(s, step, t)
    ensures Sound(t)
  {
    var c := step.c;
    assert CallAt(s, c);
    assert LeaderAt(s, s.places[c].f);
    forall f | 0 <= f < |s.flights| && s.leaders[f] == c ensures f == s.places[c].f {}
    OneCallMoves(s, t, c, t.places[c]);
  }

  lemma StoreIsSound(s: State, step: Step, t: State)
    requires Sound(s) && (step.Store? || step.Settle?) && Next(s, step, t)
    ensures Sound(t)
  {
    var c := step.c;
    assert CallAt(s, c);
    var mine := s.places[c].f;
    assert LeaderAt(s, mine);
    forall f | 0 <= f < |t.flights| ensures LeaderAt(t, f) {
      assert LeaderAt(s, f);
    }
    forall d | d in t.places ensures CallAt(t, d) {
      assert CallAt(s, d);
      if s.places[d].Asleep? {
        assert LeaderAt(s, s.places[d].f);
      }
    }
  }

  lemma ClearIsSound(s: State, step: Step, t: State)
    requires Sound(s) && step.Clear? && Next(s, step, t)
    ensures Sound(t)
  {
    var c := step.c;
    assert CallAt(s, c);
    assert LeaderAt(s, s.places[c].f);
    forall f | 0 <= f < |t.flights| ensures LeaderAt(t, f) {
      assert LeaderAt(s, f);
    }
    forall d | d in t.places ensures CallAt(t, d) {
      assert CallAt(s, d);
      if s.places[d].Asleep? {
        assert LeaderAt(s, s.places[d].f);
      }
    }
  }

  lemma NotifyKeepsLeaders(s: State, step: Step, t: State)
    requires Sound(s) && step.Notify? && Next(s, step, t)
    ensures forall f :: 0 <= f < |t.flights| ==> LeaderAt(t, f)
  {
    var c := step.c;
    assert CallAt(s, c);
    assert LeaderAt(s, s.places[c].f);
    forall f | 0 <= f < |t.flights| ensures LeaderAt(t, f) {
      assert LeaderAt(s, f);
      assert CallAt(s, s.leaders[f]);
    }
  }

  lemma NotifyIsSound(s: State, step: Step, t: State)
    requires Sound(s) && step.Notify? && Next(s, step, t)
    ensures Sound(t)
  {
    var c := step.c;
    NotifyKeepsLeaders(s, step, t);
    assert CallAt(s, c);
    assert LeaderAt(s, s.places[c].f);
    forall d | d in t.places ensures CallAt(t, d) {
      assert CallAt(s, d);
      if t.places[d].Asleep? {
        assert LeaderAt(s, s.places[d].f);
        assert CallAt(s, s.leaders[s.places[d].f]);
      }
    }
  }

  lemma WaiterMoves(s: State, step: Step, t: State)
    requires Sound(s) && (step.Check? || step.WakeSpuriously?) && Next(s, step, t)
    ensures Sound(t)
  {
    var c := step.c;
    assert CallAt(s, c);
    assert LeaderAt(s, s.places[c].f);
    assert c !in s.leaders;
    OneCallMoves(s, t, c, t.places[c]);
  }

  lemma ArriveIsSound(s: State, step: Step, t: State)
    requires Sound(s) && step.Arrive? && Next(s, step, t)
    ensures Sound(t)
  {
    var c := step.c;
    forall f | 0 <= f < |s.leaders| ensures s.leaders[f] != c {
      assert LeaderAt(s, f);
    }
    forall f | 0 <= f < |t.flights| ensures LeaderAt(t, f) {
      assert LeaderAt(s, f);
    }
    forall d | d in t.places ensures CallAt(t, d) {
      if d != c {
        assert CallAt(s, d);
        if s.places[d].Asleep? {
          assert LeaderAt(s, s.places[d].f);
        }
      }
    }
  }

  lemma StepIsSound(s: State, step: Step, t: State)
    requires Sound(s) && Next(s, step, t)
    ensures Sound(t)
  {
    hide Sound, Next;
    match step
    case Look(_) => LookIsSound(s, step, t);
    case ClosureReturns(_, _) => LeaderMoves(s, step, t);
    case ClosurePanics(_) => LeaderMoves(s, step, t);
    case Store(_) => StoreIsSound(s, step, t);
    case Settle(_) => StoreIsSound(s, step, t);
    case Clear(_) => ClearIsSound(s, step, t);
    case Notify(_) => NotifyIsSound(s, step, t);
    case Check(_) => WaiterMoves(s, step, t);
    case WakeSpuriously(_) => WaiterMoves(s, step, t);
    case Arrive(_) => ArriveIsSound(s, step, t);
  }

  ghost predicate Run(states: seq<State>, steps: seq<Step>) {
    |states| == |steps| + 1 && Begin(states[0])
    && forall i :: 0 <= i < |steps| ==> Next(states[i], steps[i], states[i + 1])
  }

  lemma {:induction false} RunIsSound(states: seq<State>, steps: seq<Step>, n: nat)
    requires Run(states, steps) && n <= |steps|
    ensures Sound(states[n])
  {
    hide Next;
    if n > 0 {
      RunIsSound(states, steps, n - 1);
      StepIsSound(states[n - 1], steps[n - 1], states[n]);
    }
  }

  // ---- What that means ------------------------------------------------------------------------

  /** At most one closure runs at a time, in every state of every run. */
  lemma OneLeaderAtATime(states: seq<State>, steps: seq<Step>, n: nat, c: nat, d: nat)
    requires Run(states, steps) && n <= |steps|
    requires var s := states[n]; c in s.places && d in s.places && s.places[c].Asking? && s.places[d].Asking?
    ensures c == d
  {
    var s := states[n];
    RunIsSound(states, steps, n);
    assert CallAt(s, c) && CallAt(s, d);
    assert LeaderAt(s, s.places[c].f) && LeaderAt(s, s.places[d].f);
  }

  /** Every call that returned from a flight returned the flight's one answer: its leader's. */
  lemma OneAnswerPerFlight(states: seq<State>, steps: seq<Step>, n: nat, c: nat)
    requires Run(states, steps) && n <= |steps| && c in states[n].places && states[n].places[c].Returned?
    ensures var s, f := states[n], states[n].places[c].f;
            && f < |s.flights| && s.flights[f] == Ready(s.places[c].answer)
            && f < |s.leaders| && s.leaders[f] in s.places && s.places[s.leaders[f]] in
                 {Settling(f, Some(s.places[c].answer)), Clearing(f, Some(s.places[c].answer)),
                  Notifying(f, Some(s.places[c].answer)), Returned(f, s.places[c].answer)}
  {
    var s := states[n];
    RunIsSound(states, steps, n);
    assert CallAt(s, c);
    assert LeaderAt(s, s.places[c].f);
  }

  /** A call never asks twice: whoever is about to open a flight has not run its closure. */
  lemma AsksAtMostOnce(states: seq<State>, steps: seq<Step>, n: nat, c: nat)
    requires Run(states, steps) && n < |steps| && steps[n] == Look(c)
    ensures c !in states[n].asked && (c in states[n + 1].asked <==> states[n].current == None)
  {
    RunIsSound(states, steps, n);
    assert Next(states[n], steps[n], states[n + 1]);
    assert CallAt(states[n], c);
  }

  /** An answer, once given, is the flight's for good. */
  lemma OutcomeIsFinal(s: State, step: Step, t: State, f: nat)
    requires Sound(s) && Next(s, step, t) && f < |s.flights| && s.flights[f] != Pending
    ensures f < |t.flights| && t.flights[f] == s.flights[f]
  {
    if step.Store? {
      assert CallAt(s, step.c);
      assert LeaderAt(s, s.places[step.c].f);
    }
  }

  /** Nobody sleeps on a flight that has been notified: whoever sleeps has a live leader to wake it. */
  lemma SleepersHaveALeader(states: seq<State>, steps: seq<Step>, n: nat, c: nat)
    requires Run(states, steps) && n <= |steps| && c in states[n].places && states[n].places[c].Asleep?
    ensures var s, f := states[n], states[n].places[c].f;
            f < |s.leaders| && s.leaders[f] in s.places && WillNotify(s.places[s.leaders[f]], f)
  {
    var s := states[n];
    RunIsSound(states, steps, n);
    assert CallAt(s, c);
    assert LeaderAt(s, s.places[c].f);
  }

  /** A flight whose leader panicked answers nobody: a waiter that sees it goes back to ask for itself. */
  lemma AbandonedMeansAskAgain(states: seq<State>, steps: seq<Step>, n: nat, c: nat)
    requires Run(states, steps) && n < |steps| && steps[n] == Check(c)
    requires var s := states[n];
             c in s.places && s.places[c].Checking? && s.places[c].f < |s.flights| && s.flights[s.places[c].f] == Abandoned
    ensures c in states[n + 1].places && states[n + 1].places[c] == Start && c !in states[n + 1].asked
  {
    RunIsSound(states, steps, n);
    assert Next(states[n], steps[n], states[n + 1]);
    assert CallAt(states[n], c);
  }

  predicate IsOver(p: Place) {
    p.Returned? || p.Panicked?
  }

  /** The step an awake call can take by itself. */
  function OwnStep(c: nat, p: Place): Step {
    match p
    case Start => Look(c)
    case Asking(_) => ClosureReturns(c, 0)
    case Answered(_, _) => Store(c)
    case Settling(_, _) => Settle(c)
    case Clearing(_, _) => Clear(c)
    case Notifying(_, _) => Notify(c)
    case Checking(_) => Check(c)
    case _ => WakeSpuriously(c)
  }

  lemma AwakeCanMove(s: State, c: nat) returns (t: State)
    requires Sound(s) && c in s.places && !IsOver(s.places[c]) && !s.places[c].Asleep?
    ensures Next(s, OwnStep(c, s.places[c]), t)
  {
    assert CallAt(s, c);
    match s.places[c]
    case Start => t := AfterLook(s, c);
    case Asking(f) => t := s.(places := At(s, c, Answered(f, 0)));
    case Answered(f, v) => t := s.(flights := s.flights[f := Ready(v)], places := At(s, c, Settling(f, Some(v))));
    case Settling(f, r) =>
      t := s.(flights := if s.flights[f] == Pending then s.flights[f := Abandoned] else s.flights,
              places := At(s, c, Clearing(f, r)));
    case Clearing(f, r) =>
      t := s.(current := if s.current == Some(f) then None else s.current, places := At(s, c, Notifying(f, r)));
    case Notifying(f, r) =>
      t := s.(places := Woken(s.places, f)[c := if r.Some? then Returned(f, r.value) else Panicked(f)]);
    case Checking(f) =>
      t := s.(places := At(s, c, match s.flights[f]
                                 case Ready(answer) => Returned(f, answer)
                                 case Abandoned => Start
                                 case Pending => Asleep(f)));
  }

  /** Waiting never locks up: while any call is unfinished, some awake call has a step of its own. */
  lemma NeverStuck(states: seq<State>, steps: seq<Step>, n: nat, c: nat)
    requires Run(states, steps) && n <= |steps| && c in states[n].places && !IsOver(states[n].places[c])
    ensures exists d, t :: d in states[n].places && !IsOver(states[n].places[d]) && !states[n].places[d].Asleep?
              && Next(states[n], OwnStep(d, states[n].places[d]), t)
  {
    hide Next;
    var s := states[n];
    RunIsSound(states, steps, n);
    var d := c;
    if s.places[c].Asleep? {
      SleepersHaveALeader(states, steps, n, c);
      d := s.leaders[s.places[c].f];
    }
    var t := AwakeCanMove(s, d);
  }

  /**
   Until when: a call that looks after the answer has been stored joins that flight exactly when the
   leader's guard has not yet cleared the slot; after that it joins a later flight or opens its own.
   */
  lemma LateLookJoinsUntilCleared(states: seq<State>, steps: seq<Step>, n: nat, c: nat, f: nat)
    requires Run(states, steps) && n < |steps| && steps[n] == Look(c)
    requires f < |states[n].flights| && states[n].flights[f].Ready?
    ensures f < |states[n].leaders| && states[n].leaders[f] in states[n].places && c in states[n + 1].places
    ensures var leader := states[n].places[states[n].leaders[f]];
            states[n + 1].places[c] == Checking(f) <==> (leader.Settling? || leader.Clearing?) && leader.f == f
  {
    RunIsSound(states, steps, n);
    assert Next(states[n], steps[n], states[n + 1]);
    assert LeaderAt(states[n], f);
    assert CallAt(states[n], c);
  }

  /** Where the two calls stand after each step: the first asks and stores, then the second arrives. */
  function LateState(first: nat, late: nat, answer: Answer, k: nat): State
    requires first != late && k <= 6
  {
    var stored := State(Some(0), [Ready(answer)], [first], map[first := Settling(0, Some(answer))], {first});
    if k == 0 then State(None, [], [], map[], {})
    else if k == 1 then State(None, [], [], map[first := Start], {})
    else if k == 2 then State(Some(0), [Pending], [first], map[first := Asking(0)], {first})
    else if k == 3 then State(Some(0), [Pending], [first], map[first := Answered(0, answer)], {first})
    else if k == 4 then stored
    else if k == 5 then stored.(places := stored.places[late := Start])
    else stored.(places := stored.places[late := Checking(0)])
  }

  function LateSteps(first: nat, late: nat, answer: Answer): seq<Step> {
    [Arrive(first), Look(first), ClosureReturns(first, answer), Store(first), Arrive(late), Look(late)]
  }

  lemma LateStep(first: nat, late: nat, answer: Answer, k: nat)
    requires first != late && k < 6
    ensures Next(LateState(first, late, answer, k), LateSteps(first, late, answer)[k], LateState(first, late, answer, k + 1))
  {
    assert [] + [Pending] == [Pending] && [] + [first] == [first];
    assert [Pending][0 := Ready(answer)] == [Ready(answer)];
  }

  /**
   A call that arrives after the answer has been stored, but before the guard has cleared the slot,
   joins the old question: its next look gives it the old answer, and it never asks.
   */
  lemma LateCallGetsTheOldAnswer(first: nat, late: nat, answer: Answer) returns (states: seq<State>, steps: seq<Step>)
    requires first != late
    ensures Run(states, steps) && |steps| == 6
    ensures states[4].flights == [Ready(answer)] && late !in states[4].places
    ensures var last := states[6];
            late in last.places && late !in last.asked
            && Next(last, Check(late), last.(places := last.places[late := Returned(0, answer)]))
  {
    steps := LateSteps(first, late, answer);
    states := seq(7, k requires 0 <= k < 7 => LateState(first, late, answer, k));
    forall i | 0 <= i < |steps| ensures Next(states[i], steps[i], states[i + 1]) {
      LateStep(first, late, answer, i);
    }
  }
}
