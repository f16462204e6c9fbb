/** Login sessions that slide forward while they are used (auth/sessions.rs). */
module Sessions {
  import opened Words
  import opened Wrappers

  const SESSION_TTL_MS := 30 * 24 * 60 * 60 * 1000
  const SESSION_SLIDE_MS := 24 * 60 * 60 * 1000

  /** The SHA-256 of a token: all the database ever holds of it. */
  type Key = seq<byte>

  datatype Session = Session(userId: string, createdAt: int, lastSeenAt: int, expiresAt: int)
  datatype User = User(isAdmin: bool, active: bool)
  datatype Ctx = Ctx(userId: string, isAdmin: bool)
  datatype Db = Db(sessions: map<Key, Session>, users: map<string, User>)

  // ---- One statement each ---------------------------------------------------------------------

  function Created(db: Db, key: Key, userId: string, now: int): Db {
    db.(sessions := db.sessions[key := Session(userId, now, now, now + SESSION_TTL_MS)])
  }

  /** Whose session it is, if it is still good. */
  function Resolves(db: Db, key: Key, now: int): Option<Ctx> {
    if key !in db.sessions then None
    else
      var s := db.sessions[key];
      if s.userId !in db.users || s.expiresAt <= now || !db.users[s.userId].active then None
      else Some(Ctx(s.userId, db.users[s.userId].isAdmin))
  }

  predicate Slides(db: Db, key: Key, now: int) {
    Resolves(db, key, now).Some? && now - db.sessions[key].lastSeenAt > SESSION_SLIDE_MS
  }

  function AfterResolve(db: Db, key: Key, now: int): Db {
    if Slides(db, key, now) then
      db.(sessions := db.sessions[key := db.sessions[key].(lastSeenAt := now, expiresAt := now + SESSION_TTL_MS)])
    else db
  }

  function Pruned(db: Db, now: int): Db {
    db.(sessions := map key | key in db.sessions && db.sessions[key].expiresAt > now :: db.sessions[key])
  }

  class SessionStore {
    var db: Db

    method CreateSession(key: Key, userId: string, now: int) returns (expiresAt: int)
      requires key !in db.sessions
      modifies this
      ensures db == Created(old(db), key, userId, now) && expiresAt == db.sessions[key].expiresAt
    {
      expiresAt := now + SESSION_TTL_MS;
      db := db.(sessions := db.sessions[key := Session(userId, now, now, expiresAt)]);
    }

    method ResolveSession(key: Key, now: int) returns (ctx: Option<Ctx>)
      modifies this
      ensures ctx == Resolves(old(db), key, now) && db == AfterResolve(old(db), key, now)
    {
      if key !in db.sessions {
        return None;
      }
      var s := db.sessions[key];
      if s.userId !in db.users {
        return None;
      }
      var user := db.users[s.userId];
      if s.expiresAt <= now || !user.active {
        return None;
      }
      if now - s.lastSeenAt > SESSION_SLIDE_MS {
        db := db.(sessions := db.sessions[key := s.(lastSeenAt := now, expiresAt := now + SESSION_TTL_MS)]);
      }
      return Some(Ctx(s.userId, user.isAdmin));
    }

    method DeleteSession(key: Key)
      modifies this
      ensures db == old(db).(sessions := old(db).sessions - {key})
    {
      db := db.(sessions := db.sessions - {key});
    }

    method PruneExpiredSessions(now: int) returns (deleted: nat)
      modifies this
      ensures db == Pruned(old(db), now) && deleted == |old(db).sessions| - |db.sessions|
    {
      var expired := set key | key in db.sessions && db.sessions[key].expiresAt <= now;
      ghost var all := db.sessions;
      deleted := 0;
      while expired != {}
        invariant forall key :: key in expired ==> key in all && all[key].expiresAt <= now
        invariant forall key :: key in db.sessions <==> key in all && (key in expired || all[key].expiresAt > now)
        invariant forall key :: key in db.sessions ==> key in all && db.sessions[key] == all[key]
        invariant db.users == old(db).users && deleted == |all| - |db.sessions|
      {
        var key :| key in expired;
        RemovalCounts(db.sessions, key);
        db := db.(sessions := db.sessions - {key});
        expired := expired - {key};
        deleted := deleted + 1;
      }
      assert db.sessions == Pruned(old(db), now).sessions;
    }
  }

  lemma RemovalCounts(m: map<Key, Session>, key: Key)
    requires key in m
    ensures |m - {key}| == |m| - 1
  {
    assert (m - {key}).Keys == m.Keys - {key};
    assert |m - {key}| == |(m - {key}).Keys| && |m| == |m.Keys|;
  }

  // ---- Runs -----------------------------------------------------------------------------------

  datatype Op =
    | Create(key: Key, userId: string, now: int)
    | Resolve(key: Key, now: int)
    | Prune(now: int)
    | Delete(key: Key)
    | SetUser(userId: string, user: User)

  function Apply(db: Db, op: Op): Db {
    match op
    case Create(key, userId, now) => Created(db, key, userId, now)
    case Resolve(key, now) => AfterResolve(db, key, now)
    case Prune(now) => Pruned(db, now)
    case Delete(key) => db.(sessions := db.sessions - {key})
    case SetUser(userId, user) => db.(users := db.users[userId := user])
  }

  function Answer(db: Db, op: Op): Option<Ctx> {
    if op.Resolve? then Resolves(db, op.key, op.now) else None
  }

  /** What every resolve of a run answers. */
  function Answers(db: Db, ops: seq<Op>): (answers: seq<Option<Ctx>>)
    ensures |answers| == |ops|
    decreases |ops|
  {
    if ops == [] then [] else [Answer(db, ops[0])] + Answers(Apply(db, ops[0]), ops[1..])
  }

  function After(db: Db, ops: seq<Op>): Db
    decreases |ops|
  {
    if ops == [] then db else After(Apply(db, ops[0]), ops[1..])
  }

  /** A session's expiry is always one lifetime past the time it was last extended. */
  ghost predicate Consistent(db: Db) {
    forall key :: key in db.sessions ==> db.sessions[key].expiresAt == db.sessions[key].lastSeenAt + SESSION_TTL_MS
  }

  lemma {:induction false} RunsAreConsistent(db: Db, ops: seq<Op>)
    requires Consistent(db)
    ensures Consistent(After(db, ops))
    decreases |ops|
  {
    if ops != [] {
      assert Consistent(Apply(db, ops[0]));
      RunsAreConsistent(Apply(db, ops[0]), ops[1..]);
    }
  }

  // ---- Used sessions live, idle ones die ------------------------------------------------------

  /**
   A run in which nobody deletes or recreates the session or disables its user, and in which every
   moment that matters comes less than a lifetime less a slide after the session's last use.
   */
  predicate KeptInUse(ops: seq<Op>, key: Key, userId: string, lastUse: int) {
    ops == []
    || match ops[0]
       case Create(k, _, _) => k != key && KeptInUse(ops[1..], key, userId, lastUse)
       case Delete(k) => k != key && KeptInUse(ops[1..], key, userId, lastUse)
       case SetUser(u, user) => (u == userId ==> user.active) && KeptInUse(ops[1..], key, userId, lastUse)
       case Prune(now) => now < lastUse + SESSION_TTL_MS - SESSION_SLIDE_MS && KeptInUse(ops[1..], key, userId, lastUse)
       case Resolve(k, now) =>
         if k != key then KeptInUse(ops[1..], key, userId, lastUse)
         else lastUse <= now < lastUse + SESSION_TTL_MS - SESSION_SLIDE_MS && KeptInUse(ops[1..], key, userId, now)
  }

  ghost predicate Alive(db: Db, key: Key, userId: string, lastUse: int) {
    && Consistent(db) && key in db.sessions && db.sessions[key].userId == userId
    && userId in db.users && db.users[userId].active
    && db.sessions[key].lastSeenAt >= lastUse - SESSION_SLIDE_MS
  }

  /** A session in use never dies: every resolve of it answers. */
  lemma {:induction false} UsedSessionsLive(db: Db, ops: seq<Op>, key: Key, userId: string, lastUse: int)
    requires Alive(db, key, userId, lastUse) && KeptInUse(ops, key, userId, lastUse)
    ensures key in After(db, ops).sessions
    ensures forall i :: 0 <= i < |ops| && ops[i].Resolve? && ops[i].key == key ==>
              Answers(db, ops)[i].Some? && Answers(db, ops)[i].value.userId == userId
    decreases |ops|
  {
    if ops != [] {
      var op, next := ops[0], Apply(db, ops[0]);
      var use := if op.Resolve? && op.key == key then op.now else lastUse;
      assert Alive(next, key, userId, use);
      UsedSessionsLive(next, ops[1..], key, userId, use);
    }
  }

  /** The bound is sharp: used a slide after it began, then a lifetime less a slide later, it is dead. */
  lemma TheGapIsSharp(key: Key, userId: string, start: int)
    ensures var db := Created(Db(map[], map[userId := User(false, true)]), key, userId, start);
            var first, second := start + SESSION_SLIDE_MS, start + SESSION_SLIDE_MS + (SESSION_TTL_MS - SESSION_SLIDE_MS);
            Answers(db, [Resolve(key, first), Resolve(key, second)]) == [Some(Ctx(userId, false)), None]
  {
    var db := Created(Db(map[], map[userId := User(false, true)]), key, userId, start);
    var a, b := Resolve(key, start + SESSION_SLIDE_MS), Resolve(key, start + SESSION_TTL_MS);
    assert [a, b][1..] == [b] && [b][1..] == [];
    assert Apply(db, a) == db;
    assert Answers(Apply(db, b), []) == [];
    assert Answers(db, [b]) == [None] + [];
  }

  predicate Untouched(ops: seq<Op>, key: Key) {
    forall i :: 0 <= i < |ops| ==> !((ops[i].Create? || ops[i].Resolve?) && ops[i].key == key)
  }

  lemma {:induction false} UntouchedStays(db: Db, ops: seq<Op>, key: Key)
    requires Untouched(ops, key)
    ensures key in After(db, ops).sessions ==> key in db.sessions && After(db, ops).sessions[key] == db.sessions[key]
    decreases |ops|
  {
    if ops != [] {
      assert !((ops[0].Create? || ops[0].Resolve?) && ops[0].key == key);
      UntouchedStays(Apply(db, ops[0]), ops[1..], key);
    }
  }

  /** Left alone for a lifetime, a session no longer resolves, pruned or not. */
  lemma IdleSessionsDie(db: Db, ops: seq<Op>, key: Key, lastSeen: int, now: int)
    requires Consistent(db) && Untouched(ops, key) && now >= lastSeen + SESSION_TTL_MS
    requires key in db.sessions ==> db.sessions[key].lastSeenAt <= lastSeen
    ensures Resolves(After(db, ops), key, now) == None
  {
    UntouchedStays(db, ops, key);
  }

  /** A slide writes at most once a day: the next one comes more than a slide later. */
  lemma SlidesAreApart(db: Db, ops: seq<Op>, key: Key, first: int, second: int)
    requires Slides(db, key, first)
    requires forall i :: 0 <= i < |ops| ==> !(ops[i].Create? && ops[i].key == key)
    requires forall i :: 0 <= i < |ops| && ops[i].Resolve? && ops[i].key == key ==>
               !Slides(After(AfterResolve(db, key, first), ops[..i]), key, ops[i].now)
    requires Slides(After(AfterResolve(db, key, first), ops), key, second)
    ensures second > first + SESSION_SLIDE_MS
  {
    UnslidStays(AfterResolve(db, key, first), ops, key);
  }

  lemma {:induction false} UnslidStays(db: Db, ops: seq<Op>, key: Key)
    requires forall i :: 0 <= i < |ops| ==> !(ops[i].Create? && ops[i].key == key)
    requires forall i :: 0 <= i < |ops| && ops[i].Resolve? && ops[i].key == key ==>
               !Slides(After(db, ops[..i]), key, ops[i].now)
    ensures key in After(db, ops).sessions ==> key in db.sessions && After(db, ops).sessions[key] == db.sessions[key]
    decreases |ops|
  {
    hide Slides;
    if ops != [] {
      var next := Apply(db, ops[0]);
      assert After(db, ops[..0]) == db;
      forall i | 0 <= i < |ops[1..]| && ops[1..][i].Resolve? && ops[1..][i].key == key
        ensures !Slides(After(next, ops[1..][..i]), key, ops[1..][i].now)
      {
        assert ops[..i + 1][0] == ops[0] && ops[..i + 1][1..] == ops[1..][..i];
        assert ops[i + 1] == ops[1..][i];
      }
      assert forall i :: 0 <= i < |ops[1..]| ==> ops[1..][i] == ops[i + 1];
      UnslidStays(next, ops[1..], key);
    }
  }

  /**
   Thirty days, in milliseconds: a new session of an active user resolves until then, as that user,
   and a resolve more than a day after the last slide moves both its times.
   */
  lemma ThirtyDays(db: Db, key: Key, userId: string, now: int, later: int)
    requires now <= later && userId in db.users && db.users[userId].active
    ensures var made := Created(db, key, userId, now);
            && Resolves(made, key, later)
               == (if later - now < 2_592_000_000 then Some(Ctx(userId, db.users[userId].isAdmin)) else None)
            && AfterResolve(made, key, later).sessions[key]
               == (if 86_400_000 < later - now < 2_592_000_000 then Session(userId, now, later, later + 2_592_000_000)
                   else Session(userId, now, now, now + 2_592_000_000))
            && AfterResolve(made, key, later).users == db.users
  {
  }

  /** The session of a user who is not active, or not there, never resolves. */
  lemma InactiveUsersAreOut(db: Db, key: Key, now: int)
    requires key in db.sessions && (db.sessions[key].userId in db.users ==> !db.users[db.sessions[key].userId].active)
    ensures Resolves(db, key, now) == None && AfterResolve(db, key, now) == db
  {
  }

  /** Pruning keeps exactly the sessions that would resolve if their users were active, as they are. */
  lemma PruningTakesTheExpired(db: Db, key: Key, now: int)
    requires key in db.sessions
    ensures key in Pruned(db, now).sessions
            <==> Resolves(Db(db.sessions, map[db.sessions[key].userId := User(false, true)]), key, now).Some?
    ensures key in Pruned(db, now).sessions ==> Pruned(db, now).sessions[key] == db.sessions[key]
  {
  }

  // ---- Pruning cannot be seen -----------------------------------------------------------------

  /** Time never runs backwards, and no token is drawn twice. */
  predicate Orderly(db: Db, ops: seq<Op>, now: int)
    decreases |ops|
  {
    ops == []
    || (match ops[0]
        case Create(key, _, at) => now <= at && key !in db.sessions && Orderly(Apply(db, ops[0]), ops[1..], at)
        case Resolve(_, at) => now <= at && Orderly(Apply(db, ops[0]), ops[1..], at)
        case Prune(at) => now <= at && Orderly(Apply(db, ops[0]), ops[1..], at)
        case _ => Orderly(Apply(db, ops[0]), ops[1..], now))
  }

  /** `less` is `db` without some sessions that are over. */
  ghost predicate WithoutDead(db: Db, less: Db, now: int) {
    && db.users == less.users
    && (forall key :: key in less.sessions ==> key in db.sessions && less.sessions[key] == db.sessions[key])
    && (forall key :: key in db.sessions && key !in less.sessions ==> db.sessions[key].expiresAt <= now)
  }

  lemma {:induction false} DeadSessionsAreInvisible(db: Db, less: Db, ops: seq<Op>, now: int)
    requires WithoutDead(db, less, now) && Orderly(db, ops, now)
    ensures Answers(less, ops) == Answers(db, ops)
    decreases |ops|
  {
    if ops != [] {
      var op := ops[0];
      var at := match op case Create(_, _, t) => t case Resolve(_, t) => t case Prune(t) => t case _ => now;
      assert WithoutDead(Apply(db, op), Apply(less, op), at);
      DeadSessionsAreInvisible(Apply(db, op), Apply(less, op), ops[1..], at);
    }
  }

  /** Pruning, at any point of an orderly run, changes no later answer. */
  lemma PruningIsInvisible(db: Db, ops: seq<Op>, now: int)
    requires Orderly(db, ops, now)
    ensures Answers(Pruned(db, now), ops) == Answers(db, ops)
  {
    DeadSessionsAreInvisible(db, Pruned(db, now), ops, now);
  }
}
