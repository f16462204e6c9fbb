/** The fixed-window request counter (rate_limit.rs): two linked indexes, a sweep and a hard cap. */
module RateLimiter {
  import opened Wrappers

  const MAX_TRACKED_KEYS := 20_000
  const EVICTION_BATCH := 2_000
  const COUNT_LIMIT := 0x1_0000_0000

  datatype Rule = Rule(limit: nat, windowMs: int)
  datatype Bucket = Bucket(windowStart: int, windowMs: int, count: nat, seqNo: nat)

  predicate Live(b: Bucket, now: int) {
    now - b.windowStart < b.windowMs
  }

  // ---- The counter it stands for --------------------------------------------------------------

  /** One key's window in a limiter that never forgets. */
  datatype Counter = Counter(start: int, window: int, count: nat)

  predicate CounterLive(c: Counter, now: int) {
    now - c.start < c.window
  }

  /** One more attempt: in the current window, or in a new one. */
  function Counted(counters: map<string, Counter>, key: string, rule: Rule, now: int): Counter {
    if key in counters && CounterLive(counters[key], now) then counters[key].(count := counters[key].count + 1)
    else Counter(now, rule.windowMs, 1)
  }

  // ---- The two indexes ------------------------------------------------------------------------

  /** `order` lists every bucket once, under the number it carries. */
  ghost predicate Linked(buckets: map<string, Bucket>, order: map<nat, string>, nextSeq: nat) {
    && (forall key :: key in buckets ==> buckets[key].seqNo in order && order[buckets[key].seqNo] == key)
    && (forall s :: s in order ==> s < nextSeq && order[s] in buckets && buckets[order[s]].seqNo == s)
  }

  lemma {:induction false} HasLeast(s: set<nat>) returns (least: nat)
    requires s != {}
    ensures least in s && forall x :: x in s ==> least <= x
  {
    var a :| a in s;
    if s == {a} {
      least := a;
    } else {
      assert s == s - {a} + {a};
      var m := HasLeast(s - {a});
      least := if m < a then m else a;
      forall x | x in s ensures least <= x {
        if x != a {
          assert x in s - {a};
        }
      }
    }
  }

  lemma AnotherKey(buckets: map<string, Bucket>, key: string)
    requires |buckets| >= 2
    ensures exists other :: other in buckets && other != key
  {
    if forall other :: other in buckets ==> other == key {
      assert buckets.Keys <= {key};
      SubsetSize(buckets.Keys, {key});
    }
  }

  lemma {:induction false} SubsetSize<T>(a: set<T>, b: set<T>)
    requires a <= b
    ensures |a| <= |b|
  {
    if a != {} {
      var x :| x in a;
      SubsetSize(a - {x}, b - {x});
    }
  }

  /** What a trim has left of `all`: unchanged buckets, each newer than every bucket gone. */
  ghost predicate Trimmed(all: map<string, Bucket>, left: map<string, Bucket>) {
    && (forall key :: key in left ==> key in all && left[key] == all[key])
    && (forall gone, kept :: gone in all && gone !in left && kept in left ==> all[gone].seqNo < left[kept].seqNo)
  }

  ghost predicate IsNewest(buckets: map<string, Bucket>, nextSeq: nat, key: string) {
    key in buckets && buckets[key].seqNo == nextSeq - 1
  }

  ghost predicate IsFirst(order: map<nat, string>, first: nat) {
    first in order && forall s :: s in order ==> first <= s
  }

  /** The first number is never the newest bucket's while another bucket is left. */
  lemma NewestIsNotFirst(buckets: map<string, Bucket>, order: map<nat, string>, nextSeq: nat, newest: string, first: nat)
    requires Linked(buckets, order, nextSeq) && |buckets| >= 2
    requires IsNewest(buckets, nextSeq, newest) && IsFirst(order, first)
    ensures order[first] != newest
  {
    AnotherKey(buckets, newest);
    var other :| other in buckets && other != newest;
    assert buckets[other].seqNo != buckets[newest].seqNo;
  }

  lemma PopKeepsLinked(buckets: map<string, Bucket>, order: map<nat, string>, nextSeq: nat, first: nat)
    requires Linked(buckets, order, nextSeq) && first in order
    ensures order[first] in buckets
    ensures Linked(buckets - {order[first]}, order - {first}, nextSeq) && |buckets - {order[first]}| == |buckets| - 1
  {
    var rest := buckets - {order[first]};
    assert rest.Keys == buckets.Keys - {order[first]};
    assert |rest| == |rest.Keys| && |buckets| == |buckets.Keys|;
  }

  lemma PopKeepsTrimmed(all: map<string, Bucket>, buckets: map<string, Bucket>, order: map<nat, string>, nextSeq: nat, first: nat)
    requires Linked(buckets, order, nextSeq) && IsFirst(order, first) && Trimmed(all, buckets)
    ensures Trimmed(all, buckets - {order[first]})
  {
    var key, left := order[first], buckets - {order[first]};
    forall gone, kept | gone in all && gone !in left && kept in left ensures all[gone].seqNo < left[kept].seqNo {
      assert buckets[kept].seqNo in order && order[buckets[kept].seqNo] == kept;
      if gone in buckets {
        assert gone == key;
      }
    }
  }

  /** For a key whose bucket was never evicted early, the bucket is the counter or the counter is over. */
  ghost predicate Faithful(buckets: map<string, Bucket>, counters: map<string, Counter>, latest: Option<int>, key: string) {
    if key in buckets then
      key in counters && buckets[key].windowStart == counters[key].start && buckets[key].windowMs == counters[key].window
      && buckets[key].count == counters[key].count % COUNT_LIMIT
    else key in counters ==> latest.Some? && !CounterLive(counters[key], latest.value)
  }

  /** What one sweep leaves. */
  function Swept(buckets: map<string, Bucket>, now: int): map<string, Bucket> {
    map key | key in buckets && Live(buckets[key], now) :: buckets[key]
  }

  class RateLimiter {
    var buckets: map<string, Bucket>
    var order: map<nat, string>
    var nextSeq: nat
    var lastSweepAt: Option<int>
    /** The counters of a limiter that never forgets, and the time of the last attempt. */
    ghost var counters: map<string, Counter>
    ghost var latest: Option<int>
    /** The keys evicted from a window that was still open. */
    ghost var evicted: set<string>

    ghost predicate Valid()
      reads this
    {
      && Linked(buckets, order, nextSeq)
      && |buckets| <= MAX_TRACKED_KEYS + EVICTION_BATCH
      && AllFaithful(buckets, counters, latest, evicted)
    }

    constructor ()
      ensures Valid() && buckets == map[] && counters == map[] && evicted == {} && latest == None
    {
      buckets, order, nextSeq, lastSweepAt := map[], map[], 0, None;
      counters, latest, evicted := map[], None, {};
    }

    method Remove(key: string)
      requires Linked(buckets, order, nextSeq)
      modifies this`buckets, this`order
      ensures Linked(buckets, order, nextSeq) && buckets == old(buckets) - {key}
    {
      if key in buckets {
        var seqNo := buckets[key].seqNo;
        buckets := buckets - {key};
        order := order - {seqNo};
      }
    }

    /** At most once per window, drops every bucket whose window has ended. */
    method Sweep(now: int, intervalMs: int)
      requires Linked(buckets, order, nextSeq)
      modifies this`buckets, this`order, this`lastSweepAt
      ensures Linked(buckets, order, nextSeq)
      ensures var due := !(old(lastSweepAt).Some? && now - old(lastSweepAt).value < intervalMs);
              && lastSweepAt == (if due then Some(now) else old(lastSweepAt))
              && buckets == if due then Swept(old(buckets), now) else old(buckets)
    {
      if lastSweepAt.Some? && now - lastSweepAt.value < intervalMs {
        return;
      }
      lastSweepAt := Some(now);
      var expired := set key | key in buckets && !Live(buckets[key], now);
      ghost var all := buckets;
      while expired != {}
        invariant lastSweepAt == Some(now)
        invariant Linked(buckets, order, nextSeq)
        invariant forall key :: key in expired ==> key in all && !Live(all[key], now)
        invariant forall key :: key in buckets <==> key in all && (Live(all[key], now) || key in expired)
        invariant forall key :: key in buckets ==> key in all && buckets[key] == all[key]
      {
        var key :| key in expired;
        Remove(key);
        expired := expired - {key};
      }
      assert buckets == Swept(all, now);
    }

    /** Trims to the cap in one pass, oldest insertion first. The newest bucket always stays. */
    method EvictOverflow(ghost newest: string)
      requires Linked(buckets, order, nextSeq) && IsNewest(buckets, nextSeq, newest)
      modifies this`buckets, this`order
      ensures Linked(buckets, order, nextSeq) && newest in buckets && Trimmed(old(buckets), buckets)
      ensures if |old(buckets)| <= MAX_TRACKED_KEYS + EVICTION_BATCH then buckets == old(buckets) else |buckets| == MAX_TRACKED_KEYS
    {
      hide Linked, Trimmed;
      assert Trimmed(buckets, buckets) by { NothingTrimmed(buckets); }
      if |buckets| <= MAX_TRACKED_KEYS + EVICTION_BATCH {
        return;
      }
      var remaining := |buckets| - MAX_TRACKED_KEYS;
      ghost var all := buckets;
      while remaining > 0
        invariant remaining >= 0 && |buckets| == MAX_TRACKED_KEYS + remaining
        invariant Linked(buckets, order, nextSeq) && IsNewest(buckets, nextSeq, newest) && Trimmed(all, buckets)
      {
        OrderHasKeys(buckets, order, nextSeq, newest);
        ghost var least := HasLeast(order.Keys);
        var first :| first in order && forall s :: s in order ==> first <= s;
        NewestIsNotFirst(buckets, order, nextSeq, newest, first);
        PopKeepsLinked(buckets, order, nextSeq, first);
        PopKeepsTrimmed(all, buckets, order, nextSeq, first);
        var key := order[first];
        order := order - {first};
        buckets := buckets - {key};
        remaining := remaining - 1;
      }
    }

    /** A new window for a key that has none open. */
    method Restart(key: string, rule: Rule, now: int)
      requires Linked(buckets, order, nextSeq) && |buckets| <= MAX_TRACKED_KEYS + EVICTION_BATCH
      modifies this`buckets, this`order, this`nextSeq
      ensures Linked(buckets, order, nextSeq) && |buckets| <= MAX_TRACKED_KEYS + EVICTION_BATCH
      ensures key in buckets && buckets[key] == Bucket(now, rule.windowMs, 0, old(nextSeq))
      ensures forall other :: other in buckets && other != key ==> other in old(buckets) && buckets[other] == old(buckets)[other]
      ensures |old(buckets)| < MAX_TRACKED_KEYS + EVICTION_BATCH ==> forall other :: other in old(buckets) ==> other in buckets
    {
      hide Linked, Trimmed, IsFirst;
      ghost var before := buckets;
      Remove(key);
      var seqNo := nextSeq;
      InsertKeepsLinked(buckets, order, nextSeq, key, Bucket(now, rule.windowMs, 0, seqNo));
      nextSeq := nextSeq + 1;
      order := order[seqNo := key];
      buckets := buckets[key := Bucket(now, rule.windowMs, 0, seqNo)];
      ghost var full := buckets;
      ReplacedBucket(before, key, full[key]);
      EvictOverflow(key);
      TrimmedIsPart(full, buckets);
    }

    /** Makes sure that the key has an open window; whether it had one before. */
    method Admit(key: string, rule: Rule, now: int) returns (live: bool, ghost swept: map<string, Bucket>)
      requires Linked(buckets, order, nextSeq) && |buckets| <= MAX_TRACKED_KEYS + EVICTION_BATCH
      modifies this`buckets, this`order, this`nextSeq, this`lastSweepAt
      ensures Linked(buckets, order, nextSeq) && |buckets| <= MAX_TRACKED_KEYS + EVICTION_BATCH
      ensures swept == old(buckets) || swept == Swept(old(buckets), now)
      ensures key in buckets && live == (key in swept && Live(swept[key], now))
      ensures if live then buckets == swept
              else buckets[key].windowStart == now && buckets[key].windowMs == rule.windowMs && buckets[key].count == 0
      ensures forall other :: other in buckets && other != key ==> other in swept && buckets[other] == swept[other]
      ensures |old(buckets)| < MAX_TRACKED_KEYS + EVICTION_BATCH ==> forall other :: other in swept ==> other in buckets
    {
      hide Linked, Live, Swept;
      Sweep(now, rule.windowMs);
      swept := buckets;
      SweepShrinks(old(buckets), now);
      live := key in buckets && Live(buckets[key], now);
      if !live {
        Restart(key, rule, now);
      }
    }

    /**
     One attempt. `None` lets it through; `Some` refuses it and says how many seconds to wait. For
     every key that was not evicted out of an open window the verdict is the never-forgetting
     counter's, as long as that counter fits 32 bits.
     */
    method Check(key: string, rule: Rule, now: int) returns (retryAfter: Option<int>)
      requires Valid() && rule.limit < COUNT_LIMIT && (latest.Some? ==> latest.value <= now)
      modifies this
      ensures Valid() && key in buckets && |buckets| <= 22_000 && latest == Some(now)
      ensures counters == old(counters)[key := Counted(old(counters), key, rule, now)]
      ensures key !in old(evicted) ==> (retryAfter.Some? <==> counters[key].count % 4_294_967_296 > rule.limit)
      ensures key !in old(evicted) && counters[key].count < 4_294_967_296 ==> (retryAfter.Some? <==> counters[key].count > rule.limit)
      ensures retryAfter.Some? ==> retryAfter.value == SecondsLeft(buckets[key], now)
      ensures forall other :: other in evicted ==> other in old(evicted) || other !in buckets
      ensures |old(buckets)| < MAX_TRACKED_KEYS + EVICTION_BATCH ==> forall other :: other in evicted ==> other in old(evicted)
    {
      hide Linked, AllFaithful, Live, Swept, SecondsLeft, Counted, EvictedAfter;
      ghost var before, known := buckets, counters;
      ghost var out := evicted;
      var live, swept := Admit(key, rule, now);
      ghost var trimmed := buckets;
      var bucket := buckets[key].(count := (buckets[key].count + 1) % COUNT_LIMIT);
      SweepIsFaithful(before, known, latest, out, swept, now);
      HitIsFaithful(swept, trimmed, known, out, key, rule, now, live);
      CountKeepsLinked(trimmed, order, nextSeq, key, bucket);
      OnlyTheTrimmedAreAdded(out, swept, trimmed, known, key, live, now);
      buckets := buckets[key := bucket];
      counters := known[key := Counted(known, key, rule, now)];
      latest := Some(now);
      evicted := EvictedAfter(out, swept, trimmed, known, key, live, now);
      retryAfter := if bucket.count > rule.limit then Some(SecondsLeft(bucket, now)) else None;
    }
  }

  lemma NothingTrimmed(buckets: map<string, Bucket>)
    ensures Trimmed(buckets, buckets)
  {
  }

  lemma TrimmedIsPart(all: map<string, Bucket>, left: map<string, Bucket>)
    requires Trimmed(all, left)
    ensures forall key :: key in left ==> key in all && left[key] == all[key]
  {
  }

  lemma OrderHasKeys(buckets: map<string, Bucket>, order: map<nat, string>, nextSeq: nat, key: string)
    requires Linked(buckets, order, nextSeq) && key in buckets
    ensures order.Keys != {} && buckets[key].seqNo in order
  {
    assert buckets[key].seqNo in order.Keys;
  }

  lemma InsertKeepsLinked(buckets: map<string, Bucket>, order: map<nat, string>, nextSeq: nat, key: string, bucket: Bucket)
    requires Linked(buckets, order, nextSeq) && key !in buckets && bucket.seqNo == nextSeq
    ensures Linked(buckets[key := bucket], order[nextSeq := key], nextSeq + 1)
  {
  }

  lemma CountKeepsLinked(buckets: map<string, Bucket>, order: map<nat, string>, nextSeq: nat, key: string, bucket: Bucket)
    requires Linked(buckets, order, nextSeq) && key in buckets && bucket.seqNo == buckets[key].seqNo
    ensures Linked(buckets[key := bucket], order, nextSeq) && |buckets[key := bucket]| == |buckets|
  {
    assert buckets[key := bucket].Keys == buckets.Keys;
    assert |buckets[key := bucket]| == |buckets[key := bucket].Keys| && |buckets| == |buckets.Keys|;
  }

  ghost predicate AllFaithful(buckets: map<string, Bucket>, counters: map<string, Counter>, latest: Option<int>, evicted: set<string>) {
    forall key :: key !in evicted ==> Faithful(buckets, counters, latest, key)
  }

  /** Counting on both sides keeps them together. */
  lemma HitIsFaithful(
    swept: map<string, Bucket>, trimmed: map<string, Bucket>, counters: map<string, Counter>, evicted: set<string>,
    key: string, rule: Rule, now: int, live: bool)
    requires AllFaithful(swept, counters, Some(now), evicted)
    requires key in trimmed && live == (key in swept && Live(swept[key], now))
    requires if live then trimmed == swept
             else trimmed[key].windowStart == now && trimmed[key].windowMs == rule.windowMs && trimmed[key].count == 0
    requires forall other :: other in trimmed && other != key ==> other in swept && trimmed[other] == swept[other]
    ensures var bucket := trimmed[key].(count := (trimmed[key].count + 1) % COUNT_LIMIT);
            var after := counters[key := Counted(counters, key, rule, now)];
            && AllFaithful(trimmed[key := bucket], after, Some(now), EvictedAfter(evicted, swept, trimmed, counters, key, live, now))
            && (key !in evicted ==> bucket.count == after[key].count % COUNT_LIMIT)
  {
    var bucket := trimmed[key].(count := (trimmed[key].count + 1) % COUNT_LIMIT);
    var after := counters[key := Counted(counters, key, rule, now)];
    var gone := EvictedAfter(evicted, swept, trimmed, counters, key, live, now);
    forall other | other !in gone ensures Faithful(trimmed[key := bucket], after, Some(now), other) {
      if other != key {
        assert Faithful(swept, counters, Some(now), other);
      } else if key !in evicted {
        assert Faithful(swept, counters, Some(now), key);
      }
    }
    if key !in evicted {
      assert Faithful(swept, counters, Some(now), key);
    }
  }

  /**
   Who stands evicted after an attempt: those before and those just trimmed in mid-window, except a
   key whose bucket and counter have both just started a new window.
   */
  ghost function EvictedAfter(
    evicted: set<string>, swept: map<string, Bucket>, trimmed: map<string, Bucket>,
    counters: map<string, Counter>, key: string, live: bool, now: int): set<string>
  {
    var restarted := !live && !(key in counters && CounterLive(counters[key], now));
    var cutShort := set other | other in swept && other !in trimmed && other in counters && CounterLive(counters[other], now);
    (evicted + cutShort) - (if restarted then {key} else {})
  }

  lemma OnlyTheTrimmedAreAdded(
    evicted: set<string>, swept: map<string, Bucket>, trimmed: map<string, Bucket>,
    counters: map<string, Counter>, key: string, live: bool, now: int)
    ensures forall other :: other in EvictedAfter(evicted, swept, trimmed, counters, key, live, now) ==>
              other in evicted || (other in swept && other !in trimmed)
  {
  }

  function SecondsLeft(b: Bucket, now: int): int {
    var left := b.windowStart + b.windowMs - now;
    ((if left < 0 then 0 else left) + 999) / 1000
  }

  lemma SweepShrinks(before: map<string, Bucket>, now: int)
    ensures |Swept(before, now)| <= |before|
  {
    assert Swept(before, now).Keys <= before.Keys;
    SubsetSize(Swept(before, now).Keys, before.Keys);
    assert |Swept(before, now)| == |Swept(before, now).Keys| && |before| == |before.Keys|;
  }

  lemma SweepIsFaithful(
    before: map<string, Bucket>, counters: map<string, Counter>, latest: Option<int>, evicted: set<string>,
    swept: map<string, Bucket>, now: int)
    requires AllFaithful(before, counters, latest, evicted)
    requires swept == before || swept == Swept(before, now)
    requires latest.Some? ==> latest.value <= now
    ensures AllFaithful(swept, counters, Some(now), evicted)
  {
    forall key | key !in evicted ensures Faithful(swept, counters, Some(now), key) {
      assert Faithful(before, counters, latest, key);
    }
  }

  lemma ReplacedBucket(before: map<string, Bucket>, key: string, bucket: Bucket)
    ensures var after := (before - {key})[key := bucket];
            && |after| <= |before| + 1
            && (forall other :: other in after && other != key ==> other in before && after[other] == before[other])
            && (forall other :: other in before ==> other in after)
  {
    var after := (before - {key})[key := bucket];
    assert after.Keys <= before.Keys + {key};
    SubsetSize(after.Keys, before.Keys + {key});
    assert |after| == |after.Keys| && |before| == |before.Keys|;
  }

  /** Waiting as long as told is enough, and no shorter whole number of seconds is. */
  lemma WaitingIsEnough(b: Bucket, now: int, seconds: nat)
    requires Live(b, now)
    ensures !Live(b, now + 1000 * seconds) <==> SecondsLeft(b, now) <= seconds
    ensures SecondsLeft(b, now) >= 1
  {
  }

  /** The counters after attempts on one key at those times. */
  function CountedAll(counters: map<string, Counter>, key: string, rule: Rule, times: seq<int>): map<string, Counter> {
    if times == [] then counters
    else
      var before := CountedAll(counters, key, rule, times[..|times| - 1]);
      before[key := Counted(before, key, rule, times[|times| - 1])]
  }

  /**
   A window opens with an attempt and lasts its length: every attempt within it counts one, so that
   the budget is exactly its first `limit`, and the first attempt after it opens the next.
   */
  lemma {:induction false} WindowsAreCounted(
    counters: map<string, Counter>, key: string, rule: Rule, start: int, times: seq<int>, later: int)
    requires key in counters ==> start - counters[key].start >= counters[key].window
    requires rule.windowMs > 0 && forall i :: 0 <= i < |times| ==> start <= times[i] < start + rule.windowMs
    requires later >= start + rule.windowMs
    ensures var after := CountedAll(counters, key, rule, [start] + times);
            && key in after && after[key] == Counter(start, rule.windowMs, |times| + 1)
            && Counted(after, key, rule, later) == Counter(later, rule.windowMs, 1)
            && forall other :: other != key ==>
                 (other in after <==> other in counters) && (other in counters ==> after[other] == counters[other])
    decreases |times|
  {
    var all := [start] + times;
    if times == [] {
      assert all[..0] == [] && all[0] == start;
      assert CountedAll(counters, key, rule, []) == counters;
    } else {
      var n := |times| - 1;
      assert all[..|all| - 1] == [start] + times[..n] && all[|all| - 1] == times[n];
      WindowsAreCounted(counters, key, rule, start, times[..n], later);
    }
  }
}
