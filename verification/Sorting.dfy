/** Stable sorting by an order, as the standard library's `sort_by` and `sort_by_key` promise it. */
module Sorting {
  ghost predicate TotalPreorder<T(!new)>(le: (T, T) -> bool) {
    && (forall x, y :: le(x, y) || le(y, x))
    && (forall x, y, z :: le(x, y) && le(y, z) ==> le(x, z))
  }

  ghost predicate Sorted<T>(le: (T, T) -> bool, s: seq<T>) {
    forall i, j :: 0 <= i < j < |s| ==> le(s[i], s[j])
  }

  function Filter<T>(keep: T -> bool, s: seq<T>): seq<T> {
    if s == [] then [] else (if keep(s[0]) then [s[0]] else []) + Filter(keep, s[1..])
  }

  /** Puts `x` in front of the first element it is not behind, so equal elements keep their order. */
  function Insert<T>(le: (T, T) -> bool, x: T, s: seq<T>): (r: seq<T>)
    ensures multiset(r) == multiset{x} + multiset(s)
    ensures |r| == |s| + 1
  {
    if s == [] then [x]
    else if le(x, s[0]) then
      assert [x] + s == [x] + s;
      [x] + s
    else
      assert s == [s[0]] + s[1..];
      [s[0]] + Insert(le, x, s[1..])
  }

  function Sort<T>(le: (T, T) -> bool, s: seq<T>): (r: seq<T>)
    ensures multiset(r) == multiset(s)
    ensures |r| == |s|
  {
    if s == [] then []
    else
      assert s == [s[0]] + s[1..];
      Insert(le, s[0], Sort(le, s[1..]))
  }

  lemma {:induction false} InsertSorted<T(!new)>(le: (T, T) -> bool, x: T, s: seq<T>)
    requires TotalPreorder(le) && Sorted(le, s)
    ensures Sorted(le, Insert(le, x, s))
  {
    if s != [] && !le(x, s[0]) {
      InsertSorted(le, x, s[1..]);
      var tail := Insert(le, x, s[1..]);
      forall i | 0 <= i < |tail| ensures le(s[0], tail[i]) {
        assert tail[i] in multiset(tail);
        assert tail[i] == x || tail[i] in s[1..];
      }
    }
  }

  lemma {:induction false} SortSorted<T(!new)>(le: (T, T) -> bool, s: seq<T>)
    requires TotalPreorder(le)
    ensures Sorted(le, Sort(le, s))
  {
    if s != [] {
      SortSorted(le, s[1..]);
      InsertSorted(le, s[0], Sort(le, s[1..]));
    }
  }

  ghost predicate Ties<T>(le: (T, T) -> bool, x: T, y: T) {
    le(x, y) && le(y, x)
  }

  /** `keep` selects elements of one tie only. */
  ghost predicate KeepsOneTie<T(!new)>(le: (T, T) -> bool, keep: T -> bool) {
    forall x, y :: keep(x) && keep(y) ==> Ties(le, x, y)
  }

  lemma FilterCons<T>(keep: T -> bool, x: T, s: seq<T>)
    ensures Filter(keep, [x] + s) == (if keep(x) then [x] else []) + Filter(keep, s)
  {
    assert ([x] + s)[1..] == s;
  }

  lemma NotBothKept<T(!new)>(le: (T, T) -> bool, keep: T -> bool, x: T, y: T)
    requires KeepsOneTie(le, keep) && !le(x, y)
    ensures !(keep(x) && keep(y))
  {
    assert keep(x) && keep(y) ==> Ties(le, x, y);
  }

  lemma {:induction false} InsertStable<T(!new)>(le: (T, T) -> bool, x: T, s: seq<T>, keep: T -> bool)
    requires KeepsOneTie(le, keep)
    ensures Filter(keep, Insert(le, x, s)) == Filter(keep, [x] + s)
  {
    hide KeepsOneTie, Filter;
    FilterCons(keep, x, s);
    if s == [] {
      assert [x] + s == [x];
    } else if !le(x, s[0]) {
      var first, tail := s[0], s[1..];
      NotBothKept(le, keep, x, first);
      InsertStable(le, x, tail, keep);
      FilterCons(keep, x, tail);
      FilterCons(keep, first, Insert(le, x, tail));
      assert s == [first] + tail;
      FilterCons(keep, first, tail);
      SwapOne(if keep(x) then [x] else [], if keep(first) then [first] else [], Filter(keep, tail));
    }
  }

  lemma SwapOne<T>(a: seq<T>, b: seq<T>, rest: seq<T>)
    requires a == [] || b == []
    ensures a + (b + rest) == b + (a + rest)
  {
    if a == [] {
      assert a + (b + rest) == b + rest && a + rest == rest;
    } else {
      assert b + (a + rest) == a + rest && b + rest == rest;
    }
  }

  /** Elements that tie stay in their original order. */
  lemma {:induction false} SortStable<T(!new)>(le: (T, T) -> bool, s: seq<T>, keep: T -> bool)
    requires KeepsOneTie(le, keep)
    ensures Filter(keep, Sort(le, s)) == Filter(keep, s)
  {
    hide KeepsOneTie;
    if s != [] {
      SortStable(le, s[1..], keep);
      InsertStable(le, s[0], Sort(le, s[1..]), keep);
      FilterCons(keep, s[0], Sort(le, s[1..]));
    }
  }

  /** No two different elements of `s` tie. */
  ghost predicate NoTies<T>(le: (T, T) -> bool, s: seq<T>) {
    forall i, j :: 0 <= i < |s| && 0 <= j < |s| && Ties(le, s[i], s[j]) ==> s[i] == s[j]
  }

  lemma SameFirst<T(!new)>(le: (T, T) -> bool, a: seq<T>, b: seq<T>)
    requires TotalPreorder(le) && Sorted(le, a) && Sorted(le, b) && NoTies(le, a)
    requires a != [] && b != [] && a[0] in b && b[0] in a
    ensures a[0] == b[0]
  {
    var i :| 0 <= i < |b| && b[i] == a[0];
    var j :| 0 <= j < |a| && a[j] == b[0];
    assert le(a[0], a[0]) && le(b[0], b[0]);
    assert Ties(le, a[0], a[j]);
  }

  lemma TailsStay<T>(le: (T, T) -> bool, s: seq<T>)
    requires s != []
    ensures Sorted(le, s) ==> Sorted(le, s[1..])
    ensures NoTies(le, s) ==> NoTies(le, s[1..])
  {
  }

  /** Without ties, the sorted arrangement does not depend on the order the elements came in. */
  lemma {:induction false} SortedArrangementUnique<T(!new)>(le: (T, T) -> bool, a: seq<T>, b: seq<T>)
    requires TotalPreorder(le) && Sorted(le, a) && Sorted(le, b) && NoTies(le, a)
    requires multiset(a) == multiset(b)
    ensures a == b
  {
    hide TotalPreorder, Sorted, NoTies;
    assert |a| == |multiset(a)| == |multiset(b)| == |b|;
    if a != [] {
      assert a[0] in multiset(b) && b[0] in multiset(a);
      SameFirst(le, a, b);
      assert a == [a[0]] + a[1..] && b == [b[0]] + b[1..];
      CancelOne(a[0], multiset(a[1..]), multiset(b[1..]));
      TailsStay(le, a);
      TailsStay(le, b);
      SortedArrangementUnique(le, a[1..], b[1..]);
    }
  }

  /** Taking one element out of a sequence takes it out of the multiset. */
  lemma RemoveAt<T>(s: seq<T>, i: nat)
    requires i < |s|
    ensures multiset(s) == multiset{s[i]} + multiset(s[..i] + s[i + 1..])
  {
    assert s == s[..i] + [s[i]] + s[i + 1..];
  }

  lemma CancelOne<T>(e: T, a: multiset<T>, b: multiset<T>)
    requires multiset{e} + a == multiset{e} + b
    ensures a == b
  {
    assert a == (multiset{e} + a) - multiset{e};
    assert b == (multiset{e} + b) - multiset{e};
  }

  /** Two arrangements of the same elements share the first one of `a`, and the rest. */
  lemma ShareFirst<T>(a: seq<T>, b: seq<T>) returns (i: nat)
    requires a != [] && multiset(a) == multiset(b)
    ensures i < |b| && b[i] == a[0] && multiset(a[1..]) == multiset(b[..i] + b[i + 1..])
  {
    assert a[0] in multiset(b);
    i :| 0 <= i < |b| && b[i] == a[0];
    RemoveAt(a, 0);
    RemoveAt(b, i);
    assert a[..0] + a[1..] == a[1..];
    CancelOne(a[0], multiset(a[1..]), multiset(b[..i] + b[i + 1..]));
  }

  ghost predicate NoRepeats<T>(s: seq<T>) {
    forall i, j :: 0 <= i < j < |s| ==> s[i] != s[j]
  }

  lemma OnceOnly<T>(s: seq<T>, k: nat)
    requires NoRepeats(s) && k < |s|
    ensures multiset(s)[s[k]] == 1
  {
    RemoveAt(s, k);
    var rest := s[..k] + s[k + 1..];
    forall m | 0 <= m < |rest| ensures rest[m] != s[k] {
      assert rest[m] == if m < k then s[m] else s[m + 1];
    }
    assert multiset(rest)[s[k]] == 0;
  }

  lemma NoRepeatsPermuted<T>(a: seq<T>, b: seq<T>)
    requires NoRepeats(a) && multiset(a) == multiset(b)
    ensures NoRepeats(b)
  {
    hide NoRepeats;
    forall i, j | 0 <= i < j < |b| ensures b[i] != b[j] {
      assert b[i] in multiset(a);
      var k :| 0 <= k < |a| && a[k] == b[i];
      OnceOnly(a, k);
      RemoveAt(b, i);
      var rest := b[..i] + b[i + 1..];
      assert rest[j - 1] == b[j];
      assert b[j] in multiset(rest);
    }
    AllDiffer(b);
  }

  lemma AllDiffer<T>(s: seq<T>)
    requires forall i, j :: 0 <= i < j < |s| ==> s[i] != s[j]
    ensures NoRepeats(s)
  {
  }

  lemma FirstIn<T>(s: seq<T>)
    ensures s != [] ==> s[0] in s
  {
  }

  lemma SameMembers<T(!new)>(a: seq<T>, b: seq<T>)
    requires multiset(a) == multiset(b)
    ensures forall x :: x in a <==> x in b
  {
    assert forall x :: x in a <==> x in multiset(a);
    assert forall x :: x in b <==> x in multiset(b);
  }
}
