/** Grandfather-father-son retention: which snapshots a policy keeps.
    Calendar periods are arbitrary functions of the creation time. */
module Retention {
  datatype Manifest = Manifest(id: string, hostname: string, paths: seq<string>, createdAt: int,
                               totalSize: nat, chunkIds: seq<string>, tags: seq<string>)

  datatype Policy = Policy(keepDaily: nat, keepWeekly: nat, keepMonthly: nat, keepYearly: nat, keepLast: nat)

  /** Period keys of a UTC instant: day, ISO week, month, year. */
  datatype Calendar = Calendar(day: int -> int, week: int -> int, month: int -> int, year: int -> int)

  // ---------- Newest first, ties in input order ----------

  predicate NewestFirst(l: seq<Manifest>) {
    forall i, j :: 0 <= i < j < |l| ==> l[i].createdAt >= l[j].createdAt
  }

  predicate DistinctIds(l: seq<Manifest>) { forall i, j :: 0 <= i < j < |l| ==> l[i].id != l[j].id }

  function Insert(m: Manifest, l: seq<Manifest>): seq<Manifest> {
    if l == [] || l[0].createdAt <= m.createdAt then [m] + l else [l[0]] + Insert(m, l[1..])
  }

  /** The stable sort by descending creation time. */
  function Sorted(l: seq<Manifest>): seq<Manifest> {
    if l == [] then [] else Insert(l[0], Sorted(l[1..]))
  }

  lemma {:induction false} InsertPermutes(m: Manifest, l: seq<Manifest>)
    ensures multiset(Insert(m, l)) == multiset(l) + multiset{m}
  {
    if l != [] && l[0].createdAt > m.createdAt {
      InsertPermutes(m, l[1..]);
      assert multiset(l) == multiset{l[0]} + multiset(l[1..]) by { assert l == [l[0]] + l[1..]; }
    }
  }

  lemma ConsNewest(h: Manifest, l: seq<Manifest>)
    requires NewestFirst(l) && forall x :: x in l ==> x.createdAt <= h.createdAt
    ensures NewestFirst([h] + l)
  {
  }

  lemma {:induction false} InsertSorts(m: Manifest, l: seq<Manifest>)
    requires NewestFirst(l)
    ensures NewestFirst(Insert(m, l))
  {
    if l == [] || l[0].createdAt <= m.createdAt {
      ConsNewest(m, l);
    } else {
      InsertSorts(m, l[1..]);
      InsertPermutes(m, l[1..]);
      forall x | x in Insert(m, l[1..]) ensures x.createdAt <= l[0].createdAt {
        assert x in multiset(Insert(m, l[1..]));
        assert x == m || x in l[1..];
      }
      ConsNewest(l[0], Insert(m, l[1..]));
    }
  }

  lemma {:induction false} SortedSorts(l: seq<Manifest>)
    ensures NewestFirst(Sorted(l)) && multiset(Sorted(l)) == multiset(l)
  {
    if l != [] {
      SortedSorts(l[1..]);
      InsertSorts(l[0], Sorted(l[1..]));
      InsertPermutes(l[0], Sorted(l[1..]));
      assert multiset(l) == multiset{l[0]} + multiset(l[1..]) by { assert l == [l[0]] + l[1..]; }
    }
  }

  function Filter(l: seq<Manifest>, ids: set<string>): seq<Manifest> {
    if l == [] then []
    else if l[0].id in ids then [l[0]] + Filter(l[1..], ids)
    else Filter(l[1..], ids)
  }

  lemma {:induction false} FilterMembers(l: seq<Manifest>, ids: set<string>)
    ensures forall m :: m in Filter(l, ids) <==> m in l && m.id in ids
  {
    if l != [] { FilterMembers(l[1..], ids); }
  }

  /** `part` lists the elements of `l` that satisfy `keep`, every one of them and in the order of `l`. */
  ghost predicate IsPart(part: seq<Manifest>, l: seq<Manifest>, keep: Manifest -> bool) {
    exists at: seq<nat> :: PartAt(part, l, keep, 0, at)
  }

  /** The same for `l` from position `from`, with the positions `at` they come from. */
  ghost predicate PartAt(part: seq<Manifest>, l: seq<Manifest>, keep: Manifest -> bool, from: nat, at: seq<nat>) {
    && |part| == |at|
    && (forall k :: 0 <= k < |at| ==> from <= at[k] < |l| && part[k] == l[at[k]])
    && (forall j, k :: 0 <= j < k < |at| ==> at[j] < at[k])
    && forall i: nat :: from <= i < |l| ==> (i in at <==> keep(l[i]))
  }

  lemma PartStep(part: seq<Manifest>, l: seq<Manifest>, keep: Manifest -> bool, from: nat, at: seq<nat>)
    requires from < |l| && PartAt(part, l, keep, from + 1, at)
    ensures keep(l[from]) ==> PartAt([l[from]] + part, l, keep, from, [from] + at)
    ensures !keep(l[from]) ==> PartAt(part, l, keep, from, at)
  {
  }

  lemma {:induction false} FilterIsPart(l: seq<Manifest>, ids: set<string>, from: nat) returns (at: seq<nat>)
    requires from <= |l|
    ensures PartAt(Filter(l[from..], ids), l, (m: Manifest) => m.id in ids, from, at)
    decreases |l| - from
  {
    at := [];
    if from < |l| {
      assert l[from..][1..] == l[from + 1..];
      at := FilterIsPart(l, ids, from + 1);
      PartStep(Filter(l[from + 1..], ids), l, (m: Manifest) => m.id in ids, from, at);
      if l[from].id in ids { at := [from] + at; }
    }
  }

  lemma {:induction false} FilterInsert(m: Manifest, l: seq<Manifest>, ids: set<string>)
    requires NewestFirst(l)
    ensures Filter(Insert(m, l), ids) == if m.id in ids then Insert(m, Filter(l, ids)) else Filter(l, ids)
  {
    if l == [] || l[0].createdAt <= m.createdAt {
      assert ([m] + l)[1..] == l;
      FilterMembers(l, ids);
      assert forall x :: x in l ==> x.createdAt <= m.createdAt;
      assert Filter(l, ids) != [] ==> Filter(l, ids)[0] in l;
    } else {
      FilterInsert(m, l[1..], ids);
      assert ([l[0]] + Insert(m, l[1..]))[1..] == Insert(m, l[1..]);
      if l[0].id in ids { assert Filter(l, ids)[1..] == Filter(l[1..], ids); }
    }
  }

  /** Sorting and dropping snapshots commute: stability is what makes this so for ties. */
  lemma {:induction false} FilterSorted(l: seq<Manifest>, ids: set<string>)
    ensures Sorted(Filter(l, ids)) == Filter(Sorted(l), ids)
  {
    if l != [] {
      FilterSorted(l[1..], ids);
      SortedSorts(l[1..]);
      FilterInsert(l[0], Sorted(l[1..]), ids);
      if l[0].id in ids { assert Filter(l, ids)[1..] == Filter(l[1..], ids); }
    }
  }

  // ---------- What a bucket keeps ----------

  function Keys(l: seq<Manifest>, key: int -> int): set<int> { set m | m in l :: key(m.createdAt) }

  /** Snapshot `i` is the first of its period, and fewer than `limit` periods come before it. */
  predicate Picked(l: seq<Manifest>, key: int -> int, limit: nat, i: nat) {
    i < |l| && key(l[i].createdAt) !in Keys(l[..i], key) && |Keys(l[..i], key)| < limit
  }

  function PickedBelow(l: seq<Manifest>, key: int -> int, limit: nat, n: nat): set<string>
    requires n <= |l|
  {
    set i | 0 <= i < n && Picked(l, key, limit, i) :: l[i].id
  }

  function Bucket(l: seq<Manifest>, key: int -> int, limit: nat): set<string> { PickedBelow(l, key, limit, |l|) }

  function Ids(l: seq<Manifest>): set<string> { set m | m in l :: m.id }

  function Newest(l: seq<Manifest>, n: nat): seq<Manifest> { l[..if n < |l| then n else |l|] }

  function KeptOf(ordered: seq<Manifest>, p: Policy, c: Calendar): set<string> {
    Ids(Newest(ordered, p.keepLast)) + Bucket(ordered, c.day, p.keepDaily) + Bucket(ordered, c.week, p.keepWeekly)
    + Bucket(ordered, c.month, p.keepMonthly) + Bucket(ordered, c.year, p.keepYearly)
  }

  /** The ids `select_keep` answers. */
  function Kept(l: seq<Manifest>, p: Policy, c: Calendar): set<string> { KeptOf(Sorted(l), p, c) }

  function SelectDelete(l: seq<Manifest>, keep: set<string>): seq<string> {
    if l == [] then [] else (if l[0].id in keep then [] else [l[0].id]) + SelectDelete(l[1..], keep)
  }

  lemma KeysGrow(l: seq<Manifest>, key: int -> int, i: nat, j: nat)
    requires i <= j <= |l|
    ensures Keys(l[..i], key) <= Keys(l[..j], key) && |Keys(l[..i], key)| <= |Keys(l[..j], key)|
    ensures i < |l| ==> Keys(l[..i + 1], key) == Keys(l[..i], key) + {key(l[i].createdAt)}
  {
    forall k | k in Keys(l[..i], key) ensures k in Keys(l[..j], key) {
      var m :| m in l[..i] && key(m.createdAt) == k;
      assert m in l[..j];
    }
    Subset(Keys(l[..i], key), Keys(l[..j], key));
    if i < |l| { assert l[..i + 1] == l[..i] + [l[i]]; }
  }

  lemma Subset<T>(a: set<T>, b: set<T>)
    requires a <= b
    ensures |a| <= |b|
  {
    assert b == a + (b - a);
  }

  lemma PickedBelowStep(l: seq<Manifest>, key: int -> int, limit: nat, n: nat)
    requires n < |l|
    ensures PickedBelow(l, key, limit, n + 1) ==
            if Picked(l, key, limit, n) then PickedBelow(l, key, limit, n) + {l[n].id}
            else PickedBelow(l, key, limit, n)
  {
  }

  lemma NoneAfter(l: seq<Manifest>, key: int -> int, limit: nat, n: nat)
    requires n <= |l| && |Keys(l[..n], key)| >= limit
    ensures PickedBelow(l, key, limit, n) == Bucket(l, key, limit)
  {
    forall j: nat | n <= j < |l| ensures !Picked(l, key, limit, j) { KeysGrow(l, key, n, j); }
  }

  /** `fill`: one bucket, reading the ordered list until enough periods were seen. */
  method Fill(dst: set<string>, ordered: seq<Manifest>, limit: nat, key: int -> int) returns (filled: set<string>)
    ensures filled == dst + Bucket(ordered, key, limit)
  {
    filled := dst;
    if limit == 0 {
      return;
    }
    var seen, i := {}, 0;
    while i < |ordered|
      invariant 0 <= i <= |ordered|
      invariant seen == Keys(ordered[..i], key)
      invariant filled == dst + PickedBelow(ordered, key, limit, i)
    {
      if |seen| >= limit {
        NoneAfter(ordered, key, limit, i);
        return;
      }
      KeysGrow(ordered, key, i, i);
      PickedBelowStep(ordered, key, limit, i);
      var k := key(ordered[i].createdAt);
      if k !in seen {
        seen := seen + {k};
        filled := filled + {ordered[i].id};
      }
      i := i + 1;
    }
  }

  /** `select_keep`: sort, then five independent selections. */
  method SelectKeep(p: Policy, c: Calendar, snapshots: seq<Manifest>) returns (keep: set<string>)
    ensures keep == Kept(snapshots, p, c)
  {
    var ordered := Sorted(snapshots);
    keep := {};
    var newest := Newest(ordered, p.keepLast);
    for i := 0 to |newest|
      invariant keep == Ids(newest[..i])
    {
      assert newest[..i + 1] == newest[..i] + [newest[i]];
      keep := keep + {newest[i].id};
    }
    assert newest[..|newest|] == newest;
    keep := Fill(keep, ordered, p.keepDaily, c.day);
    keep := Fill(keep, ordered, p.keepWeekly, c.week);
    keep := Fill(keep, ordered, p.keepMonthly, c.month);
    keep := Fill(keep, ordered, p.keepYearly, c.year);
  }

  // ---------- Idempotence ----------

  /** Where the `i`-th snapshot of a list ends up when others are dropped: what is now before it
      was before it already. */
  lemma {:induction false} Survives(l: seq<Manifest>, ids: set<string>, i: nat) returns (k: nat)
    requires i < |l| && l[i].id in ids
    ensures k < |Filter(l, ids)| && k <= i && Filter(l, ids)[k] == l[i]
    ensures forall m :: m in Filter(l, ids)[..k] ==> m in l[..i]
  {
    if i == 0 {
      k := 0;
    } else {
      var rest := l[1..];
      var n := Survives(rest, ids, i - 1);
      var f := Filter(rest, ids);
      k := if l[0].id in ids then n + 1 else n;
      assert l[..i] == [l[0]] + rest[..i - 1];
      if l[0].id in ids { assert ([l[0]] + f)[..n + 1] == [l[0]] + f[..n]; }
    }
  }

  lemma BucketSurvives(l: seq<Manifest>, key: int -> int, limit: nat, ids: set<string>)
    requires Bucket(l, key, limit) <= ids
    ensures Bucket(l, key, limit) <= Bucket(Filter(l, ids), key, limit)
  {
    var f := Filter(l, ids);
    forall x | x in Bucket(l, key, limit) ensures x in Bucket(f, key, limit) {
      var i :| 0 <= i < |l| && Picked(l, key, limit, i) && l[i].id == x;
      var k := Survives(l, ids, i);
      assert Keys(f[..k], key) <= Keys(l[..i], key);
      Subset(Keys(f[..k], key), Keys(l[..i], key));
      assert Picked(f, key, limit, k);
    }
  }

  lemma NewestSurvive(l: seq<Manifest>, n: nat, ids: set<string>)
    requires Ids(Newest(l, n)) <= ids
    ensures Ids(Newest(l, n)) <= Ids(Newest(Filter(l, ids), n))
  {
    var f := Filter(l, ids);
    forall x | x in Ids(Newest(l, n)) ensures x in Ids(Newest(f, n)) {
      var m :| m in Newest(l, n) && m.id == x;
      var i :| 0 <= i < |Newest(l, n)| && l[i] == m;
      var k := Survives(l, ids, i);
      assert Newest(f, n)[k] == m;
    }
  }

  lemma BucketListed(l: seq<Manifest>, key: int -> int, limit: nat)
    ensures Bucket(l, key, limit) <= Ids(l)
  {
  }

  lemma KeptListed(ordered: seq<Manifest>, p: Policy, c: Calendar)
    ensures KeptOf(ordered, p, c) <= Ids(ordered)
  {
    BucketListed(ordered, c.day, p.keepDaily);
    BucketListed(ordered, c.week, p.keepWeekly);
    BucketListed(ordered, c.month, p.keepMonthly);
    BucketListed(ordered, c.year, p.keepYearly);
  }

  /** Applying the policy to what it kept deletes nothing more, whatever the calendar, also when
      creation times tie or ids repeat. */
  lemma Idempotent(l: seq<Manifest>, p: Policy, c: Calendar)
    ensures var keep := Kept(l, p, c); Kept(Filter(l, keep), p, c) == keep
  {
    var ordered, keep := Sorted(l), Kept(l, p, c);
    FilterSorted(l, keep);
    var f := Filter(ordered, keep);
    NewestSurvive(ordered, p.keepLast, keep);
    BucketSurvives(ordered, c.day, p.keepDaily, keep);
    BucketSurvives(ordered, c.week, p.keepWeekly, keep);
    BucketSurvives(ordered, c.month, p.keepMonthly, keep);
    BucketSurvives(ordered, c.year, p.keepYearly, keep);
    FilterMembers(ordered, keep);
    KeptListed(f, p, c);
  }

  lemma {:induction false} DeleteMembers(l: seq<Manifest>, keep: set<string>)
    ensures forall x :: x in SelectDelete(l, keep) <==> x !in keep && exists m :: m in l && m.id == x
  {
    if l != [] {
      DeleteMembers(l[1..], keep);
      assert forall m :: m in l <==> m == l[0] || m in l[1..];
    }
  }

  /** In the terms of `select_delete`: a second pass selects nothing. */
  lemma SecondPassDeletesNothing(l: seq<Manifest>, p: Policy, c: Calendar)
    ensures var survivors := Filter(l, Kept(l, p, c)); SelectDelete(survivors, Kept(survivors, p, c)) == []
  {
    var keep := Kept(l, p, c);
    var survivors := Filter(l, keep);
    Idempotent(l, p, c);
    FilterMembers(l, keep);
    DeleteMembers(survivors, keep);
    if SelectDelete(survivors, keep) != [] { assert SelectDelete(survivors, keep)[0] in SelectDelete(survivors, keep); }
  }

  // ---------- How much is kept ----------

  lemma {:induction false} BucketSize(l: seq<Manifest>, key: int -> int, limit: nat, n: nat)
    requires n <= |l|
    ensures |PickedBelow(l, key, limit, n)| <= limit
    ensures |PickedBelow(l, key, limit, n)| <= |Keys(l[..n], key)|
  {
    if n > 0 {
      var m := n - 1;
      BucketSize(l, key, limit, m);
      KeysGrow(l, key, m, n);
      PickedBelowStep(l, key, limit, m);
      if Picked(l, key, limit, m) {
        var picked, seen := PickedBelow(l, key, limit, m), Keys(l[..m], key);
        OneMore(picked, l[m].id, seen, key(l[m].createdAt), limit);
        assert PickedBelow(l, key, limit, n) == picked + {l[m].id};
        assert Keys(l[..n], key) == seen + {key(l[m].createdAt)};
      } else {
        assert PickedBelow(l, key, limit, n) == PickedBelow(l, key, limit, m);
      }
    }
  }

  lemma OneMore(picked: set<string>, x: string, seen: set<int>, k: int, limit: nat)
    requires |picked| <= |seen| < limit && k !in seen
    ensures |picked + {x}| <= |seen + {k}| <= limit
  {
  }

  lemma {:induction false} IdsSize(l: seq<Manifest>)
    ensures |Ids(l)| <= |l|
  {
    if l != [] {
      IdsSize(l[1..]);
      assert Ids(l) == Ids(l[1..]) + {l[0].id} by { assert l == [l[0]] + l[1..]; }
    }
  }

  lemma UnionSize<T>(a: set<T>, b: set<T>, m: nat, n: nat)
    requires |a| <= m && |b| <= n
    ensures |a + b| <= m + n
  {
    assert a + b == a + (b - a) && a !! (b - a);
    Subset(b - a, b);
  }

  /** At most the sum of the five limits is kept. */
  lemma KeptSize(l: seq<Manifest>, p: Policy, c: Calendar)
    ensures |Kept(l, p, c)| <= p.keepLast + p.keepDaily + p.keepWeekly + p.keepMonthly + p.keepYearly
  {
    var o := Sorted(l);
    var n, d, w, m, y := Ids(Newest(o, p.keepLast)), Bucket(o, c.day, p.keepDaily), Bucket(o, c.week, p.keepWeekly),
                         Bucket(o, c.month, p.keepMonthly), Bucket(o, c.year, p.keepYearly);
    IdsSize(Newest(o, p.keepLast));
    BucketSize(o, c.day, p.keepDaily, |o|);
    BucketSize(o, c.week, p.keepWeekly, |o|);
    BucketSize(o, c.month, p.keepMonthly, |o|);
    BucketSize(o, c.year, p.keepYearly, |o|);
    UnionSize(n, d, p.keepLast, p.keepDaily);
    UnionSize(n + d, w, p.keepLast + p.keepDaily, p.keepWeekly);
    UnionSize(n + d + w, m, p.keepLast + p.keepDaily + p.keepWeekly, p.keepMonthly);
    UnionSize(n + d + w + m, y, p.keepLast + p.keepDaily + p.keepWeekly + p.keepMonthly, p.keepYearly);
  }

  /** Period keys never run backwards in time. */
  ghost predicate Monotone(key: int -> int) { forall s, t :: s <= t ==> key(s) <= key(t) }

  lemma LaterComesFirst(l: seq<Manifest>, key: int -> int, i: nat, j: nat)
    requires NewestFirst(l) && Monotone(key) && i < |l| && j < |l| && key(l[j].createdAt) > key(l[i].createdAt)
    ensures j < i
  {
  }

  function LaterPeriods(l: seq<Manifest>, key: int -> int, k0: int): set<int> {
    set k | k in Keys(l, key) && k > k0
  }

  /** Ahead of a snapshot whose period is new stand exactly the later periods. */
  lemma LaterIsBefore(l: seq<Manifest>, key: int -> int, i: nat)
    requires NewestFirst(l) && Monotone(key) && i < |l| && key(l[i].createdAt) !in Keys(l[..i], key)
    ensures Keys(l[..i], key) == LaterPeriods(l, key, key(l[i].createdAt))
  {
    var k0 := key(l[i].createdAt);
    forall k ensures k in Keys(l[..i], key) <==> k in LaterPeriods(l, key, k0) {
      if k in Keys(l[..i], key) {
        var m :| m in l[..i] && key(m.createdAt) == k;
        var j :| 0 <= j < i && l[j] == m;
        assert l[j].createdAt >= l[i].createdAt;
      }
      if k in LaterPeriods(l, key, k0) {
        var m :| m in l && key(m.createdAt) == k;
        var j :| 0 <= j < |l| && l[j] == m;
        LaterComesFirst(l, key, i, j);
        assert m in l[..i];
      }
    }
  }

  /** What the documentation promises of a bucket: it keeps the newest snapshot of exactly those
      periods that fewer than `limit` later periods with snapshots follow. */
  lemma BucketIsMostRecentPeriods(l: seq<Manifest>, key: int -> int, limit: nat, i: nat)
    requires NewestFirst(l) && Monotone(key) && i < |l|
    ensures Picked(l, key, limit, i) <==> InBucket(l, key, limit, i)
  {
    var k0 := key(l[i].createdAt);
    if k0 in Keys(l[..i], key) {
      var m :| m in l[..i] && key(m.createdAt) == k0;
      var j :| 0 <= j < i && l[j] == m;
      assert key(l[j].createdAt) == k0;
    } else {
      LaterIsBefore(l, key, i);
      forall j | 0 <= j < i ensures key(l[j].createdAt) != k0 { assert l[j] in l[..i]; }
    }
  }

  /** The newest snapshot of its period, with fewer than `limit` later periods. */
  predicate InBucket(l: seq<Manifest>, key: int -> int, limit: nat, i: nat)
    requires i < |l|
  {
    && (forall j :: 0 <= j < i ==> key(l[j].createdAt) != key(l[i].createdAt))
    && |LaterPeriods(l, key, key(l[i].createdAt))| < limit
  }

  predicate IsCovered(l: seq<Manifest>, p: Policy, c: Calendar, i: nat)
    requires i < |l|
  {
    || i < p.keepLast || InBucket(l, c.day, p.keepDaily, i) || InBucket(l, c.week, p.keepWeekly, i)
    || InBucket(l, c.month, p.keepMonthly, i) || InBucket(l, c.year, p.keepYearly, i)
  }

  lemma BucketMember(l: seq<Manifest>, key: int -> int, limit: nat, id: string)
    requires NewestFirst(l) && Monotone(key)
    ensures id in Bucket(l, key, limit) <==> exists i :: 0 <= i < |l| && l[i].id == id && InBucket(l, key, limit, i)
  {
    forall i | 0 <= i < |l| { BucketIsMostRecentPeriods(l, key, limit, i); }
  }

  lemma NewestMember(l: seq<Manifest>, n: nat, id: string)
    ensures id in Ids(Newest(l, n)) <==> exists i :: 0 <= i < |l| && l[i].id == id && i < n
  {
    var newest := Newest(l, n);
    assert forall i :: 0 <= i < |newest| ==> newest[i] in newest;
    assert forall i :: 0 <= i < |l| && i < n ==> newest[i] == l[i];
  }

  /** The documented policy: kept are the newest `keepLast` snapshots and, for each kind of period,
      the newest snapshot of each of the most recent periods, as many as its own limit says. */
  lemma KeptMeaning(l: seq<Manifest>, p: Policy, c: Calendar, id: string)
    requires Monotone(c.day) && Monotone(c.week) && Monotone(c.month) && Monotone(c.year)
    ensures var o := Sorted(l);
            id in Kept(l, p, c) <==> exists i :: 0 <= i < |o| && o[i].id == id && IsCovered(o, p, c, i)
  {
    var o := Sorted(l);
    SortedSorts(l);
    NewestMember(o, p.keepLast, id);
    BucketMember(o, c.day, p.keepDaily, id);
    BucketMember(o, c.week, p.keepWeekly, id);
    BucketMember(o, c.month, p.keepMonthly, id);
    BucketMember(o, c.year, p.keepYearly, id);
  }
}
