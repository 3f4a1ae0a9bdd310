/** Whether the order in which snapshots are listed matters to what retention keeps. */
module RetentionOrder {
  import opened Retention

  predicate DistinctTimes(l: seq<Manifest>) {
    forall i, j :: 0 <= i < j < |l| ==> l[i].createdAt != l[j].createdAt
  }

  lemma HeadIsNewest(a: seq<Manifest>, b: seq<Manifest>)
    requires NewestFirst(a) && multiset(a) == multiset(b) && a != [] && b != []
    ensures a[0].createdAt >= b[0].createdAt && b[0] in a
  {
    assert b[0] in multiset(b);
    assert b[0] in multiset(a);
  }

  lemma WithoutHead(a: seq<Manifest>)
    requires a != []
    ensures multiset(a[1..]) == multiset(a) - multiset{a[0]}
  {
    assert a == [a[0]] + a[1..];
  }

  lemma SameHead(a: seq<Manifest>, b: seq<Manifest>)
    requires NewestFirst(a) && NewestFirst(b) && multiset(a) == multiset(b) && DistinctTimes(a) && a != [] && b != []
    ensures a[0] == b[0]
  {
    HeadIsNewest(a, b);
    HeadIsNewest(b, a);
    var j :| 0 <= j < |a| && a[j] == b[0];
    assert j == 0;
  }

  lemma {:induction false} SortedUnique(a: seq<Manifest>, b: seq<Manifest>)
    requires NewestFirst(a) && NewestFirst(b) && multiset(a) == multiset(b) && DistinctTimes(a)
    ensures a == b
  {
    assert |a| == |multiset(a)| == |multiset(b)| == |b|;
    if a != [] {
      SameHead(a, b);
      WithoutHead(a);
      WithoutHead(b);
      SortedUnique(a[1..], b[1..]);
      assert a == [a[0]] + a[1..] && b == [b[0]] + b[1..];
    }
  }

  lemma DistinctTimesPermuted(a: seq<Manifest>, b: seq<Manifest>)
    requires multiset(a) == multiset(b) && DistinctTimes(a)
    ensures DistinctTimes(b)
  {
    forall i, j | 0 <= i < j < |b| ensures b[i].createdAt != b[j].createdAt {
      assert b[i] in multiset(a) && b[j] in multiset(a);
      var x :| 0 <= x < |a| && a[x] == b[i];
      var y :| 0 <= y < |a| && a[y] == b[j];
      if x == y {
        Twice(b, i, j);
        Once(a, x);
        assert false;
      }
    }
  }

  lemma Twice(b: seq<Manifest>, i: nat, j: nat)
    requires i < j < |b| && b[i] == b[j]
    ensures multiset(b)[b[i]] >= 2
  {
    assert b == b[..j] + [b[j]] + b[j + 1..];
    assert b[i] in b[..j];
  }

  lemma Once(a: seq<Manifest>, x: nat)
    requires x < |a| && DistinctTimes(a)
    ensures multiset(a)[a[x]] == 1
  {
    assert a == a[..x] + [a[x]] + a[x + 1..];
    assert a[x] !in a[..x] && a[x] !in a[x + 1..];
  }

  lemma OrderIrrelevant(a: seq<Manifest>, b: seq<Manifest>, p: Policy, c: Calendar)
    requires multiset(a) == multiset(b) && DistinctTimes(a)
    ensures Kept(a, p, c) == Kept(b, p, c)
  {
    SortedSorts(a);
    SortedSorts(b);
    DistinctTimesPermuted(a, Sorted(a));
    SortedUnique(Sorted(a), Sorted(b));
  }

  // ---------- Ties are decided by the listing ----------

  function Last(n: nat): Policy { Policy(0, 0, 0, 0, n) }

  lemma LastOnly(o: seq<Manifest>, n: nat, c: Calendar)
    ensures KeptOf(o, Last(n), c) == Ids(Newest(o, n))
  {
    assert Bucket(o, c.day, 0) == {} && Bucket(o, c.week, 0) == {} && Bucket(o, c.month, 0) == {} &&
           Bucket(o, c.year, 0) == {};
  }

  /** Insertion stops in front of the first snapshot that is not newer. */
  lemma {:induction false} InsertAt(h: Manifest, l: seq<Manifest>) returns (n: nat)
    ensures n <= |l| && Insert(h, l) == l[..n] + [h] + l[n..]
    ensures forall m :: m in l[..n] ==> m.createdAt > h.createdAt
  {
    if l == [] || l[0].createdAt <= h.createdAt {
      n := 0;
    } else {
      var k := InsertAt(h, l[1..]);
      n := k + 1;
      assert l[..n] == [l[0]] + l[1..][..k] && l[n..] == l[1..][k..];
    }
  }

  /** With as many places as there are newer snapshots and one more, the last place goes to the first
      listed of its time. */
  lemma FirstListedWins(h: Manifest, rest: seq<Manifest>, c: Calendar) returns (n: nat)
    requires DistinctIds([h] + rest)
    ensures forall k: nat :: n < k ==> h.id in Kept([h] + rest, Last(k), c)
    ensures forall m :: m in rest && m.createdAt == h.createdAt ==> m.id !in Kept([h] + rest, Last(n + 1), c)
  {
    var s := Sorted(rest);
    n := InsertAt(h, s);
    var o := Insert(h, s);
    assert ([h] + rest)[1..] == rest;
    forall k: nat | n < k ensures h.id in Kept([h] + rest, Last(k), c) {
      LastOnly(o, k, c);
      assert Newest(o, k)[n] == h;
    }
    LastOnly(o, n + 1, c);
    assert Newest(o, n + 1) == s[..n] + [h];
    forall m | m in rest && m.createdAt == h.createdAt ensures m.id !in Kept([h] + rest, Last(n + 1), c) {
      NotAmong(h, rest, m, s, n);
    }
  }

  lemma NotAmong(h: Manifest, rest: seq<Manifest>, m: Manifest, s: seq<Manifest>, n: nat)
    requires DistinctIds([h] + rest) && s == Sorted(rest) && n <= |s| && m in rest && m.createdAt == h.createdAt
    requires forall x :: x in s[..n] ==> x.createdAt > h.createdAt
    ensures m.id !in Ids(s[..n] + [h])
  {
    SortedSorts(rest);
    SameIdSame(h, rest, m);
    forall x | x in s[..n] + [h] ensures x.id != m.id {
      if x in s[..n] {
        assert x in multiset(s);
        assert x in rest;
      }
    }
  }

  lemma SameIdSame(h: Manifest, rest: seq<Manifest>, m: Manifest)
    requires DistinctIds([h] + rest) && m in rest
    ensures m.id != h.id && forall x :: x in rest && x.id == m.id ==> x == m
  {
    var all := [h] + rest;
    var i :| 0 <= i < |rest| && rest[i] == m;
    assert all[0].id != all[i + 1].id;
    forall x | x in rest && x.id == m.id ensures x == m {
      var j :| 0 <= j < |rest| && rest[j] == x;
      assert all[j + 1] == x && all[i + 1] == m;
    }
  }

  function Without(a: seq<Manifest>, i: nat): seq<Manifest>
    requires i < |a|
  {
    a[..i] + a[i + 1..]
  }

  /** Where the entries of `[a[i]] + Without(a, i)` come from. */
  function Origin(i: nat, x: nat): nat { if x == 0 then i else if x <= i then x - 1 else x }

  lemma FrontedAt(a: seq<Manifest>, i: nat, x: nat)
    requires i < |a| && x < |a|
    ensures ([a[i]] + Without(a, i))[x] == a[Origin(i, x)]
  {
  }

  lemma FrontedDistinct(a: seq<Manifest>, i: nat)
    requires DistinctIds(a) && i < |a|
    ensures DistinctIds([a[i]] + Without(a, i))
  {
    var b := [a[i]] + Without(a, i);
    forall x, y | 0 <= x < y < |b| ensures b[x].id != b[y].id {
      FrontedAt(a, i, x);
      FrontedAt(a, i, y);
      assert Origin(i, x) != Origin(i, y);
    }
  }

  /** Listing one snapshot first. */
  lemma Fronted(a: seq<Manifest>, i: nat, j: nat)
    requires DistinctIds(a) && i < |a| && j < |a| && i != j
    ensures multiset([a[i]] + Without(a, i)) == multiset(a) && DistinctIds([a[i]] + Without(a, i)) &&
            a[j] in Without(a, i)
  {
    FrontedDistinct(a, i);
    assert a == a[..i] + [a[i]] + a[i + 1..];
    var k := if j < i then j else j - 1;
    assert Without(a, i)[k] == a[j];
  }

  predicate SameKept(a: seq<Manifest>, b: seq<Manifest>, p: Policy, c: Calendar) { Kept(a, p, c) == Kept(b, p, c) }

  ghost predicate OrderNeverMatters(a: seq<Manifest>) {
    forall b: seq<Manifest>, p: Policy, c: Calendar :: multiset(b) == multiset(a) ==> SameKept(a, b, p, c)
  }

  lemma TieMatters(a: seq<Manifest>, i: nat, j: nat, c: Calendar)
    requires DistinctIds(a) && i < |a| && j < |a| && i != j && a[i].createdAt == a[j].createdAt
    ensures !OrderNeverMatters(a)
  {
    Fronted(a, i, j);
    Fronted(a, j, i);
    var b, d := [a[i]] + Without(a, i), [a[j]] + Without(a, j);
    var m := FirstListedWins(a[i], Without(a, i), c);
    var n := FirstListedWins(a[j], Without(a, j), c);
    var p := Last(if m >= n then m + 1 else n + 1);
    assert Kept(b, p, c) != Kept(d, p, c);
    assert !(SameKept(a, b, p, c) && SameKept(a, d, p, c));
  }

  /** The documentation promises any order: for distinct ids the listing is irrelevant, to every policy
      and calendar, exactly when creation times are distinct. */
  lemma OrderIrrelevantIff(a: seq<Manifest>)
    requires DistinctIds(a)
    ensures OrderNeverMatters(a) <==> DistinctTimes(a)
  {
    if DistinctTimes(a) {
      forall b: seq<Manifest>, p: Policy, c: Calendar | multiset(b) == multiset(a) ensures SameKept(a, b, p, c) {
        OrderIrrelevant(a, b, p, c);
      }
    } else {
      var i, j :| 0 <= i < j < |a| && a[i].createdAt == a[j].createdAt;
      TieMatters(a, i, j, Calendar(t => t, t => t, t => t, t => t));
    }
  }

  /** Two snapshots of one time and one place: the first listed is kept. */
  lemma FirstOfTwo(x: Manifest, y: Manifest, c: Calendar)
    requires x.createdAt == y.createdAt
    ensures Kept([x, y], Last(1), c) == {x.id} && Kept([y, x], Last(1), c) == {y.id}
  {
    assert [x, y][1..] == [y] && [y, x][1..] == [x] && [y][1..] == [] && [x][1..] == [];
    assert Sorted([y]) == [y] && Sorted([x]) == [x];
    LastOnly([x, y], 1, c);
    LastOnly([y, x], 1, c);
    assert Newest([x, y], 1) == [x] && Newest([y, x], 1) == [y];
    assert Sorted([x, y]) == [x, y] && Sorted([y, x]) == [y, x];
  }
}
