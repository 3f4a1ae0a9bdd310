/** Baseline inheritance: keyed merging of declarations along the chain of parents. */
module Baselines {
  import opened Wrappers

  datatype Declaration =
    | Package(name: string, version: Option<string>, present: bool)
    | Service(name: string, running: bool, enabled: bool)
    | File(path: string, content: Option<string>, fileMode: Option<string>, owner: Option<string>, present: bool)
    | Firewall(rule: string, present: bool)
    | User(name: string, groups: seq<string>, present: bool)
    | Setting(key: string, value: string)
    | Custom(name: string, checkCommand: string, fixCommand: Option<string>)

  datatype Mode = Audit | Notify | Enforce

  datatype Baseline = Baseline(name: string, inherits: Option<string>, mode: Mode, vars: map<string, string>,
                               state: seq<Declaration>)

  datatype Error = InheritanceCycle(chain: seq<string>) | ParentNotFound(id: string)

  type Key = (string, string)

  /** Resource type and identity. */
  function KeyOf(d: Declaration): Key {
    match d
    case Package(n, _, _) => ("package", n)
    case Service(n, _, _) => ("service", n)
    case File(p, _, _, _, _) => ("file", p)
    case Firewall(r, _) => ("firewall", r)
    case User(n, _, _) => ("user", n)
    case Setting(k, _) => ("setting", k)
    case Custom(n, _, _) => ("custom", n)
  }

  /** The name, path, rule or key a declaration is about. */
  function Identity(d: Declaration): string {
    match d
    case File(p, _, _, _, _) => p
    case Firewall(r, _) => r
    case Setting(k, _) => k
    case _ => d.name
  }

  predicate SameKind(a: Declaration, b: Declaration) {
    || (a.Package? && b.Package?) || (a.Service? && b.Service?) || (a.File? && b.File?) || (a.Firewall? && b.Firewall?)
    || (a.User? && b.User?) || (a.Setting? && b.Setting?) || (a.Custom? && b.Custom?)
  }

  /** Declarations compete exactly when they are of one kind and about one thing. */
  lemma SameKeyIff(a: Declaration, b: Declaration)
    ensures KeyOf(a) == KeyOf(b) <==> SameKind(a, b) && Identity(a) == Identity(b)
  {
    var kinds := ["package", "service", "file", "firewall", "user", "setting", "custom"];
    assert forall i, j :: 0 <= i < j < |kinds| ==> kinds[i] != kinds[j];
  }

  // ---------- Merging one parent ----------

  /** The last declaration of each key. */
  function Winners(ds: seq<Declaration>): map<Key, Declaration> {
    if ds == [] then map[] else Winners(ds[..|ds| - 1])[KeyOf(ds[|ds| - 1]) := ds[|ds| - 1]]
  }

  /** The keys in order of first appearance. */
  function Order(ds: seq<Declaration>): seq<Key> {
    if ds == [] then []
    else
      var front, k := ds[..|ds| - 1], KeyOf(ds[|ds| - 1]);
      if k in Winners(front) then Order(front) else Order(front) + [k]
  }

  predicate Distinct<T(==)>(l: seq<T>) { forall i, j :: 0 <= i < j < |l| ==> l[i] != l[j] }

  lemma {:induction false} OrderMeaning(ds: seq<Declaration>)
    ensures Distinct(Order(ds)) && forall k :: k in Order(ds) <==> k in Winners(ds)
  {
    if ds != [] { OrderMeaning(ds[..|ds| - 1]); }
  }

  lemma {:induction false} WinnersKeyed(ds: seq<Declaration>)
    ensures forall k :: k in Winners(ds) ==> KeyOf(Winners(ds)[k]) == k
  {
    if ds != [] { WinnersKeyed(ds[..|ds| - 1]); }
  }

  /** One winner per key, in order of first appearance. */
  ghost predicate IsMerge(ds: seq<Declaration>, merged: seq<Declaration>) {
    |merged| == |Order(ds)| &&
    forall i :: 0 <= i < |merged| ==> Order(ds)[i] in Winners(ds) && merged[i] == Winners(ds)[Order(ds)[i]]
  }

  function MergedState(ds: seq<Declaration>): (merged: seq<Declaration>)
    ensures IsMerge(ds, merged)
  {
    OrderMeaning(ds);
    assert forall i :: 0 <= i < |Order(ds)| ==> Order(ds)[i] in Order(ds);
    seq(|Order(ds)|, i requires 0 <= i < |Order(ds)| => Winners(ds)[Order(ds)[i]])
  }

  function WithParent(child: Baseline, parent: Baseline): Baseline {
    child.(vars := parent.vars + child.vars, state := MergedState(parent.state + child.state))
  }

  /** Parent variables are defaults. */
  method InheritVars(own: map<string, string>, inherited: map<string, string>) returns (vars: map<string, string>)
    ensures vars == inherited + own
  {
    vars := own;
    var left := inherited.Keys;
    while left != {}
      invariant left <= inherited.Keys
      invariant vars == (inherited - left) + own
    {
      var k :| k in left;
      left := left - {k};
      if k !in vars {
        vars := vars[k := inherited[k]];
      }
    }
  }

  /** `merge_parent`: parent declarations first, later ones overwrite in place. */
  method MergeParent(child: Baseline, parent: Baseline) returns (merged: Baseline)
    ensures merged == WithParent(child, parent)
    ensures merged.name == child.name && merged.inherits == child.inherits && merged.mode == child.mode
    ensures merged.vars.Keys == child.vars.Keys + parent.vars.Keys
    ensures forall v :: v in merged.vars ==> merged.vars[v] == if v in child.vars then child.vars[v] else parent.vars[v]
  {
    var vars := InheritVars(child.vars, parent.vars);
    var state := MergeStates(parent.state + child.state);
    merged := child.(vars := vars, state := state);
  }

  /** The two loops over declarations: collect by key, then read off in order. */
  method MergeStates(all: seq<Declaration>) returns (state: seq<Declaration>)
    ensures state == MergedState(all)
  {
    var byKey, order := CollectByKey(all);
    OrderMeaning(all);
    state := [];
    for i := 0 to |order|
      invariant |state| == i && state == MergedState(all)[..i]
      invariant forall j :: i <= j < |order| ==> order[j] in byKey && byKey[order[j]] == Winners(all)[order[j]]
    {
      if order[i] in byKey {
        state := state + [byKey[order[i]]];
        byKey := byKey - {order[i]};
      }
    }
  }

  method CollectByKey(all: seq<Declaration>) returns (byKey: map<Key, Declaration>, order: seq<Key>)
    ensures byKey == Winners(all) && order == Order(all)
  {
    byKey, order := map[], [];
    for i := 0 to |all|
      invariant byKey == Winners(all[..i]) && order == Order(all[..i])
    {
      assert all[..i + 1][..i] == all[..i];
      var key := KeyOf(all[i]);
      if key !in byKey {
        order := order + [key];
      }
      byKey := byKey[key := all[i]];
    }
    assert all[..|all|] == all;
  }

  lemma {:induction false} WinnersConcat(a: seq<Declaration>, b: seq<Declaration>)
    ensures Winners(a + b) == Winners(a) + Winners(b)
  {
    if b == [] {
      assert a + b == a;
    } else {
      assert (a + b)[..|a + b| - 1] == a + b[..|b| - 1];
      WinnersConcat(a, b[..|b| - 1]);
    }
  }

  predicate OncePerKey(ds: seq<Declaration>) { forall i, j :: 0 <= i < j < |ds| ==> KeyOf(ds[i]) != KeyOf(ds[j]) }

  lemma {:induction false} WinnersOfDistinct(ds: seq<Declaration>)
    requires OncePerKey(ds)
    ensures forall k :: k in Winners(ds) <==> exists i :: 0 <= i < |ds| && KeyOf(ds[i]) == k
    ensures forall i :: 0 <= i < |ds| ==> KeyOf(ds[i]) in Winners(ds) && Winners(ds)[KeyOf(ds[i])] == ds[i]
  {
    if ds != [] {
      var n := |ds| - 1;
      var front := ds[..n];
      WinnersOfDistinct(front);
      forall i | 0 <= i < |ds| ensures KeyOf(ds[i]) in Winners(ds) && Winners(ds)[KeyOf(ds[i])] == ds[i] {
        if i < n { assert front[i] == ds[i]; }
      }
      forall k | k in Winners(ds) ensures exists i :: 0 <= i < |ds| && KeyOf(ds[i]) == k {
        if k in Winners(front) {
          var i :| 0 <= i < |front| && KeyOf(front[i]) == k;
          assert KeyOf(ds[i]) == k;
        } else {
          assert KeyOf(ds[n]) == k;
        }
      }
    }
  }

  /** No two declarations are of one kind and about one thing. */
  predicate OncePerThing(ds: seq<Declaration>) {
    forall i, j :: 0 <= i < j < |ds| ==> !(SameKind(ds[i], ds[j]) && Identity(ds[i]) == Identity(ds[j]))
  }

  lemma OnceEither(ds: seq<Declaration>)
    ensures OncePerKey(ds) <==> OncePerThing(ds)
  {
    forall i, j | 0 <= i < j < |ds| { SameKeyIff(ds[i], ds[j]); }
  }

  /** Merging keeps exactly one declaration per key, the last one. */
  lemma MergeKeepsWinners(ds: seq<Declaration>)
    ensures OncePerKey(MergedState(ds)) && Winners(MergedState(ds)) == Winners(ds)
    ensures OncePerThing(MergedState(ds))
  {
    var merged, order := MergedState(ds), Order(ds);
    OrderMeaning(ds);
    WinnersKeyed(ds);
    forall i | 0 <= i < |merged| ensures KeyOf(merged[i]) == order[i] { assert order[i] in order; }
    OnceEither(merged);
    WinnersOfDistinct(merged);
    forall k ensures k in Winners(merged) <==> k in Winners(ds) {
      if k in Winners(ds) {
        var i :| 0 <= i < |order| && order[i] == k;
        assert KeyOf(merged[i]) == k;
      }
    }
    forall k | k in Winners(ds) ensures Winners(merged)[k] == Winners(ds)[k] {
      var i :| 0 <= i < |order| && order[i] == k;
      assert KeyOf(merged[i]) == k;
    }
  }

  // ---------- The chain of parents ----------

  type Lookup = map<string, Baseline>

  /** The `n`-th id along the chain: the baseline itself, its parent, its parent's parent, ... */
  function IdAt(b: Baseline, lookup: Lookup, n: nat): Option<string> {
    if n == 0 then Some(b.name)
    else if n == 1 then b.inherits
    else
      var prev := IdAt(b, lookup, n - 1);
      if prev.Some? && prev.value in lookup then lookup[prev.value].inherits else None
  }

  lemma {:induction false} ChainStops(b: Baseline, lookup: Lookup, n: nat, m: nat)
    requires 1 <= n <= m && (IdAt(b, lookup, n).None? || (n < m && IdAt(b, lookup, n).value !in lookup))
    ensures IdAt(b, lookup, m).None?
  {
    if n < m {
      if m > n + 1 { ChainStops(b, lookup, n, m - 1); }
    }
  }

  /** Some id occurs twice along the chain. */
  ghost predicate Revisits(b: Baseline, lookup: Lookup) {
    exists i: nat, j: nat :: i < j && IdAt(b, lookup, j).Some? && IdAt(b, lookup, i) == IdAt(b, lookup, j)
  }

  /** `ids` is the chain so far. */
  ghost predicate IsPrefix(b: Baseline, lookup: Lookup, ids: seq<string>) {
    forall i :: 0 <= i < |ids| ==> IdAt(b, lookup, i) == Some(ids[i])
  }

  /** The ancestors, nearest first, when the walk ends. */
  ghost predicate AreAncestors(b: Baseline, lookup: Lookup, ancestors: seq<Baseline>) {
    && IdAt(b, lookup, |ancestors| + 1).None?
    && forall i :: 1 <= i <= |ancestors| ==>
         var id := IdAt(b, lookup, i); id.Some? && id.value in lookup && ancestors[i - 1] == lookup[id.value]
  }

  /** The fold as written: the oldest ancestor is merged first. */
  function Fold(b: Baseline, ancestors: seq<Baseline>): Baseline {
    if ancestors == [] then b else WithParent(Fold(b, ancestors[1..]), ancestors[0])
  }

  lemma NoRevisit(b: Baseline, lookup: Lookup, ids: seq<string>)
    requires ids != [] && IsPrefix(b, lookup, ids) && Distinct(ids)
    requires var next := IdAt(b, lookup, |ids|); next.None? || (next.value !in ids && next.value !in lookup)
    ensures !Revisits(b, lookup)
  {
    var n := |ids|;
    forall i: nat, j: nat | i < j && IdAt(b, lookup, j).Some? ensures IdAt(b, lookup, i) != IdAt(b, lookup, j) {
      if j > n || (j == n && IdAt(b, lookup, n).None?) { ChainStops(b, lookup, n, j); }
      assert IdAt(b, lookup, i) == Some(ids[i]);
    }
  }

  lemma CycleFound(b: Baseline, lookup: Lookup, chain: seq<string>, next: string)
    requires IsPrefix(b, lookup, chain) && Distinct(chain) && next in chain && IdAt(b, lookup, |chain|) == Some(next)
    ensures Revisits(b, lookup)
    ensures var c := chain + [next];
            |c| > 1 && IsPrefix(b, lookup, c) && Distinct(c[..|c| - 1]) && c[|c| - 1] in c[..|c| - 1]
  {
    var i :| 0 <= i < |chain| && chain[i] == next;
    assert IdAt(b, lookup, i) == IdAt(b, lookup, |chain|);
    assert (chain + [next])[..|chain|] == chain;
  }

  /** `compose`: walks to the root remembering every id, then merges root first. */
  method Compose(b: Baseline, lookup: Lookup) returns (r: Result<Baseline, Error>)
    ensures r.Err? && r.error.InheritanceCycle? <==> Revisits(b, lookup)
    ensures r.Err? && r.error.InheritanceCycle? ==>
              var c := r.error.chain;
              |c| > 1 && IsPrefix(b, lookup, c) && Distinct(c[..|c| - 1]) && c[|c| - 1] in c[..|c| - 1]
    ensures r.Err? && r.error.ParentNotFound? ==>
              r.error.id !in lookup && exists n: nat :: n > 0 && IdAt(b, lookup, n) == Some(r.error.id)
    ensures r.Ok? ==> exists ancestors :: AreAncestors(b, lookup, ancestors) && r.value == Fold(b, ancestors)
    ensures r.Ok? ==> r.value.name == b.name && r.value.inherits == b.inherits && r.value.mode == b.mode
  {
    var chain, visited, ancestors := [b.name], {b.name}, [];
    var currentParent := b.inherits;
    while currentParent.Some?
      invariant |chain| == |ancestors| + 1 && IsPrefix(b, lookup, chain) && Distinct(chain)
      invariant visited == set id | id in chain
      invariant currentParent == IdAt(b, lookup, |chain|)
      invariant forall i :: 1 <= i < |chain| ==> chain[i] in lookup && ancestors[i - 1] == lookup[chain[i]]
      decreases lookup.Keys - visited, currentParent.Some?
    {
      var parentId := currentParent.value;
      if parentId in visited {
        CycleFound(b, lookup, chain, parentId);
        return Err(InheritanceCycle(chain + [parentId]));
      }
      if parentId !in lookup {
        NoRevisit(b, lookup, chain);
        return Err(ParentNotFound(parentId));
      }
      visited := visited + {parentId};
      chain := chain + [parentId];
      currentParent := lookup[parentId].inherits;
      ancestors := ancestors + [lookup[parentId]];
    }
    NoRevisit(b, lookup, chain);
    assert forall i :: 0 <= i < |chain| ==> IdAt(b, lookup, i) == Some(chain[i]);
    assert AreAncestors(b, lookup, ancestors);
    var merged := MergeAncestors(b, ancestors);
    r := Ok(merged);
  }

  /** The second loop of `compose`, root first. */
  method MergeAncestors(b: Baseline, ancestors: seq<Baseline>) returns (merged: Baseline)
    ensures merged == Fold(b, ancestors)
    ensures merged.name == b.name && merged.inherits == b.inherits && merged.mode == b.mode
  {
    merged := b;
    var k := |ancestors|;
    while k > 0
      invariant 0 <= k <= |ancestors| && merged == Fold(b, ancestors[k..])
      invariant merged.name == b.name && merged.inherits == b.inherits && merged.mode == b.mode
    {
      k := k - 1;
      assert ancestors[k..][1..] == ancestors[k + 1..];
      merged := MergeParent(merged, ancestors[k]);
    }
    assert ancestors[0..] == ancestors;
  }

  // ---------- Who wins ----------

  /** The declaration of `k` by the ancestor farthest up the chain. */
  function Oldest(ancestors: seq<Baseline>, k: Key): Option<Declaration> {
    if ancestors == [] then None
    else
      var rest := Oldest(ancestors[1..], k);
      if rest.Some? then rest
      else if k in Winners(ancestors[0].state) then Some(Winners(ancestors[0].state)[k])
      else None
  }

  /** The declaration of `k` by the nearest ancestor that has one. */
  function Nearest(ancestors: seq<Baseline>, k: Key): Option<Declaration> {
    if ancestors == [] then None
    else if k in Winners(ancestors[0].state) then Some(Winners(ancestors[0].state)[k])
    else Nearest(ancestors[1..], k)
  }

  function Get(m: map<Key, Declaration>, k: Key): Option<Declaration> { if k in m then Some(m[k]) else None }

  /** The composed state has one declaration per key occurring anywhere in the chain: the child's
      last one if it has any, otherwise the one of the oldest ancestor. */
  lemma {:induction false} OldestAncestorWins(b: Baseline, ancestors: seq<Baseline>, k: Key)
    ensures Get(Winners(Fold(b, ancestors).state), k) ==
            if k in Winners(b.state) then Some(Winners(b.state)[k]) else Oldest(ancestors, k)
    ensures ancestors != [] ==> OncePerKey(Fold(b, ancestors).state)
  {
    if ancestors != [] {
      var below := Fold(b, ancestors[1..]);
      OldestAncestorWins(b, ancestors[1..], k);
      MergeKeepsWinners(ancestors[0].state + below.state);
      WinnersConcat(ancestors[0].state, below.state);
    }
  }

  function OldestVar(ancestors: seq<Baseline>, v: string): Option<string> {
    if ancestors == [] then None
    else
      var rest := OldestVar(ancestors[1..], v);
      if rest.Some? then rest else if v in ancestors[0].vars then Some(ancestors[0].vars[v]) else None
  }

  /** Variables follow the same rule. */
  lemma {:induction false} OldestVarWins(b: Baseline, ancestors: seq<Baseline>, v: string)
    ensures var vars := Fold(b, ancestors).vars;
            (if v in vars then Some(vars[v]) else None) ==
            if v in b.vars then Some(b.vars[v]) else OldestVar(ancestors, v)
  {
    if ancestors != [] { OldestVarWins(b, ancestors[1..], v); }
  }

  /** Overriding by the nearest declaration at every level, as single-level merging suggests, is
      what `compose` does exactly when every key the child leaves open is declared alike by its
      nearest and its oldest declaring ancestor. */
  lemma NearestWinsIff(b: Baseline, ancestors: seq<Baseline>)
    ensures (forall k :: Get(Winners(Fold(b, ancestors).state), k) ==
                         if k in Winners(b.state) then Some(Winners(b.state)[k]) else Nearest(ancestors, k))
            <==> forall k :: k !in Winners(b.state) ==> Nearest(ancestors, k) == Oldest(ancestors, k)
  {
    forall k { OldestAncestorWins(b, ancestors, k); }
  }

  /** A parent that overrides its own parent: the grandparent's version is what the child gets. */
  lemma GrandparentOverridesParent(name: string)
    ensures var grandparent := Baseline("g", None, Audit, map[], [Package(name, Some("1.20"), true)]);
            var parent := Baseline("p", Some("g"), Audit, map[], [Package(name, Some("1.24"), true)]);
            var child := Baseline("c", Some("p"), Audit, map[], []);
            Get(Winners(Fold(child, [parent, grandparent]).state), ("package", name)) ==
            Some(Package(name, Some("1.20"), true))
  {
    var grandparent := Baseline("g", None, Audit, map[], [Package(name, Some("1.20"), true)]);
    var parent := Baseline("p", Some("g"), Audit, map[], [Package(name, Some("1.24"), true)]);
    var child := Baseline("c", Some("p"), Audit, map[], []);
    var key := ("package", name);
    OldestAncestorWins(child, [parent, grandparent], key);
    assert [parent, grandparent][1..] == [grandparent] && [grandparent][1..] == [];
    assert grandparent.state[..0] == [];
    assert Winners(grandparent.state) == map[key := grandparent.state[0]];
    assert Oldest([grandparent], key) == Some(grandparent.state[0]);
  }
}
