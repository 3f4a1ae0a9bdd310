/** Group declarations of an ACL policy: the depth-first cycle check run by `validate`, and the
    recursive expansion `resolve_group`, both over a path set that is filled and emptied on the way. */
module Groups {
  import opened Wrappers

  type GroupMap = map<string, seq<string>>

  datatype Error =
    | InvalidGroupKey(key: string)
    | InvalidTagKey(key: string)
    | CircularGroup(name: string)
    | UnknownGroup(name: string)

  predicate IsGroup(name: string) { "group:" <= name }

  predicate IsTag(name: string) { "tag:" <= name }

  // ---------- The group-reference graph ----------

  predicate Refers(groups: GroupMap, a: string, b: string) {
    a in groups && b in groups[a] && IsGroup(b)
  }

  /** A walk along references; only its last node may be undeclared. */
  predicate IsWalk(groups: GroupMap, p: seq<string>) {
    p != [] && forall i :: 0 <= i < |p| - 1 ==> Refers(groups, p[i], p[i + 1])
  }

  ghost predicate Reaches(groups: GroupMap, a: string, b: string) {
    exists p :: IsWalk(groups, p) && p[0] == a && p[|p| - 1] == b
  }

  /** Reachable in at least one step. */
  ghost predicate LeadsTo(groups: GroupMap, a: string, b: string) {
    exists p :: IsWalk(groups, p) && |p| > 1 && p[0] == a && p[|p| - 1] == b
  }

  ghost predicate OnCycle(groups: GroupMap, g: string) { LeadsTo(groups, g, g) }

  ghost predicate Acyclic(groups: GroupMap) { forall g :: !OnCycle(groups, g) }

  /** The walk's last node is on the path already, or occurs earlier in the walk. */
  predicate Revisits(p: seq<string>, visited: set<string>)
    requires p != []
  {
    p[|p| - 1] in visited || p[|p| - 1] in p[..|p| - 1]
  }

  ghost predicate Stuck(groups: GroupMap, name: string, visited: set<string>) {
    exists p :: IsWalk(groups, p) && p[0] == name && Revisits(p, visited)
  }

  lemma WalkTail(groups: GroupMap, p: seq<string>)
    requires IsWalk(groups, p) && |p| > 1
    ensures Refers(groups, p[0], p[1]) && IsWalk(groups, p[1..])
  {
    assert Refers(groups, p[0], p[0 + 1]);
    forall i | 0 <= i < |p[1..]| - 1 ensures Refers(groups, p[1..][i], p[1..][i + 1]) {
      assert Refers(groups, p[i + 1], p[i + 1 + 1]);
    }
  }

  lemma WalkCons(groups: GroupMap, a: string, p: seq<string>)
    requires IsWalk(groups, p) && Refers(groups, a, p[0])
    ensures IsWalk(groups, [a] + p)
  {
  }

  /** One level of the search: stuck here, or below one of the group's group members. */
  lemma StuckStep(groups: GroupMap, name: string, visited: set<string>)
    requires name !in visited
    ensures Stuck(groups, name, visited) <==>
            exists m :: Refers(groups, name, m) && Stuck(groups, m, visited + {name})
  {
    if Stuck(groups, name, visited) {
      var p :| IsWalk(groups, p) && p[0] == name && Revisits(p, visited);
      WalkTail(groups, p);
      var last := p[|p| - 1];
      assert p[1..][|p| - 2] == last;
      if last !in visited && last != name {
        var j :| 0 <= j < |p| - 1 && p[..|p| - 1][j] == last;
        assert p[1..][..|p| - 2][j - 1] == last;
      }
      assert Stuck(groups, p[1], visited + {name});
    }
    if m :| Refers(groups, name, m) && Stuck(groups, m, visited + {name}) {
      var p :| IsWalk(groups, p) && p[0] == m && Revisits(p, visited + {name});
      WalkCons(groups, name, p);
      var q := [name] + p;
      assert q[|q| - 1] == p[|p| - 1];
      assert q[..|q| - 1] == [name] + p[..|p| - 1];
    }
  }

  /** Started with an empty path, the search gets stuck somewhere exactly when there is a cycle. */
  lemma StuckIsCycle(groups: GroupMap)
    ensures (exists g :: g in groups && Stuck(groups, g, {})) <==> !Acyclic(groups)
  {
    if g :| g in groups && Stuck(groups, g, {}) {
      var p :| IsWalk(groups, p) && p[0] == g && Revisits(p, {});
      var j :| 0 <= j < |p| - 1 && p[..|p| - 1][j] == p[|p| - 1];
      var q := p[j..];
      forall i | 0 <= i < |q| - 1 ensures Refers(groups, q[i], q[i + 1]) {
        assert Refers(groups, p[i + j], p[i + j + 1]);
      }
      assert OnCycle(groups, q[0]);
    }
    if g :| OnCycle(groups, g) {
      var p :| IsWalk(groups, p) && |p| > 1 && p[0] == g && p[|p| - 1] == g;
      WalkTail(groups, p);
      assert p[..|p| - 1][0] == g;
      assert g in groups && Stuck(groups, g, {});
    }
  }

  // ---------- The cycle check ----------

  /** The nodes on the path lead to `name`, so meeting one of them again closes a cycle. */
  ghost predicate PathTo(groups: GroupMap, visited: set<string>, name: string) {
    forall v :: v in visited ==> LeadsTo(groups, v, name)
  }

  lemma PathExtends(groups: GroupMap, visited: set<string>, name: string, m: string)
    requires PathTo(groups, visited, name) && Refers(groups, name, m)
    ensures PathTo(groups, visited + {name}, m)
  {
    forall v | v in visited + {name} ensures LeadsTo(groups, v, m) {
      if v == name {
        assert IsWalk(groups, [name, m]);
      } else {
        var p :| IsWalk(groups, p) && |p| > 1 && p[0] == v && p[|p| - 1] == name;
        var q := p + [m];
        assert IsWalk(groups, q) && q[|q| - 1] == m && q[0] == v;
      }
    }
  }

  lemma StuckAtOnce(groups: GroupMap, name: string, visited: set<string>)
    requires name in visited
    ensures Stuck(groups, name, visited)
  {
    assert IsWalk(groups, [name]) && Revisits([name], visited);
  }

  lemma StuckBelow(groups: GroupMap, name: string, visited: set<string>, m: string)
    requires name !in visited && Refers(groups, name, m) && Stuck(groups, m, visited + {name})
    ensures Stuck(groups, name, visited)
  {
    StuckStep(groups, name, visited);
  }

  lemma NotStuck(groups: GroupMap, name: string, visited: set<string>)
    requires name !in visited
    requires name in groups ==> NoneStuck(groups, groups[name], visited + {name})
    ensures !Stuck(groups, name, visited)
  {
    StuckStep(groups, name, visited);
  }

  /** `check_group_cycle`: succeeds, with the path as it was, exactly when no walk from `name`
      comes back to the path or to itself; a reported group lies on a cycle. */
  method CheckGroupCycle(groups: GroupMap, name: string, visited: set<string>)
    returns (r: Result<(), Error>, path: set<string>)
    ensures r.Ok? <==> !Stuck(groups, name, visited)
    ensures r.Ok? ==> path == visited
    ensures r.Err? ==> r.error.CircularGroup?
    ensures r.Err? && PathTo(groups, visited, name) ==> OnCycle(groups, r.error.name)
    decreases |groups.Keys - visited|
  {
    if name in visited {
      StuckAtOnce(groups, name, visited);
      return Err(CircularGroup(name)), visited;
    }
    path := visited + {name};
    if name in groups {
      var members := groups[name];
      Shrinks(groups.Keys, visited, name);
      for i := 0 to |members|
        invariant path == visited + {name} && NoneStuck(groups, members[..i], path)
      {
        if IsGroup(members[i]) {
          PathOrStuck(groups, name, visited, members[i]);
          r, path := CheckGroupCycle(groups, members[i], path);
          if r.Err? {
            return;
          }
        }
        NoneStuckSnoc(groups, members, i, path);
      }
      assert members[..|members|] == members;
    }
    NotStuck(groups, name, visited);
    path := path - {name};
    r := Ok(());
  }

  /** No search from one of these members gets stuck. */
  ghost predicate NoneStuck(groups: GroupMap, members: seq<string>, path: set<string>) {
    forall m :: m in members && IsGroup(m) ==> !Stuck(groups, m, path)
  }

  lemma NoneStuckSnoc(groups: GroupMap, members: seq<string>, i: nat, path: set<string>)
    requires i < |members| && NoneStuck(groups, members[..i], path)
    requires IsGroup(members[i]) ==> !Stuck(groups, members[i], path)
    ensures NoneStuck(groups, members[..i + 1], path)
  {
    assert members[..i + 1] == members[..i] + [members[i]];
  }

  /** Going down to a member keeps the path a path, and being stuck there is being stuck here. */
  lemma PathOrStuck(groups: GroupMap, name: string, visited: set<string>, m: string)
    requires name !in visited && Refers(groups, name, m)
    ensures PathTo(groups, visited, name) ==> PathTo(groups, visited + {name}, m)
    ensures Stuck(groups, m, visited + {name}) ==> Stuck(groups, name, visited)
  {
    if PathTo(groups, visited, name) { PathExtends(groups, visited, name, m); }
    if Stuck(groups, m, visited + {name}) { StuckBelow(groups, name, visited, m); }
  }

  lemma Shrinks(keys: set<string>, visited: set<string>, name: string)
    requires name in keys && name !in visited
    ensures |keys - (visited + {name})| < |keys - visited|
  {
    assert keys - visited == (keys - (visited + {name})) + {name};
  }

  /** `validate`: keys are visited in an order the hash map picks; the verdict does not depend on it. */
  method Validate(groups: GroupMap, tagOwners: map<string, seq<string>>) returns (r: Result<(), Error>)
    ensures r.Ok? <==>
            && (forall g :: g in groups ==> "group:" <= g)
            && (forall t :: t in tagOwners ==> "tag:" <= t)
            && Acyclic(groups)
    ensures r.Err? && r.error.InvalidGroupKey? ==> r.error.key in groups && !("group:" <= r.error.key)
    ensures r.Err? && r.error.InvalidTagKey? ==> r.error.key in tagOwners && !("tag:" <= r.error.key)
    ensures r.Err? && !r.error.InvalidGroupKey? ==> forall g :: g in groups ==> "group:" <= g
    ensures r.Err? && !r.error.InvalidGroupKey? && !r.error.InvalidTagKey? ==>
              r.error.CircularGroup? && OnCycle(groups, r.error.name) && forall t :: t in tagOwners ==> "tag:" <= t
  {
    var keys := groups.Keys;
    while keys != {}
      invariant keys <= groups.Keys
      invariant forall g :: g in groups && g !in keys ==> IsGroup(g)
    {
      var g :| g in keys;
      if !IsGroup(g) {
        return Err(InvalidGroupKey(g));
      }
      keys := keys - {g};
    }
    keys := tagOwners.Keys;
    while keys != {}
      invariant keys <= tagOwners.Keys
      invariant forall t :: t in tagOwners && t !in keys ==> IsTag(t)
    {
      var t :| t in keys;
      if !IsTag(t) {
        return Err(InvalidTagKey(t));
      }
      keys := keys - {t};
    }
    StuckIsCycle(groups);
    keys := groups.Keys;
    while keys != {}
      invariant keys <= groups.Keys
      invariant forall g :: g in groups && g !in keys ==> !Stuck(groups, g, {})
    {
      var g :| g in keys;
      var checked, _ := CheckGroupCycle(groups, g, {});
      if checked.Err? {
        return checked;
      }
      keys := keys - {g};
    }
    r := Ok(());
  }

  // ---------- Expansion ----------

  function Append(a: Result<seq<string>, Error>, b: Result<seq<string>, Error>): Result<seq<string>, Error> {
    if a.Err? then a else if b.Err? then b else Ok(a.value + b.value)
  }

  function Expand(groups: GroupMap, name: string, visited: set<string>): Result<seq<string>, Error>
    decreases |groups.Keys - visited|, 0, 0
  {
    if name in visited then Err(CircularGroup(name))
    else if name !in groups then Err(UnknownGroup(name))
    else
      Shrinks(groups.Keys, visited, name);
      ExpandAll(groups, groups[name], visited + {name})
  }

  function ExpandAll(groups: GroupMap, members: seq<string>, visited: set<string>): Result<seq<string>, Error>
    decreases |groups.Keys - visited|, 1, |members|
  {
    if members == [] then Ok([])
    else
      var n := |members| - 1;
      var last := if IsGroup(members[n]) then Expand(groups, members[n], visited) else Ok([members[n]]);
      Append(ExpandAll(groups, members[..n], visited), last)
  }

  function GroupMembers(groups: GroupMap, name: string): Result<seq<string>, Error> { Expand(groups, name, {}) }

  lemma {:induction false} ExpandAllPrefix(groups: GroupMap, members: seq<string>, n: nat, visited: set<string>)
    requires n <= |members| && ExpandAll(groups, members[..n], visited).Err?
    ensures ExpandAll(groups, members, visited) == ExpandAll(groups, members[..n], visited)
    decreases |members| - n
  {
    if n == |members| {
      assert members[..n] == members;
    } else {
      var k := |members| - 1;
      assert members[..k][..n] == members[..n];
      ExpandAllPrefix(groups, members[..k], n, visited);
    }
  }

  /** `resolve_group_inner`: pushes onto `result`, restores the path on success. */
  method ResolveGroupInner(groups: GroupMap, name: string, result: seq<string>, visited: set<string>)
    returns (r: Result<(), Error>, pushed: seq<string>, path: set<string>)
    ensures r.Ok? <==> Expand(groups, name, visited).Ok?
    ensures r.Ok? ==> pushed == result + Expand(groups, name, visited).value && path == visited
    ensures r.Err? ==> r.error == Expand(groups, name, visited).error
    decreases |groups.Keys - visited|
  {
    pushed, path := result, visited;
    if name in path {
      return Err(CircularGroup(name)), pushed, path;
    }
    path := path + {name};
    if name !in groups {
      return Err(UnknownGroup(name)), pushed, path;
    }
    var members := groups[name];
    Shrinks(groups.Keys, visited, name);
    for i := 0 to |members|
      invariant path == visited + {name}
      invariant var e := ExpandAll(groups, members[..i], path); e.Ok? && pushed == result + e.value
    {
      assert members[..i + 1][..i] == members[..i];
      ghost var before := ExpandAll(groups, members[..i], path).value;
      if IsGroup(members[i]) {
        ghost var sub := Expand(groups, members[i], path);
        r, pushed, path := ResolveGroupInner(groups, members[i], pushed, path);
        if r.Err? {
          ExpandAllPrefix(groups, members, i + 1, visited + {name});
          return;
        }
        assert result + before + sub.value == result + (before + sub.value);
      } else {
        assert result + before + [members[i]] == result + (before + [members[i]]);
        pushed := pushed + [members[i]];
      }
    }
    assert members[..|members|] == members;
    path := path - {name};
    r := Ok(());
  }

  method ResolveGroup(groups: GroupMap, name: string) returns (r: Result<seq<string>, Error>)
    ensures r == GroupMembers(groups, name)
    ensures name !in groups ==> r == Err(UnknownGroup(name))
  {
    var done, pushed, _ := ResolveGroupInner(groups, name, [], {});
    assert done.Ok? ==> [] + Expand(groups, name, {}).value == Expand(groups, name, {}).value;
    match done
    case Err(e) => r := Err(e);
    case Ok(_) =>
      r := Ok(pushed);
  }

  /** Some group reachable from `name` is not declared. */
  ghost predicate Dangling(groups: GroupMap, name: string) {
    exists g :: Reaches(groups, name, g) && g !in groups
  }

  /** `m` is a non-group member of some group reachable from `name`. */
  ghost predicate HasMember(groups: GroupMap, name: string, m: string) {
    exists g :: Reaches(groups, name, g) && g in groups && m in groups[g] && !IsGroup(m)
  }

  lemma ReachesSelf(groups: GroupMap, name: string)
    ensures Reaches(groups, name, name)
  {
    assert IsWalk(groups, [name]);
  }

  lemma ReachesStep(groups: GroupMap, name: string, g: string)
    ensures Reaches(groups, name, g) <==> name == g || exists m :: Refers(groups, name, m) && Reaches(groups, m, g)
  {
    if Reaches(groups, name, g) {
      var p :| IsWalk(groups, p) && p[0] == name && p[|p| - 1] == g;
      if |p| > 1 {
        WalkTail(groups, p);
        assert p[1..][|p| - 2] == g;
        assert Reaches(groups, p[1], g);
      }
    }
    if m :| Refers(groups, name, m) && Reaches(groups, m, g) {
      var p :| IsWalk(groups, p) && p[0] == m && p[|p| - 1] == g;
      WalkCons(groups, name, p);
      var q := [name] + p;
      assert q[|q| - 1] == g;
    }
    if name == g { ReachesSelf(groups, name); }
  }

  lemma DanglingStep(groups: GroupMap, name: string)
    ensures Dangling(groups, name) <==> name !in groups || exists m :: Refers(groups, name, m) && Dangling(groups, m)
  {
    if Dangling(groups, name) {
      var g :| Reaches(groups, name, g) && g !in groups;
      ReachesStep(groups, name, g);
    }
    if name !in groups { ReachesSelf(groups, name); }
    if m :| Refers(groups, name, m) && Dangling(groups, m) {
      var g :| Reaches(groups, m, g) && g !in groups;
      ReachesStep(groups, name, g);
    }
  }

  lemma HasMemberStep(groups: GroupMap, name: string, x: string)
    requires name in groups
    ensures HasMember(groups, name, x) <==>
            (x in groups[name] && !IsGroup(x)) || exists m :: Refers(groups, name, m) && HasMember(groups, m, x)
  {
    if HasMember(groups, name, x) {
      var g :| Reaches(groups, name, g) && g in groups && x in groups[g] && !IsGroup(x);
      ReachesStep(groups, name, g);
    }
    if x in groups[name] && !IsGroup(x) { ReachesSelf(groups, name); }
    if m :| Refers(groups, name, m) && HasMember(groups, m, x) {
      var g :| Reaches(groups, m, g) && g in groups && x in groups[g] && !IsGroup(x);
      ReachesStep(groups, name, g);
    }
  }

  /** Expansion on any graph: it succeeds exactly when the search is never stuck and nothing
      reachable is undeclared, and then lists exactly the reachable non-group members. */
  lemma {:induction false} ExpandMeaning(groups: GroupMap, name: string, visited: set<string>)
    ensures Expand(groups, name, visited).Ok? <==> !Stuck(groups, name, visited) && !Dangling(groups, name)
    ensures var e := Expand(groups, name, visited);
            e.Ok? ==> forall x :: x in e.value <==> HasMember(groups, name, x)
    ensures var e := Expand(groups, name, visited); e.Err? && e.error.CircularGroup? ==> Stuck(groups, name, visited)
    ensures var e := Expand(groups, name, visited); e.Err? ==> e.error.CircularGroup? || e.error.UnknownGroup?
    decreases |groups.Keys - visited|, 0, 0
  {
    if name in visited {
      StuckAtOnce(groups, name, visited);
    } else {
      StuckStep(groups, name, visited);
      DanglingStep(groups, name);
      if name in groups {
        Shrinks(groups.Keys, visited, name);
        var members := groups[name];
        ExpandAllMeaning(groups, members, visited + {name});
        forall x { HasMemberStep(groups, name, x); }
      }
    }
  }

  lemma {:induction false} ExpandAllMeaning(groups: GroupMap, members: seq<string>, visited: set<string>)
    ensures ExpandAll(groups, members, visited).Ok? <==>
            forall m :: m in members && IsGroup(m) ==> !Stuck(groups, m, visited) && !Dangling(groups, m)
    ensures var e := ExpandAll(groups, members, visited);
            e.Ok? ==> forall x :: x in e.value <==>
              (x in members && !IsGroup(x)) || exists m :: m in members && IsGroup(m) && HasMember(groups, m, x)
    ensures var e := ExpandAll(groups, members, visited);
            e.Err? && e.error.CircularGroup? ==> exists m :: m in members && IsGroup(m) && Stuck(groups, m, visited)
    ensures var e := ExpandAll(groups, members, visited); e.Err? ==> e.error.CircularGroup? || e.error.UnknownGroup?
    decreases |groups.Keys - visited|, 1, |members|
  {
    if members != [] {
      var n := |members| - 1;
      var front, last := members[..n], members[n];
      assert members == front + [last];
      ExpandAllMeaning(groups, front, visited);
      if IsGroup(last) { ExpandMeaning(groups, last, visited); }
      assert forall m :: m in members <==> m in front || m == last;
    }
  }

  /** On a policy that passed `validate`: never a cycle; success exactly when every group that can
      be reached is declared; the members listed are exactly the reachable non-group members. */
  lemma ResolveOnValidated(groups: GroupMap, name: string)
    requires Acyclic(groups)
    ensures var r := GroupMembers(groups, name);
            && (r.Ok? <==> forall g :: Reaches(groups, name, g) ==> g in groups)
            && (r.Ok? ==> forall x :: x in r.value <==> HasMember(groups, name, x))
            && (r.Err? ==> r.error.UnknownGroup?)
  {
    ExpandMeaning(groups, name, {});
    StuckIsCycle(groups);
    if name !in groups {
      if p :| IsWalk(groups, p) && p[0] == name && Revisits(p, {}) {
        assert |p| > 1;
        WalkTail(groups, p);
      }
    }
  }

  // ---------- Tag ownership at registration ----------

  predicate Owns(groups: GroupMap, identity: string, identityGroups: seq<string>, owner: string) {
    if owner == "*" || owner == identity then true
    else if IsGroup(owner) && owner in identityGroups then true
    else if IsGroup(owner) then
      match GroupMembers(groups, owner) case Ok(ms) => identity in ms case Err(_) => false
    else false
  }

  /** `validate_tags`: None on success, otherwise the first tag refused. */
  function ValidateTags(groups: GroupMap, tagOwners: map<string, seq<string>>, tags: seq<string>,
                        identity: string, identityGroups: seq<string>): Option<string>
  {
    if tags == [] then None
    else if !IsTag(tags[0]) || tags[0] !in tagOwners then Some(tags[0])
    else if !exists o :: o in tagOwners[tags[0]] && Owns(groups, identity, identityGroups, o) then Some(tags[0])
    else ValidateTags(groups, tagOwners, tags[1..], identity, identityGroups)
  }

  /** Ownership in terms of the reference graph alone. */
  ghost predicate MayAssign(groups: GroupMap, tagOwners: map<string, seq<string>>,
                            identity: string, identityGroups: seq<string>, tag: string)
  {
    && IsTag(tag) && tag in tagOwners
    && exists o :: o in tagOwners[tag] &&
         (|| o == "*" || o == identity
          || (IsGroup(o) && o in identityGroups)
          || (IsGroup(o) && !Dangling(groups, o) && HasMember(groups, o, identity)))
  }

  lemma OwnsMeaning(groups: GroupMap, identity: string, identityGroups: seq<string>, o: string)
    requires Acyclic(groups)
    ensures Owns(groups, identity, identityGroups, o) <==>
            (|| o == "*" || o == identity
             || (IsGroup(o) && o in identityGroups)
             || (IsGroup(o) && !Dangling(groups, o) && HasMember(groups, o, identity)))
  {
    ResolveOnValidated(groups, o);
  }

  /** Tags are accepted exactly when each may be assigned; otherwise the first that may not is named. */
  lemma {:induction false} ValidateTagsMeaning(groups: GroupMap, tagOwners: map<string, seq<string>>, tags: seq<string>,
                                               identity: string, identityGroups: seq<string>)
    requires Acyclic(groups)
    ensures var r := ValidateTags(groups, tagOwners, tags, identity, identityGroups);
            match r
            case None => forall t :: t in tags ==> MayAssign(groups, tagOwners, identity, identityGroups, t)
            case Some(bad) => exists k :: 0 <= k < |tags| && tags[k] == bad
                                && !MayAssign(groups, tagOwners, identity, identityGroups, bad)
                                && forall j :: 0 <= j < k ==>
                                   MayAssign(groups, tagOwners, identity, identityGroups, tags[j])
  {
    if tags != [] {
      var t, rest := tags[0], tags[1..];
      if t in tagOwners {
        forall o | o in tagOwners[t] { OwnsMeaning(groups, identity, identityGroups, o); }
      }
      ValidateTagsMeaning(groups, tagOwners, rest, identity, identityGroups);
      var r := ValidateTags(groups, tagOwners, rest, identity, identityGroups);
      if r.Some? {
        var k :| 0 <= k < |rest| && rest[k] == r.value
              && !MayAssign(groups, tagOwners, identity, identityGroups, r.value)
              && forall j :: 0 <= j < k ==> MayAssign(groups, tagOwners, identity, identityGroups, rest[j]);
        assert tags[k + 1] == r.value;
        assert forall j :: 1 <= j < k + 1 ==> tags[j] == rest[j - 1];
      }
    }
  }
}
