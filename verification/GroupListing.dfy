/** The order in which a group's members are listed, and which group a failed expansion names. */
module GroupListing {
  import opened Wrappers
  import opened Groups

  function Concatenated(parts: seq<seq<string>>): seq<string> {
    if parts == [] then [] else parts[0] + Concatenated(parts[1..])
  }

  lemma {:induction false} ConcatenatedSnoc(parts: seq<seq<string>>, last: seq<string>)
    ensures Concatenated(parts + [last]) == Concatenated(parts) + last
  {
    if parts == [] {
      assert [] + [last] == [last] && [last][1..] == [];
    } else {
      assert (parts + [last])[1..] == parts[1..] + [last];
      ConcatenatedSnoc(parts[1..], last);
    }
  }

  // ---------- The path does not matter where the search is not stuck ----------

  lemma {:induction false} PathIrrelevant(groups: GroupMap, name: string, v: set<string>, w: set<string>)
    requires !Stuck(groups, name, v) && !Stuck(groups, name, w)
    ensures Expand(groups, name, v) == Expand(groups, name, w)
    decreases |groups.Keys - v|, 0, 0
  {
    if name in v { StuckAtOnce(groups, name, v); }
    if name in w { StuckAtOnce(groups, name, w); }
    if name in groups {
      Shrinks(groups.Keys, v, name);
      BelowNotStuck(groups, name, v);
      BelowNotStuck(groups, name, w);
      PathIrrelevantAll(groups, groups[name], v + {name}, w + {name});
    }
  }

  lemma {:induction false} PathIrrelevantAll(groups: GroupMap, members: seq<string>, v: set<string>, w: set<string>)
    requires NoneStuck(groups, members, v) && NoneStuck(groups, members, w)
    ensures ExpandAll(groups, members, v) == ExpandAll(groups, members, w)
    decreases |groups.Keys - v|, 1, |members|
  {
    if members != [] {
      var n := |members| - 1;
      assert members[n] in members;
      PathIrrelevantAll(groups, members[..n], v, w);
      if IsGroup(members[n]) { PathIrrelevant(groups, members[n], v, w); }
    }
  }

  lemma BelowNotStuck(groups: GroupMap, name: string, visited: set<string>)
    requires name in groups && !Stuck(groups, name, visited) && name !in visited
    ensures NoneStuck(groups, groups[name], visited + {name})
  {
    StuckStep(groups, name, visited);
    forall m | m in groups[name] && IsGroup(m) ensures !Stuck(groups, m, visited + {name}) {
      assert Refers(groups, name, m);
    }
  }

  /** A shorter path leaves fewer walks stuck. */
  lemma StuckGrows(groups: GroupMap, name: string, v: set<string>)
    requires Stuck(groups, name, {})
    ensures Stuck(groups, name, v)
  {
    var p :| IsWalk(groups, p) && p[0] == name && Revisits(p, {});
    assert Revisits(p, v);
  }

  lemma MemberAlone(groups: GroupMap, name: string, m: string)
    requires name in groups && m in groups[name] && IsGroup(m) && !Stuck(groups, name, {})
    ensures Expand(groups, m, {name}) == GroupMembers(groups, m)
  {
    BelowNotStuck(groups, name, {});
    assert {} + {name} == {name};
    if Stuck(groups, m, {}) { StuckGrows(groups, m, {name}); }
    PathIrrelevant(groups, m, {name}, {});
  }

  // ---------- Order and errors ----------

  /** What member `m` contributes: itself, or the members of the group it names. */
  predicate IsPart(groups: GroupMap, m: string, part: seq<string>) {
    if "group:" <= m then GroupMembers(groups, m) == Ok(part) else part == [m]
  }

  predicate AreParts(groups: GroupMap, members: seq<string>, parts: seq<seq<string>>) {
    |parts| == |members| && forall i :: 0 <= i < |members| ==> IsPart(groups, members[i], parts[i])
  }

  lemma {:induction false} ListedInOrder(groups: GroupMap, name: string, members: seq<string>, parts: seq<seq<string>>)
    requires name in groups && !Stuck(groups, name, {}) && (forall m :: m in members ==> m in groups[name])
    requires AreParts(groups, members, parts)
    ensures ExpandAll(groups, members, {name}) == Ok(Concatenated(parts))
    decreases |members|
  {
    if members != [] {
      var n := |members| - 1;
      var front, last := parts[..n], parts[n];
      ListedInOrder(groups, name, members[..n], front);
      assert members[n] in members && IsPart(groups, members[n], last);
      if IsGroup(members[n]) { MemberAlone(groups, name, members[n]); }
      ConcatenatedSnoc(front, last);
      assert parts == front + [last];
    }
  }

  /** A group's members are those of its entries, one after the other in the order they are written. */
  lemma MembersInOrder(groups: GroupMap, name: string, parts: seq<seq<string>>)
    requires name in groups && !Stuck(groups, name, {}) && AreParts(groups, groups[name], parts)
    ensures GroupMembers(groups, name) == Ok(Concatenated(parts))
  {
    assert {} + {name} == {name};
    ListedInOrder(groups, name, groups[name], parts);
  }

  /** The parts exist exactly when the group can be expanded. */
  lemma PartsExist(groups: GroupMap, name: string) returns (parts: seq<seq<string>>)
    requires GroupMembers(groups, name).Ok?
    ensures name in groups && !Stuck(groups, name, {}) && AreParts(groups, groups[name], parts)
  {
    ExpandMeaning(groups, name, {});
    parts := PartsOf(groups, name, groups[name]);
  }

  lemma {:induction false} PartsOf(groups: GroupMap, name: string, members: seq<string>)
    returns (parts: seq<seq<string>>)
    requires name in groups && !Stuck(groups, name, {}) && (forall m :: m in members ==> m in groups[name])
    requires !Dangling(groups, name)
    ensures AreParts(groups, members, parts)
    decreases |members|
  {
    parts := [];
    if members != [] {
      var n := |members| - 1;
      var m := members[n];
      var front := PartsOf(groups, name, members[..n]);
      assert m in members;
      if IsGroup(m) {
        MemberAlone(groups, name, m);
        BelowNotStuck(groups, name, {});
        DanglingStep(groups, name);
        assert Refers(groups, name, m);
        ExpandMeaning(groups, m, {name});
        assert {} + {name} == {name};
        parts := front + [GroupMembers(groups, m).value];
      } else {
        parts := front + [[m]];
      }
    }
  }

  /** An undeclared group is named by itself, and otherwise by the first entry that fails. */
  lemma FirstFailure(groups: GroupMap, name: string, i: nat)
    requires name in groups && !Stuck(groups, name, {}) && i < |groups[name]| && IsGroup(groups[name][i])
    requires GroupMembers(groups, groups[name][i]).Err?
    requires forall j :: 0 <= j < i && IsGroup(groups[name][j]) ==> GroupMembers(groups, groups[name][j]).Ok?
    ensures GroupMembers(groups, name) == GroupMembers(groups, groups[name][i])
  {
    var members := groups[name];
    var parts := seq(i, j requires 0 <= j < i =>
      if IsGroup(members[j]) then GroupMembers(groups, members[j]).value else [members[j]]);
    assert AreParts(groups, members[..i], parts);
    ListedInOrder(groups, name, members[..i], parts);
    MemberAlone(groups, name, members[i]);
    assert members[..i + 1][..i] == members[..i];
    assert {} + {name} == {name};
    ExpandAllPrefix(groups, members, i + 1, {name});
  }

  /** A reported group is one the name leads to: undeclared, or on a cycle. */
  lemma {:induction false} ReportedGroup(groups: GroupMap, name: string, visited: set<string>)
    requires PathTo(groups, visited, name)
    ensures var e := Expand(groups, name, visited);
            e.Err? ==> e.error.UnknownGroup? || e.error.CircularGroup?
    ensures var e := Expand(groups, name, visited);
            e.Err? && e.error.UnknownGroup? ==> Reaches(groups, name, e.error.name) && e.error.name !in groups
    ensures var e := Expand(groups, name, visited);
            e.Err? && e.error.CircularGroup? ==> Reaches(groups, name, e.error.name) && OnCycle(groups, e.error.name)
    decreases |groups.Keys - visited|, 0, 0
  {
    ReachesSelf(groups, name);
    if name !in visited && name in groups {
      Shrinks(groups.Keys, visited, name);
      ReportedBelow(groups, name, groups[name], visited);
    }
  }

  lemma {:induction false} ReportedBelow(groups: GroupMap, name: string, members: seq<string>, visited: set<string>)
    requires PathTo(groups, visited, name) && name in groups && name !in visited
    requires forall m :: m in members ==> m in groups[name]
    ensures var e := ExpandAll(groups, members, visited + {name});
            e.Err? ==> e.error.UnknownGroup? || e.error.CircularGroup?
    ensures var e := ExpandAll(groups, members, visited + {name});
            e.Err? && e.error.UnknownGroup? ==> Reaches(groups, name, e.error.name) && e.error.name !in groups
    ensures var e := ExpandAll(groups, members, visited + {name});
            e.Err? && e.error.CircularGroup? ==> Reaches(groups, name, e.error.name) && OnCycle(groups, e.error.name)
    decreases |groups.Keys - (visited + {name})|, 1, |members|
  {
    if members != [] {
      var n := |members| - 1;
      var m := members[n];
      assert m in members;
      ReportedBelow(groups, name, members[..n], visited);
      if IsGroup(m) {
        PathExtends(groups, visited, name, m);
        ReportedGroup(groups, m, visited + {name});
        var e := Expand(groups, m, visited + {name});
        if e.Err? { ReachesStep(groups, name, e.error.name); }
      }
    }
  }
}
