/** Where each declaration of a composed baseline comes from, by positions in the states merged. */
module BaselineOrder {
  import opened Wrappers
  import opened Baselines

  /** Of one kind and about one thing. */
  predicate SameThing(a: Declaration, b: Declaration) { SameKind(a, b) && Identity(a) == Identity(b) }

  predicate IsFirst(ds: seq<Declaration>, i: nat)
    requires i < |ds|
  {
    forall j :: 0 <= j < i ==> !SameThing(ds[j], ds[i])
  }

  /** Position `p` holds the last declaration about the thing at position `i`. */
  predicate IsLast(ds: seq<Declaration>, i: nat, p: nat)
    requires i < |ds|
  {
    p < |ds| && SameThing(ds[p], ds[i]) && forall q :: p < q < |ds| ==> !SameThing(ds[q], ds[i])
  }

  predicate Increasing(at: seq<nat>) { forall j, k :: 0 <= j < k < |at| ==> at[j] < at[k] }

  /** Things stand in order of first appearance, at the positions `firsts`, each with the last
      declaration about it. */
  ghost predicate MergesAt(ds: seq<Declaration>, merged: seq<Declaration>, firsts: seq<nat>) {
    && |merged| == |firsts| && Increasing(firsts)
    && (forall i: nat :: i in firsts <==> i < |ds| && IsFirst(ds, i))
    && forall k :: 0 <= k < |firsts| ==> firsts[k] < |ds|
                                         && exists p: nat :: IsLast(ds, firsts[k], p) && merged[k] == ds[p]
  }

  // ---------- Keys by position ----------

  predicate FirstOfKey(ds: seq<Declaration>, i: nat)
    requires i < |ds|
  {
    forall j :: 0 <= j < i ==> KeyOf(ds[j]) != KeyOf(ds[i])
  }

  lemma FirstEither(ds: seq<Declaration>, i: nat)
    requires i < |ds|
    ensures FirstOfKey(ds, i) <==> IsFirst(ds, i)
  {
    forall j | 0 <= j < i { SameKeyIff(ds[j], ds[i]); }
  }

  lemma {:induction false} WinnersAt(ds: seq<Declaration>, k: Key) returns (p: nat)
    ensures k in Winners(ds) <==> exists i :: 0 <= i < |ds| && KeyOf(ds[i]) == k
    ensures k in Winners(ds) ==> p < |ds| && KeyOf(ds[p]) == k && Winners(ds)[k] == ds[p]
    ensures k in Winners(ds) ==> forall q :: p < q < |ds| ==> KeyOf(ds[q]) != k
  {
    p := 0;
    if ds != [] {
      var n := |ds| - 1;
      p := WinnersAt(ds[..n], k);
      if KeyOf(ds[n]) == k {
        p := n;
      } else if k in Winners(ds) {
        assert KeyOf(ds[..n][p]) == KeyOf(ds[p]);
      }
      if i :| 0 <= i < |ds| && KeyOf(ds[i]) == k && i < n { assert KeyOf(ds[..n][i]) == k; }
    }
  }

  /** The positions below `n` where a key appears first. */
  function Firsts(ds: seq<Declaration>, n: nat): seq<nat>
    requires n <= |ds|
  {
    if n == 0 then [] else Firsts(ds, n - 1) + if FirstOfKey(ds, n - 1) then [n - 1] else []
  }

  lemma {:induction false} FirstsMeaning(ds: seq<Declaration>, n: nat)
    requires n <= |ds|
    ensures Increasing(Firsts(ds, n)) && forall i: nat :: i in Firsts(ds, n) <==> i < n && FirstOfKey(ds, i)
  {
    if n > 0 {
      FirstsMeaning(ds, n - 1);
      var before := Firsts(ds, n - 1);
      forall k | 0 <= k < |before| ensures before[k] < n - 1 { assert before[k] in before; }
    }
  }

  lemma SeenIff(ds: seq<Declaration>, n: nat)
    requires n < |ds|
    ensures KeyOf(ds[n]) in Winners(ds[..n]) <==> !FirstOfKey(ds, n)
  {
    var _ := WinnersAt(ds[..n], KeyOf(ds[n]));
    assert forall j :: 0 <= j < n ==> ds[..n][j] == ds[j];
  }

  /** The collected order lists the keys at those positions. */
  lemma {:induction false} OrderAt(ds: seq<Declaration>, n: nat)
    requires n <= |ds|
    ensures |Order(ds[..n])| == |Firsts(ds, n)|
    ensures forall k :: 0 <= k < |Firsts(ds, n)| ==> Firsts(ds, n)[k] < n
    ensures forall k :: 0 <= k < |Firsts(ds, n)| ==> KeyOf(ds[Firsts(ds, n)[k]]) == Order(ds[..n])[k]
  {
    if n > 0 {
      OrderAt(ds, n - 1);
      SeenIff(ds, n - 1);
      assert ds[..n][..n - 1] == ds[..n - 1];
    }
  }

  /** Merging, by positions. */
  lemma MergedAt(ds: seq<Declaration>) returns (firsts: seq<nat>)
    ensures MergesAt(ds, MergedState(ds), firsts)
  {
    firsts := Firsts(ds, |ds|);
    FirstsMeaning(ds, |ds|);
    OrderAt(ds, |ds|);
    assert ds[..|ds|] == ds;
    var merged := MergedState(ds);
    forall i: nat | i < |ds| ensures FirstOfKey(ds, i) <==> IsFirst(ds, i) { FirstEither(ds, i); }
    forall k | 0 <= k < |firsts| ensures exists p: nat :: IsLast(ds, firsts[k], p) && merged[k] == ds[p] {
      var p := WinnersAt(ds, Order(ds)[k]);
      LastEither(ds, firsts[k], p);
    }
  }

  lemma LastEither(ds: seq<Declaration>, i: nat, p: nat)
    requires i < |ds| && p < |ds| && KeyOf(ds[p]) == KeyOf(ds[i])
    requires forall q :: p < q < |ds| ==> KeyOf(ds[q]) != KeyOf(ds[i])
    ensures IsLast(ds, i, p)
  {
    forall q | 0 <= q < |ds| { SameKeyIff(ds[q], ds[i]); }
  }

  // ---------- Along the chain ----------

  /** Every declaration along the chain: nearest ancestor first, the baseline's own last. */
  function Chained(b: Baseline, ancestors: seq<Baseline>): seq<Declaration> {
    if ancestors == [] then b.state else ancestors[0].state + Chained(b, ancestors[1..])
  }

  /** The keys of `ks` not in `seen`. */
  function Unseen(ks: seq<Key>, seen: set<Key>): seq<Key> {
    if ks == [] then []
    else
      var n := |ks| - 1;
      Unseen(ks[..n], seen) + if ks[n] in seen then [] else [ks[n]]
  }

  lemma {:induction false} OrderConcat(a: seq<Declaration>, b: seq<Declaration>)
    ensures Order(a + b) == Order(a) + Unseen(Order(b), Winners(a).Keys)
  {
    if b == [] {
      assert a + b == a;
    } else {
      var front, k := b[..|b| - 1], KeyOf(b[|b| - 1]);
      assert (a + b)[..|a + b| - 1] == a + front;
      OrderConcat(a, front);
      WinnersConcat(a, front);
      if k !in Winners(front) { assert (Order(front) + [k])[..|Order(front)|] == Order(front); }
    }
  }

  lemma {:induction false} OrderOfDistinct(ds: seq<Declaration>)
    requires OncePerKey(ds)
    ensures |Order(ds)| == |ds| && forall i :: 0 <= i < |ds| ==> Order(ds)[i] == KeyOf(ds[i])
  {
    if ds != [] {
      var n := |ds| - 1;
      OrderOfDistinct(ds[..n]);
      var _ := WinnersAt(ds[..n], KeyOf(ds[n]));
    }
  }

  lemma OrderOfMerged(ds: seq<Declaration>)
    ensures Order(MergedState(ds)) == Order(ds)
  {
    var merged := MergedState(ds);
    MergeKeepsWinners(ds);
    OrderOfDistinct(merged);
    OrderMeaning(ds);
    WinnersKeyed(ds);
    forall i | 0 <= i < |merged| ensures KeyOf(merged[i]) == Order(ds)[i] { assert Order(ds)[i] in Order(ds); }
  }

  lemma SameMerge(a: seq<Declaration>, b: seq<Declaration>)
    requires Order(a) == Order(b) && Winners(a) == Winners(b)
    ensures MergedState(a) == MergedState(b)
  {
  }

  /** A tail that was merged already may as well not have been. */
  lemma MergeTwice(a: seq<Declaration>, b: seq<Declaration>)
    ensures MergedState(a + MergedState(b)) == MergedState(a + b)
  {
    OrderConcat(a, MergedState(b));
    OrderConcat(a, b);
    OrderOfMerged(b);
    MergeKeepsWinners(b);
    WinnersConcat(a, MergedState(b));
    WinnersConcat(a, b);
    SameMerge(a + MergedState(b), a + b);
  }

  lemma {:induction false} FoldMerges(b: Baseline, ancestors: seq<Baseline>)
    requires ancestors != []
    ensures Fold(b, ancestors).state == MergedState(Chained(b, ancestors))
  {
    var rest := ancestors[1..];
    if rest != [] {
      FoldMerges(b, rest);
      MergeTwice(ancestors[0].state, Chained(b, rest));
    }
  }

  /** A composed baseline keeps its own name, parent and mode; its declarations stand in order of first
      appearance along the chain, each the last one about its thing. */
  lemma {:induction false} FoldAt(b: Baseline, ancestors: seq<Baseline>) returns (firsts: seq<nat>)
    ensures var r := Fold(b, ancestors); r.name == b.name && r.inherits == b.inherits && r.mode == b.mode
    ensures ancestors == [] ==> Fold(b, ancestors) == b
    ensures ancestors != [] ==> MergesAt(Chained(b, ancestors), Fold(b, ancestors).state, firsts)
  {
    if ancestors == [] {
      firsts := [];
    } else {
      var _ := FoldAt(b, ancestors[1..]);
      FoldMerges(b, ancestors);
      firsts := MergedAt(Chained(b, ancestors));
    }
  }
}
