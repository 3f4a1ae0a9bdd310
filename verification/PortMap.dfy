/** Compiling ACL rules into port ranges per pair of nodes: candidate ranges are merged into spans
    and the evaluator is probed at each span's two ends. */
module PortMap {
  import opened Wrappers
  import opened AclEval

  // ---------- Merging ranges ----------

  predicate Covers(rs: seq<PortRange>, p: Port) { exists r :: r in rs && r.Contains(p) }

  /** Lexicographic order on pairs. */
  predicate LessEq(a: PortRange, b: PortRange) { a.start < b.start || (a.start == b.start && a.end <= b.end) }

  function InsertRange(r: PortRange, rs: seq<PortRange>): seq<PortRange> {
    if rs == [] || LessEq(r, rs[0]) then [r] + rs else [rs[0]] + InsertRange(r, rs[1..])
  }

  function SortRanges(rs: seq<PortRange>): seq<PortRange> {
    if rs == [] then [] else InsertRange(rs[0], SortRanges(rs[1..]))
  }

  predicate Ordered(rs: seq<PortRange>) { forall i, j :: 0 <= i < j < |rs| ==> LessEq(rs[i], rs[j]) }

  lemma ConsOrdered(r: PortRange, rs: seq<PortRange>)
    requires Ordered(rs) && forall x :: x in rs ==> LessEq(r, x)
    ensures Ordered([r] + rs)
  {
  }

  lemma {:induction false} InsertRangeKeeps(r: PortRange, rs: seq<PortRange>)
    requires Ordered(rs)
    ensures Ordered(InsertRange(r, rs)) && forall x :: x in InsertRange(r, rs) <==> x == r || x in rs
  {
    if rs == [] || LessEq(r, rs[0]) {
      ConsOrdered(r, rs);
    } else {
      InsertRangeKeeps(r, rs[1..]);
      assert forall x :: x in rs <==> x == rs[0] || x in rs[1..];
      ConsOrdered(rs[0], InsertRange(r, rs[1..]));
    }
  }

  lemma {:induction false} SortRangesKeeps(rs: seq<PortRange>)
    ensures Ordered(SortRanges(rs)) && forall x :: x in SortRanges(rs) <==> x in rs
  {
    if rs != [] {
      SortRangesKeeps(rs[1..]);
      InsertRangeKeeps(rs[0], SortRanges(rs[1..]));
      assert forall x :: x in rs <==> x == rs[0] || x in rs[1..];
    }
  }

  function SaturatingNext(p: Port): Port { if p == 65535 then p else p + 1 }

  /** One turn of the merge loop: extend the last span in place, or open a new one. */
  function AddRange(spans: seq<PortRange>, r: PortRange): seq<PortRange> {
    if spans != [] && r.start <= SaturatingNext(spans[|spans| - 1].end) then
      var k := |spans| - 1;
      if r.end > spans[k].end then spans[k := PortRange(spans[k].start, r.end)] else spans
    else spans + [r]
  }

  function MergeSorted(rs: seq<PortRange>): seq<PortRange> {
    if rs == [] then [] else AddRange(MergeSorted(rs[..|rs| - 1]), rs[|rs| - 1])
  }

  function Merged(rs: seq<PortRange>): seq<PortRange> { MergeSorted(SortRanges(rs)) }

  /** `merge_ranges`: sort, then one pass that edits the last element. */
  method MergeRanges(ranges: seq<PortRange>) returns (merged: seq<PortRange>)
    ensures merged == Merged(ranges)
  {
    if ranges == [] {
      return ranges;
    }
    var sorted := SortRanges(ranges);
    merged := [];
    for i := 0 to |sorted|
      invariant merged == MergeSorted(sorted[..i])
    {
      assert sorted[..i + 1][..i] == sorted[..i];
      var r := sorted[i];
      var k := |merged| - 1;
      if merged != [] && r.start <= SaturatingNext(merged[k].end) {
        if r.end > merged[k].end {
          merged := merged[k := PortRange(merged[k].start, r.end)];
        }
        continue;
      }
      merged := merged + [r];
    }
    assert sorted[..|sorted|] == sorted;
  }

  lemma CoversSnoc(rs: seq<PortRange>, r: PortRange, p: Port)
    ensures Covers(rs + [r], p) <==> Covers(rs, p) || r.Contains(p)
  {
    if Covers(rs, p) {
      var x :| x in rs && x.Contains(p);
      assert x in rs + [r];
    }
    assert r in rs + [r];
  }

  predicate FromStart(rs: seq<PortRange>, p: Port) { exists r :: r in rs && r.start == p }

  predicate FromEnd(rs: seq<PortRange>, p: Port) { exists r :: r in rs && r.end == p }

  /** Span ends are ends of ranges that went in. */
  ghost predicate EndsFrom(spans: seq<PortRange>, rs: seq<PortRange>) {
    forall s :: s in spans ==> FromStart(rs, s.start) && FromEnd(rs, s.end)
  }

  lemma EndsFromMore(spans: seq<PortRange>, rs: seq<PortRange>, r: PortRange)
    requires EndsFrom(spans, rs)
    ensures EndsFrom(spans, rs + [r]) && FromStart(rs + [r], r.start) && FromEnd(rs + [r], r.end)
  {
    assert r in rs + [r];
    forall s | s in spans ensures FromStart(rs + [r], s.start) && FromEnd(rs + [r], s.end) {
      var a :| a in rs && a.start == s.start;
      var b :| b in rs && b.end == s.end;
      assert a in rs + [r] && b in rs + [r];
    }
  }

  lemma AddRangeCovers(spans: seq<PortRange>, r: PortRange, p: Port)
    requires spans != [] ==> spans[|spans| - 1].start <= r.start
    ensures Covers(AddRange(spans, r), p) <==> Covers(spans, p) || r.Contains(p)
  {
    CoversSnoc(spans, r, p);
    if spans != [] {
      var k := |spans| - 1;
      var front, last := spans[..k], spans[k];
      assert spans == front + [last];
      CoversSnoc(front, last, p);
      if r.start <= SaturatingNext(last.end) && r.end > last.end {
        CoversSnoc(front, PortRange(last.start, r.end), p);
        assert AddRange(spans, r) == front + [PortRange(last.start, r.end)];
      }
    }
  }

  /** Merging invents no end points. */
  lemma {:induction false} MergeSortedEnds(rs: seq<PortRange>)
    ensures EndsFrom(MergeSorted(rs), rs)
  {
    if rs != [] {
      var front, r := rs[..|rs| - 1], rs[|rs| - 1];
      assert rs == front + [r];
      MergeSortedEnds(front);
      EndsFromMore(MergeSorted(front), front, r);
      AddRangeEnds(MergeSorted(front), r, rs);
    }
  }

  lemma AddRangeEnds(spans: seq<PortRange>, r: PortRange, rs: seq<PortRange>)
    requires EndsFrom(spans, rs) && FromStart(rs, r.start) && FromEnd(rs, r.end)
    ensures EndsFrom(AddRange(spans, r), rs)
  {
    if spans != [] { assert spans[|spans| - 1] in spans; }
  }

  lemma LastStartsBefore(rs: seq<PortRange>)
    requires Ordered(rs) && rs != [] && MergeSorted(rs[..|rs| - 1]) != []
    ensures var spans := MergeSorted(rs[..|rs| - 1]); spans[|spans| - 1].start <= rs[|rs| - 1].start
  {
    var front := rs[..|rs| - 1];
    var spans := MergeSorted(front);
    MergeSortedEnds(front);
    assert spans[|spans| - 1] in spans;
    var x :| x in front && x.start == spans[|spans| - 1].start;
    assert LessEq(x, rs[|rs| - 1]);
  }

  /** Merging preserves the port set, also when ranges are reversed. */
  lemma {:induction false} MergeSortedKeeps(rs: seq<PortRange>, p: Port)
    requires Ordered(rs)
    ensures Covers(MergeSorted(rs), p) <==> Covers(rs, p)
  {
    if rs != [] {
      var front, r := rs[..|rs| - 1], rs[|rs| - 1];
      assert rs == front + [r];
      MergeSortedKeeps(front, p);
      CoversSnoc(front, r, p);
      if MergeSorted(front) != [] { LastStartsBefore(rs); }
      AddRangeCovers(MergeSorted(front), r, p);
    }
  }

  lemma MergedKeeps(rs: seq<PortRange>, p: Port)
    ensures Covers(Merged(rs), p) <==> Covers(rs, p)
    ensures EndsFrom(Merged(rs), rs)
  {
    SortRangesKeeps(rs);
    MergeSortedKeeps(SortRanges(rs), p);
    MergeSortedEnds(SortRanges(rs));
    forall s | s in Merged(rs) ensures FromStart(rs, s.start) && FromEnd(rs, s.end) {
      SameElements(SortRanges(rs), rs, s.start);
      SameElements(SortRanges(rs), rs, s.end);
    }
    SameElements(SortRanges(rs), rs, p);
  }

  predicate WellFormed(rs: seq<PortRange>) { forall r :: r in rs ==> r.start <= r.end }

  /** Spans in order, with at least one port free between neighbours. */
  predicate Gapped(spans: seq<PortRange>) {
    forall i, j :: 0 <= i < j < |spans| ==> spans[i].end + 1 < spans[j].start
  }

  lemma {:induction false} MergeSortedGapped(rs: seq<PortRange>)
    requires Ordered(rs)
    ensures Gapped(MergeSorted(rs))
    ensures WellFormed(rs) ==> WellFormed(MergeSorted(rs))
  {
    if rs != [] {
      var front, r := rs[..|rs| - 1], rs[|rs| - 1];
      assert rs == front + [r];
      MergeSortedGapped(front);
      if MergeSorted(front) != [] { LastStartsBefore(rs); }
      AddRangeGapped(MergeSorted(front), r);
    }
  }

  lemma AddRangeGapped(spans: seq<PortRange>, r: PortRange)
    requires Gapped(spans) && (spans != [] ==> spans[|spans| - 1].start <= r.start)
    ensures Gapped(AddRange(spans, r))
    ensures WellFormed(spans) && r.start <= r.end ==> WellFormed(AddRange(spans, r))
  {
    if spans != [] { assert spans[|spans| - 1] in spans; }
  }

  /** Merged spans leave gaps between them for any input, and none is reversed unless one came in. */
  lemma MergedGapped(rs: seq<PortRange>)
    ensures Gapped(Merged(rs))
    ensures WellFormed(rs) ==> WellFormed(Merged(rs))
  {
    SortRangesKeeps(rs);
    MergeSortedGapped(SortRanges(rs));
  }

  function Dedup(rs: seq<PortRange>): seq<PortRange> {
    if |rs| < 2 then rs
    else if rs[|rs| - 1] == rs[|rs| - 2] then Dedup(rs[..|rs| - 1])
    else Dedup(rs[..|rs| - 1]) + [rs[|rs| - 1]]
  }

  lemma {:induction false} DedupKeeps(rs: seq<PortRange>)
    ensures forall r :: r in Dedup(rs) <==> r in rs
  {
    if |rs| >= 2 {
      var k := |rs| - 1;
      DedupKeeps(rs[..k]);
      assert rs == rs[..k] + [rs[k]];
      assert rs[k - 1] in rs[..k];
    }
  }

  /** Sort, dedup, merge: the three calls made on candidates and on results. */
  function Normalized(rs: seq<PortRange>): seq<PortRange> { Merged(Dedup(SortRanges(rs))) }

  lemma SameElements(a: seq<PortRange>, b: seq<PortRange>, p: Port)
    requires forall r :: r in a <==> r in b
    ensures Covers(a, p) <==> Covers(b, p)
    ensures FromStart(a, p) <==> FromStart(b, p)
    ensures FromEnd(a, p) <==> FromEnd(b, p)
  {
  }

  lemma NormalizedKeeps(rs: seq<PortRange>, p: Port)
    ensures Covers(Normalized(rs), p) <==> Covers(rs, p)
    ensures EndsFrom(Normalized(rs), rs)
    ensures Gapped(Normalized(rs)) && (WellFormed(rs) ==> WellFormed(Normalized(rs)))
    ensures rs != [] ==> Normalized(rs) != []
  {
    var d := Dedup(SortRanges(rs));
    SortRangesKeeps(rs);
    DedupKeeps(SortRanges(rs));
    SameElements(d, rs, p);
    MergedKeeps(d, p);
    forall s | s in Normalized(rs) ensures FromStart(rs, s.start) && FromEnd(rs, s.end) {
      SameElements(d, rs, s.start);
      SameElements(d, rs, s.end);
    }
    MergedGapped(d);
    if rs != [] {
      assert rs[0] in d;
      SortRangesKeeps(d);
      assert rs[0] in SortRanges(d);
      MergeNonEmpty(SortRanges(d));
    }
  }

  lemma {:induction false} MergeNonEmpty(rs: seq<PortRange>)
    requires rs != []
    ensures MergeSorted(rs) != []
  {
    if |rs| > 1 { MergeNonEmpty(rs[..|rs| - 1]); }
  }

  // ---------- From rules to allowed ports ----------

  const ALL_PORTS := PortRange(0, 65535)

  function DstRanges(d: Option<DstTarget>): seq<PortRange> {
    if d.None? then [] else if d.value.ports.AnyPort? then [ALL_PORTS] else d.value.ports.ranges
  }

  function RuleRanges(ds: seq<Option<DstTarget>>): seq<PortRange> {
    if ds == [] then [] else RuleRanges(ds[..|ds| - 1]) + DstRanges(ds[|ds| - 1])
  }

  /** The port ranges written in any rule's destinations. */
  function Candidates(rules: seq<Rule>): seq<PortRange> {
    if rules == [] then [] else Candidates(rules[..|rules| - 1]) + RuleRanges(rules[|rules| - 1].dst)
  }

  predicate Allows(p: Policy, ctx: Context, port: Port) { Evaluate(p, ctx.(dstPort := port)).allowed }

  function ProbeSpan(p: Policy, ctx: Context, s: PortRange): seq<PortRange> {
    var startOk, endOk := Allows(p, ctx, s.start), Allows(p, ctx, s.end);
    if startOk && endOk then [s]
    else if startOk then [PortRange(s.start, s.start)]
    else if endOk then [PortRange(s.end, s.end)]
    else []
  }

  function ProbeAll(p: Policy, ctx: Context, spans: seq<PortRange>): seq<PortRange> {
    if spans == [] then [] else ProbeAll(p, ctx, spans[..|spans| - 1]) + ProbeSpan(p, ctx, spans[|spans| - 1])
  }

  function Spans(p: Policy): seq<PortRange> { Normalized(Candidates(p.acls)) }

  predicate FastPath(p: Policy, ctx: Context) { Allows(p, ctx, 0) && Allows(p, ctx, 65535) }

  function AllowedPorts(p: Policy, ctx: Context): seq<PortRange> {
    if FastPath(p, ctx) then [ALL_PORTS] else Normalized(ProbeAll(p, ctx, Spans(p)))
  }

  /** `allowed_ports` once both addresses are parsed: collect, merge, probe, merge. */
  method ComputeAllowedPorts(p: Policy, ctx: Context) returns (ports: seq<PortRange>)
    ensures ports == AllowedPorts(p, ctx)
  {
    if Evaluate(p, ctx.(dstPort := 0)).allowed {
      if Evaluate(p, ctx.(dstPort := 65535)).allowed {
        return [ALL_PORTS];
      }
    }
    var candidates := CollectCandidates(p.acls);
    var spans := MergeRanges(Dedup(SortRanges(candidates)));
    var allowed := ProbeSpans(p, ctx, spans);
    ports := MergeRanges(Dedup(SortRanges(allowed)));
  }

  lemma Assoc(a: seq<PortRange>, b: seq<PortRange>, c: seq<PortRange>)
    ensures (a + b) + c == a + (b + c)
  {
  }

  method CollectCandidates(rules: seq<Rule>) returns (candidates: seq<PortRange>)
    ensures candidates == Candidates(rules)
  {
    candidates := [];
    for i := 0 to |rules|
      invariant candidates == Candidates(rules[..i])
    {
      assert rules[..i + 1][..i] == rules[..i];
      var dst := rules[i].dst;
      ghost var before := candidates;
      for j := 0 to |dst|
        invariant candidates == before + RuleRanges(dst[..j])
      {
        assert dst[..j + 1][..j] == dst[..j];
        Assoc(before, RuleRanges(dst[..j]), DstRanges(dst[j]));
        candidates := candidates + DstRanges(dst[j]);
      }
      assert dst[..|dst|] == dst;
    }
    assert rules[..|rules|] == rules;
  }

  method ProbeSpans(p: Policy, ctx: Context, spans: seq<PortRange>) returns (allowed: seq<PortRange>)
    ensures allowed == ProbeAll(p, ctx, spans)
  {
    allowed := [];
    for i := 0 to |spans|
      invariant allowed == ProbeAll(p, ctx, spans[..i])
    {
      assert spans[..i + 1][..i] == spans[..i];
      var start, end := spans[i].start, spans[i].end;
      var startOk := Evaluate(p, ctx.(dstPort := start)).allowed;
      var endOk := if start == end then startOk else Evaluate(p, ctx.(dstPort := end)).allowed;
      if startOk && endOk {
        allowed := allowed + [PortRange(start, end)];
      } else if startOk {
        allowed := allowed + [PortRange(start, start)];
      } else if endOk {
        allowed := allowed + [PortRange(end, end)];
      }
    }
    assert spans[..|spans|] == spans;
  }

  // ---------- Relation to the evaluator ----------

  lemma {:induction false} ProbeAllMembers(p: Policy, ctx: Context, spans: seq<PortRange>)
    ensures forall r :: r in ProbeAll(p, ctx, spans) <==> exists s :: s in spans && r in ProbeSpan(p, ctx, s)
  {
    if spans != [] {
      var k := |spans| - 1;
      ProbeAllMembers(p, ctx, spans[..k]);
      assert forall s :: s in spans <==> s in spans[..k] || s == spans[k];
    }
  }

  /** Every end of every returned range is a port the evaluator allows. */
  lemma EndpointsAllowed(p: Policy, ctx: Context, r: PortRange)
    requires r in AllowedPorts(p, ctx)
    ensures Allows(p, ctx, r.start) && Allows(p, ctx, r.end)
  {
    if !FastPath(p, ctx) {
      var probed := ProbeAll(p, ctx, Spans(p));
      NormalizedKeeps(probed, 0);
      ProbedEnds(p, ctx, Spans(p), r.start, r.end);
    }
  }

  lemma ProbedEnds(p: Policy, ctx: Context, spans: seq<PortRange>, start: Port, end: Port)
    requires FromStart(ProbeAll(p, ctx, spans), start) && FromEnd(ProbeAll(p, ctx, spans), end)
    ensures Allows(p, ctx, start) && Allows(p, ctx, end)
  {
    ProbeAllMembers(p, ctx, spans);
    var a :| a in ProbeAll(p, ctx, spans) && a.start == start;
    var s :| s in spans && a in ProbeSpan(p, ctx, s);
    ProbedSpan(p, ctx, s, a);
    var b :| b in ProbeAll(p, ctx, spans) && b.end == end;
    var t :| t in spans && b in ProbeSpan(p, ctx, t);
    ProbedSpan(p, ctx, t, b);
  }

  lemma ProbedSpan(p: Policy, ctx: Context, s: PortRange, r: PortRange)
    requires r in ProbeSpan(p, ctx, s)
    ensures Allows(p, ctx, r.start) && Allows(p, ctx, r.end)
  {
  }

  lemma {:induction false} DstListed(ds: seq<Option<DstTarget>>, k: nat)
    requires k < |ds|
    ensures forall r :: r in DstRanges(ds[k]) ==> r in RuleRanges(ds)
  {
    var n := |ds| - 1;
    if k < n { DstListed(ds[..n], k); }
  }

  lemma {:induction false} RuleListed(rules: seq<Rule>, i: nat)
    requires i < |rules|
    ensures forall r :: r in RuleRanges(rules[i].dst) ==> r in Candidates(rules)
  {
    var n := |rules| - 1;
    if i < n { RuleListed(rules[..n], i); }
  }

  /** A port set holds a port exactly when one of its candidate ranges does. */
  lemma PortsByRanges(d: DstTarget, p: Port)
    ensures d.ports.Contains(p) <==> Covers(DstRanges(Some(d)), p)
  {
    assert ALL_PORTS.Contains(p) && ALL_PORTS in [ALL_PORTS];
  }

  lemma {:induction false} MatchHasDestination(p: Policy, resolver: Resolver, ds: seq<Option<DstTarget>>, ctx: Context)
    requires DstOutcome(p, resolver, ds, ctx) == Match
    ensures exists k :: 0 <= k < |ds| && ds[k].Some? && ds[k].value.ports.Contains(ctx.dstPort)
  {
    if ds[0].Some? && MatchesDestination(p, resolver, ds[0].value, ctx) == Ok(true) {
    } else {
      MatchHasDestination(p, resolver, ds[1..], ctx);
      var k :| 0 <= k < |ds[1..]| && ds[1..][k].Some? && ds[1..][k].value.ports.Contains(ctx.dstPort);
      assert ds[k + 1] == ds[1..][k];
    }
  }

  /** Every allowed port lies in one of the merged candidate spans. */
  lemma AllowedInSpans(p: Policy, ctx: Context, port: Port)
    requires Allows(p, ctx, port)
    ensures Covers(Spans(p), port)
  {
    var c := ctx.(dstPort := port);
    AllowedIff(p, c);
    var i: nat :| Decides(p, None, c, i) && RuleOutcome(p, None, p.acls[i], c) == Match;
    MatchHasDestination(p, None, p.acls[i].dst, c);
    var k :| 0 <= k < |p.acls[i].dst| && p.acls[i].dst[k].Some? && p.acls[i].dst[k].value.ports.Contains(port);
    PortsByRanges(p.acls[i].dst[k].value, port);
    DstListed(p.acls[i].dst, k);
    RuleListed(p.acls, i);
    NormalizedKeeps(Candidates(p.acls), port);
  }
}
