/** The hash-chained audit log. A Rust string is its UTF-8 bytes; timestamps and JSON details are
    represented by the text that is hashed. SHA-256 is a parameter. */
module AuditChain {
  import opened Wrappers
  import opened Bytes

  const U64: nat := 0x1_0000_0000_0000_0000

  type u64 = n: nat | n < 0x1_0000_0000_0000_0000

  /** A string of a length Rust can allocate. */
  type Text = s: Bytes | |s| < 0x8000_0000_0000_0000 witness []

  type Digest = Bytes -> Text

  datatype Severity = Info | Warning | Critical

  datatype AuditEntry = AuditEntry(id: Text, seqNo: u64, timestamp: Text, prevHash: Text, hash: Text, actor: Text,
                                   action: Text, resource: Text, details: Text, severity: Severity,
                                   tenantId: Option<Text>)

  // ---------- Length-prefixed encoding ----------

  function BigEndian(n: nat, width: nat): (bs: Bytes)
    ensures |bs| == width
  {
    if width == 0 then [] else BigEndian(n / 256, width - 1) + [(n % 256) as byte]
  }

  function Pow256(k: nat): (p: nat)
    ensures p > 0
  {
    if k == 0 then 1 else 256 * Pow256(k - 1)
  }

  lemma {:induction false} BigEndianInjective(m: nat, n: nat, width: nat)
    requires BigEndian(m, width) == BigEndian(n, width) && m < Pow256(width) && n < Pow256(width)
    ensures m == n
  {
    if width > 0 {
      var a, b := BigEndian(m, width), BigEndian(n, width);
      assert a[..width - 1] == BigEndian(m / 256, width - 1) && b[..width - 1] == BigEndian(n / 256, width - 1);
      assert a[width - 1] as int == m % 256 && b[width - 1] as int == n % 256;
      BigEndianInjective(m / 256, n / 256, width - 1);
    }
  }

  lemma EightBytes(m: nat, n: nat)
    requires m < U64 && n < U64 && BigEndian(m, 8) == BigEndian(n, 8)
    ensures m == n
  {
    assert Pow256(4) == 0x1_0000_0000;
    assert Pow256(8) == 256 * (256 * (256 * (256 * Pow256(4))));
    BigEndianInjective(m, n, 8);
  }

  function Prefixed(t: Text): Bytes { BigEndian(|t|, 8) + t }

  lemma PrefixedSplits(a: Text, x: Bytes, b: Text, y: Bytes)
    requires Prefixed(a) + x == Prefixed(b) + y
    ensures a == b && x == y
  {
    var s, t := Prefixed(a) + x, Prefixed(b) + y;
    assert s[..8] == BigEndian(|a|, 8) && t[..8] == BigEndian(|b|, 8);
    EightBytes(|a|, |b|);
    assert s[8..8 + |a|] == a && t[8..8 + |b|] == b;
    assert s[8 + |a|..] == x && t[8 + |b|..] == y;
  }

  datatype Field = Field(name: Text, value: Text)

  /** What `update_field` feeds to the hasher. */
  function Encode(f: Field): Bytes { Prefixed(f.name) + Prefixed(f.value) }

  function EncodeAll(fs: seq<Field>): Bytes {
    if fs == [] then [] else Encode(fs[0]) + EncodeAll(fs[1..])
  }

  /** No two lists of fields feed the same bytes to the hasher, whatever their lengths. */
  lemma {:induction false} EncodingInjective(fs: seq<Field>, gs: seq<Field>)
    requires EncodeAll(fs) == EncodeAll(gs)
    ensures fs == gs
  {
    if fs != [] && gs != [] {
      FieldSplits(fs[0], EncodeAll(fs[1..]), gs[0], EncodeAll(gs[1..]));
      EncodingInjective(fs[1..], gs[1..]);
      assert fs == [fs[0]] + fs[1..] && gs == [gs[0]] + gs[1..];
    }
  }

  lemma Assoc(a: Bytes, b: Bytes, c: Bytes)
    ensures (a + b) + c == a + (b + c)
  {
  }

  lemma FieldSplits(f: Field, x: Bytes, g: Field, y: Bytes)
    requires Encode(f) + x == Encode(g) + y
    ensures f == g && x == y
  {
    Assoc(Prefixed(f.name), Prefixed(f.value), x);
    Assoc(Prefixed(g.name), Prefixed(g.value), y);
    PrefixedSplits(f.name, Prefixed(f.value) + x, g.name, Prefixed(g.value) + y);
    PrefixedSplits(f.value, x, g.value, y);
  }

  /** ASCII text of a literal. */
  function Ascii(s: string): (t: Text)
    requires |s| < 16 && forall i :: 0 <= i < |s| ==> s[i] as int < 128
    ensures |t| == |s|
  {
    var bs: Bytes := seq(|s|, i requires 0 <= i < |s| => s[i] as int as byte);
    bs
  }

  const ID: Text := Ascii("id")
  const SEQ: Text := Ascii("seq")
  const TIMESTAMP: Text := Ascii("timestamp")
  const PREV_HASH: Text := Ascii("prev_hash")
  const ACTOR: Text := Ascii("actor")
  const ACTION: Text := Ascii("action")
  const RESOURCE: Text := Ascii("resource")
  const DETAILS: Text := Ascii("details")
  const SEVERITY: Text := Ascii("severity")
  const TENANT_ID: Text := Ascii("tenant_id")

  function SeverityText(s: Severity): Text {
    match s case Info => Ascii("info") case Warning => Ascii("warning") case Critical => Ascii("critical")
  }

  function TenantText(t: Option<Text>): Text { if t.None? then [] else t.value }

  /** The hashed fields, in order: everything but the hash itself. */
  function Fields(e: AuditEntry): seq<Field> {
    [Field(ID, e.id), Field(SEQ, BigEndian(e.seqNo, 8)), Field(TIMESTAMP, e.timestamp),
     Field(PREV_HASH, e.prevHash), Field(ACTOR, e.actor), Field(ACTION, e.action),
     Field(RESOURCE, e.resource), Field(DETAILS, e.details),
     Field(SEVERITY, SeverityText(e.severity)), Field(TENANT_ID, TenantText(e.tenantId))]
  }

  function Content(e: AuditEntry): Bytes { EncodeAll(Fields(e)) }

  function HashOf(sha: Digest, e: AuditEntry): Text { sha(Content(e)) }

  /** Equal hashed content; an absent tenant counts as the empty one. */
  predicate SameContent(a: AuditEntry, b: AuditEntry) {
    && a.id == b.id && a.seqNo == b.seqNo && a.timestamp == b.timestamp && a.prevHash == b.prevHash
    && a.actor == b.actor && a.action == b.action && a.resource == b.resource && a.details == b.details
    && a.severity == b.severity && TenantText(a.tenantId) == TenantText(b.tenantId)
  }

  lemma ContentInjective(a: AuditEntry, b: AuditEntry)
    ensures Content(a) == Content(b) <==> SameContent(a, b)
  {
    if Content(a) == Content(b) {
      EncodingInjective(Fields(a), Fields(b));
      var fs, gs := Fields(a), Fields(b);
      assert forall i :: 0 <= i < 10 ==> fs[i].value == gs[i].value;
      assert fs[1].value == gs[1].value && fs[8].value == gs[8].value;
      EightBytes(a.seqNo, b.seqNo);
    }
    if SameContent(a, b) { assert Fields(a) == Fields(b); }
  }

  /** The incremental hasher. */
  class Hasher {
    var absorbed: Bytes
    const sha: Digest

    constructor (sha: Digest)
      ensures absorbed == [] && this.sha == sha
    {
      this.sha := sha;
      absorbed := [];
    }

    /** `update_field`: four updates. */
    method UpdateField(name: Text, value: Text)
      modifies this
      ensures absorbed == old(absorbed) + Encode(Field(name, value))
    {
      absorbed := absorbed + BigEndian(|name|, 8);
      absorbed := absorbed + name;
      absorbed := absorbed + BigEndian(|value|, 8);
      absorbed := absorbed + value;
    }
  }

  method ComputeHash(sha: Digest, e: AuditEntry) returns (hash: Text)
    ensures hash == HashOf(sha, e)
  {
    var hasher := new Hasher(sha);
    hasher.UpdateField(ID, e.id);
    hasher.UpdateField(SEQ, BigEndian(e.seqNo, 8));
    hasher.UpdateField(TIMESTAMP, e.timestamp);
    hasher.UpdateField(PREV_HASH, e.prevHash);
    hasher.UpdateField(ACTOR, e.actor);
    hasher.UpdateField(ACTION, e.action);
    hasher.UpdateField(RESOURCE, e.resource);
    hasher.UpdateField(DETAILS, e.details);
    hasher.UpdateField(SEVERITY, SeverityText(e.severity));
    hasher.UpdateField(TENANT_ID, TenantText(e.tenantId));
    ghost var fs := Fields(e);
    EncodeTen(fs[0], fs[1], fs[2], fs[3], fs[4], fs[5], fs[6], fs[7], fs[8], fs[9]);
    hash := sha(hasher.absorbed);
  }

  lemma EncodeCons(f: Field, fs: seq<Field>)
    ensures EncodeAll([f] + fs) == Encode(f) + EncodeAll(fs)
  {
    assert ([f] + fs)[1..] == fs;
  }

  lemma EncodeTwo(before: Bytes, f: Field, g: Field, fs: seq<Field>)
    ensures before + EncodeAll([f, g] + fs) == before + Encode(f) + Encode(g) + EncodeAll(fs)
  {
    assert [f, g] + fs == [f] + ([g] + fs);
    EncodeCons(f, [g] + fs);
    EncodeCons(g, fs);
  }

  lemma EncodeTen(f0: Field, f1: Field, f2: Field, f3: Field, f4: Field,
                  f5: Field, f6: Field, f7: Field, f8: Field, f9: Field)
    ensures EncodeAll([f0, f1, f2, f3, f4, f5, f6, f7, f8, f9]) ==
            [] + Encode(f0) + Encode(f1) + Encode(f2) + Encode(f3) + Encode(f4)
            + Encode(f5) + Encode(f6) + Encode(f7) + Encode(f8) + Encode(f9)
  {
    var e8: seq<Field> := [f8, f9] + [];
    var e6 := [f6, f7] + e8;
    var e4 := [f4, f5] + e6;
    var e2 := [f2, f3] + e4;
    var b2: Bytes := [] + Encode(f0) + Encode(f1);
    var b4 := b2 + Encode(f2) + Encode(f3);
    var b6 := b4 + Encode(f4) + Encode(f5);
    var b8 := b6 + Encode(f6) + Encode(f7);
    EncodeTwo([], f0, f1, e2);
    EncodeTwo(b2, f2, f3, e4);
    EncodeTwo(b4, f4, f5, e6);
    EncodeTwo(b6, f6, f7, e8);
    EncodeTwo(b8, f8, f9, []);
    assert [f0, f1, f2, f3, f4, f5, f6, f7, f8, f9] == [f0, f1] + e2;
    assert [] + EncodeAll([f0, f1] + e2) == EncodeAll([f0, f1] + e2);
    assert b8 + Encode(f8) + Encode(f9) + EncodeAll([]) == b8 + Encode(f8) + Encode(f9);
  }

  // ---------- Verification ----------

  datatype Error = ChainBroken(index: nat) | SeqNotMonotonic(index: nat) | SinkFailed

  /** What `verify_entries` finds wrong with entry `i`, its predecessors being fine. */
  function Defect(sha: Digest, es: seq<AuditEntry>, i: nat): Option<Error>
    requires i < |es|
  {
    if es[i].prevHash != (if i == 0 then [] else es[i - 1].hash) then Some(ChainBroken(i))
    else if i > 0 && es[i].seqNo <= es[i - 1].seqNo then Some(SeqNotMonotonic(i))
    else if es[i].hash != HashOf(sha, es[i]) then Some(ChainBroken(i))
    else None
  }

  predicate Verified(sha: Digest, es: seq<AuditEntry>) { forall i :: 0 <= i < |es| ==> Defect(sha, es, i).None? }

  /** Linked to the entry before it, numbered above it, and carrying its own content's hash. */
  predicate IsIntact(sha: Digest, es: seq<AuditEntry>, i: nat)
    requires i < |es|
  {
    && es[i].prevHash == (if i == 0 then [] else es[i - 1].hash)
    && (i > 0 ==> es[i - 1].seqNo < es[i].seqNo)
    && es[i].hash == sha(Content(es[i]))
  }

  /** `verify_entries`: success exactly for intact chains, otherwise the first defect. */
  method VerifyEntries(sha: Digest, es: seq<AuditEntry>) returns (r: Result<(), Error>)
    ensures r.Ok? <==> Verified(sha, es)
    ensures r.Err? ==> exists k :: 0 <= k < |es| && Defect(sha, es, k) == Some(r.error)
                         && forall j :: 0 <= j < k ==> Defect(sha, es, j).None?
    ensures r.Ok? <==> forall i :: 0 <= i < |es| ==> IsIntact(sha, es, i)
    ensures r.Err? && r.error.SeqNotMonotonic? ==>
              var k := r.error.index; 0 < k < |es| && es[k].prevHash == es[k - 1].hash && es[k].seqNo <= es[k - 1].seqNo
    ensures r.Err? && !r.error.SeqNotMonotonic? ==>
              r.error.ChainBroken? && var k := r.error.index;
              && k < |es|
              && (es[k].prevHash != (if k == 0 then [] else es[k - 1].hash) || es[k].hash != HashOf(sha, es[k]))
  {
    var lastSeq: Option<u64> := None;
    for i := 0 to |es|
      invariant lastSeq == if i == 0 then None else Some(es[i - 1].seqNo)
      invariant forall j :: 0 <= j < i ==> Defect(sha, es, j).None? && IsIntact(sha, es, j)
    {
      var expectedPrev: Text := if i == 0 then [] else es[i - 1].hash;
      if es[i].prevHash != expectedPrev {
        assert Defect(sha, es, i) == Some(ChainBroken(i)) && !IsIntact(sha, es, i);
        return Err(ChainBroken(i));
      }
      if lastSeq.Some? && es[i].seqNo <= lastSeq.value {
        assert Defect(sha, es, i) == Some(SeqNotMonotonic(i)) && !IsIntact(sha, es, i);
        return Err(SeqNotMonotonic(i));
      }
      lastSeq := Some(es[i].seqNo);
      var computed := ComputeHash(sha, es[i]);
      if es[i].hash != computed {
        assert Defect(sha, es, i) == Some(ChainBroken(i)) && !IsIntact(sha, es, i);
        return Err(ChainBroken(i));
      }
    }
    r := Ok(());
  }

  predicate SameLog(a: seq<AuditEntry>, b: seq<AuditEntry>) {
    |a| == |b| && forall i :: 0 <= i < |a| ==> SameContent(a[i], b[i]) && a[i].hash == b[i].hash
  }

  /** Two entries, one of each log, with different content and the same hash. */
  ghost predicate Collision(sha: Digest, a: seq<AuditEntry>, b: seq<AuditEntry>) {
    exists x, y :: x in a && y in b && Content(x) != Content(y) && HashOf(sha, x) == HashOf(sha, y)
  }

  ghost predicate NeverEmpty(sha: Digest) { forall x :: sha(x) != [] }

  lemma VerifiedPrefix(sha: Digest, es: seq<AuditEntry>, n: nat)
    requires n <= |es| && Verified(sha, es)
    ensures Verified(sha, es[..n])
  {
    forall i | 0 <= i < n ensures Defect(sha, es[..n], i).None? { assert Defect(sha, es, i).None?; }
  }

  /** Chain uniqueness: the final hash of an intact log determines the whole log. Any second intact
      log with that hash would have to contain a hash collision. */
  lemma {:induction false} ChainUnique(sha: Digest, a: seq<AuditEntry>, b: seq<AuditEntry>)
    requires NeverEmpty(sha) && Verified(sha, a) && Verified(sha, b)
    requires a != [] && b != [] && a[|a| - 1].hash == b[|b| - 1].hash
    ensures SameLog(a, b) || Collision(sha, a, b)
    decreases |a|
  {
    var m, n := |a| - 1, |b| - 1;
    assert Defect(sha, a, m).None? && Defect(sha, b, n).None?;
    assert a[m] in a && b[n] in b;
    if Content(a[m]) == Content(b[n]) {
      ContentInjective(a[m], b[n]);
      FirstTogether(sha, a, b);
      if m > 0 {
        VerifiedPrefix(sha, a, m);
        VerifiedPrefix(sha, b, n);
        assert a[..m][m - 1] == a[m - 1] && b[..n][n - 1] == b[n - 1];
        ChainUnique(sha, a[..m], b[..n]);
        PrefixAgreement(sha, a, b);
      }
    } else {
      assert HashOf(sha, a[m]) == HashOf(sha, b[n]);
    }
  }

  /** Only a first entry has an empty previous hash. */
  lemma FirstTogether(sha: Digest, a: seq<AuditEntry>, b: seq<AuditEntry>)
    requires NeverEmpty(sha) && Verified(sha, a) && Verified(sha, b) && a != [] && b != []
    requires a[|a| - 1].prevHash == b[|b| - 1].prevHash
    ensures |a| == 1 <==> |b| == 1
    ensures |a| > 1 ==> a[|a| - 2].hash == b[|b| - 2].hash
  {
    var m, n := |a| - 1, |b| - 1;
    assert Defect(sha, a, m).None? && Defect(sha, b, n).None?;
    if m > 0 { assert Defect(sha, a, m - 1).None?; }
    if n > 0 { assert Defect(sha, b, n - 1).None?; }
  }

  lemma PrefixAgreement(sha: Digest, a: seq<AuditEntry>, b: seq<AuditEntry>)
    requires a != [] && b != [] && SameContent(a[|a| - 1], b[|b| - 1]) && a[|a| - 1].hash == b[|b| - 1].hash
    ensures var a', b' := a[..|a| - 1], b[..|b| - 1];
            && (SameLog(a', b') ==> SameLog(a, b))
            && (Collision(sha, a', b') ==> Collision(sha, a, b))
  {
    var a', b' := a[..|a| - 1], b[..|b| - 1];
    assert a == a' + [a[|a| - 1]] && b == b' + [b[|b| - 1]];
    if Collision(sha, a', b') {
      var x, y :| x in a' && y in b' && Content(x) != Content(y) && HashOf(sha, x) == HashOf(sha, y);
      assert x in a && y in b;
    }
  }

  /** Rewriting the hashed content of one entry in place is found at that entry, and only such a
      rewriting is: replacing it by an entry that hashes the same bytes goes unnoticed. */
  lemma TamperingLocated(sha: Digest, es: seq<AuditEntry>, k: nat, e: AuditEntry)
    requires Verified(sha, es) && k < |es| && e.hash == es[k].hash
    requires HashOf(sha, e) == HashOf(sha, es[k]) ==> Content(e) == Content(es[k])
    ensures var t := es[k := e];
            && (forall j :: 0 <= j < k ==> Defect(sha, t, j).None?)
            && (Defect(sha, t, k).Some? <==> !SameContent(e, es[k]))
            && (SameContent(e, es[k]) ==> Verified(sha, t))
  {
    var t := es[k := e];
    ContentInjective(e, es[k]);
    assert Defect(sha, es, k).None?;
    forall j | 0 <= j < |es| && (j < k || (j > k && SameContent(e, es[k]))) ensures Defect(sha, t, j).None? {
      assert Defect(sha, es, j).None?;
    }
  }

  /** Deleting a stretch of entries is reported where it began, exactly when anything follows it:
      cutting off the end of a log goes unnoticed. */
  lemma DeletionNoticedIff(sha: Digest, es: seq<AuditEntry>, i: nat, j: nat)
    requires NeverEmpty(sha) && Verified(sha, es) && !Collision(sha, es, es) && i < j <= |es|
    ensures var t := es[..i] + es[j..];
            && (forall m :: 0 <= m < i ==> Defect(sha, t, m).None?)
            && (Verified(sha, t) <==> j == |es|)
            && (j < |es| ==> Defect(sha, t, i) == Some(ChainBroken(i)))
  {
    var t := es[..i] + es[j..];
    forall m | 0 <= m < i ensures Defect(sha, t, m).None? { assert Defect(sha, es, m).None?; }
    if j < |es| {
      assert t[i] == es[j] && (i > 0 ==> t[i - 1] == es[i - 1]);
      assert Defect(sha, es, j).None? && Defect(sha, es, j - 1).None?;
      assert es[j].prevHash == es[j - 1].hash && es[j - 1].hash == sha(Content(es[j - 1]));
      if i > 0 { HashesDiffer(sha, es, i - 1, j - 1); }
      assert Defect(sha, t, i) == Some(ChainBroken(i));
    }
  }

  lemma HashesDiffer(sha: Digest, es: seq<AuditEntry>, a: nat, b: nat)
    requires Verified(sha, es) && !Collision(sha, es, es) && a < b < |es|
    ensures es[a].hash != es[b].hash
  {
    SequenceIncreases(sha, es, a, b);
    ContentInjective(es[a], es[b]);
    assert Defect(sha, es, a).None? && Defect(sha, es, b).None?;
    assert es[a] in es && es[b] in es;
  }

  /** Rewriting an entry together with its own hash is reported at the entry after it, exactly when
      there is one. */
  lemma ResealingNoticedIff(sha: Digest, es: seq<AuditEntry>, k: nat, e: AuditEntry)
    requires Verified(sha, es) && k < |es| && e.prevHash == es[k].prevHash && e.hash == HashOf(sha, e)
    requires k > 0 ==> e.seqNo > es[k - 1].seqNo
    requires !SameContent(e, es[k]) && (HashOf(sha, e) == HashOf(sha, es[k]) ==> Content(e) == Content(es[k]))
    ensures var t := es[k := e];
            && (forall m :: 0 <= m <= k ==> Defect(sha, t, m).None?)
            && (Verified(sha, t) <==> k == |es| - 1)
            && (k < |es| - 1 ==> Defect(sha, t, k + 1) == Some(ChainBroken(k + 1)))
  {
    var t := es[k := e];
    ContentInjective(e, es[k]);
    assert Defect(sha, es, k).None?;
    forall m | 0 <= m <= k ensures Defect(sha, t, m).None? { assert Defect(sha, es, m).None?; }
    if k < |es| - 1 {
      assert Defect(sha, es, k + 1).None?;
      assert t[k + 1] == es[k + 1] && t[k].hash == HashOf(sha, e) && es[k + 1].prevHash == es[k].hash;
      assert HashOf(sha, e) != HashOf(sha, es[k]);
      assert Defect(sha, t, k + 1) == Some(ChainBroken(k + 1));
    }
  }

  // ---------- Appending ----------

  datatype Request = Request(id: Text, timestamp: Text, actor: Text, action: Text, resource: Text, details: Text,
                             severity: Severity, tenantId: Option<Text>)

  /** The 64-bit counter after an entry; at the largest value it wraps to zero. */
  function NextSeq(es: seq<AuditEntry>): u64 { if es == [] then 0 else (es[|es| - 1].seqNo + 1) % U64 }

  function BuildEntry(sha: Digest, es: seq<AuditEntry>, seqNo: u64, q: Request): AuditEntry {
    var prev: Text := if es == [] then [] else es[|es| - 1].hash;
    var e := AuditEntry(q.id, seqNo, q.timestamp, prev, [], q.actor, q.action, q.resource, q.details, q.severity,
        q.tenantId);
    e.(hash := HashOf(sha, e))
  }

  lemma HashFieldNotHashed(e: AuditEntry, h: Text)
    ensures Content(e.(hash := h)) == Content(e)
  {
    assert Fields(e.(hash := h)) == Fields(e);
  }

  function AppendAll(sha: Digest, es: seq<AuditEntry>, qs: seq<Request>): seq<AuditEntry> {
    if qs == [] then es
    else
      var before := AppendAll(sha, es, qs[..|qs| - 1]);
      before + [BuildEntry(sha, before, NextSeq(before), qs[|qs| - 1])]
  }

  /** One more than the last sequence number, unwrapped. */
  function Base(es: seq<AuditEntry>): nat { if es == [] then 0 else es[|es| - 1].seqNo + 1 }

  /** The entry holds the request's fields under their own names, and the hash of its own content. */
  predicate Records(sha: Digest, e: AuditEntry, q: Request) {
    && e.id == q.id && e.timestamp == q.timestamp && e.actor == q.actor && e.action == q.action
    && e.resource == q.resource && e.details == q.details && e.severity == q.severity && e.tenantId == q.tenantId
    && e.hash == sha(Content(e))
  }

  /** Entry `|es| + i` of the longer log `es1` records `qs[i]`, linked to the entry before it. */
  predicate RecordsAt(sha: Digest, es: seq<AuditEntry>, es1: seq<AuditEntry>, qs: seq<Request>, i: nat)
    requires |es1| == |es| + |qs| && i < |qs|
  {
    var e, n := es1[|es| + i], |es| + i;
    && Records(sha, e, qs[i])
    && e.prevHash == (if n == 0 then [] else es1[n - 1].hash)
    && e.seqNo == (Base(es) + i) % U64
  }

  lemma NextSeqWraps(es: seq<AuditEntry>, before: seq<AuditEntry>, n: nat)
    requires n == 0 ==> before == es
    requires n > 0 ==> before != [] && before[|before| - 1].seqNo == (Base(es) + n - 1) % U64
    ensures NextSeq(before) == (Base(es) + n) % U64
  {
  }

  lemma RecordsSnoc(sha: Digest, es: seq<AuditEntry>, before: seq<AuditEntry>, qs: seq<Request>, q: Request)
    requires |before| == |es| + |qs| && before[..|es|] == es
    requires forall i :: 0 <= i < |qs| ==> RecordsAt(sha, es, before, qs, i)
    ensures var e := BuildEntry(sha, before, NextSeq(before), q);
            RecordsAt(sha, es, before + [e], qs + [q], |qs|)
  {
    if qs == [] { assert before[..|es|] == before; } else { assert RecordsAt(sha, es, before, qs, |qs| - 1); }
    NextSeqWraps(es, before, |qs|);
    HashFieldNotHashed(BuildEntry(sha, before, NextSeq(before), q), []);
  }

  lemma RecordsStay(sha: Digest, es: seq<AuditEntry>, before: seq<AuditEntry>, e: AuditEntry, qs: seq<Request>,
                    q: Request)
    requires |before| == |es| + |qs|
    requires forall i :: 0 <= i < |qs| ==> RecordsAt(sha, es, before, qs, i)
    ensures forall i :: 0 <= i < |qs| ==> RecordsAt(sha, es, before + [e], qs + [q], i)
  {
    forall i | 0 <= i < |qs| ensures RecordsAt(sha, es, before + [e], qs + [q], i) {
      assert RecordsAt(sha, es, before, qs, i);
    }
  }

  /** What any number of appends writes: the old entries stay, and each request becomes the next
      entry, field by field; only the number wraps, when the counter runs out. */
  lemma {:induction false} AppendsRecord(sha: Digest, es: seq<AuditEntry>, qs: seq<Request>)
    ensures var es1 := AppendAll(sha, es, qs);
            && |es1| == |es| + |qs| && es1[..|es|] == es
            && forall i :: 0 <= i < |qs| ==> RecordsAt(sha, es, es1, qs, i)
  {
    if qs != [] {
      var fewer, q := qs[..|qs| - 1], qs[|qs| - 1];
      AppendsRecord(sha, es, fewer);
      var before := AppendAll(sha, es, fewer);
      RecordsSnoc(sha, es, before, fewer, q);
      RecordsStay(sha, es, before, BuildEntry(sha, before, NextSeq(before), q), fewer, q);
      assert qs == fewer + [q];
    }
  }

  lemma SnocVerified(sha: Digest, es: seq<AuditEntry>, q: Request)
    ensures Base(es) <= U64
    ensures var e := BuildEntry(sha, es, NextSeq(es), q);
            && (Verified(sha, es + [e]) <==> Verified(sha, es) && Base(es) < U64)
            && (Base(es) < U64 ==> Base(es + [e]) == Base(es) + 1)
  {
    var e := BuildEntry(sha, es, NextSeq(es), q);
    var longer := es + [e];
    HashFieldNotHashed(e, []);
    if Verified(sha, longer) {
      VerifiedPrefix(sha, longer, |es|);
      assert longer[..|es|] == es;
      assert Defect(sha, longer, |es|).None?;
    }
    if Verified(sha, es) && Base(es) < U64 {
      forall i | 0 <= i < |longer| ensures Defect(sha, longer, i).None? {
        if i < |es| { assert Defect(sha, es, i).None?; }
      }
    }
  }

  /** Any number of appends to an intact log leaves an intact log, numbered consecutively below the
      next sequence number, exactly as long as the 64-bit counter does not run out. */
  lemma {:induction false} AppendsVerify(sha: Digest, es: seq<AuditEntry>, qs: seq<Request>)
    requires Verified(sha, es)
    ensures Verified(sha, AppendAll(sha, es, qs)) <==> Base(es) + |qs| <= U64
    ensures Base(es) + |qs| <= U64 ==> Base(AppendAll(sha, es, qs)) == Base(es) + |qs|
  {
    if qs != [] {
      var fewer := qs[..|qs| - 1];
      AppendsVerify(sha, es, fewer);
      SnocVerified(sha, AppendAll(sha, es, fewer), qs[|qs| - 1]);
    }
  }

  lemma SequenceIncreases(sha: Digest, es: seq<AuditEntry>, i: nat, j: nat)
    requires Verified(sha, es) && i < j < |es|
    ensures es[i].seqNo < es[j].seqNo < Base(es)
    decreases |es| - i
  {
    assert Defect(sha, es, i + 1).None?;
    if i + 1 < j {
      SequenceIncreases(sha, es, i + 1, j);
    } else if j < |es| - 1 {
      SequenceIncreases(sha, es, j, |es| - 1);
    }
  }

  /** The counter at its largest value: one more append and the log no longer verifies. */
  lemma CounterRunsOut(sha: Digest, e: AuditEntry, q: Request)
    requires Verified(sha, [e]) && e.seqNo == U64 - 1
    ensures !Verified(sha, AppendAll(sha, [e], [q]))
  {
    AppendsVerify(sha, [e], [q]);
  }

  /** A sink that stores an entry completely or not at all. */
  class AuditSink {
    var stored: seq<AuditEntry>

    constructor ()
      ensures stored == []
    {
      stored := [];
    }

    method Append(e: AuditEntry, fails: bool) returns (ok: bool)
      modifies this
      ensures ok <==> !fails
      ensures stored == if ok then old(stored) + [e] else old(stored)
    {
      ok := !fails;
      if ok {
        stored := stored + [e];
      }
    }
  }

  class AuditLog {
    var entries: seq<AuditEntry>
    var nextSeq: u64
    var sink: AuditSink?
    const sha: Digest

    ghost predicate Valid()
      reads this
    {
      Verified(sha, entries) && nextSeq == NextSeq(entries)
    }

    /** What the sink holds is what the log holds. */
    ghost predicate Durable()
      reads this, sink
    {
      sink != null && sink.stored == entries
    }

    constructor (sha: Digest)
      ensures Valid() && entries == [] && sink == null && this.sha == sha
    {
      this.sha := sha;
      entries, nextSeq, sink := [], 0, null;
    }

    constructor Restored(sha: Digest, es: seq<AuditEntry>)
      requires Verified(sha, es)
      ensures Valid() && entries == es && sink == null && this.sha == sha
    {
      this.sha := sha;
      entries, nextSeq, sink := es, NextSeq(es), null;
    }

    static method FromEntries(sha: Digest, es: seq<AuditEntry>) returns (r: Result<AuditLog, Error>)
      ensures r.Ok? <==> Verified(sha, es)
      ensures r.Ok? ==> fresh(r.value) && r.value.Valid() && r.value.entries == es
      ensures r.Ok? ==> r.value.sink == null && r.value.sha == sha
      ensures r.Err? ==> exists k :: 0 <= k < |es| && Defect(sha, es, k) == Some(r.error)
    {
      var checked := VerifyEntries(sha, es);
      if checked.Err? {
        return Err(checked.error);
      }
      var log := new AuditLog.Restored(sha, es);
      r := Ok(log);
    }

    static method Load(sha: Digest, s: AuditSink) returns (r: Result<AuditLog, Error>)
      ensures r.Ok? <==> Verified(sha, s.stored)
      ensures r.Ok? ==> r.value.Valid() && r.value.Durable() && r.value.entries == s.stored
      ensures r.Ok? ==> r.value.sink == s && r.value.sha == sha
    {
      r := FromEntries(sha, s.stored);
      if r.Ok? {
        r.value.sink := s;
      }
    }

    method WithSink(s: AuditSink)
      modifies this
      ensures sink == s && entries == old(entries) && nextSeq == old(nextSeq)
      ensures entries == s.stored ==> Durable()
    {
      sink := s;
    }

    /** `append` and `append_in_memory`: the entry reaches the sink before it reaches the log, so a
        failing sink changes neither. */
    method Append(q: Request, sinkFails: bool) returns (r: Result<AuditEntry, Error>)
      requires Valid()
      modifies this, sink
      ensures sink == old(sink)
      ensures r.Err? <==> sink != null && sinkFails
      ensures r.Err? ==> entries == old(entries) && nextSeq == old(nextSeq)
      ensures r.Ok? ==> entries == AppendAll(sha, old(entries), [q]) && nextSeq == NextSeq(entries)
      ensures r.Ok? ==> entries == old(entries) + [r.value] && Records(sha, r.value, q)
      ensures r.Ok? ==> r.value.prevHash == if old(entries) == [] then [] else old(entries[|entries| - 1].hash)
      ensures r.Ok? ==> r.value.seqNo == old(nextSeq) == Base(old(entries)) % U64
      ensures old(Durable()) ==> Durable()
      ensures Valid() <==> r.Err? || Base(old(entries)) < U64
    {
      var entry := BuildEntry(sha, entries, nextSeq, q);
      AppendsVerify(sha, entries, [q]);
      HashFieldNotHashed(entry, []);
      assert AppendAll(sha, entries, [q][..0]) == entries;
      if sink != null {
        var ok := sink.Append(entry, sinkFails);
        if !ok {
          return Err(SinkFailed);
        }
      }
      nextSeq := (entry.seqNo + 1) % U64;
      entries := entries + [entry];
      r := Ok(entry);
    }
  }
}
