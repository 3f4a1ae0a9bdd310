/** Retention and garbage collection against the in-memory store, whose maps are listed in an
    order of their own choosing. */
module BackupStore {
  import opened Wrappers
  import opened Bytes
  import opened Retention
  import opened RetentionOrder
  import opened BackupRepo

  type ManifestMap = map<string, Manifest>

  /** `order` lists the keys once each. */
  ghost predicate Enumerates(order: seq<string>, keys: set<string>) {
    && (forall n :: n in order <==> n in keys)
    && forall i, j :: 0 <= i < j < |order| ==> order[i] != order[j]
  }

  predicate IsReferenced(ms: ManifestMap, id: string) { exists n :: n in ms && id in ms[n].chunkIds }

  class InMemoryBackupStore {
    var chunks: ChunkMap
    var manifests: ManifestMap
    const hash: Hash

    constructor (hash: Hash)
      ensures chunks == map[] && manifests == map[] && this.hash == hash
    {
      this.hash := hash;
      chunks, manifests := map[], map[];
    }

    /** Overwrites, and does not check the hash. */
    method PutChunk(id: string, data: Bytes)
      modifies this
      ensures chunks == old(chunks)[id := data] && manifests == old(manifests)
    {
      chunks := chunks[id := data];
    }

    method GetChunk(id: string) returns (r: Result<Bytes, Error>)
      ensures r == Assemble(hash, chunks, [id])
      ensures r == if Intact(hash, chunks, id) then Ok(chunks[id]) else Err(Fault(hash, chunks, id))
    {
      assert Assemble(hash, chunks, [id][..0]) == Ok([]);
      if id !in chunks {
        return Err(ChunkMissing(id));
      }
      var actual := hash(chunks[id]);
      if actual != id {
        return Err(HashMismatch(id, actual));
      }
      assert [] + chunks[id] == chunks[id];
      r := Ok(chunks[id]);
    }

    method WriteManifest(name: string, m: Manifest)
      modifies this
      ensures manifests == old(manifests)[name := m] && chunks == old(chunks)
    {
      manifests := manifests[name := m];
    }

    method ListManifests() returns (names: seq<string>)
      ensures Enumerates(names, manifests.Keys)
    {
      names := Listed(manifests.Keys);
    }

    method ListChunks() returns (ids: seq<string>)
      ensures Enumerates(ids, chunks.Keys)
    {
      ids := Listed(chunks.Keys);
    }

    /** `gc_offline`: mark every referenced chunk, delete the others, count the deletions. */
    method GcOffline() returns (removed: nat)
      modifies this
      ensures manifests == old(manifests)
      ensures chunks == Swept(old(chunks), Marked(manifests, manifests.Keys))
      ensures forall id :: id in chunks <==> id in old(chunks) && IsReferenced(manifests, id)
      ensures forall id :: id in chunks ==> chunks[id] == old(chunks)[id]
      ensures removed == |old(chunks)| - |chunks| == |old(chunks).Keys - Marked(manifests, manifests.Keys)|
    {
      var referenced := Mark();
      removed := SweepUnmarked(referenced);
    }

    method Mark() returns (referenced: set<string>)
      ensures referenced == Marked(manifests, manifests.Keys)
    {
      referenced := {};
      var names := ListManifests();
      ghost var done: set<string> := {};
      for i := 0 to |names|
        invariant done == (set n | n in names[..i]) && done <= manifests.Keys
        invariant referenced == Marked(manifests, done)
      {
        assert names[..i + 1] == names[..i] + [names[i]];
        MarkedStep(manifests, done, names[i]);
        referenced := referenced + set id | id in manifests[names[i]].chunkIds;
        done := done + {names[i]};
      }
      assert done == manifests.Keys by { assert names[..|names|] == names; }
    }

    method SweepUnmarked(referenced: set<string>) returns (removed: nat)
      modifies this
      ensures manifests == old(manifests)
      ensures chunks == Swept(old(chunks), referenced)
      ensures chunks.Keys == old(chunks).Keys * referenced
      ensures forall id :: id in chunks ==> chunks[id] == old(chunks)[id]
      ensures removed == |old(chunks)| - |chunks| == |old(chunks).Keys - referenced|
    {
      ghost var was := chunks;
      ghost var gone;
      removed, gone := DeleteUnmarked(referenced);
      SweptIsMinus(was, referenced, gone);
    }

    method DeleteUnmarked(referenced: set<string>) returns (removed: nat, ghost gone: set<string>)
      modifies this
      ensures manifests == old(manifests) && chunks == old(chunks) - gone && removed == |gone|
      ensures forall id :: id in gone <==> id in old(chunks) && id !in referenced
    {
      var ids := ListChunks();
      removed, gone := 0, {};
      for i := 0 to |ids|
        invariant manifests == old(manifests)
        invariant forall id :: id in gone <==> id in ids[..i] && id !in referenced
        invariant chunks == old(chunks) - gone && removed == |gone|
      {
        assert ids[..i + 1] == ids[..i] + [ids[i]];
        if ids[i] !in referenced {
          assert ids[i] !in gone;
          MinusOne(old(chunks), gone, ids[i]);
          chunks := chunks - {ids[i]};
          removed := removed + 1;
          gone := gone + {ids[i]};
        }
      }
      assert ids[..|ids|] == ids;
    }

    /** `apply_retention_offline`: select over the listing, delete by name, then collect.
        `order` is the listing the run happened to get. */
    method ApplyRetentionOffline(p: Policy, c: Calendar)
      returns (manifestsRemoved: nat, chunksRemoved: nat, ghost order: seq<string>)
      modifies this
      ensures Enumerates(order, old(manifests).Keys)
      ensures var l := Loaded(old(manifests), order); var doomed := SelectDelete(l, Kept(l, p, c));
              && manifests == AfterDeleting(old(manifests), order, doomed)
              && manifestsRemoved == |doomed|
      ensures chunks == Swept(old(chunks), Marked(manifests, manifests.Keys))
      ensures forall id :: id in chunks <==> id in old(chunks) && IsReferenced(manifests, id)
      ensures forall id :: id in chunks ==> chunks[id] == old(chunks)[id]
      ensures chunksRemoved == |old(chunks)| - |chunks| == |old(chunks).Keys - Marked(manifests, manifests.Keys)|
    {
      var names, loaded, idToName := LoadAll();
      order := names;
      var keep := SelectKeep(p, c, loaded);
      var doomed := SelectDelete(loaded, keep);
      forall id | id in doomed ensures id in idToName { DoomedHasName(manifests, names, keep, id); }
      manifestsRemoved := DeleteByName(names, idToName, doomed);
      chunksRemoved := GcOffline();
    }

    method LoadAll() returns (names: seq<string>, loaded: seq<Manifest>, idToName: map<string, string>)
      ensures Enumerates(names, manifests.Keys)
      ensures loaded == Loaded(manifests, names) && idToName == NameOf(manifests, names)
    {
      names := ListManifests();
      assert forall n :: n in names ==> n in manifests;
      loaded, idToName := [], map[];
      ghost var done: seq<string> := [];
      for i := 0 to |names|
        invariant done == names[..i] && forall n :: n in done ==> n in manifests
        invariant loaded == Loaded(manifests, done) && idToName == NameOf(manifests, done)
      {
        var n := names[i];
        assert n in names;
        LoadedSnoc(manifests, done, n);
        var m := manifests[n];
        idToName := idToName[m.id := n];
        loaded := loaded + [m];
        done := done + [n];
      }
      assert done == names;
    }

    method DeleteByName(ghost names: seq<string>, idToName: map<string, string>, doomed: seq<string>)
      returns (removed: nat)
      requires Enumerates(names, manifests.Keys) && idToName == NameOf(manifests, names)
      requires forall id :: id in doomed ==> id in idToName
      modifies this
      ensures manifests == AfterDeleting(old(manifests), names, doomed)
      ensures chunks == old(chunks) && removed == |doomed|
    {
      removed := 0;
      for i := 0 to |doomed|
        invariant chunks == old(chunks) && removed == i
        invariant manifests == AfterDeleting(old(manifests), names, doomed[..i])
      {
        assert doomed[..i + 1][..i] == doomed[..i];
        if doomed[i] in idToName {
          manifests := manifests - {idToName[doomed[i]]};
          removed := removed + 1;
        }
      }
      assert doomed[..|doomed|] == doomed;
    }

    /** `restore_manifest_to`: `out` is what the writer received; on failure, the chunks before the
        first bad one. */
    method RestoreManifestTo(m: Manifest) returns (r: Result<(), Error>, out: Bytes)
      ensures r.Ok? ==> Assemble(hash, chunks, m.chunkIds) == Ok(out)
      ensures r.Err? ==> Assemble(hash, chunks, m.chunkIds) == Err(r.error)
      ensures r.Err? ==> exists n :: 0 <= n < |m.chunkIds| && Assemble(hash, chunks, m.chunkIds[..n]) == Ok(out)
                                     && Assemble(hash, chunks, m.chunkIds[..n + 1]) == Err(r.error)
    {
      out := [];
      var ids := m.chunkIds;
      for i := 0 to |ids|
        invariant Assemble(hash, chunks, ids[..i]) == Ok(out)
      {
        assert ids[..i + 1][..i] == ids[..i];
        var data := GetChunk(ids[i]);
        assert Assemble(hash, chunks, [ids[i]][..0]) == Ok([]);
        if data.Err? {
          AssembleFails(hash, chunks, ids, i + 1);
          return Err(data.error), out;
        }
        assert [] + chunks[ids[i]] == chunks[ids[i]];
        out := out + data.value;
      }
      assert ids[..|ids|] == ids;
      r := Ok(());
    }
  }

  method Listed(keys: set<string>) returns (l: seq<string>)
    ensures Enumerates(l, keys)
  {
    l := [];
    var left := keys;
    while left != {}
      invariant left <= keys && Enumerates(l, keys - left)
    {
      var k :| k in left;
      left := left - {k};
      l := l + [k];
    }
  }

  // ---------- The store's operations on values ----------

  function Loaded(ms: ManifestMap, order: seq<string>): (l: seq<Manifest>)
    requires forall n :: n in order ==> n in ms
    ensures |l| == |order| && forall i :: 0 <= i < |l| ==> l[i] == ms[order[i]]
  {
    if order == [] then [] else Loaded(ms, order[..|order| - 1]) + [ms[order[|order| - 1]]]
  }

  /** Manifest id to store name; a repeated id keeps the name listed last. */
  function NameOf(ms: ManifestMap, order: seq<string>): map<string, string>
    requires forall n :: n in order ==> n in ms
  {
    if order == [] then map[]
    else
      var last := order[|order| - 1];
      NameOf(ms, order[..|order| - 1])[ms[last].id := last]
  }

  lemma {:induction false} NameOfMeaning(ms: ManifestMap, order: seq<string>)
    requires forall n :: n in order ==> n in ms
    ensures var names := NameOf(ms, order);
            && (forall id :: id in names ==> names[id] in order && ms[names[id]].id == id)
            && forall n :: n in order ==> ms[n].id in names
  {
    if order != [] { NameOfMeaning(ms, order[..|order| - 1]); }
  }

  lemma LoadedSnoc(ms: ManifestMap, order: seq<string>, n: string)
    requires n in ms && forall k :: k in order ==> k in ms
    ensures Loaded(ms, order + [n]) == Loaded(ms, order) + [ms[n]]
    ensures NameOf(ms, order + [n]) == NameOf(ms, order)[ms[n].id := n]
  {
    assert (order + [n])[..|order|] == order;
  }

  ghost function AfterDeleting(ms: ManifestMap, order: seq<string>, doomed: seq<string>): ManifestMap
    requires Enumerates(order, ms.Keys)
  {
    if doomed == [] then ms
    else
      var id, rest := doomed[|doomed| - 1], AfterDeleting(ms, order, doomed[..|doomed| - 1]);
      if id in NameOf(ms, order) then rest - {NameOf(ms, order)[id]} else rest
  }

  function Marked(ms: ManifestMap, names: set<string>): set<string> {
    set n, id | n in names && n in ms && id in ms[n].chunkIds :: id
  }

  function Swept(chunks: ChunkMap, marked: set<string>): ChunkMap {
    map id | id in chunks && id in marked :: chunks[id]
  }

  lemma MinusOne(chunks: ChunkMap, gone: set<string>, id: string)
    ensures (chunks - gone) - {id} == chunks - (gone + {id})
  {
  }

  lemma SweptIsMinus(chunks: ChunkMap, marked: set<string>, gone: set<string>)
    requires forall n :: n in gone <==> n in chunks && n !in marked
    ensures var after := Swept(chunks, marked);
            && chunks - gone == after && gone == chunks.Keys - marked
            && after.Keys == chunks.Keys * marked && (forall id :: id in after ==> after[id] == chunks[id])
            && |gone| == |chunks| - |after|
  {
    SweepSize(chunks, marked);
    assert chunks - gone == Swept(chunks, marked);
  }

  lemma MarkedStep(ms: ManifestMap, done: set<string>, n: string)
    requires n in ms
    ensures Marked(ms, done + {n}) == Marked(ms, done) + set id | id in ms[n].chunkIds
  {
  }

  lemma DoomedHasName(ms: ManifestMap, order: seq<string>, keep: set<string>, id: string)
    requires Enumerates(order, ms.Keys) && id in SelectDelete(Loaded(ms, order), keep)
    ensures id in NameOf(ms, order)
  {
    var l := Loaded(ms, order);
    DeleteMembers(l, keep);
    NameOfMeaning(ms, order);
    var m :| m in l && m.id == id;
    var i :| 0 <= i < |l| && l[i] == m;
    assert order[i] in order;
  }

  lemma {:induction false} AfterDeletingMeaning(ms: ManifestMap, order: seq<string>, doomed: seq<string>)
    requires Enumerates(order, ms.Keys)
    ensures var after := AfterDeleting(ms, order, doomed);
            && after.Keys <= ms.Keys && (forall n :: n in after ==> after[n] == ms[n])
            && forall n :: n in ms ==> ms[n].id in NameOf(ms, order)
                                       && (n in after <==> !(ms[n].id in doomed && NameOf(ms, order)[ms[n].id] == n))
  {
    NameOfMeaning(ms, order);
    if doomed != [] {
      AfterDeletingMeaning(ms, order, doomed[..|doomed| - 1]);
      assert forall id :: id in doomed <==> id in doomed[..|doomed| - 1] || id == doomed[|doomed| - 1];
    }
  }

  // ---------- Exactness ----------

  /** The manifests the policy keeps, given the ids it keeps. */
  function KeptManifests(ms: ManifestMap, keep: set<string>): ManifestMap {
    map n | n in ms && ms[n].id in keep :: ms[n]
  }

  /** No two names share an id the policy gives up. */
  predicate GivenUpOnce(ms: ManifestMap, keep: set<string>) {
    forall a, b :: a in ms && b in ms && a != b && ms[a].id == ms[b].id ==> ms[a].id in keep
  }

  /** Deleting by name removes exactly what the policy gives up, if and only if each id given up
      has a single name; otherwise a manifest the policy did not keep stays behind. */
  lemma DeletesExactly(ms: ManifestMap, order: seq<string>, p: Policy, c: Calendar)
    requires Enumerates(order, ms.Keys)
    ensures var l := Loaded(ms, order); var keep := Kept(l, p, c);
            AfterDeleting(ms, order, SelectDelete(l, keep)) == KeptManifests(ms, keep) <==> GivenUpOnce(ms, keep)
  {
    var l := Loaded(ms, order);
    var keep := Kept(l, p, c);
    var doomed := SelectDelete(l, keep);
    AfterDeletingMeaning(ms, order, doomed);
    NameOfMeaning(ms, order);
    DoomedIffNotKept(ms, order, keep);
    var after, names := AfterDeleting(ms, order, doomed), NameOf(ms, order);
    assert forall n :: n in ms ==> (n in after <==> ms[n].id in keep || names[ms[n].id] != n);
    OneNameEach(ms, after, names, keep);
  }

  lemma OneNameEach(ms: ManifestMap, after: ManifestMap, names: map<string, string>, keep: set<string>)
    requires after.Keys <= ms.Keys && forall n :: n in after ==> after[n] == ms[n]
    requires forall n :: n in ms ==> ms[n].id in names && names[ms[n].id] in ms && ms[names[ms[n].id]].id == ms[n].id
    requires forall n :: n in ms ==> (n in after <==> ms[n].id in keep || names[ms[n].id] != n)
    ensures after == KeptManifests(ms, keep) <==> GivenUpOnce(ms, keep)
  {
    if GivenUpOnce(ms, keep) {
      forall n | n in ms ensures n in after <==> ms[n].id in keep {
        if ms[n].id !in keep { assert names[ms[n].id] == n; }
      }
    }
    if after == KeptManifests(ms, keep) {
      forall a, b | a in ms && b in ms && a != b && ms[a].id == ms[b].id ensures ms[a].id in keep {
        assert names[ms[a].id] == names[ms[b].id];
      }
    }
  }

  lemma DoomedIffNotKept(ms: ManifestMap, order: seq<string>, keep: set<string>)
    requires Enumerates(order, ms.Keys)
    ensures forall n :: n in ms ==> (ms[n].id in SelectDelete(Loaded(ms, order), keep) <==> ms[n].id !in keep)
  {
    var l := Loaded(ms, order);
    DeleteMembers(l, keep);
    forall n | n in ms ensures ms[n].id in SelectDelete(l, keep) <==> ms[n].id !in keep {
      var i :| 0 <= i < |order| && order[i] == n;
      assert l[i] == ms[n];
    }
  }

  lemma DeleteBoth(m: Manifest)
    ensures SelectDelete([m, m], {}) == [m.id, m.id]
  {
    assert [m, m][1..] == [m] && [m][1..] == [];
    assert SelectDelete([m], {}) == [m.id];
  }

  lemma LastNameWins(ms: ManifestMap, m: Manifest, a: string, b: string)
    requires ms == map[a := m, b := m]
    ensures NameOf(ms, [a, b]) == map[m.id := b]
  {
    LoadedSnoc(ms, [], a);
    LoadedSnoc(ms, [a], b);
    assert [] + [a] == [a] && [a] + [b] == [a, b];
  }

  /** Two names with one id: the deletion loop removes one of them twice and leaves the other. */
  lemma SharedIdStaysBehind(m: Manifest, a: string, b: string, c: Calendar)
    requires a != b
    ensures var ms := map[a := m, b := m]; var never := Policy(0, 0, 0, 0, 0); var l := Loaded(ms, [a, b]);
            && Kept(l, never, c) == {} && |SelectDelete(l, {})| == 2
            && AfterDeleting(ms, [a, b], SelectDelete(l, {})) == map[a := m]
  {
    var ms, l := map[a := m, b := m], Loaded(map[a := m, b := m], [a, b]);
    assert l == [m, m];
    KeptSize(l, Policy(0, 0, 0, 0, 0), c);
    DeleteBoth(m);
    LastNameWins(ms, m, a, b);
    assert [m.id, m.id][..1] == [m.id] && [m.id][..0] == [];
    assert AfterDeleting(ms, [a, b], [m.id]) == ms - {b};
  }

  predicate DistinctManifests(ms: ManifestMap) {
    forall a, b :: a in ms && b in ms && a != b ==> ms[a].id != ms[b].id && ms[a].createdAt != ms[b].createdAt
  }

  lemma RemoveAt(b: seq<string>, j: nat)
    requires j < |b|
    ensures multiset(b[..j] + b[j + 1..]) == multiset(b) - multiset{b[j]}
  {
    assert b == b[..j] + [b[j]] + b[j + 1..];
  }

  lemma Locate(a: seq<string>, b: seq<string>, k: nat) returns (j: nat)
    requires multiset(a) == multiset(b) && k < |a|
    ensures j < |b| && b[j] == a[k]
  {
    assert a[k] in multiset(b);
    j :| 0 <= j < |b| && b[j] == a[k];
  }

  lemma {:induction false} LoadedPermutes(ms: ManifestMap, a: seq<string>, b: seq<string>)
    requires multiset(a) == multiset(b) && (forall n :: n in a ==> n in ms) && forall n :: n in b ==> n in ms
    ensures multiset(Loaded(ms, a)) == multiset(Loaded(ms, b))
  {
    assert |a| == |multiset(a)| == |multiset(b)| == |b|;
    if a != [] {
      var k := |a| - 1;
      var j := Locate(a, b, k);
      RemoveBoth(a, k, b, j);
      LoadedSplit(ms, a, k);
      LoadedSplit(ms, b, j);
      LoadedPermutes(ms, a[..k] + a[k + 1..], b[..j] + b[j + 1..]);
    }
  }

  lemma RemoveBoth(a: seq<string>, k: nat, b: seq<string>, j: nat)
    requires k < |a| && j < |b| && a[k] == b[j] && multiset(a) == multiset(b)
    ensures multiset(a[..k] + a[k + 1..]) == multiset(b[..j] + b[j + 1..])
  {
    RemoveAt(a, k);
    RemoveAt(b, j);
  }

  lemma LoadedSplit(ms: ManifestMap, b: seq<string>, j: nat)
    requires j < |b| && forall n :: n in b ==> n in ms
    ensures var rest := b[..j] + b[j + 1..];
            && (forall n :: n in rest ==> n in ms)
            && multiset(Loaded(ms, b)) == multiset(Loaded(ms, rest)) + multiset{ms[b[j]]}
  {
    var l, rest := Loaded(ms, b), b[..j] + b[j + 1..];
    assert Loaded(ms, rest) == l[..j] + l[j + 1..];
    assert l == l[..j] + [l[j]] + l[j + 1..];
  }

  lemma {:induction false} EnumerationsPermute(a: seq<string>, b: seq<string>, keys: set<string>)
    requires Enumerates(a, keys) && Enumerates(b, keys)
    ensures multiset(a) == multiset(b)
  {
    EachOnce(a);
    EachOnce(b);
    forall n ensures multiset(a)[n] == multiset(b)[n] {
      assert n in multiset(a) <==> n in a;
      assert n in multiset(b) <==> n in b;
    }
  }

  lemma EachOnce(a: seq<string>)
    requires forall i, j :: 0 <= i < j < |a| ==> a[i] != a[j]
    ensures forall n :: n in a ==> multiset(a)[n] == 1
  {
    forall n | n in a ensures multiset(a)[n] == 1 {
      var i :| 0 <= i < |a| && a[i] == n;
      assert a == a[..i] + [n] + a[i + 1..];
      assert n !in a[..i] && n !in a[i + 1..];
    }
  }

  /** With distinct ids and creation times the outcome is exact and does not depend on the order
      the map happened to list: exactly the kept manifests, their removal counted exactly, and
      every survivor restores as before (including its errors). */
  lemma RetentionExact(hash: Hash, chunks: ChunkMap, ms: ManifestMap, order: seq<string>, other: seq<string>,
                       p: Policy, c: Calendar)
    requires DistinctManifests(ms) && Enumerates(order, ms.Keys) && Enumerates(other, ms.Keys)
    ensures var l := Loaded(ms, order); var keep := Kept(Loaded(ms, other), p, c);
            var doomed := SelectDelete(l, Kept(l, p, c)); var after := AfterDeleting(ms, order, doomed);
            && after == KeptManifests(ms, keep)
            && |doomed| == |ms| - |after|
            && forall n :: n in after ==>
                 Assemble(hash, Swept(chunks, Marked(after, after.Keys)), ms[n].chunkIds) ==
                 Assemble(hash, chunks, ms[n].chunkIds)
  {
    var l, l' := Loaded(ms, order), Loaded(ms, other);
    EnumerationsPermute(order, other, ms.Keys);
    LoadedPermutes(ms, order, other);
    forall i, j | 0 <= i < j < |l| ensures l[i].createdAt != l[j].createdAt {
      assert order[i] in order && order[j] in order;
    }
    OrderIrrelevant(l, l', p, c);
    DeletesExactly(ms, order, p, c);
    var keep := Kept(l, p, c);
    var after := AfterDeleting(ms, order, SelectDelete(l, keep));
    KeptCount(ms, order, keep);
    forall n | n in after
      ensures Assemble(hash, Swept(chunks, Marked(after, after.Keys)), ms[n].chunkIds) ==
              Assemble(hash, chunks, ms[n].chunkIds)
    {
      AssembleAgrees(hash, Swept(chunks, Marked(after, after.Keys)), chunks, ms[n].chunkIds);
    }
  }

  lemma KeptCount(ms: ManifestMap, order: seq<string>, keep: set<string>)
    requires Enumerates(order, ms.Keys)
    ensures |SelectDelete(Loaded(ms, order), keep)| == |ms| - |KeptManifests(ms, keep)|
  {
    DeleteSplits(Loaded(ms, order), keep);
    FilterCount(ms, order, keep);
    EnumerationSize(order, ms.Keys);
  }

  lemma {:induction false} EnumerationSize(order: seq<string>, keys: set<string>)
    requires Enumerates(order, keys)
    ensures |order| == |keys|
  {
    if order == [] {
      assert keys == {};
    } else {
      var last := order[|order| - 1];
      EnumeratesFront(order, keys);
      EnumerationSize(order[..|order| - 1], keys - {last});
      assert keys == (keys - {last}) + {last};
    }
  }

  lemma {:induction false} FilterSnoc(l: seq<Manifest>, m: Manifest, keep: set<string>)
    ensures Filter(l + [m], keep) == Filter(l, keep) + if m.id in keep then [m] else []
  {
    if l == [] {
      assert [] + [m] == [m] && [m][1..] == [];
    } else {
      assert (l + [m])[1..] == l[1..] + [m];
      FilterSnoc(l[1..], m, keep);
    }
  }

  lemma KeptStep(ms: ManifestMap, last: string, keep: set<string>)
    requires last in ms
    ensures |KeptManifests(ms, keep)| == |KeptManifests(ms - {last}, keep)| + if ms[last].id in keep then 1 else 0
  {
    var kept, fewer := KeptManifests(ms, keep), KeptManifests(ms - {last}, keep);
    if ms[last].id in keep {
      assert kept.Keys == fewer.Keys + {last};
      assert |kept| == |kept.Keys| && |fewer| == |fewer.Keys|;
    } else {
      assert kept == fewer;
    }
  }

  lemma EnumeratesFront(order: seq<string>, keys: set<string>)
    requires Enumerates(order, keys) && order != []
    ensures Enumerates(order[..|order| - 1], keys - {order[|order| - 1]})
  {
    var front, last := order[..|order| - 1], order[|order| - 1];
    assert order == front + [last];
  }

  lemma {:induction false} FilterCount(ms: ManifestMap, order: seq<string>, keep: set<string>)
    requires Enumerates(order, ms.Keys)
    ensures |Filter(Loaded(ms, order), keep)| == |KeptManifests(ms, keep)|
  {
    if order == [] {
      assert KeptManifests(ms, keep) == map[];
    } else {
      var front, last := order[..|order| - 1], order[|order| - 1];
      var fewer := ms - {last};
      EnumeratesFront(order, ms.Keys);
      assert fewer.Keys == ms.Keys - {last};
      FilterCount(fewer, front, keep);
      assert Loaded(ms, front) == Loaded(fewer, front);
      FilterSnoc(Loaded(ms, front), ms[last], keep);
      KeptStep(ms, last, keep);
    }
  }
}
