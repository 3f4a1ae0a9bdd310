/** The in-memory backup repository: content-addressed chunks shared between snapshots,
    mark-and-sweep collection, retention. The content hash is a parameter. */
module BackupRepo {
  import opened Wrappers
  import opened Bytes
  import opened Retention

  datatype Chunk = Chunk(id: string, data: Bytes, originalSize: nat)

  datatype Error =
    | SnapshotNotFound(id: string)
    | ChunkMissing(id: string)
    | HashMismatch(expected: string, actual: string)

  type Hash = Bytes -> string
  type ChunkMap = map<string, Bytes>

  // ---------- Chunking ----------

  /** `chunk_data`: consecutive slices of `size` bytes, the last one possibly shorter. */
  function ChunkData(hash: Hash, data: Bytes, size: nat): seq<Chunk>
    requires size > 0
    decreases |data|
  {
    if data == [] then []
    else
      var n := if size < |data| then size else |data|;
      [Chunk(hash(data[..n]), data[..n], n)] + ChunkData(hash, data[n..], size)
  }

  function Concat(chunks: seq<Chunk>): Bytes {
    if chunks == [] then [] else chunks[0].data + Concat(chunks[1..])
  }

  predicate WellFormed(hash: Hash, c: Chunk) { c.id == hash(c.data) }

  /** Chunks concatenate to the input, carry their own hash, and all but the last are full. */
  lemma {:induction false} ChunksReassemble(hash: Hash, data: Bytes, size: nat)
    requires size > 0
    ensures var cs := ChunkData(hash, data, size);
            && Concat(cs) == data
            && (forall c :: c in cs ==> WellFormed(hash, c) && c.originalSize == |c.data| && 0 < |c.data| <= size)
            && forall i :: 0 <= i < |cs| - 1 ==> |cs[i].data| == size
    decreases |data|
  {
    if data != [] {
      var n := if size < |data| then size else |data|;
      ChunksReassemble(hash, data[n..], size);
      var first, rest := Chunk(hash(data[..n]), data[..n], n), ChunkData(hash, data[n..], size);
      assert ([first] + rest)[1..] == rest;
      assert data == data[..n] + data[n..];
    }
  }

  /** The sizes recorded for the chunks add up to the size of the input. */
  lemma {:induction false} SizesAddUp(cs: seq<Chunk>)
    requires forall c :: c in cs ==> c.originalSize == |c.data|
    ensures TotalSize(cs) == |Concat(cs)|
  {
    if cs != [] {
      var front, last := cs[..|cs| - 1], cs[|cs| - 1];
      SizesAddUp(front);
      assert cs == front + [last];
      ConcatSnoc(front, last);
    }
  }

  // ---------- The repository as a value ----------

  datatype Repo = Repo(snapshots: seq<Manifest>, chunks: ChunkMap)

  function StoreOne(chunks: ChunkMap, c: Chunk): ChunkMap {
    if c.id in chunks then chunks else chunks[c.id := c.data]
  }

  function StoreAll(chunks: ChunkMap, cs: seq<Chunk>): ChunkMap {
    if cs == [] then chunks else StoreOne(StoreAll(chunks, cs[..|cs| - 1]), cs[|cs| - 1])
  }

  function ChunkIds(cs: seq<Chunk>): seq<string> { seq(|cs|, i requires 0 <= i < |cs| => cs[i].id) }

  function TotalSize(cs: seq<Chunk>): nat {
    if cs == [] then 0 else TotalSize(cs[..|cs| - 1]) + cs[|cs| - 1].originalSize
  }

  function Referenced(snapshots: seq<Manifest>): set<string> { set m, id | m in snapshots && id in m.chunkIds :: id }

  function Sweep(r: Repo): Repo {
    r.(chunks := map id | id in r.chunks && id in Referenced(r.snapshots) :: r.chunks[id])
  }

  function Without(l: seq<Manifest>, id: string): seq<Manifest> {
    if l == [] then [] else if l[0].id == id then Without(l[1..], id) else [l[0]] + Without(l[1..], id)
  }

  function Retain(r: Repo, p: Policy, c: Calendar): Repo {
    Sweep(r.(snapshots := Filter(r.snapshots, Kept(r.snapshots, p, c))))
  }

  function Find(l: seq<Manifest>, id: string): Option<Manifest> {
    if l == [] then None else if l[0].id == id then Some(l[0]) else Find(l[1..], id)
  }

  function Assemble(hash: Hash, chunks: ChunkMap, ids: seq<string>): Result<Bytes, Error> {
    if ids == [] then Ok([])
    else
      var n := |ids| - 1;
      var front :- Assemble(hash, chunks, ids[..n]);
      if ids[n] !in chunks then Err(ChunkMissing(ids[n]))
      else if hash(chunks[ids[n]]) != ids[n] then Err(HashMismatch(ids[n], hash(chunks[ids[n]])))
      else Ok(front + chunks[ids[n]])
  }

  function Restored(hash: Hash, r: Repo, id: string): Result<Bytes, Error> {
    match Find(r.snapshots, id)
    case None => Err(SnapshotNotFound(id))
    case Some(m) => Assemble(hash, r.chunks, m.chunkIds)
  }

  /** The bytes stored under `ids`, one after the other. */
  function Joined(chunks: ChunkMap, ids: seq<string>): Bytes
    requires forall id :: id in ids ==> id in chunks
  {
    if ids == [] then [] else chunks[ids[0]] + Joined(chunks, ids[1..])
  }

  lemma {:induction false} JoinedSnoc(chunks: ChunkMap, ids: seq<string>, id: string)
    requires id in chunks && forall x :: x in ids ==> x in chunks
    ensures Joined(chunks, ids + [id]) == Joined(chunks, ids) + chunks[id]
  {
    if ids == [] {
      assert [] + [id] == [id] && [id][1..] == [];
    } else {
      assert (ids + [id])[1..] == ids[1..] + [id];
      JoinedSnoc(chunks, ids[1..], id);
    }
  }

  predicate Intact(hash: Hash, chunks: ChunkMap, id: string) { id in chunks && hash(chunks[id]) == id }

  predicate AllIntact(hash: Hash, chunks: ChunkMap, ids: seq<string>) {
    forall id :: id in ids ==> Intact(hash, chunks, id)
  }

  function Fault(hash: Hash, chunks: ChunkMap, id: string): Error {
    if id !in chunks then ChunkMissing(id) else HashMismatch(id, hash(chunks[id]))
  }

  lemma {:induction false} AssembleJoins(hash: Hash, chunks: ChunkMap, ids: seq<string>)
    requires AllIntact(hash, chunks, ids)
    ensures Assemble(hash, chunks, ids) == Ok(Joined(chunks, ids))
  {
    if ids != [] {
      var front, last := ids[..|ids| - 1], ids[|ids| - 1];
      assert Intact(hash, chunks, last);
      AssembleJoins(hash, chunks, front);
      JoinedSnoc(chunks, front, last);
      assert ids == front + [last];
    }
  }

  /** The first chunk that is missing or does not match its id decides the error. */
  lemma AssembleStops(hash: Hash, chunks: ChunkMap, ids: seq<string>, n: nat)
    requires n < |ids| && !Intact(hash, chunks, ids[n]) && AllIntact(hash, chunks, ids[..n])
    ensures Assemble(hash, chunks, ids) == Err(Fault(hash, chunks, ids[n]))
  {
    AssembleJoins(hash, chunks, ids[..n]);
    assert ids[..n + 1][..n] == ids[..n];
    AssembleFails(hash, chunks, ids, n + 1);
  }

  lemma {:induction false} FindFirst(l: seq<Manifest>, i: nat)
    requires i < |l| && forall j :: 0 <= j < i ==> l[j].id != l[i].id
    ensures Find(l, l[i].id) == Some(l[i])
  {
    if i > 0 { FindFirst(l[1..], i - 1); }
  }

  lemma {:induction false} FindNone(l: seq<Manifest>, id: string)
    requires forall m :: m in l ==> m.id != id
    ensures Find(l, id) == None
  {
    if l != [] { FindNone(l[1..], id); }
  }

  predicate RestoresFrom(hash: Hash, r: Repo, ids: seq<string>, result: Result<Bytes, Error>) {
    && (AllIntact(hash, r.chunks, ids) ==> result == Ok(Joined(r.chunks, ids)))
    && forall n: nat :: n < |ids| && !Intact(hash, r.chunks, ids[n]) && AllIntact(hash, r.chunks, ids[..n]) ==>
                          result == Err(Fault(hash, r.chunks, ids[n]))
  }

  /** Restoring, case by case: no snapshot of that id; every chunk of the first one intact; or the
      first chunk of it that is not. */
  lemma RestoreCases(hash: Hash, r: Repo, id: string)
    ensures (forall m :: m in r.snapshots ==> m.id != id) ==> Restored(hash, r, id) == Err(SnapshotNotFound(id))
    ensures forall i :: 0 <= i < |r.snapshots| && r.snapshots[i].id == id
                        && (forall j :: 0 <= j < i ==> r.snapshots[j].id != id) ==>
                          RestoresFrom(hash, r, r.snapshots[i].chunkIds, Restored(hash, r, id))
  {
    if forall m :: m in r.snapshots ==> m.id != id { FindNone(r.snapshots, id); }
    forall i | 0 <= i < |r.snapshots| && r.snapshots[i].id == id && forall j :: 0 <= j < i ==> r.snapshots[j].id != id
      ensures RestoresFrom(hash, r, r.snapshots[i].chunkIds, Restored(hash, r, id))
    {
      FindFirst(r.snapshots, i);
      var ids := r.snapshots[i].chunkIds;
      if AllIntact(hash, r.chunks, ids) { AssembleJoins(hash, r.chunks, ids); }
      forall n: nat | n < |ids| && !Intact(hash, r.chunks, ids[n]) && AllIntact(hash, r.chunks, ids[..n])
        ensures Assemble(hash, r.chunks, ids) == Err(Fault(hash, r.chunks, ids[n]))
      {
        AssembleStops(hash, r.chunks, ids, n);
      }
    }
  }

  lemma {:induction false} AssembleFails(hash: Hash, chunks: ChunkMap, ids: seq<string>, n: nat)
    requires n <= |ids| && Assemble(hash, chunks, ids[..n]).Err?
    ensures Assemble(hash, chunks, ids) == Assemble(hash, chunks, ids[..n])
    decreases |ids| - n
  {
    if n == |ids| {
      assert ids[..n] == ids;
    } else {
      assert ids[..|ids| - 1][..n] == ids[..n];
      AssembleFails(hash, chunks, ids[..|ids| - 1], n);
    }
  }

  // ---------- The repository as an object ----------

  class BackupRepo {
    var snapshots: seq<Manifest>
    var chunks: ChunkMap
    const hash: Hash

    function State(): Repo
      reads this
    {
      Repo(snapshots, chunks)
    }

    constructor (hash: Hash)
      ensures State() == Repo([], map[]) && this.hash == hash
    {
      this.hash := hash;
      snapshots, chunks := [], map[];
    }

    method StoreChunk(chunk: Chunk) returns (isNew: bool)
      modifies this
      ensures isNew <==> chunk.id !in old(chunks)
      ensures snapshots == old(snapshots) && chunks == StoreOne(old(chunks), chunk)
      ensures chunks == if isNew then old(chunks)[chunk.id := chunk.data] else old(chunks)
    {
      if chunk.id in chunks {
        isNew := false;
      } else {
        chunks := chunks[chunk.id := chunk.data];
        isNew := true;
      }
    }

    /** `id` and `now` are the generated UUID and the clock reading. */
    method CreateSnapshot(hostname: string, paths: seq<string>, cs: seq<Chunk>, tags: seq<string>, id: string, now: int)
      returns (m: Manifest)
      modifies this
      ensures m == Manifest(id, hostname, paths, now, TotalSize(cs), ChunkIds(cs), tags)
      ensures |m.chunkIds| == |cs| && forall i :: 0 <= i < |cs| ==> m.chunkIds[i] == cs[i].id
      ensures snapshots == old(snapshots) + [m] && chunks == StoreAll(old(chunks), cs)
    {
      var total: nat := 0;
      for i := 0 to |cs|
        invariant snapshots == old(snapshots) && chunks == StoreAll(old(chunks), cs[..i])
        invariant total == TotalSize(cs[..i])
      {
        assert cs[..i + 1][..i] == cs[..i];
        total := total + cs[i].originalSize;
        var _ := StoreChunk(cs[i]);
      }
      assert cs[..|cs|] == cs;
      m := Manifest(id, hostname, paths, now, total, ChunkIds(cs), tags);
      snapshots := snapshots + [m];
    }

    method Restore(snapshotId: string) returns (r: Result<Bytes, Error>)
      ensures r == Restored(hash, State(), snapshotId)
    {
      var found := Find(snapshots, snapshotId);
      if found.None? {
        return Err(SnapshotNotFound(snapshotId));
      }
      var ids := found.value.chunkIds;
      var data: Bytes := [];
      for i := 0 to |ids|
        invariant Assemble(hash, chunks, ids[..i]) == Ok(data)
      {
        assert ids[..i + 1][..i] == ids[..i];
        if ids[i] !in chunks {
          AssembleFails(hash, chunks, ids, i + 1);
          return Err(ChunkMissing(ids[i]));
        }
        var computed := hash(chunks[ids[i]]);
        if computed != ids[i] {
          AssembleFails(hash, chunks, ids, i + 1);
          return Err(HashMismatch(ids[i], computed));
        }
        data := data + chunks[ids[i]];
      }
      assert ids[..|ids|] == ids;
      r := Ok(data);
    }

    method DeleteSnapshot(id: string) returns (removed: bool)
      modifies this
      ensures snapshots == Without(old(snapshots), id) && chunks == old(chunks)
      ensures IsPart(snapshots, old(snapshots), (m: Manifest) => m.id != id)
      ensures removed <==> exists m :: m in old(snapshots) && m.id == id
    {
      WithoutSize(snapshots, id);
      WithoutPart(snapshots, id);
      var before := |snapshots|;
      snapshots := Without(snapshots, id);
      removed := |snapshots| < before;
    }

    method Gc() returns (removed: nat)
      modifies this
      ensures State() == Sweep(old(State())) && snapshots == old(snapshots)
      ensures forall id :: id in chunks <==> id in old(chunks) && exists m :: m in snapshots && id in m.chunkIds
      ensures chunks.Keys == old(chunks).Keys * Referenced(snapshots)
      ensures forall id :: id in chunks ==> chunks[id] == old(chunks)[id]
      ensures removed == |old(chunks)| - |chunks| == |old(chunks).Keys - Referenced(snapshots)|
    {
      var referenced := {};
      for i := 0 to |snapshots|
        invariant State() == old(State())
        invariant referenced == Referenced(snapshots[..i])
      {
        assert snapshots[..i + 1] == snapshots[..i] + [snapshots[i]];
        referenced := referenced + set id | id in snapshots[i].chunkIds;
      }
      assert snapshots[..|snapshots|] == snapshots;
      var before := |chunks|;
      SweepSize(chunks, referenced);
      chunks := map id | id in chunks && id in referenced :: chunks[id];
      removed := before - |chunks|;
    }

    method ApplyRetention(p: Policy, c: Calendar) returns (snapshotsRemoved: nat, chunksRemoved: nat)
      modifies this
      ensures State() == Retain(old(State()), p, c)
      ensures IsPart(snapshots, old(snapshots), var keep := Kept(old(snapshots), p, c); (m: Manifest) => m.id in keep)
      ensures forall m :: m in snapshots <==> m in old(snapshots) && m.id in Kept(old(snapshots), p, c)
      ensures chunks.Keys == old(chunks).Keys * Referenced(snapshots)
      ensures forall id :: id in chunks <==> id in old(chunks) && exists m :: m in snapshots && id in m.chunkIds
      ensures forall id :: id in chunks ==> chunks[id] == old(chunks)[id]
      ensures snapshotsRemoved == |old(snapshots)| - |snapshots|
      ensures snapshotsRemoved == |SelectDelete(old(snapshots), Kept(old(snapshots), p, c))|
      ensures chunksRemoved == |old(chunks)| - |chunks| == |old(chunks).Keys - Referenced(snapshots)|
    {
      var keep := SelectKeep(p, c, snapshots);
      var toDelete := SelectDelete(snapshots, keep);
      var before := |snapshots|;
      DeleteSplits(snapshots, keep);
      RetainIsFilter(snapshots, keep, toDelete);
      FilterMembers(snapshots, keep);
      FilterPart(snapshots, keep);
      snapshots := Retained(snapshots, toDelete);
      snapshotsRemoved := before - |snapshots|;
      chunksRemoved := Gc();
    }
  }

  function Retained(l: seq<Manifest>, toDelete: seq<string>): seq<Manifest> {
    if l == [] then []
    else if l[0].id in toDelete then Retained(l[1..], toDelete)
    else [l[0]] + Retained(l[1..], toDelete)
  }

  lemma {:induction false} RetainIsFilterFrom(l: seq<Manifest>, keep: set<string>, toDelete: seq<string>)
    requires forall m :: m in l ==> (m.id in toDelete <==> m.id !in keep)
    ensures Retained(l, toDelete) == Filter(l, keep)
  {
    if l != [] { RetainIsFilterFrom(l[1..], keep, toDelete); }
  }

  lemma RetainIsFilter(l: seq<Manifest>, keep: set<string>, toDelete: seq<string>)
    requires toDelete == SelectDelete(l, keep)
    ensures Retained(l, toDelete) == Filter(l, keep)
  {
    DeleteMembers(l, keep);
    RetainIsFilterFrom(l, keep, toDelete);
  }

  lemma {:induction false} DeleteSplits(l: seq<Manifest>, keep: set<string>)
    ensures |SelectDelete(l, keep)| + |Filter(l, keep)| == |l|
  {
    if l != [] { DeleteSplits(l[1..], keep); }
  }

  lemma {:induction false} WithoutSize(l: seq<Manifest>, id: string)
    ensures |Without(l, id)| <= |l|
    ensures |Without(l, id)| < |l| <==> exists m :: m in l && m.id == id
  {
    if l != [] {
      WithoutSize(l[1..], id);
      assert forall m :: m in l <==> m == l[0] || m in l[1..];
    }
  }

  lemma FilterPart(l: seq<Manifest>, ids: set<string>)
    ensures IsPart(Filter(l, ids), l, (m: Manifest) => m.id in ids)
  {
    var at := FilterIsPart(l, ids, 0);
    assert l[0..] == l;
  }

  lemma {:induction false} WithoutFrom(l: seq<Manifest>, id: string, from: nat) returns (at: seq<nat>)
    requires from <= |l|
    ensures PartAt(Without(l[from..], id), l, (m: Manifest) => m.id != id, from, at)
    decreases |l| - from
  {
    at := [];
    if from < |l| {
      assert l[from..][1..] == l[from + 1..];
      at := WithoutFrom(l, id, from + 1);
      PartStep(Without(l[from + 1..], id), l, (m: Manifest) => m.id != id, from, at);
      if l[from].id != id { at := [from] + at; }
    }
  }

  lemma WithoutPart(l: seq<Manifest>, id: string)
    ensures IsPart(Without(l, id), l, (m: Manifest) => m.id != id)
  {
    var at := WithoutFrom(l, id, 0);
    assert l[0..] == l;
  }

  lemma SweepSize(chunks: ChunkMap, referenced: set<string>)
    ensures var kept := map id | id in chunks && id in referenced :: chunks[id];
            |kept| <= |chunks| && |chunks| - |kept| == |chunks.Keys - referenced|
  {
    var kept := map id | id in chunks && id in referenced :: chunks[id];
    assert kept.Keys == chunks.Keys * referenced;
    assert chunks.Keys == kept.Keys + (chunks.Keys - referenced);
    assert |kept.Keys| == |kept| && |chunks.Keys| == |chunks|;
  }

  // ---------- Every run ----------

  datatype Op =
    | Store(chunk: Chunk)
    | Create(hostname: string, paths: seq<string>, chunks: seq<Chunk>, tags: seq<string>, id: string, now: int)
    | Delete(id: string)
    | Collect
    | ApplyPolicy(policy: Policy, calendar: Calendar)

  function Apply(r: Repo, op: Op): Repo {
    match op
    case Store(c) => r.(chunks := StoreOne(r.chunks, c))
    case Create(h, ps, cs, ts, id, now) =>
      Repo(r.snapshots + [Manifest(id, h, ps, now, TotalSize(cs), ChunkIds(cs), ts)], StoreAll(r.chunks, cs))
    case Delete(id) => r.(snapshots := Without(r.snapshots, id))
    case Collect => Sweep(r)
    case ApplyPolicy(p, c) => Retain(r, p, c)
  }

  function Run(ops: seq<Op>): Repo {
    if ops == [] then Repo([], map[]) else Apply(Run(ops[..|ops| - 1]), ops[|ops| - 1])
  }

  /** The bytes each snapshot id was created from. */
  function Written(ops: seq<Op>): map<string, Bytes> {
    if ops == [] then map[]
    else
      var before, op := Written(ops[..|ops| - 1]), ops[|ops| - 1];
      if op.Create? then before[op.id := Concat(op.chunks)] else before
  }

  ghost predicate CollisionFree(hash: Hash, inPlay: set<Bytes>) {
    forall a, b :: a in inPlay && b in inPlay && hash(a) == hash(b) ==> a == b
  }

  ghost predicate GoodChunk(hash: Hash, inPlay: set<Bytes>, c: Chunk) { WellFormed(hash, c) && c.data in inPlay }

  /** Chunks name their own content, and a new snapshot's id was never used before. */
  ghost predicate LegalOp(hash: Hash, inPlay: set<Bytes>, used: set<string>, op: Op) {
    match op
    case Store(c) => GoodChunk(hash, inPlay, c)
    case Create(_, _, cs, _, id, _) => id !in used && forall c :: c in cs ==> GoodChunk(hash, inPlay, c)
    case _ => true
  }

  ghost predicate Legal(hash: Hash, inPlay: set<Bytes>, ops: seq<Op>) {
    ops == [] || (Legal(hash, inPlay, ops[..|ops| - 1])
                  && LegalOp(hash, inPlay, Written(ops[..|ops| - 1]).Keys, ops[|ops| - 1]))
  }

  ghost predicate GoodChunks(hash: Hash, inPlay: set<Bytes>, chunks: ChunkMap) {
    forall id :: id in chunks ==> hash(chunks[id]) == id && chunks[id] in inPlay
  }

  /** What every reachable repository satisfies. */
  ghost predicate Inv(hash: Hash, inPlay: set<Bytes>, r: Repo, written: map<string, Bytes>) {
    && DistinctIds(r.snapshots)
    && GoodChunks(hash, inPlay, r.chunks)
    && forall m :: m in r.snapshots ==> m.id in written && Assemble(hash, r.chunks, m.chunkIds) == Ok(written[m.id])
  }

  lemma {:induction false} FindListed(l: seq<Manifest>, m: Manifest)
    requires DistinctIds(l) && m in l
    ensures Find(l, m.id) == Some(m)
  {
    if l[0] != m {
      assert m in l[1..];
      var j :| 0 <= j < |l| && l[j] == m;
      assert l[0].id != l[j].id;
      FindListed(l[1..], m);
    }
  }

  /** Assembling reads only the listed ids. */
  lemma {:induction false} AssembleAgrees(hash: Hash, a: ChunkMap, b: ChunkMap, ids: seq<string>)
    requires forall id :: id in ids ==> (id in a <==> id in b) && (id in a ==> a[id] == b[id])
    ensures Assemble(hash, a, ids) == Assemble(hash, b, ids)
  {
    if ids != [] {
      assert ids[|ids| - 1] in ids;
      AssembleAgrees(hash, a, b, ids[..|ids| - 1]);
    }
  }

  lemma {:induction false} AssembledIdsStored(hash: Hash, chunks: ChunkMap, ids: seq<string>)
    requires Assemble(hash, chunks, ids).Ok?
    ensures forall id :: id in ids ==> id in chunks
  {
    if ids != [] {
      AssembledIdsStored(hash, chunks, ids[..|ids| - 1]);
      assert forall id :: id in ids <==> id in ids[..|ids| - 1] || id == ids[|ids| - 1];
    }
  }

  /** Deduplication is sound: every chunk handed in is found again under its id, and nothing
      stored before is disturbed. */
  lemma {:induction false} StoreAllKeeps(hash: Hash, inPlay: set<Bytes>, chunks: ChunkMap, cs: seq<Chunk>)
    requires CollisionFree(hash, inPlay) && GoodChunks(hash, inPlay, chunks)
    requires forall c :: c in cs ==> GoodChunk(hash, inPlay, c)
    ensures var after := StoreAll(chunks, cs);
            && GoodChunks(hash, inPlay, after)
            && (forall id :: id in chunks ==> id in after && after[id] == chunks[id])
            && forall c :: c in cs ==> c.id in after && after[c.id] == c.data
  {
    if cs != [] {
      var front, last := cs[..|cs| - 1], cs[|cs| - 1];
      StoreAllKeeps(hash, inPlay, chunks, front);
      assert forall c :: c in cs <==> c in front || c == last;
    }
  }

  /** Whatever the hash: storing adds exactly the ids handed in, overwrites nothing, and files each
      new id with the data of the first chunk that carries it. */
  lemma {:induction false} StoreAllExact(chunks: ChunkMap, cs: seq<Chunk>)
    ensures var after := StoreAll(chunks, cs);
            && (forall id :: id in after <==> id in chunks || exists c :: c in cs && c.id == id)
            && (forall id :: id in chunks ==> after[id] == chunks[id])
            && forall i :: 0 <= i < |cs| && cs[i].id !in chunks && IsFirst(cs, i) ==> after[cs[i].id] == cs[i].data
  {
    if cs != [] {
      var front, last := cs[..|cs| - 1], cs[|cs| - 1];
      StoreAllExact(chunks, front);
      assert forall c :: c in cs <==> c in front || c == last;
      forall i | 0 <= i < |cs| && IsFirst(cs, i) ensures i < |front| ==> IsFirst(front, i) {}
      if last.id !in chunks && IsFirst(cs, |cs| - 1) {
        assert forall c :: c in front ==> c.id != last.id;
      }
    }
  }

  predicate IsFirst(cs: seq<Chunk>, i: nat)
    requires i < |cs|
  {
    forall j :: 0 <= j < i ==> cs[j].id != cs[i].id
  }

  lemma {:induction false} ConcatSnoc(cs: seq<Chunk>, c: Chunk)
    ensures Concat(cs + [c]) == Concat(cs) + c.data
  {
    if cs == [] {
      assert [c][1..] == [] && [] + [c] == [c];
    } else {
      assert (cs + [c])[1..] == cs[1..] + [c];
      ConcatSnoc(cs[1..], c);
    }
  }

  lemma {:induction false} AssembleStored(hash: Hash, inPlay: set<Bytes>, chunks: ChunkMap, cs: seq<Chunk>)
    requires GoodChunks(hash, inPlay, chunks)
    requires forall c :: c in cs ==> c.id in chunks && chunks[c.id] == c.data
    ensures Assemble(hash, chunks, ChunkIds(cs)) == Ok(Concat(cs))
  {
    if cs != [] {
      var front, last := cs[..|cs| - 1], cs[|cs| - 1];
      AssembleStored(hash, inPlay, chunks, front);
      assert cs == front + [last];
      ConcatSnoc(front, last);
      assert ChunkIds(cs)[..|cs| - 1] == ChunkIds(front);
    }
  }

  lemma {:induction false} WithoutMembers(l: seq<Manifest>, id: string)
    ensures forall m :: m in Without(l, id) <==> m in l && m.id != id
    ensures DistinctIds(l) ==> DistinctIds(Without(l, id))
  {
    if l != [] {
      var rest := l[1..];
      WithoutMembers(rest, id);
      assert forall m :: m in l <==> m == l[0] || m in rest;
      if DistinctIds(l) {
        assert forall m :: m in rest ==> m.id != l[0].id;
      }
    }
  }

  lemma {:induction false} FilterDistinct(l: seq<Manifest>, ids: set<string>)
    requires DistinctIds(l)
    ensures DistinctIds(Filter(l, ids))
  {
    if l != [] {
      FilterDistinct(l[1..], ids);
      FilterMembers(l[1..], ids);
      assert forall m :: m in l[1..] ==> m.id != l[0].id;
    }
  }

  /** Sweeping unreferenced chunks changes no listed snapshot's bytes. */
  lemma SweepKeeps(hash: Hash, inPlay: set<Bytes>, r: Repo, written: map<string, Bytes>)
    requires Inv(hash, inPlay, r, written)
    ensures Inv(hash, inPlay, Sweep(r), written)
  {
    forall m | m in r.snapshots ensures Assemble(hash, Sweep(r).chunks, m.chunkIds) == Ok(written[m.id]) {
      AssembledIdsStored(hash, r.chunks, m.chunkIds);
      AssembleAgrees(hash, r.chunks, Sweep(r).chunks, m.chunkIds);
    }
  }

  lemma StoreKeeps(hash: Hash, inPlay: set<Bytes>, r: Repo, written: map<string, Bytes>, cs: seq<Chunk>)
    requires Inv(hash, inPlay, r, written) && CollisionFree(hash, inPlay)
    requires forall c :: c in cs ==> GoodChunk(hash, inPlay, c)
    ensures Inv(hash, inPlay, r.(chunks := StoreAll(r.chunks, cs)), written)
  {
    StoreAllKeeps(hash, inPlay, r.chunks, cs);
    var after := StoreAll(r.chunks, cs);
    forall m | m in r.snapshots ensures Assemble(hash, after, m.chunkIds) == Ok(written[m.id]) {
      AssembledIdsStored(hash, r.chunks, m.chunkIds);
      AssembleAgrees(hash, r.chunks, after, m.chunkIds);
    }
  }

  lemma CreateKeeps(hash: Hash, inPlay: set<Bytes>, r: Repo, written: map<string, Bytes>, op: Op)
    requires Inv(hash, inPlay, r, written) && CollisionFree(hash, inPlay)
    requires op.Create? && LegalOp(hash, inPlay, written.Keys, op)
    ensures Inv(hash, inPlay, Apply(r, op), written[op.id := Concat(op.chunks)])
  {
    StoreKeeps(hash, inPlay, r, written, op.chunks);
    StoreAllKeeps(hash, inPlay, r.chunks, op.chunks);
    AssembleStored(hash, inPlay, StoreAll(r.chunks, op.chunks), op.chunks);
    forall i | 0 <= i < |r.snapshots| ensures r.snapshots[i].id != op.id { assert r.snapshots[i] in r.snapshots; }
  }

  lemma ApplyKeeps(hash: Hash, inPlay: set<Bytes>, r: Repo, written: map<string, Bytes>, op: Op)
    requires Inv(hash, inPlay, r, written) && CollisionFree(hash, inPlay)
    requires LegalOp(hash, inPlay, written.Keys, op)
    ensures Inv(hash, inPlay, Apply(r, op), if op.Create? then written[op.id := Concat(op.chunks)] else written)
  {
    match op
    case Store(c) =>
      StoreKeeps(hash, inPlay, r, written, [c]);
      assert StoreAll(r.chunks, [c][..0]) == r.chunks;
    case Create(_, _, _, _, _, _) => CreateKeeps(hash, inPlay, r, written, op);
    case Delete(id) => WithoutMembers(r.snapshots, id);
    case Collect => SweepKeeps(hash, inPlay, r, written);
    case ApplyPolicy(p, c) =>
      var keep := Kept(r.snapshots, p, c);
      FilterMembers(r.snapshots, keep);
      FilterDistinct(r.snapshots, keep);
      SweepKeeps(hash, inPlay, r.(snapshots := Filter(r.snapshots, keep)), written);
  }

  lemma {:induction false} RunKeeps(hash: Hash, inPlay: set<Bytes>, ops: seq<Op>)
    requires CollisionFree(hash, inPlay) && Legal(hash, inPlay, ops)
    ensures Inv(hash, inPlay, Run(ops), Written(ops))
  {
    if ops != [] {
      var before, op := ops[..|ops| - 1], ops[|ops| - 1];
      RunKeeps(hash, inPlay, before);
      ApplyKeeps(hash, inPlay, Run(before), Written(before), op);
    }
  }

  /** Whole-run safety: after any legal sequence of operations every snapshot still listed
      restores to exactly the bytes it was created from. */
  lemma ListedSnapshotsRestore(hash: Hash, inPlay: set<Bytes>, ops: seq<Op>, m: Manifest)
    requires CollisionFree(hash, inPlay) && Legal(hash, inPlay, ops) && m in Run(ops).snapshots
    ensures m.id in Written(ops) && Restored(hash, Run(ops), m.id) == Ok(Written(ops)[m.id])
  {
    RunKeeps(hash, inPlay, ops);
    FindListed(Run(ops).snapshots, m);
  }

  lemma {:induction false} WrittenOnce(hash: Hash, inPlay: set<Bytes>, ops: seq<Op>, k: nat)
    requires Legal(hash, inPlay, ops) && k < |ops| && ops[k].Create?
    ensures ops[k].id in Written(ops) && Written(ops)[ops[k].id] == Concat(ops[k].chunks)
  {
    if k < |ops| - 1 { WrittenOnce(hash, inPlay, ops[..|ops| - 1], k); }
  }

  /** In particular a snapshot of chunked data gives the data back, however many stores, deletions,
      collections and retention runs came in between. */
  lemma ChunkedDataRestores(hash: Hash, inPlay: set<Bytes>, ops: seq<Op>, k: nat, data: Bytes, size: nat)
    requires CollisionFree(hash, inPlay) && Legal(hash, inPlay, ops) && size > 0
    requires k < |ops| && ops[k].Create? && ops[k].chunks == ChunkData(hash, data, size)
    requires exists m :: m in Run(ops).snapshots && m.id == ops[k].id
    ensures Restored(hash, Run(ops), ops[k].id) == Ok(data)
  {
    var m :| m in Run(ops).snapshots && m.id == ops[k].id;
    ListedSnapshotsRestore(hash, inPlay, ops, m);
    WrittenOnce(hash, inPlay, ops, k);
    ChunksReassemble(hash, data, size);
  }
}
