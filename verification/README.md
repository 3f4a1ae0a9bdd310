# runesh: verified models of its algorithmic cores

runesh is an IT-management toolkit written in Rust. This project models the parts of it that are
algorithms rather than input and output, and proves what they promise:

- `HuJson`, `HuJsonMeaning`, `HuJsonTokens`, `HuJsonCommas`, `HuJsonLines`: the one-pass HuJSON-to-JSON converter
  against a two-pass reading of the text; what the tokens are, what is dropped, and on which line the rest ends up, in
  characters.
- `Groups`, `GroupListing`: the depth-first group-cycle check, group expansion with its order and errors, and tag
  ownership, on arbitrary reference graphs.
- `AclEval`, `AclMeaning`, `AclPermissive`, `AclDiff`: the first-match rule evaluator, what a policy allows in terms of
  the connection, the documented treatment of unresolved groups, and the effect of a policy change on active sessions.
- `PortMap`, `PortExactness`, `MapBuilder`: compiling rules into port ranges by probing span ends, when that loses
  nothing, and one node's view of the mesh.
- `Retention`, `RetentionOrder`, `BackupRepo`, `BackupStore`: grandfather-father-son retention and its dependence on the
  listing order, the content-addressed repository over whole runs, and garbage collection and retention against the
  in-memory store.
- `AuditChain`, `AuditLayout`: the length-prefixed field encoding and its bytes, the hash chain, verification and
  appending.
- `SessionStore`, `SessionCapacity`, `SessionAge`: the two maps of the OIDC session store as a step system, one lock
  acquisition per step, any number of operations in flight; how far the size limit can be exceeded, and how old a
  session can get.
- `RateLimit`, `RateDisorder`, `RedisScript`: the sliding-window limiter over whole runs, what it guarantees when clock
  readings arrive out of order, and the Redis script that replaces it.
- `Baselines`, `BaselineOrder`: composing a baseline with its chain of ancestors, and where each declaration comes from.
- `CursorBlit`, `CursorBytes`: drawing a cursor sprite into a frame buffer in place, and what that does to each byte.

Code that changes state is modelled by classes and methods with loops, each proved equal to a function on values;
the theorems are about those functions and about sequences of operations. What such a function computes is also stated
without it, in characters, fields, bytes or positions of its input. Clock readings, generated UUIDs and
tokens, calendar period keys, and the order in which a hash map lists its entries are inputs or arbitrary choices.
Hash functions are parameters: stored content is assumed free of collisions among the data in play, and chain
uniqueness is stated as "same log, or here is a collision".

## Where the code and its promises part

- `evaluate` documents that a rule referencing an unresolvable destination group is skipped, and its permissive form
  that such a target behaves as non-matching. The code ends the evaluation with the default denial when it reaches such
  a target, and never looks at one that follows a match. For either reading `AclPermissive.AsDocumentedIff` says exactly
  when the full answers agree; `UnresolvedRuleFirst`, `UnresolvedTargetFirst` and `UnresolvedTargetLast` are policies on
  which they do not, the last one allowing what the documentation denies.
- `compose` merges the root first and lets what is already there win, so among ancestors the oldest one wins, not the
  nearest. `OldestAncestorWins` states the result, `NearestWinsIff` when nearest-wins would agree,
  `GrandparentOverridesParent` an example.
- `allowed_ports` probes only the two ends of each merged span, and on its fast path only ports 0 and 65535.
  `PortExactness.ExactIff` is a finite check of the policy that succeeds exactly when the compiled ports are the allowed
  ones; `DeniedInsideSpan` and `DeniedOnFastPath` are policies that compile to too much, `LostInsideSpan` one that
  compiles to nothing although a port is allowed, so that a reachable peer is not listed (`ListedIsReachable`).
- A packet filter appends `/32` to every address. That is the address itself exactly for IPv4; an IPv6 address is
  widened to a block of 2^96 (`BlockIsAddressIff`, `FilterExactIff`, `WidenedLoopback`).
- `to_json` documents that a line comment is removed with its newline and a block comment entirely; the code keeps
  every newline (`NewlinesPreserved`). The two agree exactly when no comment contains one
  (`HuJsonMeaning.AsDocumentedIff`, `NewlineStays`).
- Converting HuJSON twice differs from converting once exactly when two commas stand before a closing bracket
  (`IdempotentIff`, `DoubledComma`).
- The session limit is checked before the session is stored: with k starters in flight the store can hold
  `max + k - 1` sessions and no more (`CapacityBound`, `CapacityReached`), so the limit holds in every run exactly when
  starters cannot overlap (`LimitHoldsIff`).
- Sessions are documented to expire after ten minutes, but a lookup never looks at the age: a session is found exactly
  until it is removed or a sweep with a late enough cutoff runs (`PresentIff`, `AgeAfterSweep`, `OldSessionFound`).
- Retention is documented to accept its list in any order. With distinct ids the order is irrelevant exactly when
  creation times are distinct (`OrderIrrelevantIff`); among equals the first listed is kept (`FirstOfTwo`).
- Offline retention deletes by a map from id to name, so a repeated id leaves a manifest behind (`DeletesExactly`,
  `SharedIdStaysBehind`).
- The audit log promises that modifying or deleting any entry breaks verification. Deleting is noticed exactly when
  something follows (`DeletionNoticedIff`), and so is rewriting an entry together with its hash
  (`ResealingNoticedIff`).
- The audit sequence counter is 64 bits wide; a log stays valid exactly as long as it does not run out
  (`AppendsVerify`, `CounterRunsOut`).
- The rate limiter reads the clock before it takes the lock, so readings can arrive out of order. With disorder up to d
  the limit holds for exactly the intervals of length at most the window less d (`WindowBoundIff`); that checks answer by
  the accepts of the last window, and that cleanups change no answer, holds in all such runs exactly for d = 0
  (`ByHistoryIff`, `CleanupUnseenIff`). `OneTooMany`, `ForgottenHistory` and `CleanupSeen` are the runs.
- The Redis script expires keys by the server's clock. For given timestamps and server readings it always answers as the
  in-memory limiter exactly when no key expires while its window lasts (`SameDecisionsIff`, `ExpiryShows`).
- The blitter computes indices in 32 bits. Every small sprite is drawn right on frames of given dimensions exactly when
  their bytes can be counted in 31 bits (`FrameFitsIff`, `DotIsLost`).

## Model

| member | source | states |
|---|---|---|
| HuJson.ToJson | crates/runesh-acl/src/hujson.rs:36-165 | the loop with six states and a deferred comma returns the tokenized text with comments replaced by their newlines and held commas settled by the next significant token, or the error of the unterminated token |
| HuJson.ReadNormal | crates/runesh-acl/src/hujson.rs:85-106 | one character with no comma held: output so far followed by what remains to be produced never changes |
| HuJson.ReadInside | crates/runesh-acl/src/hujson.rs:108-145 | one character of a string or comment keeps the same quantity |
| HuJson.AtEnd | crates/runesh-acl/src/hujson.rs:149-164 | at the end of input a held comma is kept and only open strings and block comments are errors |
| HuJsonMeaning.TwoPass | crates/runesh-acl/src/hujson.rs:21-165 | for every input: same errors as the reference reading; on success the output tokenizes without comments, and its significant tokens are the input's with every comma before a closing bracket dropped (which tokens, whitespace and brackets are meant is stated by `LexIff`, `BlankIff` and `DroppedIff`) |
| HuJsonMeaning.FlushDropsTrailing | crates/runesh-acl/src/hujson.rs:48-83 | deferring the comma does what looking ahead past whitespace and comments would do |
| HuJsonMeaning.LexKeepsText | crates/runesh-acl/src/hujson.rs:44-147 | the reference tokens concatenate to the input |
| HuJsonMeaning.Relex | crates/runesh-acl/src/hujson.rs:44-147 | comment-free well-cut tokens are what their own text tokenizes to |
| HuJsonMeaning.FlushIsWellCut | crates/runesh-acl/src/hujson.rs:48-107 | dropping comments and commas never joins two characters into a comment opener |
| HuJsonMeaning.LiteralsPreserved | crates/runesh-acl/src/hujson.rs:30 | every string literal survives unchanged and in order |
| HuJsonMeaning.NewlinesPreserved | crates/runesh-acl/src/hujson.rs:120-145 | the output has as many newlines as the input |
| HuJsonMeaning.AsDocumentedIff | crates/runesh-acl/src/hujson.rs:24-30 | the output equals the documented one, comments removed with their newlines, if and only if no comment contains a newline |
| HuJsonMeaning.NewlineStays | crates/runesh-acl/src/hujson.rs:120-125 | the shortest input on which they differ |
| HuJsonMeaning.IdentityIff | crates/runesh-acl/src/hujson.rs:36-165 | an input is returned unchanged if and only if it tokenizes, has no comments and no trailing commas |
| HuJsonMeaning.IdempotentIff | crates/runesh-acl/src/hujson.rs:36-165 | converting the output again changes nothing if and only if no closing bracket follows two commas |
| HuJsonMeaning.DoubledComma | crates/runesh-acl/src/hujson.rs:36-165 | an input that two conversions change twice |
| HuJsonTokens.StringEndIff | crates/runesh-acl/src/hujson.rs:108-118 | a string ends at the first quote preceded by an even number of backslashes |
| HuJsonTokens.LexIff | crates/runesh-acl/src/hujson.rs:44-147 | the tokens of a text are exactly the list whose texts concatenate to it and each of which is a string up to its closing quote, a line comment up to its newline or the end, a block comment up to its first star-slash, or a character that opens none of them |
| HuJsonTokens.LexFails | crates/runesh-acl/src/hujson.rs:149-164 | when a text has no tokens, a string or a block comment opens after some tokens and never ends, and the error says which |
| HuJsonCommas.BlankIff | crates/runesh-acl/src/hujson.rs:50-51 | what counts as whitespace, by code point: space, tab, carriage return, line feed and the other 21 |
| HuJsonCommas.DroppedIff | crates/runesh-acl/src/hujson.rs:48-107 | for every text that reads as tokens, newlines aside, the output reads as the input without comments and without exactly those commas that only whitespace and comments separate from a `]` or a `}` |
| HuJsonLines.LinesKept | crates/runesh-acl/src/hujson.rs:48-145 | every token of the output other than whitespace and commas is a token of the input, in order and on the same line |
| Groups.CheckGroupCycle | crates/runesh-acl/src/model.rs:287-304 | succeeds, with the path set restored, if and only if no walk from the name returns to the path or to itself; a reported group lies on a cycle; terminates on every graph |
| Groups.StuckStep | crates/runesh-acl/src/model.rs:292-302 | one level of the search equals the search below some group member |
| Groups.StuckIsCycle | crates/runesh-acl/src/model.rs:278-284 | started from every declared group with an empty path, the search fails somewhere if and only if the graph has a cycle |
| Groups.Validate | crates/runesh-acl/src/model.rs:259-285 | succeeds if and only if group keys begin with `group:`, tag keys with `tag:`, and the reference graph is acyclic, whatever the listing order; otherwise a key without its prefix or a group on a cycle is named, groups before tags before cycles |
| Groups.ResolveGroupInner | crates/runesh-acl/src/model.rs:314-336 | pushes the expansion, restores the path on success, reports the first error |
| Groups.ResolveGroup | crates/runesh-acl/src/model.rs:307-312 | expansion from an empty path; an undeclared group is named |
| Groups.ExpandMeaning | crates/runesh-acl/src/model.rs:314-336 | on any graph: success if and only if the search is not stuck and every reachable group is declared, and then exactly the reachable non-group members |
| Groups.ResolveOnValidated | crates/runesh-acl/src/model.rs:307-336 | on an acyclic policy never a cycle error, success if and only if every reachable group is declared, members exactly the reachable ones |
| GroupListing.PathIrrelevant | crates/runesh-acl/src/model.rs:314-336 | where no walk is stuck the expansion does not depend on the path |
| GroupListing.MembersInOrder | crates/runesh-acl/src/model.rs:307-336 | the members of a group are those of its entries, one after the other as written, an entry with the prefix `group:` standing for the members of that group |
| GroupListing.PartsExist | crates/runesh-acl/src/model.rs:307-336 | whenever a group can be expanded, so can each group it names |
| GroupListing.FirstFailure | crates/runesh-acl/src/model.rs:314-336 | off cycles the first entry that cannot be expanded gives the error |
| GroupListing.ReportedGroup | crates/runesh-acl/src/model.rs:314-336 | the group an error names can be reached from the one asked for, and is undeclared or on a cycle |
| Groups.OwnsMeaning | crates/runesh-coord/src/types.rs:170-188 | an owner entry admits the identity exactly by `*`, by name, by a named group, or by a group that resolves and contains it |
| Groups.ValidateTagsMeaning | crates/runesh-coord/src/types.rs:158-195 | accepted if and only if every tag is prefixed and owned; otherwise the first tag that is not is named |
| AclEval.TryEvaluate | crates/runesh-acl/src/eval.rs:151-194 | the rule loop with its early exits equals the recursive first-match evaluation, errors included; `AclMeaning.TryEvaluateIff` says what that answers |
| AclEval.FirstMatchWins | crates/runesh-acl/src/eval.rs:151-194 | the first rule whose outcome is not "no match", and it alone, gives the answer; without one the default denial |
| AclEval.AllowedIff | crates/runesh-acl/src/eval.rs:238-259 | allowed if and only if the deciding rule matches and accepts; in terms of the connection `AclMeaning.EvaluateIff` |
| AclMeaning.FromIff | crates/runesh-acl/src/eval.rs:262-293 | when a source target applies: the user, a group listed with the connection or containing the user, the tag, the address, the block, the alias, `autogroup:member` with a user, `autogroup:tagged` with a tag |
| AclMeaning.ToIff | crates/runesh-acl/src/eval.rs:196-234 | when a destination target applies: some port range holds the port, and the host is the user, a group containing the user by the resolver or the policy, the tag, the address, the block, the alias, `autogroup:internet`, or `autogroup:self` between equal addresses; an unresolved group is an error |
| AclMeaning.TryEvaluateIff | crates/runesh-acl/src/eval.rs:151-194 | for every policy, resolver and connection: the first rule whose protocol and some source apply and that has a destination not passed over decides, by its first such destination: an error naming the group if it is unresolved, otherwise the rule's action and index; without one the default denial |
| AclMeaning.EvaluateIff | crates/runesh-acl/src/eval.rs:238-259 | a connection is allowed if and only if that first rule accepts and its destination applies |
| AclMeaning.SourceKinds | crates/runesh-acl/src/eval.rs:262-293 | for each kind of source, when a policy of one rule with that source allows a connection, in fields of the connection; groups by reachability in the reference graph |
| AclMeaning.DestinationKinds | crates/runesh-acl/src/eval.rs:196-234 | the same for each kind of destination |
| AclMeaning.PortAndProtocol | crates/runesh-acl/src/eval.rs:155-160 | the same for port ranges and protocol |
| AclEval.DecidedIsStable | crates/runesh-acl/src/eval.rs:151-194 | appending rules never changes a decided context |
| AclEval.SourceSideOnly | crates/runesh-acl/src/eval.rs:262-293 | source matching reads only the source side of a connection |
| AclEval.DestinationSideOnly | crates/runesh-acl/src/eval.rs:196-234 | destination matching reads only the destination side, `autogroup:self` apart, and the port only through the target's port set, outside which nothing matches |
| AclPermissive.AsDocumentedIff | crates/runesh-acl/src/eval.rs:243-259 | for both documented readings (skip a rule that references an unresolved group, or only the target): the full answer agrees if and only if the evaluation neither ends at a fault although some rule should answer, nor answers from a rule that should be skipped; only the latter can allow what the documentation denies |
| AclPermissive.FaultIff | crates/runesh-acl/src/eval.rs:171-181 | a rule faults if and only if it applies to the connection and reaches an undeclared group before a matching destination |
| AclPermissive.UnresolvedRuleFirst | crates/runesh-acl/src/eval.rs:243-259 | an unresolved rule before a rule for everything: both readings answer with the second rule, whatever its action, the code with the default denial |
| AclPermissive.UnresolvedTargetFirst | crates/runesh-acl/src/eval.rs:252-259 | an unresolved and a matching destination in one rule: skipping the target allows, the code and skipping the rule deny |
| AclPermissive.UnresolvedTargetLast | crates/runesh-acl/src/eval.rs:243-259 | a matching and then an unresolved destination in one rule: the code allows, skipping the rule denies |
| AclDiff.DiffExact | crates/runesh-acl/src/diff.rs:73-103 | each session whose decision changes, evaluated with its own users, groups, tags, addresses and port, no destination owner and no protocol, stands with effect and both rule indices at the position given by the changed sessions before it, and nothing else is listed |
| AclDiff.CountsMeaning | crates/runesh-acl/src/diff.rs:106-119 | the counts are the sessions lost one way and gained the other |
| AclDiff.SwapPolicies | crates/runesh-acl/src/diff.rs:73-119 | exchanging the policies exchanges drops and allows entry by entry |
| PortMap.MergeRanges | crates/runesh-coord/src/mapper.rs:293-311 | sort, then one pass editing the last span in place, equals the fold |
| PortMap.MergedKeeps | crates/runesh-coord/src/mapper.rs:293-311 | merging preserves the port set of any input, reversed ranges included, and invents no end points |
| PortMap.MergedGapped | crates/runesh-coord/src/mapper.rs:293-311 | merged spans are ordered with a free port between neighbours for any input; none is reversed unless one came in |
| PortMap.NormalizedKeeps | crates/runesh-coord/src/mapper.rs:202-205 | sort, dedup and merge together keep ports, end points, gaps and non-emptiness |
| PortMap.CollectCandidates | crates/runesh-coord/src/mapper.rs:183-200 | the candidate ranges of all rules, unparsable destinations skipped |
| PortMap.ProbeSpans | crates/runesh-coord/src/mapper.rs:207-236 | each span is kept, cut to one allowed end, or dropped by probing its two ends |
| PortMap.ComputeAllowedPorts | crates/runesh-coord/src/mapper.rs:166-241 | fast path, collect, merge, probe, merge |
| PortMap.EndpointsAllowed | crates/runesh-coord/src/mapper.rs:137-241 | both ends of every returned range are ports the evaluator allows |
| PortMap.AllowedInSpans | crates/runesh-coord/src/mapper.rs:183-205 | every allowed port lies in a merged candidate span |
| PortExactness.ConstantSuffices | crates/runesh-coord/src/mapper.rs:207-241 | off the fast path, a constant decision on each merged span gives exactly the allowed ports |
| PortExactness.SameAsBelow | crates/runesh-coord/src/mapper.rs:183-205 | the decision changes only at a port where a written range begins or has just ended |
| PortExactness.ExactIff | crates/runesh-coord/src/mapper.rs:137-241 | for every policy and connection the compiled ports are exactly the allowed ones if and only if a finite check succeeds: on the fast path every boundary port is allowed; off it, in each span with both ends allowed every boundary is, and in any other span no port at or right after a boundary is allowed, the probed end of a reversed range aside |
| PortExactness.CandidateIff | crates/runesh-coord/src/mapper.rs:183-200 | the candidates are exactly the ranges written in some parsable destination, all ports for a star |
| PortExactness.CompiledIff | crates/runesh-coord/src/mapper.rs:166-241 | a port is compiled if and only if ports 0 and 65535 are both allowed, or it lies in a merged span with both ends allowed, or is the one allowed end of a merged span |
| PortExactness.DeniedOnFastPath | crates/runesh-coord/src/mapper.rs:166-181 | ports denied before everything is accepted: the fast path compiles to all ports |
| PortExactness.DeniedInsideSpan | crates/runesh-coord/src/mapper.rs:207-241 | ports denied inside an accepted range: off the fast path the compiled range contains them |
| PortExactness.NothingCompiledIff | crates/runesh-coord/src/mapper.rs:166-241 | no port is compiled if and only if neither the fast path nor any span end is allowed |
| PortExactness.ReachableIff | crates/runesh-coord/src/mapper.rs:124-128 | some port is allowed if and only if some boundary port is |
| PortExactness.LostInsideSpan | crates/runesh-coord/src/mapper.rs:207-241 | ports for everyone inside a range for a tag: without the tag they are allowed and nothing is compiled |
| MapBuilder.Builder.constructor | crates/runesh-coord/src/mapper.rs:31-40 | starts with no nodes and no users |
| MapBuilder.Builder.SetAcl | crates/runesh-coord/src/mapper.rs:54-56 | replaces the policy only |
| MapBuilder.Builder.UpsertNode | crates/runesh-coord/src/mapper.rs:58-60 | one node under its own id, the rest unchanged |
| MapBuilder.Builder.RemoveNode | crates/runesh-coord/src/mapper.rs:62-64 | one node fewer, the rest unchanged |
| MapBuilder.Builder.UpsertUser | crates/runesh-coord/src/mapper.rs:66-68 | one user under its own id, the rest unchanged |
| MapBuilder.Builder.CollectPeers | crates/runesh-coord/src/mapper.rs:79-107 | exactly the other authorized addressed nodes with a non-empty outbound port set, once each, and each known owner of one of them once |
| MapBuilder.Builder.BuildPacketFilter | crates/runesh-coord/src/mapper.rs:244-284 | one rule per other authorized addressed node with a non-empty inbound port set |
| MapBuilder.Builder.BuildMap | crates/runesh-coord/src/mapper.rs:74-122 | nothing for an unknown or addressless node; otherwise exactly the other authorized addressed nodes it has ports to, each known owner of one of them once, and one filter rule for each such node with ports to it, in every state reached by upserts and removals |
| MapBuilder.OwnersSnoc | crates/runesh-coord/src/mapper.rs:97-105 | adding a peer's owner keeps owners unique and complete |
| MapBuilder.ListedIsReachable | crates/runesh-coord/src/mapper.rs:124-164 | a listed peer can be reached on some port, on the connection from the first node's login, tags and address to the second's, with no groups and no protocol; a reachable peer goes unlisted if and only if, off the fast path, some boundary port is allowed but no span end |
| MapBuilder.FilterMeaning | crates/runesh-coord/src/mapper.rs:154-164 | a filter rule carries the peer's and the node's address with `/32` appended and ranges whose ends the evaluator allows on the connection from the peer's login, tags and address to the node's |
| MapBuilder.FilterPorts | crates/runesh-coord/src/mapper.rs:260-280 | where the compiled ports are exact, the rule lists exactly the allowed ports |
| MapBuilder.BlockIsAddressIff | crates/runesh-coord/src/mapper.rs:269-278 | the `/32` block of an address is that address alone if and only if it is IPv4 |
| MapBuilder.FilterExactIff | crates/runesh-coord/src/mapper.rs:260-280 | with exact ports, the rule admits the evaluated connection and nothing else if and only if both addresses are IPv4 |
| MapBuilder.WidenedLoopback | crates/runesh-coord/src/mapper.rs:269-278 | the block made for `::1` also holds `::` |
| Retention.Fill | crates/runesh-backup/src/lib.rs:150-172 | one bucket, with its early stop, adds the first snapshot of each period while fewer than the limit were seen |
| Retention.SelectKeep | crates/runesh-backup/src/lib.rs:135-190 | the union of the newest snapshots and the four buckets |
| Retention.SortedSorts | crates/runesh-backup/src/lib.rs:137-138 | the order is newest first and a permutation of the input |
| Retention.FilterSorted | crates/runesh-backup/src/lib.rs:137-138 | dropping snapshots commutes with the stable sort |
| Retention.Idempotent | crates/runesh-backup/src/lib.rs:135-190 | selecting again from what was kept keeps all of it, for every calendar, ties and repeated ids included |
| Retention.SecondPassDeletesNothing | crates/runesh-backup/src/lib.rs:194-201 | a second `select_delete` on the survivors is empty |
| Retention.DeleteMembers | crates/runesh-backup/src/lib.rs:192-201 | the ids to delete are exactly the listed ones not kept |
| Retention.KeptSize | crates/runesh-backup/src/lib.rs:135-190 | at most the sum of the five limits is kept |
| Retention.BucketIsMostRecentPeriods | crates/runesh-backup/src/lib.rs:125-134 | a bucket picks exactly the newest snapshot of each period followed by fewer than `limit` later periods |
| Retention.KeptMeaning | crates/runesh-backup/src/lib.rs:87-134 | an id is kept if and only if one of its snapshots is among the newest `keep_last` or the newest of one of the most recent days, weeks, months or years, each with its own limit |
| RetentionOrder.OrderIrrelevantIff | crates/runesh-backup/src/lib.rs:125-126 | for distinct ids the listing order is irrelevant to every policy and calendar if and only if creation times are distinct |
| RetentionOrder.FirstOfTwo | crates/runesh-backup/src/lib.rs:137-145 | two snapshots of one time and one place: the first listed is kept |
| BackupRepo.ChunksReassemble | crates/runesh-backup/src/lib.rs:52-63 | chunks concatenate to the input, carry their own hash, and all but the last are full |
| BackupRepo.SizesAddUp | crates/runesh-backup/src/lib.rs:242 | the recorded size of a snapshot is the number of bytes in its chunks |
| BackupRepo.BackupRepo.StoreChunk | crates/runesh-backup/src/lib.rs:219-226 | stores a new id with its data, leaves a known one alone, and says which |
| BackupRepo.BackupRepo.CreateSnapshot | crates/runesh-backup/src/lib.rs:234-259 | stores the chunks and appends a manifest listing their ids in order |
| BackupRepo.BackupRepo.Restore | crates/runesh-backup/src/lib.rs:303-326 | the concatenated chunks of the first snapshot with the id, or the first missing or mismatching chunk |
| BackupRepo.RestoreCases | crates/runesh-backup/src/lib.rs:303-326 | restoring answers that there is no such snapshot, the bytes of the first one's chunks joined in order when all are present and match their id, and otherwise the fault of the first chunk that does not |
| BackupRepo.BackupRepo.DeleteSnapshot | crates/runesh-backup/src/lib.rs:334-338 | leaves exactly the snapshots with another id, in order, and says whether there was one |
| BackupRepo.BackupRepo.Gc | crates/runesh-backup/src/lib.rs:355-364 | keeps a chunk, with its data, if and only if some snapshot lists it, and counts the others |
| BackupRepo.BackupRepo.ApplyRetention | crates/runesh-backup/src/lib.rs:369-376 | the snapshots that stay are exactly those the policy keeps, in the old order; the chunks that stay are exactly those they list, with their data; both counts are what went |
| BackupRepo.StoreAllKeeps | crates/runesh-backup/src/lib.rs:219-226 | deduplication is sound: chunks are found again and nothing stored before is disturbed |
| BackupRepo.StoreAllExact | crates/runesh-backup/src/lib.rs:219-247 | whatever the hash: storing adds exactly the ids handed in, overwrites nothing, and files each new id with the first chunk that carries it |
| BackupRepo.SweepKeeps | crates/runesh-backup/src/lib.rs:355-364 | collection changes no listed snapshot's bytes |
| BackupRepo.ApplyKeeps | crates/runesh-backup/src/lib.rs:219-376 | every operation keeps the invariant |
| BackupRepo.RunKeeps | crates/runesh-backup/src/lib.rs:213-376 | every run from an empty repository keeps the invariant |
| BackupRepo.ListedSnapshotsRestore | crates/runesh-backup/src/lib.rs:213-376 | after any run every listed snapshot restores to the bytes it was created from |
| BackupRepo.ChunkedDataRestores | crates/runesh-backup/src/lib.rs:52-376 | a snapshot of chunked data restores to the data for every positive chunk size |
| BackupStore.InMemoryBackupStore.PutChunk | crates/runesh-backup/src/store.rs:136-140 | overwrites one chunk |
| BackupStore.InMemoryBackupStore.GetChunk | crates/runesh-backup/src/store.rs:142-157 | the chunk, or missing, or a hash mismatch |
| BackupStore.InMemoryBackupStore.WriteManifest | crates/runesh-backup/src/store.rs:163-167 | overwrites one manifest |
| BackupStore.InMemoryBackupStore.ListManifests | crates/runesh-backup/src/store.rs:177-179 | each name once, in some order |
| BackupStore.InMemoryBackupStore.ListChunks | crates/runesh-backup/src/store.rs:191-193 | each chunk id once, in some order |
| BackupStore.InMemoryBackupStore.Mark | crates/runesh-backup/src/store.rs:66-72 | the chunk ids referenced by some manifest |
| BackupStore.InMemoryBackupStore.SweepUnmarked | crates/runesh-backup/src/store.rs:73-81 | leaves exactly the marked chunks, with their data, and counts the others |
| BackupStore.InMemoryBackupStore.GcOffline | crates/runesh-backup/src/store.rs:65-82 | a chunk remains, with its data, if and only if some manifest lists it, with the exact count of the others |
| BackupStore.InMemoryBackupStore.LoadAll | crates/runesh-backup/src/store.rs:92-101 | the manifests in listing order and the map from id to the name listed last |
| BackupStore.InMemoryBackupStore.DeleteByName | crates/runesh-backup/src/store.rs:103-111 | removes the named manifest of each id given up and counts the ids |
| BackupStore.InMemoryBackupStore.ApplyRetentionOffline | crates/runesh-backup/src/store.rs:88-114 | selection, deletion and collection in sequence, with both counts |
| BackupStore.InMemoryBackupStore.RestoreManifestTo | crates/runesh-backup/src/store.rs:424-454 | writes exactly the assembled bytes, or fails with the first chunk error |
| BackupStore.DeletesExactly | crates/runesh-backup/src/store.rs:88-114 | what remains is exactly what the policy keeps if and only if no id given up has two names |
| BackupStore.SharedIdStaysBehind | crates/runesh-backup/src/store.rs:88-114 | two names with one id: one manifest stays, two are counted |
| BackupStore.RetentionExact | crates/runesh-backup/src/store.rs:65-114 | with distinct ids and times: exactly the kept manifests whatever the listing order, the exact removal count, and every survivor restores as before |
| BackupStore.KeptCount | crates/runesh-backup/src/store.rs:103-111 | the ids given up are as many as the manifests minus the kept ones |
| BackupStore.LoadedPermutes | crates/runesh-backup/src/store.rs:92-101 | listing orders give permutations of the same manifests |
| AuditChain.EncodingInjective | crates/runesh-audit/src/lib.rs:96-106 | no two field lists feed the same bytes to the hasher |
| AuditChain.ContentInjective | crates/runesh-audit/src/lib.rs:108-138 | two entries hash the same bytes if and only if they agree on every hashed field, an absent tenant counting as empty |
| AuditChain.Hasher.UpdateField | crates/runesh-audit/src/lib.rs:101-106 | absorbs length-prefixed name and value |
| AuditChain.ComputeHash | crates/runesh-audit/src/lib.rs:110-138 | the digest of the ten encoded fields in order |
| AuditLayout.ContentLayout | crates/runesh-audit/src/lib.rs:101-138 | the hashed bytes are the ten fields by name in this order, each name and value after its length as eight bytes, most significant first |
| AuditChain.VerifyEntries | crates/runesh-audit/src/lib.rs:153-189 | succeeds if and only if every entry carries the hash of the one before it, a larger number and its own hash; otherwise the first entry that does not, as a broken chain or as a number out of order |
| AuditChain.ChainUnique | crates/runesh-audit/src/lib.rs:101-189 | two verified logs with the same final hash are the same log, or contain two entries that collide |
| AuditChain.TamperingLocated | crates/runesh-audit/src/lib.rs:153-189 | rewriting the hashed content of one entry is reported at that entry, and only such a rewriting is |
| AuditChain.DeletionNoticedIff | crates/runesh-audit/src/lib.rs:4-6 | deleting a stretch of entries is reported at its place if and only if something follows it |
| AuditChain.ResealingNoticedIff | crates/runesh-audit/src/lib.rs:4-6 | rewriting an entry together with its hash is reported at the next entry, if and only if there is one |
| AuditChain.AppendsVerify | crates/runesh-audit/src/lib.rs:341-418 | appends keep a verified log verified if and only if the 64-bit counter does not run out |
| AuditChain.AppendsRecord | crates/runesh-audit/src/lib.rs:341-418 | after any appends the old entries stand unchanged and each request is the next entry: id, timestamp, actor, action, resource, details, severity and tenant its own, the hash before it, its own hash, and the next number modulo 2^64 |
| AuditChain.SequenceIncreases | crates/runesh-audit/src/lib.rs:153-189 | sequence numbers increase strictly and stay below the next one |
| AuditChain.CounterRunsOut | crates/runesh-audit/src/lib.rs:356 | one append after the largest number breaks verification |
| AuditChain.AuditSink.Append | crates/runesh-audit/src/lib.rs:217-222 | stores the entry completely or not at all |
| AuditChain.AuditLog.FromEntries | crates/runesh-audit/src/lib.rs:320-328 | a log of exactly these entries if and only if they verify |
| AuditChain.AuditLog.Load | crates/runesh-audit/src/lib.rs:331-336 | a log holding exactly what the sink holds |
| AuditChain.AuditLog.WithSink | crates/runesh-audit/src/lib.rs:312-315 | attaching a sink with the same entries makes the log durable |
| AuditChain.AuditLog.Append | crates/runesh-audit/src/lib.rs:341-418 | the entry reaches the sink first; a failing sink changes nothing; otherwise the log is extended by one entry holding the request field by field, linked and numbered; log and sink stay equal; the log stays valid if and only if the counter does not wrap |
| SessionStore.NextKeeps | crates/runesh-auth/src/oidc.rs:482-586 | every step of every operation keeps the invariant linking sessions, index, operations in flight and issued states |
| SessionStore.RunKeeps | crates/runesh-auth/src/oidc.rs:463-587 | every state of every interleaving satisfies it |
| SessionStore.StoredIsFindable | crates/runesh-auth/src/oidc.rs:482-586 | every stored session is found through the state index |
| SessionStore.LookupNeverMixesStates | crates/runesh-auth/src/oidc.rs:552-559 | a lookup never answers with a session of another state, whatever happened between its two steps |
| SessionStore.QuiescentInverse | crates/runesh-auth/src/oidc.rs:463-587 | with nothing in flight the index is exactly the inverse of the session map |
| SessionAge.PresentIff | crates/runesh-auth/src/oidc.rs:482-586 | in every interleaving a session is present if and only if it was stored and has since been neither removed nor swept with a cutoff at or past its creation |
| SessionAge.AgeAfterSweep | crates/runesh-auth/src/oidc.rs:571-586 | what is found after a sweep was created after its cutoff, or stored after it |
| SessionAge.OldSessionFound | crates/runesh-auth/src/oidc.rs:462 | for every age, a run at whose end a lookup finds a session that old |
| SessionCapacity.LoadStep | crates/runesh-auth/src/oidc.rs:482-548 | stored plus committed sessions grow only at a check that saw room |
| SessionCapacity.CapacityBound | crates/runesh-auth/src/oidc.rs:482-548 | with at most k starters in flight the store holds at most `max + k - 1` sessions |
| SessionCapacity.CapacityReached | crates/runesh-auth/src/oidc.rs:482-548 | for every positive limit and number of starters, a run from the empty store with no more starters in flight that ends with `max + k - 1` sessions |
| SessionCapacity.LimitHoldsIff | crates/runesh-auth/src/oidc.rs:482-548 | the limit holds in every run with at most k starters in flight if and only if k is at most one, or nothing may be stored at all |
| SessionCapacity.StartAlone | crates/runesh-auth/src/oidc.rs:486-493 | a start that finds the store half full or more first takes out exactly the sessions at or before the cutoff and their states; otherwise it goes straight to the check |
| RateLimit.InMemoryRateLimiter.Check | crates/runesh-core/src/rate_limit.rs:54-74 | prunes the key, answers whether it is below the limit, and records an accept |
| RateLimit.Retain | crates/runesh-core/src/rate_limit.rs:60-60 | the retain loop keeps exactly the timestamps inside the window, in order |
| RateLimit.InMemoryRateLimiter.Cleanup | crates/runesh-core/src/rate_limit.rs:77-84 | the loop over keys leaves for every key what any later check would see, and no empty key |
| RateLimit.HistoryKept | crates/runesh-core/src/rate_limit.rs:54-84 | after any run the map and the full history of accepts have the same live timestamps |
| RateLimit.AcceptIff | crates/runesh-core/src/rate_limit.rs:54-74 | accepted if and only if fewer than the limit of earlier accepts lie in the window |
| RateDisorder.SkewedWindowBound | crates/runesh-core/src/rate_limit.rs:54-74 | for readings at most d behind an earlier one: no half-open interval of the window less d holds more accepts than the limit |
| RateDisorder.WindowBoundIff | crates/runesh-core/src/rate_limit.rs:54-74 | no interval of a given length holds more accepts than the limit, in any run with disorder up to d, if and only if it is no longer than the window less d (or nothing is ever accepted) |
| RateDisorder.OneTooMany | crates/runesh-core/src/rate_limit.rs:54-84 | for every longer interval, a run with one accept too many in it |
| RateDisorder.ByHistoryIff | crates/runesh-core/src/rate_limit.rs:54-74 | checks answer by the accepts of the last window in all runs with disorder up to d if and only if d is zero, or window or limit is |
| RateDisorder.CleanupUnseenIff | crates/runesh-core/src/rate_limit.rs:38-84 | cleanups change no answer in all such runs under exactly the same condition |
| RateLimit.CleanupInvisible | crates/runesh-core/src/rate_limit.rs:38-84 | cleanups anywhere in a run change no answer |
| RedisScript.ScriptHistory | crates/runesh-core/src/rate_limit.rs:171-187 | when no key expires while its window lasts, the script's sorted set has as many members in the window as the history has live accepts, and the answers agree |
| RedisScript.Ttl | crates/runesh-core/src/rate_limit.rs:182 | keys live for the least whole number of seconds that covers the window |
| RedisScript.SameDecisionsIff | crates/runesh-core/src/rate_limit.rs:171-187 | for given timestamps in order and given server readings, script and in-memory limiter agree for every limit and every assignment of checks, keys and cleanups if and only if no key expires while its window lasts |
| RedisScript.ExpiryShows | crates/runesh-core/src/rate_limit.rs:171-187 | whenever one does, limit one and two checks of a key tell them apart |
| Baselines.InheritVars | crates/runesh-baseline/src/lib.rs:200-203 | parent variables are defaults |
| Baselines.CollectByKey | crates/runesh-baseline/src/lib.rs:205-221 | the first loop gives the last declaration of each key and the keys in order of first appearance |
| Baselines.MergeStates | crates/runesh-baseline/src/lib.rs:205-226 | both loops give one declaration per key, the last one, in order of first appearance |
| Baselines.MergeParent | crates/runesh-baseline/src/lib.rs:199-227 | the child's name, parent and mode; its variables over the parent's; the merged declarations of parent and child (by positions `BaselineOrder.MergedAt`) |
| Baselines.MergeKeepsWinners | crates/runesh-baseline/src/lib.rs:205-226 | merging leaves each key once and keeps its last declaration; no two declarations of one kind about one thing remain |
| BaselineOrder.MergedAt | crates/runesh-baseline/src/lib.rs:205-226 | merged declarations stand in the order in which their things first appear, each the last one about its thing, by positions in the input |
| Baselines.Compose | crates/runesh-baseline/src/lib.rs:234-260 | terminates; a cycle error if and only if the chain revisits an id, with the offending chain; a missing parent is named; otherwise the fold over exactly the ancestors, with the baseline's own name, parent and mode |
| Baselines.MergeAncestors | crates/runesh-baseline/src/lib.rs:255-258 | the second loop is the fold from the root |
| BaselineOrder.FoldAt | crates/runesh-baseline/src/lib.rs:234-260 | a composed baseline has its own name, parent and mode, and its declarations are the merge of all states along the chain, nearest ancestor first and its own last, by positions |
| BaselineOrder.MergeTwice | crates/runesh-baseline/src/lib.rs:205-226 | merging a tail beforehand changes nothing |
| Baselines.OldestAncestorWins | crates/runesh-baseline/src/lib.rs:255-259 | for every key of the chain the child's last declaration, otherwise the oldest ancestor's; once per key when there is an ancestor |
| Baselines.OldestVarWins | crates/runesh-baseline/src/lib.rs:200-203 | the same for variables |
| Baselines.NearestWinsIff | crates/runesh-baseline/src/lib.rs:255-259 | nearest-ancestor-wins agrees if and only if for every key not declared by the child the nearest and the oldest declaration are equal |
| Baselines.GrandparentOverridesParent | crates/runesh-baseline/src/lib.rs:255-259 | a chain where the grandparent's version replaces the parent's |
| CursorBlit.Blit | crates/runesh-desktop/src/cursor.rs:302-355 | for every frame, sprite and position the array ends as the 32-bit computation, turn by turn, says (byte by byte `CursorBytes.CoveredBytes` and `ClearBytes`) |
| CursorBlit.BlitPixel | crates/runesh-desktop/src/cursor.rs:311-353 | one turn of the inner loop, with its bounds and transparency checks |
| CursorBlit.WritePixel | crates/runesh-desktop/src/cursor.rs:331-352 | bytes 0, 1 and 2 become blue, green and red of the sprite pixel over what was there, rounded down, byte 3 becomes 255, and no other byte changes |
| CursorBlit.BlittedIsDrawn | crates/runesh-desktop/src/cursor.rs:302-355 | where sizes fit in 31 bits every byte ends as drawn: the overlap blended, the rest untouched |
| CursorBlit.FrameFitsIff | crates/runesh-desktop/src/cursor.rs:318-319 | every small sprite is drawn right everywhere on frames of given dimensions if and only if their bytes can be counted in 31 bits |
| CursorBlit.DotIsLost | crates/runesh-desktop/src/cursor.rs:318-323 | a dot that is not drawn, on every black frame beyond that size |
| CursorBlit.DrawnPixel | crates/runesh-desktop/src/cursor.rs:302-355 | in frame coordinates: a pixel under the sprite becomes the blend of itself and the sprite pixel over it; every other pixel keeps its bytes |
| CursorBytes.CoveredBytes | crates/runesh-desktop/src/cursor.rs:321-352 | a frame pixel under a sprite pixel that is not fully transparent: bytes 0, 1, 2 are sprite bytes 2, 1, 0 over the frame's, rounded down, and byte 3 is 255 |
| CursorBytes.OpaqueIsCopied | crates/runesh-desktop/src/cursor.rs:335-340 | for an opaque sprite pixel that means bytes 2, 1, 0 and 255 |
| CursorBytes.ClearBytes | crates/runesh-desktop/src/cursor.rs:312-333 | under no sprite pixel, or a fully transparent one, a frame pixel keeps its bytes |
| CursorBytes.OutsideUntouched | crates/runesh-desktop/src/cursor.rs:302-355 | bytes that belong to no whole pixel of the frame are left alone |
| CursorBlit.MixBetween | crates/runesh-desktop/src/cursor.rs:342-350 | a blended channel lies between the sprite's and the frame's, and equals one of them at full or no coverage |
| CursorBlit.WrapAgrees | crates/runesh-desktop/src/cursor.rs:306-316 | a wrapped 32-bit coordinate is on the frame if and only if the true one is |

## Left out

- BackupRepo.BackupRepo.CreateSnapshot: the 64-bit sum of chunk sizes is modelled without overflow.
- RedisScript.SameDecisionsIff: timestamps passed to the script are in order; the fallback when Redis is unreachable is not modelled.
- CursorBlit.Blit: 32-bit arithmetic wraps as in a release build; a build with overflow checks would stop instead.
- SessionStore.NextKeeps: the session store is a step system on values rather than a class, because the interleaving of lock acquisitions is the point; the limit of 10 000 is the parameter `max`, and client-supplied fields of a session are not modelled.
- Groups.CheckGroupCycle: the path and result that the source passes by mutable reference are passed in and returned; their value after an error is not described.
- Baselines.MergeParent: works on a baseline value and returns the merged one, instead of updating the receiver.
- AuditChain.AuditLog.Append: timestamps and JSON details enter the hash as their rendered text; the rendering itself is not modelled, and the counter wraps as in a release build.
- Parsing of targets, destinations, ports, protocols, addresses and address blocks: rules hold the parsed values, and an unparsable destination is `None`.
- SSH rules, route approvers, node attributes and policy tests: flat case tables.
- `FileBackupStore`, `FileAuditSink`, directory scanning and content-defined chunking: file system and library internals.
- DNS, relay and domain fields of the map response: copied through unchanged.
- `composite_cursors`, sprite generation and cursor tracking: repeated blits and constant tables.
- `substitute` and `resolve_vars` of baselines, compliance checking and remediation.
- OIDC discovery and code exchange, token verification, the Redis session store: network calls.
- Everything else in the toolkit (drivers, servers, middleware, CLI, desktop pipelines): input and output.
