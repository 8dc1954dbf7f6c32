# GraphVault verification model

A Dafny model of GraphVault, with proofs about what it promises. GraphVault keeps one object graph in memory, commits it as
versioned records with a write-ahead log, and answers GVQL queries over it through indexes.

The files follow the parts of the system:

- **Graph and disk**: `encoded_graph`, `storage_disk` (records, WAL, transaction log, snapshots, manifest, and the atomic writes).
- **Commit, crash, recovery**: `commit_plan` (the ordered writes), `crash_invariant`, `write_traces`, `commit_safety`,
  `recovery_safety`, `crash_runs` (whole runs with a crash between any two writes), `recovery_idempotence`, `commit_exactness`,
  `write_order`, `commit_contents` (what requests ask for is what the files hold), `lost_files` (loading without some of them),
  `storage_manager` (the writer as classes over a target that may die at any write), `storage_verifier`, `verifier_meaning` (what passing
  tells of a store),
  `concurrent_reads` (a reload look by look while others write), `concurrent_transactions` (several managers, interleaved
  look by look and write by write), `transaction_progress` (who commits), `transaction_details` (with what), `lock_table`.
- **Serializer**: `live_graph` (a heap with cycles and sharing), `serializer`, `deserializer`, `serializer_round_trip`,
  `deserialized_objects` (nodes no serializer wrote).
- **GVQL reading**: `gvql_values`, `gvql_expressions`, `gvql_index`, `gvql_index_keys`, `gvql_advanced_index`, `gvql_matcher`,
  `gvql_planner`, `gvql_selection_safety`, `gvql_plan_equivalence`. What they mean: `gvql_match_counts` (how often and in which order rows
  come), `gvql_where_laws` (WHERE of whole statements), `gvql_live_reads` (queries against live objects), `gvql_path_texts`,
  `gvql_text_terms`, `gvql_unique_keys`, `gvql_planner_reach`. Where planning loses rows: `gvql_plan_limits` (on one graph),
  `gvql_built_indexes` (every graph has indexes), `gvql_statement_limits`, `gvql_exact_guards`, `gvql_exact_tuples`,
  `gvql_exact_properties`, `gvql_exact_kinds` (over all graphs), `gvql_lost_rows` (a concrete graph and statement for each loss),
  `gvql_optional_limits` (a row too many).
- **GVQL writing**: `gvql_node_edits`, `gvql_mutations` (what each clause does), `gvql_editor` (the in-place loops),
  `gvql_mutation_safety`, `gvql_mutation_effects` (what is in the graph afterwards), `gvql_change_reports` (what is reported of it),
  `gvql_merge_idempotence` (when a second MERGE repeats the first), `gvql_merge_guards` (what can be checked
  before it runs), `gvql_update_commit`.
- **Parsing**: `gvql_condition_parser`, `gvql_value_parser`, `gvql_scan_laws` (quotes, keywords and signs).
- **Smaller algorithms**: `storage_subtree`, `storage_subtree_order`, `storage_constraints`, `storage_duplicates`.
- `folding` explains how large invariants are kept folded in proofs; `enumerations` says what it is for one sequence to list parts of
  another, each as often as it occurs and in order.

Conventions. Methods are the source's loops and state changes, each proved equal to a specification function or against a
declarative predicate; the lemmas are about those. Object ids are decimal numerals and appear as numbers. A crash is a cut
between two atomic target writes; an error raised between two writes, such as a lost lock, is such a cut. The hash is an
injective constructor. Host-language details (text of a value, locale order, case mapping, floating point, JSON text) are
parameters collected in `Runtime`, with the few facts relied on stated in `HostLanguage`.

`HostLanguage` is satisfiable: `GvqlIndexKeys.HostLanguageIsMet` gives a runtime that meets it.

Where the code does not do what its documentation says, the model follows the code, and both a failing input and the exact
condition are given (for optional patterns, a condition under which it always happens). For an index definition and a comparison the condition decides, before the statement runs, whether
planning keeps the rows of every graph; `GvqlLostRows` holds one graph and statement for each way to lose a row.

- `docs/INDEXES.md` says a query stays correct on an unconfigured property. With a property configured for one type only, a pattern
  of another type, or without a type, loses rows, and so does a constant that is undefined: `GvqlExactProperties.PropertyExact`,
  `GvqlLostRows.TypedPropertyLosesRow`, `GvqlLostRows.UndefinedConstantLosesRow`.
- `docs/GVQL.md` lists `$kind` as a virtual path. In `=` or `IN` it is looked up as a stored property, where no node has its kind:
  `GvqlExactKinds.KindExact`, `GvqlLostRows.KindLosesRow`.
- An optional pattern whose start planning narrows to nothing leaves its alias unbound, and a later pattern can then bind it to a
  node the first one would not have allowed, which adds a row: `GvqlOptionalLimits.OptionalAddsRow`,
  `GvqlOptionalLimits.NarrowedOptionalAddsRow`.
- A range index leaves out missing values, which WHERE compares as the empty text: `GvqlExactGuards.RangeExact`,
  `GvqlLostRows.MissingValueLosesRow`.
- Any definition with a type loses rows of a pattern without one, and a partial definition loses the nodes outside its condition:
  the same guards, `GvqlLostRows.TypedDefinitionLosesRow`, `GvqlLostRows.PartialDefinitionLosesRow`.
- A text index lists prefixes and suffixes of at most 64 units but looks up longer ones, and it compares normal forms, which
  composition can change at the edge of the needle: `GvqlExactGuards.TextExact`, `GvqlLostRows.LongNeedleLosesRow`,
  `GvqlLostRows.CompositionLosesRow`.
- A full-text index looks up whole words where WHERE looks for a part: `GvqlExactGuards.FullTextExact`,
  `GvqlLostRows.InsideWordLosesRow`.
- An expression index keeps a missing value as it is where WHERE computes null: `GvqlExactGuards.ComputedExact`,
  `GvqlLostRows.NullExpressionLosesRow`.
- A sparse unique or composite index is asked for null although it never lists it: `GvqlExactTuples.TupleExact`,
  `GvqlLostRows.SparseNullLosesRow`.
- The parts of a composite key are joined by a character that a text may contain: then two pairs that differ in both parts share their key,
  and a unique index refuses the second node. Without it tuples share a key exactly when their parts do:
  `GvqlUniqueKeys.TuplesShareKeyIff`, `GvqlUniqueKeys.SeparatorCollides`.
- `docs/GVQL.md` offers `MERGE` for idempotent imports. Running it again repeats the first run exactly when the fields of every job
  still give its ON value, none of these is a big integer, and every clause that merges into its own alias found its node
  (`GvqlMergeIdempotence.MergeRepeatsIff`, `GvqlMergeIdempotence.WholeRepeatsIff`). The fields still do if every path they read is
  settled in the starting graph (`GvqlMergeGuards.SteadyMergeTwice`). One statement fails each of the three:
  `GvqlMergeGuards.ReadingTargetFailsAgain` reads the property it merges into, `GvqlMergeGuards.BigIntegerFailsAgain` compares a big
  integer, `GvqlMergeGuards.OwnAliasDoesNotRepeat` merges into its own alias.
- `cloneRoot` gives an object and its copy the same id. A root that reaches both is stored with one of the two missing:
  `SerializerRoundTrip.RoundTripIff`, `SerializerRoundTrip.CopyIsOverwritten`.
- A reload without the lock, as optimistic transactions do it, can give the empty store although transactions were committed before it
  began. That is so exactly if it found no WAL entry newer than its manifest, another manager's commit recorded its transaction before
  the log was read, and there is no snapshot to fall back to (the production profile writes none):
  `ConcurrentReads.LogDecides`, `ConcurrentReads.CommitHidesStore`. The check under the lock rejects the transaction, so
  `ConcurrentTransactions.Serializable` holds all the same.
- A predicate with AND or OR inside `CASE`, as in `CASE WHEN p AND q THEN 1 END = 1`, is split there, because only quotes and brackets count as
  nesting: `GvqlConditionParser.LeafIff`, `GvqlConditionParser.CaseIsSplit`.
- A commit that keeps nodes at older versions reads back as written only if those nodes did not change in memory:
  `CommitExactness.CommitReadsBackIff`, `CommitExactness.ChangedNodeIsLost`. A record written as JSON only is shadowed by a stale
  binary file of the same number: `CommitExactness.RecordReadableIff`, `CommitExactness.StaleBinaryShadows`.

## Model

| member | source | states |
|---|---|---|
| CrashRuns.CrashSafety | src/storage/storage-committer.ts:50-167 | After any run of sessions that start, commit, stop or die between any two writes, the history is exactly the transactions whose commit marker is on disk, and both loading the disk as it stands and loading it after the next start's recovery give the last of them or the empty store |
| CrashRuns.Durability | src/storage/storage-committer.ts:50-167 | Whatever follows, committed transactions stay the beginning of the history |
| CrashRuns.ManifestNeverMixed | src/storage/storage-reader.ts:212-261 | In every reachable state, mid-commit and mid-recovery included, each version the manifest names has a record with the node of the commit that wrote it, no version is newer than the manifest, and the manifest reads back as the envelope its transaction committed |
| CrashRuns.CommitCutSafe | src/storage/storage-committer.ts:50-113 | A commit cut at any write leaves the store invariant for the old history before its marker and for the extended one from the marker on |
| CrashRuns.CommitDoneSafe | src/storage/storage-committer.ts:116-167 | A whole commit extends the history by its prepared record and leaves the session in step with the published manifest, at its versions and its schema version |
| CommitContents.CommittedAsAsked | src/storage/storage-committer.ts:50-167 | In every reachable state WAL record, marker, log record, snapshot and manifest of every committed transaction hold, field by field, what its request asked for; loading, now or after the next recovery, gives envelope and schema version of the last request, and a running session is at its schema version |
| CommitContents.WholeCommitLogsMetadata | src/storage/storage-committer.ts:131-149 | A commit that is not cut short has logged the metadata of its request |
| CommitContents.WholeCommitDerives | src/storage/storage-committer.ts:150-153 | A whole commit leaves its number in the journal, parent index, constraint record and persistent index, and in the type dictionary exactly when types changed |
| WriteOrder.CommitOrder | src/storage/storage-committer.ts:55-166 | A commit prepares, writes records, types and snapshot, sets its marker, and only then publishes: transaction record, journal, indexes, CURRENT, and the manifest last |
| WriteOrder.RecoveryOrder | src/storage/storage-manager.ts:916-935 | The recovery of one commit writes in the same order, from its records on |
| CrashRuns.StartKeepsInv | src/storage/storage-manager.ts:139-189 | Starting, cut at any write of recovery or not, keeps the invariant and ends in a session in step with the store |
| CrashRuns.MarkersAreHistory | src/storage/storage-reader.ts:117-134 | The numbers with a commit marker are exactly 1 to the length of the history |
| CommitSafety.BeforeMarkerSafe | src/storage/storage-committer.ts:55-79 | Every write before the commit marker leaves the invariant for the old history, and ends with all records of the commit in place |
| CommitSafety.PublishSafe | src/storage/storage-committer.ts:127-166 | Every publication write keeps the invariant, and afterwards manifest, CURRENT and transaction record are those of the last transaction |
| CrashInvariant.StepMarker | src/storage/storage-committer.ts:80-91 | The commit marker is the one write that extends the history |
| CrashInvariant.StepTransaction | src/storage/storage-committer.ts:131-149 | Writing the transaction record keeps the log a gap-free hash chain over the history |
| CrashInvariant.StepManifest | src/storage/storage-writer.ts:92-114 | Writing the manifest keeps every named version readable and never moves past the log |
| RecoverySafety.LoadExact | src/storage/storage-reader.ts:31-89 | Loading any disk that satisfies the invariant yields the envelope, number and schema of the last committed transaction, from the manifest exactly when nothing is pending |
| RecoverySafety.CommitSafe | src/storage/storage-committer.ts:50-167 | If nodes outside the written set are unchanged, the commit is safe at every write and its versions describe the new envelope |
| RecoverySafety.RecoverySafe | src/storage/storage-manager.ts:907-936 | Recovery keeps the invariant at every write and ends with nothing pending |
| RecoverySafety.RecoverySkips | src/storage/storage-manager.ts:911-915 | Recovery performs no write for transactions that are already published |
| RecoveryIdempotence.RecoveryIdempotent | src/storage/storage-manager.ts:907-936 | Recovery cut after any number of writes, any number of times, and then completed, each attempt with a worker order of its own, reaches the same records, snapshots, transaction log, CURRENT and manifest as one uninterrupted recovery |
| RecoveryIdempotence.FullRecovery | src/storage/storage-manager.ts:916-935 | One uninterrupted recovery ends in the described store, in whatever order the record workers finish |
| CommitExactness.CommitReadsBackIff | src/storage/storage-committer.ts:183-209 | A complete commit reads back through its manifest as the envelope it was given if and only if the nodes it keeps at an older version are unchanged |
| CommitExactness.CommitWritesRecords | src/storage/storage-committer.ts:183-209 | A commit writes the records of the requested and the new nodes under its number, in the format asked for, and no other record |
| CommitExactness.EagerKeepsUnwritten | src/storage/storage-manager.ts:754-770 | Commits that write every node always meet that condition |
| CommitExactness.RecordReadableIff | src/storage/storage-reader.ts:229-243 | A written record is read back if and only if no stale binary file of the same id and number shadows a JSON-only write |
| CommitExactness.StaleBinaryShadows | src/storage/storage-reader.ts:229-243 | A JSON-only record beside a stale binary file of its number is not read back |
| CommitExactness.ChangedNodeIsLost | src/storage/storage-committer.ts:183-209 | A node changed in memory and not among the ids of a standard commit is not read back as committed |
| LostFiles.WithoutManifest | src/storage/storage-reader.ts:31-47 | A reachable store without its manifest still loads the last committed transaction, from the WAL |
| LostFiles.WithoutItsWal | src/storage/storage-reader.ts:40-55 | Without its WAL it loads the manifest's graph unless the log is ahead of the manifest; then it falls back to the snapshot rather than give the older graph |
| LostFiles.SnapshotLoads | src/storage/storage-reader.ts:57-72 | The CURRENT snapshot is that of a committed transaction, with the schema version of its log record |
| LostFiles.WithoutWalAndManifest | src/storage/storage-reader.ts:57-72 | Without WAL and manifest the snapshot is loaded; a lost snapshot file is an error, not an empty store |
| LostFiles.WithoutRecord | src/storage/storage-reader.ts:44-55 | A manifest with an unreadable record is not loaded in part: the snapshot is |
| LostFiles.WithoutVersions | src/storage/storage-reader.ts:255-261 | A manifest without object versions, of a transaction that wrote every node, loads as with them |
| StorageManagement.StorageManager.CommitEnvelope | src/storage/storage-committer.ts:50-113 | Performs exactly the planned writes in order up to the write at which the process dies; on success the session is the next one, at the request's schema version, otherwise unchanged |
| StorageManagement.StorageManager.PublishPreparedCommit | src/storage/storage-committer.ts:116-167 | Performs exactly the publication plan for the log found on disk |
| StorageManagement.StorageManager.WriteThroughMarker | src/storage/storage-committer.ts:59-91 | Performs the writes up to and including the commit marker |
| StorageManagement.StorageManager.RecoverCommittedWal | src/storage/storage-manager.ts:907-936 | Performs exactly the recovery plan of the disk it found, reading the disk anew before each entry |
| StorageManagement.StorageManager.RecoverCommit | src/storage/storage-manager.ts:911-935 | One recovered entry performs exactly its part of that plan |
| StorageManagement.StorageManager.Start | src/storage/storage-manager.ts:139-189 | Recovers, then loads; a start that dies leaves no session |
| StorageManagement.StorageTarget.LoadExistingEnvelope | src/storage/storage-reader.ts:31-72 | The branch over WAL, manifest and snapshot equals the loading specification |
| StorageManagement.StorageTarget.ReadLatestCommittedWal | src/storage/storage-reader.ts:74-89 | Finds the newest committed entry whose prepared record is there and matches |
| StorageManagement.NextVersions | src/storage/storage-committer.ts:197-209 | Written and new ids get the new number, all others keep theirs |
| StorageManagement.CommitIsStep | src/storage/storage-committer.ts:50-113 | What the commit method does to the disk is one step of the run semantics, cut where the process died |
| StorageManagement.StartIsStep | src/storage/storage-manager.ts:139-189 | What starting does is one step of the run semantics, with the same session |
| StorageVerifier.ReachableAccepted | src/storage/storage-verifier.ts:30-133 | After the first commit marker every reachable disk passes verification, and the pending commits are exactly the last one while its manifest is unpublished |
| StorageVerifier.VerifyStorage | src/storage/storage-verifier.ts:30-133 | Reports exactly the findings that hold of the store, each kind said separately, is ok exactly when WAL, hash chain, manifest and graph are accepted, and counts the pending commits |
| StorageVerifier.VerifyTransactionIntegrity | src/storage/storage-verifier.ts:157-216 | Reports exactly the records with a wrong previous hash, own hash or snapshot hash, and where the manifest disagrees with its record |
| StorageVerifier.VerifyWal | src/storage/storage-verifier.ts:218-275 | Reports exactly the commit markers whose prepared record is missing, of another number or of another schema version, and counts the unpublished markers |
| StorageVerifier.VerifyGraph | src/storage/storage-verifier.ts:60-110 | Reports exactly the listed objects that are unreadable or misnamed, the references to unlisted ones, and the missing lazy payloads |
| VerifierMeaning.HashPinsLog | src/storage/storage-verifier.ts:157-205 | In two accepted logs, equal hashes are of the same record, and every record below it is the same |
| VerifierMeaning.AcceptedStoresAgree | src/storage/storage-verifier.ts:157-216 | Two accepted stores whose manifests carry the same hash have the same transactions up to it and the same content in every snapshot these name |
| VerifierMeaning.AcceptedLoads | src/storage/storage-verifier.ts:30-133 | An accepted store, reachable or not, loads the newest commit at its marker's schema version, or, when nothing is newer, the manifest's closed graph with every record named by its id and every lazy payload there; never a snapshot |
| ConcurrentTransactions.Serializable | src/storage/storage-manager.ts:772-865 | For any interleaving of optimistic and pessimistic transactions of several managers, their reads look by look and their commits write by write, commits are numbered without gaps, each root is its own callback applied to the root just below, and loading the disk as it then stands gives the last one |
| ConcurrentTransactions.FailedAttemptChangesNothing | src/storage/storage-manager.ts:796-835 | An attempt that conflicts or throws leaves disk, history, lock and every other manager as they were |
| ConcurrentTransactions.NextKeepsInv | src/storage/storage-manager.ts:772-865 | Every event, down to a single look of a reader or write of a lock holder, keeps the system invariant |
| ConcurrentTransactions.ReloadedIsLast | src/storage/storage-manager.ts:938-957 | Loading a disk on which nobody writes, even in the middle of another manager's commit, gives the last committed root |
| ConcurrentTransactions.ReadsAreCommitted | src/storage/storage-manager.ts:938-957 | A reload finished among other managers' writes holds the root of a committed transaction, and none older than the last one at its start unless it fell back to the snapshot |
| ConcurrentTransactions.CurrentIsLogged | src/storage/storage-manager.ts:899-905 | A transaction counts as the current one as soon as its log record stands, published or not |
| TransactionDetails.RecordedAsCalled | src/storage/storage-manager.ts:754-770 | Whatever the interleaving, WAL and log hold of each transaction the target count, metadata and schema version it was called with, as an eager commit |
| TransactionProgress.LockDecides | src/storage/storage-manager.ts:772-865 | Under the lock an optimistic attempt goes on to write the root it computed if and only if nothing was committed since it read; otherwise it ends and changes nothing |
| TransactionProgress.WorkDecides | src/storage/storage-manager.ts:772-865 | A pessimistic transaction works on the last committed root and goes on to write the result unless its callback throws |
| TransactionProgress.PessimisticCommits | src/storage/storage-manager.ts:772-865 | With the lock free a pessimistic transaction whose callback does not throw can run to a commit of its result, after which the lock is free and a reload gives it |
| TransactionProgress.OptimisticCommits | src/storage/storage-manager.ts:772-865 | So can an optimistic one, read look by look |
| TransactionProgress.ReadingFinishes | src/storage/storage-reader.ts:31-72 | A read that nobody disturbs ends, with the last committed root |
| ConcurrentReads.LookStep | src/storage/storage-reader.ts:31-89 | Each look at manifest, WAL, log, record, CURRENT or snapshot, at whatever the disk is by then, keeps what the read knows: committed content only |
| ConcurrentReads.LookLater | src/storage/storage-reader.ts:31-89 | Writes of other managers between two looks do not disturb a read: an old manifest stays readable |
| ConcurrentReads.UndisturbedReload | src/storage/storage-reader.ts:31-89 | While nobody writes, reading look by look in any record order ends with the last committed root |
| ConcurrentReads.LogDecides | src/storage/storage-reader.ts:40-55 | A read without newer WAL entry gives its manifest's transaction if and only if the log it reads is not ahead; otherwise, without snapshots, the empty store |
| ConcurrentReads.CommitHidesStore | src/storage/storage-reader.ts:40-60 | In any store without snapshots, a commit between the WAL and the log look makes the read give the empty store |
| LockTable.LockMap.TryAcquire | src/storage/storage-target.ts:253-270 | A free or stale lock is taken with the next token and the returned handle is valid; otherwise nothing changes |
| LockTable.LockMap.AssertValid | src/storage/storage-target.ts:271-276 | Holds exactly when the lock held now carries the handle's token |
| LockTable.LockMap.ReleaseLock | src/storage/storage-target.ts:277-281 | Frees the key only for a valid handle and otherwise changes nothing |
| LockTable.LockMap.RemovePath | src/storage/storage-target.ts:231-234 | Removing the path frees the key and leaves the tokens as they are, so the lemmas below hold across it |
| LockTable.TokensIncrease | src/storage/storage-target.ts:266-268 | Over every run the tokens of a key strictly increase |
| LockTable.OnlyLastIsValid | src/storage/storage-target.ts:271-276 | At most one handle of a key is valid, and it is the last one handed out |
| LockTable.InvalidForever | src/storage/storage-target.ts:253-283 | A handle that lost its lock never becomes valid again |
| LockTable.StaleReleaseIsHarmless | src/storage/storage-target.ts:277-281 | Releasing through an older handle leaves the newer lock valid |
| LockTable.TakeoverFences | src/storage/storage-target.ts:256-268 | Taking a lock invalidates every earlier handle of the key |
| LockTable.AcquiredIff | src/storage/storage-target.ts:253-270 | A look of the acquiring loop hands out a handle if and only if no handle of the key is valid or the lock held is stale |
| LockTable.ValidUntil | src/storage/storage-target.ts:231-283 | A valid handle stays valid exactly until its own release, a takeover of its stale lock or the removal of its path |
| LockTable.FreedByRelease | src/storage/storage-target.ts:231-281 | After release or removal no handle of the key is valid |
| Serializer.ObjectIdRegistry.IdFor | src/core/serializer.ts:82-90 | Known objects keep their id, new ones get the next number |
| Serializer.ObjectIdRegistry.Remember | src/core/serializer.ts:93-99 | The id is associated and the next number stays above all numbers in use |
| Serializer.Encoding.Serialize | src/core/serializer.ts:114-253 | Terminates on any heap with cycles and sharing; names exactly the reachable objects and writes one node per id in use, the root's own under its id; every object is encoded if and only if the registry gives no two of them one id |
| Deserializer.Decoding.Deserialize | src/core/serializer.ts:257-431 | Succeeds exactly when every reachable id has a node of a known type; then each reachable node has one object, filled from it, registered under its id |
| Deserializer.RefusedIff | src/core/serializer.ts:262-303 | A node is refused exactly when it is missing or of a class that is not registered |
| DeserializedObjects.DecodedMap | src/core/serializer.ts:304-431 | Any map node becomes a map with each key once, holding the value its last entry gives it |
| DeserializedObjects.DecodedKeys | src/core/serializer.ts:304-431 | Its keys stand as the members of a set filled with the entries' keys do |
| DeserializedObjects.DecodedRecord | src/core/serializer.ts:304-431 | Any object node becomes an object of its class with each property once, holding the last value given for it |
| DeserializedObjects.DecodedSet | src/core/serializer.ts:304-431 | Any set node becomes a set with each member once |
| GvqlLiveReads.FieldReads | src/gvql/gvql-values.ts:68-75 | A query reads a property of a serialized object as the live field of that name: the same value, the id of the object it points to, or undefined if there is no such field |
| GvqlLiveReads.ItemReads | src/gvql/gvql-values.ts:75-78 | An item of an array or set reads as the live item at that place |
| GvqlLiveReads.EntryReads | src/gvql/gvql-values.ts:79-83 | Key and value of a map entry read as those of the live entry at that place |
| GvqlLiveReads.KindReads | src/gvql/gvql-executor.ts:568-574 | Kind and type read as the live object's, the type only where its class is registered |
| SerializerRoundTrip.RoundTrip | src/core/serializer.ts:114-431 | Decoding an encoding gives a graph isomorphic to the original: one bijection respecting every array slot, map entry, set member and property |
| SerializerRoundTrip.CloneRoot | src/storage/storage-manager.ts:959-963 | The rollback copy always succeeds, each copy carries its original's id, and the copy is isomorphic to the live root if and only if no two of its objects share an id |
| SerializerRoundTrip.CopySerializesAlike | src/core/serializer.ts:93-99 | Serializing the copy under the ids it carries gives the same envelope |
| SerializerRoundTrip.RoundTripIff | src/core/serializer.ts:82-99 | Whatever ids the registry gives, what is read back is isomorphic under some renaming if and only if no two reachable objects share an id |
| SerializerRoundTrip.SharedIdsLoseObjects | src/core/serializer.ts:209-253 | With a shared id no decoding is isomorphic: it has fewer objects |
| SerializerRoundTrip.CopyIsOverwritten | src/core/serializer.ts:209-253 | An object that holds a copy under its own id is written as exactly one node that refers to itself |
| SerializerRoundTrip.EncodingClosed | src/core/serializer.ts:114-253 | A serialized envelope is closed under references and contains its root, shared ids or not |
| SerializerRoundTrip.EncodingReachable | src/core/serializer.ts:114-253 | Its nodes are exactly the ids reachable from its root |
| SerializerRoundTrip.EncodingLoadable | src/core/serializer.ts:262-303 | Every reachable node of a serialized envelope can be given an object again |
| GvqlIndex.BuildGraphIndex | src/gvql/gvql-index.ts:15-69 | Type lists and both edge lists are exactly the envelope's, in node order; a node is in a property bucket exactly when it has an indexed property of that key |
| GvqlIndex.IncomingIsTranspose | src/gvql/gvql-index.ts:47-54 | The incoming index is the exact transpose of the outgoing one |
| GvqlIndex.EdgeWitnessed | src/gvql/gvql-index.ts:114-146 | An edge is indexed exactly where its source node holds that reference at that path, over array, set, map and property positions |
| GvqlIndex.IndexProperties | src/gvql/gvql-index.ts:37-45 | A node is listed under exactly the plain and type-qualified keys of its indexed property values |
| GvqlMatcher.MatchPattern | src/gvql/gvql-executor.ts:187-219 | The loops produce the specified sequence of bindings, optional inputs kept where nothing matches; `GvqlMatchCounts` says which rows these are, how often and in which order |
| GvqlMatcher.TraversePatternChain | src/gvql/gvql-executor.ts:221-245 | The loops over links, bindings and edges produce the specified expansion, one row for each followed edge |
| GvqlMatcher.MatchOneExact | src/gvql/gvql-executor.ts:201-216 | A binding is produced exactly when it adds the pattern's aliases to its input, types hold and each link is witnessed by a reference of the right direction and label |
| GvqlMatcher.MatchOnePaths | src/gvql/gvql-executor.ts:221-245 | A pattern matches exactly the paths of the graph: the nodes bound to its aliases from left to right, each link leading from one to the next |
| GvqlMatchCounts.EdgesOnce | src/gvql/gvql-index.ts:114-123 | The edges of a node are its reference positions, one for one and in their order |
| GvqlMatchCounts.EdgesByEnd | src/gvql/gvql-index.ts:52-60 | The edge lists of a node are the edges that leave or enter it, each once, in the order of all edges |
| GvqlMatchCounts.TypesOnce | src/gvql/gvql-index.ts:23-40 | The type index lists the nodes of a type, each once, in the order of the nodes |
| GvqlMatchCounts.EntryVisitsAt | src/gvql/gvql-index.ts:131-137 | A map is visited entry by entry, key before value, under their paths |
| GvqlMatchCounts.LabelIsPrefix | src/gvql/gvql-index.ts:148-153 | An edge label is the path up to its first bracket or dot |
| GvqlMatchCounts.FollowOnce | src/gvql/gvql-executor.ts:228-241 | The rows one binding gets from a link correspond one to one, in edge order, to the edges that are allowed, of the right type and agree with the binding |
| GvqlMatchCounts.StartsOnce | src/gvql/gvql-executor.ts:201-211 | The first rows correspond one to one, in order, to the selected starts of the right type |
| GvqlMatchCounts.MatchOneOnce | src/gvql/gvql-executor.ts:187-245 | Each row of a pattern occurs once for each choice of a start and an edge per link that witnesses it, in the order of the choices |
| GvqlMatchCounts.ClauseOnce | src/gvql/gvql-executor.ts:187-219 | A clause takes its inputs in turn; each gives the rows of its choices, or itself once if the clause is optional and there is none |
| GvqlMatcher.MatchExact | src/gvql/gvql-executor.ts:135-151 | For any list of required patterns the bindings are exactly those that bind the patterns' aliases and make every pattern true of the graph |
| GvqlMatcher.OptionalExact | src/gvql/gvql-executor.ts:212-215 | An optional pattern keeps its input exactly when nothing satisfies it |
| GvqlMatcher.InputExtends | src/gvql/gvql-executor.ts:237-239 | Aliases once bound are never rebound, and only the pattern's aliases are added |
| GvqlMatcher.IndexIsGraph | src/gvql/gvql-index.ts:15-69 | The built index satisfies what matching relies on |
| GvqlIndexKeys.HostLanguageIsMet | src/gvql/gvql-index-keys.ts:4-26 | What is assumed of the host language can be met |
| GvqlIndexKeys.EqualTuplesShareKey | src/gvql/gvql-index-keys.ts:4-14 | Values equal to WHERE share their index key, in tuples too |
| GvqlIndexKeys.SharedKeyComparesAlike | src/gvql/gvql-index-keys.ts:4-9 | Values that share a key stand in the same order to every other value |
| GvqlIndexKeys.TextIndexTerms | src/gvql/gvql-index-keys.ts:29-49 | The terms are exactly the short prefixes and suffixes, the grams within bounds and the tokens |
| GvqlIndexKeys.TextLookupTerms | src/gvql/gvql-index-keys.ts:52-66 | A term is looked up exactly when it is the normalised needle as prefix or suffix, or, for CONTAINS, one of its grams of the largest size within bounds that fits; an empty or too short needle gives none |
| GvqlIndexKeys.TermsListedIff | src/gvql/gvql-index-keys.ts:29-66 | For any two normalised texts: every looked-up term lists the value if and only if the needle's pieces are in place in it and a prefix or suffix needle is at most 64 units |
| GvqlIndexKeys.HoldsByPieces | src/gvql/gvql-index-keys.ts:29-66 | Where a text operator holds of two normal forms, the pieces are in place: grams of an occurring needle are grams of the text |
| GvqlIndexKeys.FoldingKeepsForms | src/gvql/gvql-index-keys.ts:17-20 | If normalisation worked character by character, it would keep every needle's pieces in place |
| GvqlIndexKeys.CompositionLosesPrefix | src/gvql/gvql-index-keys.ts:17-20 | It does not: a text in decomposed form starts with `e`, and its normal form is not listed under that prefix |
| GvqlTextTerms.GramListedIff | src/gvql/gvql-index-keys.ts:29-49 | A text is listed under a gram exactly when the gram has a configured size and occurs in the text |
| GvqlTextTerms.AffixListedIff | src/gvql/gvql-index-keys.ts:35-39 | It is listed under a prefix or suffix exactly when that is one, neither empty nor longer than 64 units |
| GvqlTextTerms.LookedUpIff | src/gvql/gvql-index-keys.ts:52-66 | CONTAINS looks up exactly the grams of the needle of the largest configured size that fits, and none if no size fits |
| GvqlPathTexts.DecimalReads | src/gvql/gvql-executor.ts:568-574 | The text of a number is its numeral without leading zeros, so ids have different texts |
| GvqlPathTexts.VisitReads | src/gvql/gvql-index.ts:126-146 | Every value the index visits is read under the path text it is visited at |
| GvqlUniqueKeys.TuplesShareKeyIff | src/gvql/gvql-index-keys.ts:12-14 | Where no part contains the separator, tuples of one length share their key if and only if their parts do |
| GvqlUniqueKeys.SeparatorCollides | src/gvql/gvql-index-keys.ts:12-14 | With the separator inside a text, two pairs that differ in both parts share their key |
| GvqlUniqueKeys.ConflictMeans | src/gvql/gvql-advanced-index.ts:53-66 | An index is refused exactly when unique definitions of one name list two nodes under one key |
| GvqlUniqueKeys.EqualTuplesConflict | src/gvql/gvql-advanced-index.ts:53-66 | Two listed nodes with equal values are refused |
| GvqlAdvancedIndex.BuildAdvancedIndex | src/gvql/gvql-advanced-index.ts:29-68 | A node is in a bucket, or owns a unique key, exactly when a definition lists it there; it fails exactly when two nodes claim one unique key |
| GvqlAdvancedIndex.AddNode | src/gvql/gvql-advanced-index.ts:41-55 | One definition applied to one node adds exactly its listings or reports a real conflict |
| GvqlAdvancedIndex.ListNode | src/gvql/gvql-advanced-index.ts:42-52 | A node is listed under exactly its definition's keys, and range buckets keep a value with their key |
| GvqlPlanner.Candidates | src/gvql/gvql-executor.ts:262-311 | The planner's steps give the specified candidates, or the error of evaluating a constant |
| GvqlPlanner.IndexableExact | src/gvql/gvql-executor.ts:641-687 | An item is served exactly when some predicate of the flattened condition asks for it; one served predicate of a conjunction is enough, a disjunction needs all of them served |
| GvqlPlanner.IndexablePredicates | src/gvql/gvql-executor.ts:641-673 | The loop collects the set that `IndexableExact` characterises |
| GvqlPlanner.UnionCandidates | src/gvql/gvql-executor.ts:403-414 | An id is in the result exactly when some list has it |
| GvqlPlanner.IntersectCandidates | src/gvql/gvql-executor.ts:689-699 | An id is in the result exactly when there is a list and all lists have it |
| GvqlPlanner.SelectionsOffered | src/gvql/gvql-index-planner.ts:23-37 | A selection is among the planner's exactly when some definition offers it for the equalities or for one conjunct |
| GvqlPlanner.FindAdvanced | src/gvql/gvql-index-planner.ts:39-142 | The loops over definitions and predicates collect the selections that `SelectionsOffered` characterises |
| GvqlPlanner.EqualityPredicates | src/gvql/gvql-index-planner.ts:144-152 | A path is present exactly when some predicate equates it with a constant, and its value is the constant of the last such predicate |
| GvqlPlannerReach.TakenApart | src/gvql/gvql-executor.ts:675-687 | A condition is taken apart exactly when it has no NOT and one connective only, into all its predicates in order |
| GvqlPlannerReach.ModeOf | src/gvql/gvql-executor.ts:641-660 | A condition of one connective gets that mode, a single predicate that of AND, any other none |
| GvqlPlannerReach.IndexesLeave | src/gvql/gvql-executor.ts:285-311 | Every selection an advanced index offers narrows the candidates, and so does every property selection that is not a scan |
| GvqlPlannerReach.PlanningFailsIff | src/gvql/gvql-index-planner.ts:39-152 | With advanced indexes a statement fails before any row is matched exactly when its conjuncts hold a constant that an index is asked with and that cannot be evaluated |
| GvqlSelectionSafety.ItemKeeps | src/gvql/gvql-executor.ts:319-401 | A property, `$id` or `$type` selection contains the start of every binding its predicate accepts, under the stated guard |
| GvqlSelectionSafety.TupleKeeps | src/gvql/gvql-index-planner.ts:39-66 | Unique and composite selections contain the start of every binding WHERE accepts |
| GvqlSelectionSafety.ComputedKeeps | src/gvql/gvql-index-planner.ts:68-86 | Expression selections contain the start of every binding their predicate accepts |
| GvqlSelectionSafety.RangeKeeps | src/gvql/gvql-index-planner.ts:88-104 | Range selections do, when a missing value would not pass |
| GvqlSelectionSafety.TextKeeps | src/gvql/gvql-index-planner.ts:106-123 | Text selections do, when the needle is short enough and normal forms keep its pieces in place |
| GvqlSelectionSafety.BuiltIndexIsFaithful | src/gvql/gvql-index.ts:25-69 | The built index lists every node under its type and property keys and no other |
| GvqlPlanEquivalence.AllowedKeeps | src/gvql/gvql-executor.ts:276-293 | Whatever combination of selections the planner intersects or unites contains every start WHERE accepts |
| GvqlPlanEquivalence.PlanKeepsRows | src/gvql/gvql-executor.ts:45-50 | Whenever matching from all candidates and filtering succeeds, matching from planned candidates and filtering succeeds with the same rows in the same order, for any patterns and any WHERE under the guards |
| GvqlPlanEquivalence.KeptStartsKeepRows | src/gvql/gvql-executor.ts:135-156 | The same for any selections that contain the starts WHERE accepts, whatever the reason |
| GvqlPlanEquivalence.BuildAndExecute | src/gvql/gvql-executor.ts:45-50 | From an envelope and its definitions: indexes exist exactly unless two nodes claim one unique key, and under the guards the rows found through them are those of matching from all candidates |
| GvqlPlanEquivalence.PlanningFilters | src/gvql/gvql-executor.ts:135-151 | With no guard at all, planning of required patterns fails exactly when evaluating a constant does, and otherwise matches the subsequence of the unplanned bindings whose starts the indexes allow |
| GvqlPlanEquivalence.Execute | src/gvql/gvql-executor.ts:45-50 | The method gives the specified rows or error of the planned run; `GvqlWhereLaws` says which rows WHERE keeps |
| GvqlWhereLaws.FilteredOnce | src/gvql/gvql-executor.ts:48-51 | The rows of a statement are the matched rows WHERE accepts, each as often as it was matched and in that order |
| GvqlWhereLaws.NotRows | src/gvql/gvql-expressions.ts:58-68 | The rows of `WHERE c` and of `WHERE NOT c` split the rows without WHERE, in order and by count |
| GvqlWhereLaws.AndRows | src/gvql/gvql-expressions.ts:58-68 | The rows of `WHERE c AND d` are those of `WHERE d` among the rows of `WHERE c`, errors included |
| GvqlWhereLaws.BothRows | src/gvql/gvql-expressions.ts:58-68 | Where both statements succeed, AND keeps the rows in both and OR those in either, in order |
| GvqlWhereLaws.DeMorgan | src/gvql/gvql-expressions.ts:58-68 | De Morgan between statements and double negation, errors included |
| GvqlWhereLaws.NumbersCompare | src/gvql/gvql-expressions.ts:79-90 | Numbers compare as numbers |
| GvqlWhereLaws.NoOrder | src/gvql/gvql-executor.ts:474-477 | Numbers that do not compare, as NaN, are on no side of each other |
| GvqlWhereLaws.TextsCompare | src/gvql/gvql-executor.ts:474-477 | Other values compare by their texts, missing ones as the empty text |
| GvqlWhereLaws.PrefixMeans | src/gvql/gvql-expressions.ts:91-94 | STARTS WITH holds exactly when the text is the needle and a rest |
| GvqlWhereLaws.SuffixMeans | src/gvql/gvql-expressions.ts:91-96 | ENDS WITH holds exactly when the text is a rest and the needle |
| GvqlWhereLaws.ContainsMeans | src/gvql/gvql-expressions.ts:91-92 | CONTAINS holds exactly when the needle stands between two rests |
| GvqlWhereLaws.MissingValues | src/gvql/gvql-expressions.ts:76-101 | `!=` is the negation of `=`, and IS NULL holds of null and undefined only |
| GvqlWhereLaws.SameValues | src/gvql/gvql-expressions.ts:76-78 | Texts, truth values, big integers and missing values are equal to themselves only, zero also to negative zero |
| GvqlWhereLaws.NothingEqual | src/gvql/gvql-expressions.ts:76-78 | NaN and what is read as an object afresh are equal to nothing |
| GvqlWhereLaws.MembersEqual | src/gvql/gvql-expressions.ts:97-97 | IN looks for an equal element; there NaN is equal to itself |
| GvqlWhereLaws.AliasIsNull | src/gvql/gvql-executor.ts:557-562 | An alias by itself is null exactly in the rows that do not bind it to a node |
| GvqlWhereLaws.Calculates | src/gvql/gvql-expressions.ts:23-38 | Arithmetic on numbers, the left operand first |
| GvqlWhereLaws.EvaluationFails | src/gvql/gvql-expressions.ts:23-42 | Calculating with anything but numbers is an error, as is a wrong number of arguments |
| GvqlWhereLaws.LiteralValues | src/gvql/gvql-values.ts:50-65 | A list literal is its elements in order, and a parameter that is not given is undefined |
| GvqlWhereLaws.Coalesces | src/gvql/gvql-expressions.ts:106-111 | `coalesce` gives the first argument that is not missing |
| GvqlWhereLaws.FirstBranch | src/gvql/gvql-expressions.ts:15-22 | CASE gives the value of the first branch whose condition holds, else the ELSE value or null |
| GvqlPlanEquivalence.MatchBindings | src/gvql/gvql-executor.ts:135-156 | The loop over required and optional patterns gives the specified bindings or planning error |
| GvqlPlanLimits.PropertySelectionExact | src/gvql/gvql-executor.ts:372-380 | An available property index keeps all equal candidates if and only if each of them is of a type the property is configured for |
| GvqlPlanLimits.RangeSelectionExact | src/gvql/gvql-advanced-index.ts:143-151 | A range selection keeps all nodes WHERE accepts if and only if a missing value is not accepted or no such node misses its value |
| GvqlBuiltIndexes.GraphIndexOf | src/gvql/gvql-index.ts:15-69 | Every envelope has a graph index as specified |
| GvqlBuiltIndexes.AdvancedIndexOf | src/gvql/gvql-advanced-index.ts:29-68 | Every graph without two claims to one unique key has an advanced index as specified |
| GvqlStatementLimits.StatementExact | src/gvql/gvql-executor.ts:45-50 | For a statement with one pattern, the planned and the unplanned run agree if and only if the indexes miss no node WHERE accepts |
| GvqlStatementLimits.SelectionLists | src/gvql/gvql-index-planner.ts:68-142 | A range, text, full-text or expression selection is exactly the nodes the definition lists where the comparison looks |
| GvqlStatementLimits.AlwaysSameIff | src/gvql/gvql-executor.ts:262-311 | A statement with one comparison and one definition keeps the rows of every graph if and only if the definition loses no node |
| GvqlExactGuards.RangeExact | src/gvql/gvql-index-planner.ts:88-104 | With a range index, every graph's rows are kept if and only if, when a selection is offered, a missing value does not pass and, if any value passes, type and partial condition cover the pattern |
| GvqlExactGuards.TextExact | src/gvql/gvql-index-planner.ts:106-123 | With a text index, if and only if the needle is short enough, normal forms keep its pieces in place, and type and partial condition cover the pattern |
| GvqlExactGuards.FullTextExact | src/gvql/gvql-index-planner.ts:125-142 | With a full-text index, if and only if every text containing the needle has its words, and type and partial condition cover the pattern |
| GvqlExactGuards.ComputedExact | src/gvql/gvql-index-planner.ts:68-86 | With an expression index, if and only if the constant is not null, the case mappings agree on it and, if any value passes, type and partial condition cover the pattern |
| GvqlExactTuples.TupleExact | src/gvql/gvql-index-planner.ts:39-66 | With a unique or composite index, if and only if, when a node can have the tuple at all, type and partial condition cover the pattern, a sparse index is not asked for null, and not all constants are undefined for a pattern without type |
| GvqlExactTuples.TupleDecides | src/gvql/gvql-index-planner.ts:144-152 | A conjunction of equalities accepts exactly the nodes with the tuple of its constants |
| GvqlExactProperties.PropertyExact | src/gvql/gvql-executor.ts:313-380 | With property buckets, on graphs without separators in names, if and only if, when the property is indexed for any type, no constant is undefined and, if any value passes, the property is indexed for every type of the pattern |
| GvqlExactKinds.KindExact | src/gvql/gvql-executor.ts:313-380 | A `$kind` comparison by `=` or `IN`, with or without a type, in either index mode: every such graph's rows are kept if and only if nothing is looked up, or the path is indexed for no type, or no constant is a kind the pattern's nodes can have |
| GvqlOptionalLimits.OptionalAddsRow | src/gvql/gvql-executor.ts:151-155 | If planning leaves an optional start nothing although nodes of its type exist, a row in which a later pattern binds its alias to a node of another type is found by the planned run only |
| GvqlOptionalLimits.NarrowedOptionalAddsRow | src/gvql/gvql-executor.ts:151-155 | So it is with `MATCH (a) OPTIONAL MATCH (b: T) OPTIONAL MATCH (a)-[:r]->(b) WHERE b.v = 1` on a graph of three nodes |
| GvqlLostRows.MissingValueLosesRow | src/gvql/gvql-advanced-index.ts:143-151 | A person without age is lost to `n.age < 5` |
| GvqlLostRows.TypedDefinitionLosesRow | src/gvql/gvql-index-planner.ts:222-224 | A node without type is lost through an index for persons |
| GvqlLostRows.PartialDefinitionLosesRow | src/gvql/gvql-advanced-index.ts:43 | A node outside the partial condition is lost |
| GvqlLostRows.SparseNullLosesRow | src/gvql/gvql-advanced-index.ts:44-45 | A null value is lost through a sparse unique index |
| GvqlLostRows.LongNeedleLosesRow | src/gvql/gvql-index-keys.ts:35 | A value is lost to a needle of 65 letters it starts with |
| GvqlLostRows.CompositionLosesRow | src/gvql/gvql-index-keys.ts:17-20 | A name in decomposed form is lost to the letter it starts with |
| GvqlLostRows.InsideWordLosesRow | src/gvql/gvql-index-planner.ts:125-142 | A value that contains the needle inside a word is lost |
| GvqlLostRows.NullExpressionLosesRow | src/gvql/gvql-advanced-index.ts:102-110 | A missing name is lost to `lower(n.name) = null` |
| GvqlLostRows.UndefinedConstantLosesRow | src/gvql/gvql-executor.ts:641-673 | A missing email is lost to an equality with a missing parameter |
| GvqlLostRows.TypedPropertyLosesRow | src/gvql/gvql-index.ts:93-95 | With a property configured for persons, another node of the same name is lost |
| GvqlLostRows.KindLosesRow | src/gvql/gvql-executor.ts:323-328 | An object is lost to `n.$kind = "object"` |
| GvqlNodeEdits.SetThenRead | src/gvql/gvql-values.ts:68-111 | A value set at a path is read back there; every other present position, the kind and the type keep |
| GvqlNodeEdits.SetAddsNoReference | src/gvql/gvql-values.ts:88-111 | Setting a primitive adds no reference |
| GvqlNodeEdits.RemovePropertyReads | src/gvql/gvql-values.ts:114-127 | After removal the property is gone and all others are unchanged |
| GvqlNodeEdits.DetachExact | src/gvql/gvql-mutations.ts:325-348 | No reference to a target is left, and outside maps every other reference is |
| GvqlEditor.Editor.ApplySet | src/gvql/gvql-mutations.ts:30-61 | In place, row by row and clause by clause, exactly the specified edits or the error |
| GvqlEditor.Editor.ApplyRemove | src/gvql/gvql-mutations.ts:63-92 | In place, exactly the specified removals or the error |
| GvqlEditor.Editor.ApplyDelete | src/gvql/gvql-mutations.ts:94-150 | In place, exactly the specified deletion, detachments and reports; deleting the root fails and changes nothing; `GvqlMutationEffects.DeleteExact` says what is left |
| GvqlEditor.Editor.ApplyCreate | src/gvql/gvql-mutations.ts:152-188 | In place, exactly the specified nodes, bindings, attachments and reports or the error |
| GvqlEditor.Editor.ApplyMerge | src/gvql/gvql-mutations.ts:190-233 | In place, exactly the specified bindings and creations or the error |
| GvqlEditor.Editor.ApplyMutations | src/gvql/gvql-mutations.ts:14-28 | SET, REMOVE, DELETE, CREATE and MERGE in this order equal the specification of the whole statement |
| GvqlEditor.Editor.NextObjectId | src/gvql/gvql-mutations.ts:354-362 | The specified id, of which `GvqlChangeReports.NextIdIsLeast` says that it is the least free one above every safe one in use |
| GvqlEditor.Editor.FindMergeTarget | src/gvql/gvql-mutations.ts:250-266 | The first item that refers to a node with the value, or the comparison's error |
| GvqlEditor.Editor.Attach | src/gvql/gvql-mutations.ts:288-315 | Appends to the collection or starts one, reported as specified |
| GvqlMutationSafety.UpdateIsGood | src/gvql/gvql-mutations.ts:14-28 | Any update takes a closed graph to a closed one with its root still there and reports every node it adds, removes or alters |
| GvqlMutationSafety.DeleteKeepsClosed | src/gvql/gvql-mutations.ts:105-147 | The incoming edges from before SET and REMOVE suffice to detach every reference to a deleted node |
| GvqlMutationSafety.DoomedExact | src/gvql/gvql-mutations.ts:96-104 | The deleted nodes are exactly those some row denotes by a deleted alias |
| GvqlMutationEffects.DeleteExact | src/gvql/gvql-mutations.ts:94-150 | After a successful DELETE the nodes are exactly the old ones minus those some row denotes by a deleted alias; each survivor is the old node, of its kind and type, without the items, properties and whole map entries that refer to one of these, in the old order |
| GvqlMutationEffects.DeleteFailsOnRoot | src/gvql/gvql-mutations.ts:105-108 | DELETE fails exactly when some row denotes the root by a deleted alias |
| GvqlMutationEffects.JobsInTurn | src/gvql/gvql-mutations.ts:38-40 | Clauses are applied row by row, and in each row in their order |
| GvqlMutationEffects.SetStepExact | src/gvql/gvql-mutations.ts:38-57 | One SET leaves the evaluated value at its path of the node and everything else as it was, and reports the values before and after |
| GvqlMutationEffects.SetLasts | src/gvql/gvql-mutations.ts:30-61 | After all SETs each path holds the last value written to it |
| GvqlMutationEffects.RemoveStepExact | src/gvql/gvql-mutations.ts:63-92 | One REMOVE takes the property from an object and nothing else, reports it, and leaves objects without it alone |
| GvqlMutationEffects.FieldsExact | src/gvql/gvql-mutations.ts:235-248 | The fields of a clause become properties of their names and evaluated values, one for one, unless one cannot be stored |
| GvqlMutationEffects.MadeExact | src/gvql/gvql-mutations.ts:162-184 | A new node has a fresh id, the clause's type and its fields, is bound in its row, and only the node that receives the reference changes |
| GvqlMutationEffects.MadeStandsLast | src/gvql/gvql-mutations.ts:288-323 | Afterwards it is the last item of the collection the clause names |
| GvqlMutationEffects.CreateStepExact | src/gvql/gvql-mutations.ts:152-188 | One CREATE adds a node of the clause's type with the evaluated field values |
| GvqlMutationEffects.CreatedLasts | src/gvql/gvql-mutations.ts:152-188 | After all CREATEs each of them has its node in the graph, its fields holding what they evaluated to when its turn came |
| GvqlMutationEffects.MergeMakes | src/gvql/gvql-mutations.ts:209-229 | The node a MERGE makes is of the clause's type with its fields |
| GvqlChangeReports.DeleteReports | src/gvql/gvql-mutations.ts:111-138 | DELETE reports exactly the edges from surviving nodes into deleted ones as detachments, and then each deleted node once, with an alias that named it |
| GvqlChangeReports.DetachesOnce | src/gvql/gvql-mutations.ts:113-126 | Each edge into a deleted node from one that stays is reported once, in edge order |
| GvqlChangeReports.DetachedInTurn | src/gvql/gvql-mutations.ts:113-126 | Detachments are reported for one deleted node after the other |
| GvqlChangeReports.DoomedOnce | src/gvql/gvql-mutations.ts:96-104 | The deleted nodes are listed once each, in the order in which some row names them first, with the alias that does |
| GvqlChangeReports.CreateReports | src/gvql/gvql-mutations.ts:174-184 | CREATE reports the new node and then who received the reference, under which path, and to what, a freshly started collection included |
| GvqlChangeReports.MergeReports | src/gvql/gvql-mutations.ts:204-230 | MERGE reports a node it makes under the path it merges on, and nothing for a node it finds |
| GvqlChangeReports.MergeMatches | src/gvql/gvql-mutations.ts:284-286 | MERGE compares by JSON text: null, NaN and the infinities are one value to it, and so are the zeros |
| GvqlChangeReports.FindsFirst | src/gvql/gvql-mutations.ts:250-266 | MERGE finds the first item that refers to a node with the value, unless an item before it cannot be compared |
| GvqlChangeReports.NextIdIsLeast | src/gvql/gvql-mutations.ts:354-362 | The id of a new node is the least free one above every safe id in use |
| GvqlMutationSafety.IndexCoversReferences | src/gvql/gvql-index.ts:114-146 | The incoming index names the source of every reference of the graph |
| GvqlMergeIdempotence.RepeatsIff | src/gvql/gvql-mutations.ts:201-230 | One job in a later graph binds the node it bound before and reports nothing if and only if its fields still give the ON value, that is no big integer, and a clause that merges into its own alias found its node |
| GvqlMergeIdempotence.MergeRepeatsIff | src/gvql/gvql-mutations.ts:190-233 | A whole MERGE run again over the same bindings repeats the first run job by job if and only if all its jobs are such, shared keys and freshly started collections included |
| GvqlMergeIdempotence.WholeRepeatsIff | src/gvql/gvql-mutations.ts:190-233 | If no two clauses bind one alias, the end of the second run tells: same nodes, same bindings and no report exactly under that condition |
| GvqlMergeIdempotence.MergeTwice | src/gvql/gvql-mutations.ts:190-233 | Where the fields still give the ON values and own aliases found their nodes, the second run succeeds, or fails exactly if an ON value is a big integer |
| GvqlMergeGuards.SteadyMergeTwice | src/gvql/gvql-mutations.ts:190-233 | If every path a field reads is settled in the starting graph, the second run repeats the first exactly when no ON value is a big integer and own aliases found their nodes, and fails if one is |
| GvqlMergeGuards.StartDecides | src/gvql/gvql-mutations.ts:204-208 | If moreover no field reads an alias of the statement, the starting graph tells whether an ON value is a big integer |
| GvqlMergeGuards.SameEvaluation | src/gvql/gvql-expressions.ts:7-44 | An expression's value or error depends only on the paths it reads, those in conditions included |
| GvqlMergeGuards.StepWithin | src/gvql/gvql-mutations.ts:288-315 | A MERGE adds properties to existing nodes under the names it merges into only |
| GvqlMergeIdempotence.MergeBinds | src/gvql/gvql-mutations.ts:204-220 | Afterwards the alias denotes a node with the same ON value |
| GvqlMergeIdempotence.OwnAliasCreatesAgain | src/gvql/gvql-mutations.ts:219-229 | A clause that merges into its own alias and created its node succeeds again and creates another one |
| GvqlMergeGuards.OwnAliasDoesNotRepeat | src/gvql/gvql-mutations.ts:219-229 | So it is with `MERGE (x {id: "a"}) INTO x.items ON x.id` on any object without `items` |
| GvqlMergeGuards.ReadingTargetFailsAgain | src/gvql/gvql-mutations.ts:305-312 | `MERGE (x {id: "a", note: r.items}) INTO r.items ON x.id` succeeds on any object without `items`, and fails when run again |
| GvqlMergeGuards.BigIntegerFailsAgain | src/gvql/gvql-mutations.ts:250-266 | A MERGE on a big integer into an empty array creates the node, and fails when run again |
| GvqlUpdateCommit.UpdateReadsBack | src/storage/storage-manager.ts:965-982 | An update of the stored graph, or of the part still reachable after earlier updates, committed with only its reported ids reads back as exactly the updated graph |
| GvqlConditionParser.ParsePrinted | src/gvql/gvql-parser.ts:146-177 | Parsing a written condition gives its tree, for connectives in any spelling, any white space around them, and parentheses also where they are not needed; NOT binds tighter than AND, AND than OR, both grouping to the left |
| GvqlConditionParser.LeafIff | src/gvql/gvql-parser.ts:146-177 | A trimmed, closed text is taken as one predicate if and only if it has no top-level AND or OR, does not start with NOT and is not one parenthesised group |
| GvqlConditionParser.CaseIsSplit | src/gvql/gvql-parser.ts:716-737 | `CASE WHEN p AND q THEN 1 END = 1` is split at the AND inside CASE |
| GvqlConditionParser.FindTopLevel | src/gvql/gvql-parser.ts:716-737 | The scan that skips quotes, brackets and found keywords finds the last top-level keyword; `GvqlScanLaws` says what a keyword and a quoted text are |
| GvqlConditionParser.IsQuoted | src/gvql/gvql-parser.ts:792-801 | Holds exactly when the scan state before the position has an open quote |
| GvqlConditionParser.StripGroup | src/gvql/gvql-parser.ts:693-714 | Exactly the enclosing parentheses are stripped, with the white space inside them |
| GvqlConditionParser.JoinedNotEnclosed | src/gvql/gvql-parser.ts:701-714 | Two joined operands are never taken for one parenthesised group |
| GvqlValueParser.ParsePrintedValue | src/gvql/gvql-parser.ts:463-488 | Parsing written arithmetic gives its tree, for any white space or none around operators and parentheses also where they are not needed |
| GvqlValueParser.FindOperator | src/gvql/gvql-parser.ts:739-758 | The right-to-left scan finds the last top-level binary operator |
| GvqlValueParser.IsUnarySign | src/gvql/gvql-parser.ts:760-765 | Looks back over spaces for a start, an opening bracket or an operator |
| GvqlValueParser.NegativeNumberOk | src/gvql/gvql-parser.ts:739-765 | A negative number is one operand |
| GvqlScanLaws.QuotedIsOpaque | src/gvql/gvql-parser.ts:792-801 | Nothing between two quotes is a keyword or an operator, other and escaped quotes included, and the scan goes on after them as before |
| GvqlScanLaws.KeywordStands | src/gvql/gvql-parser.ts:782-790 | A keyword stands exactly where any spelling of it does that is not part of a longer word |
| GvqlScanLaws.UnaryIff | src/gvql/gvql-parser.ts:760-765 | A sign is unary exactly when, white space aside, nothing, an opening bracket or an operator stands before it |
| GvqlScanLaws.CaseIsOperand | src/gvql/gvql-parser.ts:490-500 | A text that begins with CASE, in any spelling, is one operand whatever operators it contains |
| GvqlScanLaws.BlankFails | src/gvql/gvql-parser.ts:146-177 | A text of white space only is an error to both parsers |
| GvqlScanLaws.DanglingOperatorFails | src/gvql/gvql-parser.ts:463-488 | So is an operator after which nothing comes |
| StorageSubtree.LoadSubtree | src/storage/storage-subtree.ts:58-98 | Returns exactly the nodes within the depth, complete exactly when closed, truncating exactly the references that leave; errors for a negative depth or unknown start |
| StorageSubtree.LoadFrom | src/storage/storage-subtree.ts:100-124 | The growing queue ends as the nodes within the depth in breadth-first order, with the leaving references in that order |
| StorageSubtree.EnqueueReferences | src/storage/storage-subtree.ts:126-150 | Queues what the node reaches one step deeper at most and keeps the queue ordered and free of repeats |
| StorageSubtree.DepthIsDistance | src/storage/storage-subtree.ts:141-148 | The depth a node is queued with is its distance from the start |
| StorageSubtree.QueueIsWithin | src/storage/storage-subtree.ts:82-95 | The finished queue is exactly the nodes within the depth |
| StorageSubtree.CompleteIffClosed | src/storage/storage-subtree.ts:171-176 | Nothing is truncated exactly when the loaded part is closed under references |
| StorageSubtreeOrder.ReferencesOnce | src/storage/storage-subtree.ts:152-165 | Each position of a node that holds a reference is listed once, in the order of the positions |
| StorageSubtreeOrder.LeavingOnce | src/storage/storage-subtree.ts:171-176 | The truncated references are those that leave the loaded part, each as often as listed and in that order |
| StorageSubtreeOrder.GatheredInTurn | src/storage/storage-subtree.ts:100-124 | They are listed node by node, in the order of the queue |
| StorageConstraints.IncrementalIffFull | src/storage/storage-constraints.ts:35-134 | If the base satisfied all constraints and only touched nodes changed, checking the touched nodes reports a violation exactly when checking the whole graph does |
| StorageConstraints.CheckDecides | src/storage/storage-constraints.ts:35-69 | A check reports nothing exactly when the checked nodes satisfy the definitions |
| StorageConstraints.NoReportIffOk | src/storage/storage-constraints.ts:71-105 | A field is not reported exactly when it satisfies the definition, said from the definition's fields: required, type, list, bounds, reference |
| StorageConstraints.CheckReports | src/storage/storage-constraints.ts:35-134 | A check reports exactly what its checked nodes violate, under definition, kind and node, and besides only real collisions that involve a checked node |
| StorageConstraints.DefinitionsInOrder | src/storage/storage-constraints.ts:46-56 | Definitions are reported one after the other |
| StorageConstraints.FieldsInOrder | src/storage/storage-constraints.ts:46-52 | The fields of one definition are reported node by node, in the order of the nodes |
| StorageDuplicates.DuplicatesExact | src/storage/storage-constraints.ts:107-134 | The unique scan reports a node if and only if an earlier one holds its value and it or the last such node not itself reported is checked; the report names that node |
| StorageConstraints.ScanReports | src/storage/storage-constraints.ts:107-134 | The one-pass unique scan, which overwrites what it has seen, reports something exactly when two nodes collide |
| StorageConstraints.ValidateConstraints | src/storage/storage-constraints.ts:46-56 | The loops report exactly the specified violations in order |
| StorageConstraints.ValidateUnique | src/storage/storage-constraints.ts:107-134 | The loop is the specified scan |
| StorageConstraints.ValidateField | src/storage/storage-constraints.ts:71-105 | Pushes exactly the field's violations in order |

## Left out

- SHA-256 and canonical JSON: the hash is an injective constructor over its payload.
- Timestamps, and the contents of the journal, type dictionary, parent, index and constraint records: they are writes of a number.
- The write-option change between sessions: format and snapshot writing are fixed per store; changing to JSON-only can leave a stale binary record that shadows the new one, and switching snapshots off and on a stale snapshot that verification rejects.
- `transactionLog: "off"`, `recoverCommittedWal: false` and `readCommittedWal: false`: these modes do not claim what is proved.
- A session that goes on after a failed commit: a failed commit ends the session, because a retry would reuse the number and the old record.
- A lock stolen from a writer that is still running: its record writes precede the first check of its lock.
- A crash inside the concurrent layer; a retry is a new attempt there. One look lists a directory with its small files (WAL markers, transaction records), which never change once they are there; a pessimistic transaction reloads in one step, since nobody writes while it holds the lock.
- ConcurrentReads.LookStep: how new the snapshot is that a disturbed read falls back to; it is one of a committed transaction.
- Unversioned record files of older releases.
- CommitContents.CommittedAsAsked: a recovered transaction is logged without its metadata, as in the code; otherwise the log has the metadata asked for.
- The order in which record workers finish (`mapWithConcurrency`): any order is allowed, a new one for every commit and recovery attempt, instead of modelling the shared counter.
- Custom serialize, hydrate, create and migrate hooks, ignore annotations, and symbol properties.
- Payload objects (dates, buffers, errors, and references nested in errors): opaque scalars without identity.
- Property order beyond insertion, repeated property names, and property or alias names that clash with built-in object members.
- Holes left by setting an array position past its end: they read as undefined, as in memory; their JSON form is not modelled.
- Parameters that are objects: only primitive and list parameters are compared.
- Unicode normal forms and locale case: `normalize` is any function that keeps the empty text; composition is shown by one example.
- The order of selections by size and the plan text: selections are sets, since only membership reaches the result.
- Full-text selections are never among the guards of `PlanKeepsRows`; `FullTextExact` says when they would be safe.
- GvqlPlanEquivalence.PlanKeepsRows: one direction under guards; the exact conditions are proved for statements with one pattern and one index definition (`GvqlExactGuards`, `GvqlExactTuples`, `GvqlExactProperties`, `GvqlExactKinds`), not for several definitions that intersect. With optional patterns it requires that no later pattern mentions the start of a narrowed one; `GvqlOptionalLimits` shows what happens otherwise.
- GvqlExactGuards.RangeExact: a partial condition on the compared property itself is left out, here and for the other kinds; there the answer depends on whether the comparison implies the condition.
- GvqlExactTuples.TupleExact: no path is equated twice with different constants.
- GvqlIndex.BuildGraphIndex: the order inside property buckets, which the intersection with the candidates forgets.
- GvqlIndex.EdgeWitnessed: references under symbol properties.
- GvqlAdvancedIndex.BuildAdvancedIndex: the order of bucket entries and the statistics; the missing index of an empty definition list is in `GvqlPlanEquivalence.BuildAndExecute`.
- GvqlAdvancedIndex.ListNode: an index record read back from disk holds `null` for a range value that is infinite or not a number, so its key and value part; the model keeps the value the bucket was opened with.
- Empty type names, which the code treats as no type.
- GvqlConditionParser.ParsePrinted: predicate texts are opaque as long as they are closed and free of top-level keywords (`LeafIff` says exactly which are), so a predicate with AND or OR inside CASE is not covered; splitting a predicate at its comparison operator is not modelled.
- GvqlMergeGuards.SteadyMergeTwice: reading a whole node counts as unsettled, since its summary shows what was added; whether an own alias finds its node is told by the first run.
- GvqlValueParser.ParsePrintedValue: operand texts are opaque; CASE, function calls, paths and literals inside them are left to their own parsers.
- StorageSubtree.LoadSubtree: the variant that reads records through the manifest differs only in where nodes come from; that the manifest reads back as its envelope is stated by `CrashRuns.ManifestNeverMixed`.
- StorageConstraints.IncrementalIffFull: bounds are abstract tests of the value, and the reported lists may differ, only their emptiness agrees.
- LockTable.LockMap.TryAcquire: waiting and the deadline are left out; staleness is a choice at each look.
- RETURN, aggregation, DISTINCT, ORDER BY, LIMIT, WITH, HAVING, and dry runs.
- Storage targets other than the in-memory one, garbage collection, compaction, backup, housekeeping, schema migration, lazy payload contents.
