# A verified model of git-store's ref protocol

`git-store` keeps typed documents in a Git repository: each document is a tree with its schema spliced
in as a `.schema` entry, each publication is a commit over such a tree, each entity is a ref whose
commits form one first-parent history, and each kind has a materialized index, a tree that lists its
entity refs. Nothing is locked between the reads of a write and the write itself. A writer reads the
entity ref, then the index ref, then the listing of its kind, and finally submits one compare-and-swap
batch; if it lost a race it starts over. The repository's hard claims are about what survives that.

The model proves them for every interleaving, every ref map and every byte string.

* **Objects** are inductive values and an object is its own id, so ids are injective and the object graph
  acyclic without assumption. The commit inputs a store takes from its surroundings (identities, times, a
  signature) are one `stamp`.
* **The batch** (`RefStore`) is a function on ref maps; `MemoryRefStore` is the class that carries it out.
  `LockedBatch` is the file-locking backend as a state machine whose every lock, expectation check and
  publish is a step of its own; it is linearizable to the atomic batch and cannot deadlock. `GixRefStore`
  is the same batch as one process's loops.
* **The kind protocol** (`Kind`, `KindRuns`, `KindDeletes`, `KindAlone`, `KindAba`) is a state machine of any
  number of publishers and deleters. Its invariants give fast-forward histories, durable outcomes and correct,
  lasting tombstones, each with the exact condition on explicit parents, and the exact conditions under which
  the index stays in agreement. `KindMixed`, `KindMixedIndex` and `KindMixedReads` add transactions to the runs.
* **The client** (`SharedStore`, `KindClient`, `KindApi`, `KindRemoval`, `KindListing`, `StoreClient`,
  `Transaction`, `TransactionIndex`) is the code's own loops, as methods on a shared store that others may
  rewrite arbitrarily before each access; `Served` fixes what each access then meets. `KindTrace` ties them to
  the machine: a method's whole run is a run of the machine, access for access, and says what every reported
  outcome means.
* **Messages** decides which commit messages the store writes at all.
* **The codecs** (`Unicode`, `IndexCodec`, `IndexCanonical`, `Index`, `Trees`, `Fingerprint`, `Canonical`)
  are the parsers and printers, with round trips and injectivity.
* **The envelope** (`Envelope`, `Tombstones`) binds and hides `.schema`. **Names** and **AsOf** are the
  ref-name algebra and the overlay view. `Layout` places refs; `Order` holds sorting and ordered listings.

## Model

| member | source | states |
|---|---|---|
| `KindRuns.IndexAgreement` | crates/git-store/src/kind.rs:467-496 | For any number of publishers and deleters of any kinds, any interleaving and any backend failures, started in agreement, while no explicit parent leaves the walk: the index ref decodes to exactly the kind's entity refs in every state of the run if and only if no republish that moves no entity ref ever lands a batch. |
| `KindRuns.CheckedAgreement` | crates/git-store/src/kind.rs:437-500 | By what the callers can check beforehand: if every publication comes with an expectation, not of a commit that holds its document already, and with no explicit parent or one above that expectation, the index agrees in every state of every run. |
| `KindAba.AgreementInAnyRun` | crates/git-store/src/kind.rs:467-496 | In every run at all, explicit parents included: the index agrees in every state if and only if every batch of the kind that lands lists the entities it leaves (or writes no index and moves no entity). |
| `KindMixedIndex.AgreementAmongAll` | crates/git-store/src/transaction.rs:122-177 | Transactions included: in every run of publishers, deleters and transactions, explicit parents and all, the index agrees in every state if and only if every batch that lands and touches the kind lists the entities it leaves (or writes no index and moves none). |
| `KindMixedReads.AgreementByReads` | crates/git-store/src/transaction.rs:122-177 | With transactions whose every read is a step of the run, while no publication strays and no transaction names one ref twice: the index agrees in every state if and only if every publication that lands a batch moves an entity ref, and every transaction that lands was undisturbed: between its reading of the listing and its reading of the index nobody changed another name of the kind, and what an operation without an edit found still stood. |
| `KindMixedReads.LandsUndisturbed` | crates/git-store/src/transaction.rs:148-175 | The step behind it: names only having moved forward since the index was read, a landed transaction keeps an agreeing index exactly when it was undisturbed, since one that moves a name always writes the index. |
| `KindAba.ReturningGoesStale` | crates/git-store/src/kind.rs:437-500 | Why the walk matters: three publishers, one bringing a commit back by its explicit parent, end with a stale index although the run starts in agreement and every batch that lands moves an entity ref. |
| `KindRuns.LandingAgreement` | crates/git-store/src/kind.rs:467-500 | One landed batch over an agreeing index leaves it agreeing exactly when the batch moves an entity ref, although index and listing were read at different times: commit histories only grow, so an index that is still what was read means nothing moved since. |
| `KindAlone.AgreementCanBreak` | crates/git-store/src/kind.rs:553-555 | The condition is needed: for every name and any two different documents, two publishers without parent or expectation can run from an agreeing state to a stale index, the first republishing what it found. |
| `KindAlone.StaleRepublish` | crates/git-store/src/kind.rs:472-486 | How it breaks: a no-op republish that reads index and listing after its name has moved on writes its old commit into an index that was right. |
| `KindAlone.AttemptAlone` | crates/git-store/src/kind.rs:450-499 | With nobody in between, an attempt ends within four steps; it either settles without touching a ref, or its commit is at its name, no other name moved, and the index agrees whatever it held before. |
| `KindAlone.FinishesAlone` | crates/git-store/src/kind.rs:450-499 | Obstruction freedom: from any point of the protocol, however stale what it has read, a client left alone finishes within seven steps. |
| `KindRuns.ForwardExactly` | crates/git-store/src/kind.rs:552-578 | Every step of a run moves every kind forward if and only if no update lands whose explicit parent fails to reach the commit it displaces; without explicit parents, always. |
| `KindRuns.CheckedNeverStrays` | crates/git-store/src/kind.rs:395-421 | What callers can check beforehand: with no explicit parent, or with an expectation that the parent is above, no run strays. |
| `KindRuns.FastForwardOnly` | crates/git-store/src/kind.rs:552-578 | Between any two states of a run that never strays, every commit a name held in the first is still on the first-parent walk from its tip in the second, and whatever a finished client was told it published, deleted or found deleted is there too. |
| `KindAba.ParentLeavesWalk` | crates/git-store/src/kind.rs:555-566 | The condition is needed: for every name, two different documents and every parent that does not reach the first publication, one publication given that parent takes the name off its walk. |
| `KindMixed.ForwardExactlyAmongOthers` | crates/git-store/src/kind.rs:552-578 | Publishers, deleters and transactions in one run, with nothing asked of the transactions: every event moves every kind forward if and only if no publication's explicit parent leaves the walk. |
| `KindMixed.FastForwardAmongOthers` | crates/git-store/src/kind.rs:552-578 | In such a run, every commit a name held stays on the first-parent walk from its tip, and what each client was told stays there. |
| `KindMixed.TransactionsAreConsiderate` | crates/git-store/src/transaction.rs:122-177 | A transaction's batch, made of whatever it read and landing wherever it holds, moves every kind's names only forward and adds none that cannot be indexed. |
| `KindDeletes.TombstoneNamesDisplaced` | crates/git-store/src/kind.rs:852-861 | In any run at all, a deletion that lands displaces a live commit, is its first-parent child, reads back as a tombstone of the kind, names exactly that commit's document, and is what the client reports. |
| `KindDeletes.RepeatedDelete` | crates/git-store/src/kind.rs:838-891 | Once a deletion of a name has landed, and for as long as no publication lands there, its tombstone stays at the ref through any further steps of anyone; every other client deleting that name and not yet done changes no ref and ends by reporting that very tombstone, unless its backend fails; one that starts anew reports it at once. |
| `Kind.ResolveOk` | crates/git-store/src/kind.rs:512-586 | What an attempt resolves to against the refs it reads, for every publication and deletion: the document is one and the explicit parent a commit; the reported commit holds the document, under the caller's message, which the store accepts, and its only parent is the explicit parent or else the value the update expects, which met the caller's expectation; a deletion's commit buries the live commit it expects; a no-op's commit is already on the walk. |
| `Kind.PublishResolves` | crates/git-store/src/kind.rs:512-586 | Exactly when a publication goes ahead: the tree is a document, an explicit parent a commit, the expectation matches what the ref holds, that is nothing or a commit, and, unless its commit holds the very document already, the message is accepted. Then it reports that commit without an edit, or writes one with the document, the message and the parents, over what the ref holds; otherwise it fails with the first of its checks that does. |
| `Kind.DeleteResolves` | crates/git-store/src/kind.rs:844-863 | A deletion writes, over a live commit only, the tombstone of exactly its document with the deletion message; over nothing it reports absence, over a tombstone of the kind that tombstone, over anything else a bad document. |
| `Kind.DeletionAccepted` | crates/git-store/src/kind.rs:855-856 | Whatever the document's id, the message of a deletion of a valid kind is one the store accepts, so no deletion is refused for it. |
| `Kind.ClimbsReaches` | crates/git-store/src/kind.rs:555-566 | An update's commit reaches the commit it displaces exactly when it has no explicit parent or one that reaches it, and then never the other way round. |
| `Kind.BatchEffect` | crates/git-store/src/kind.rs:467-496 | What a landed batch does to every kind: its own entities gain exactly the commit at the name, its index becomes the value of the listing read with that name replaced, and no other kind's entities or index move. |
| `KindTrace.WhatLanded` | crates/git-store/src/kind.rs:437-500 | From one client's side, under arbitrary interference, exactly: a success landed nothing and its last three reads make an empty batch, or landed precisely the batch its last three reads make, entity and index edit both; a lost race is that batch refused by the refs last met; anything else is what the last read of the ref resolves to, with nothing landed. |
| `KindTrace.SuccessAnswered` | crates/git-store/src/kind.rs:437-500 | What a reported commit means: it holds the document and every check of the publication passed; and either the landed batch moved the ref to it, under the caller's accepted message, from a value that met the expectation and over that value, or the ref was found at it and nothing but the index was written. |
| `KindClient.SourceEntries` | crates/git-store/src/index.rs:28-44 | The loop over one prefix listing yields exactly the kind's entities, relative, strictly ascending, none dropped. |
| `KindClient.Attempt` | crates/git-store/src/kind.rs:450-499 | One turn of the retry loop against the shared store is a run of the protocol machine from its start; its accesses are met one after another where the store and the others' queued writes put them; it asks for another turn only when a race was lost and the others have written since. |
| `KindClient.Perform` | crates/git-store/src/kind.rs:437-500 | The whole retry loop is one run of the machine over exactly the refs the store and the others' writes present to it, its landings are that run's landings, its final refs are what the run leaves, and it makes at most four accesses for each interference plus four. |
| `KindApi.PublishPrepared` | crates/git-store/src/kind.rs:395-421 | With an explicit expectation: one attempt of at most four accesses. Success means the tree is a document and the parent a commit, and the ref was moved to the returned commit, under the given message, from what was expected, or found there. An error leaves exactly the refs the others' last write left, so all of them unchanged with nobody in between, and is explained by the check that failed over what the ref held, or by the race lost. With nobody in between it succeeds exactly when the tree is a document, the parent a commit or none, the expectation met, the value displaced nothing or a commit, and the message accepted wherever the document changes; the commit's tree, message and parents are then named and the index agrees. Without an expectation no race is ever reported, and the would-block error never is. |
| `KindApi.DeleteEntity` | crates/git-store/src/kind.rs:838-891 | Deleted means exactly one batch landed and the ref holds a tombstone that buries the live commit displaced. With nobody in between, it is the answer exactly when the ref holds a live commit; in particular every document bound from a non-empty value and a schema other than the tombstone's is buried. Already-deleted, absent and failed report what the ref holds, a failure that it is neither live nor a tombstone of the kind, and leave exactly the refs the others' last write left. |
| `KindRemoval.Remove` | crates/git-store/src/kind.rs:898-931 | True means one landed batch, read from the refs met, whose first edit deletes the commit that was read; the refs are what it leaves and the name is gone from the source. False means it was not there, nothing landed, and the refs are what the others' last write left. With nobody in between the index agrees after a removal and nothing changes otherwise. |
| `KindRemoval.RemovalEffect` | crates/git-store/src/kind.rs:908-925 | A landed removal takes exactly one name out of the source, and over a current index and listing leaves the index in agreement. |
| `KindRemoval.RemovalNotForward` | crates/git-store/src/kind.rs:898-931 | So a removal that lands never moves its kind forward. |
| `KindListing.ListEntries` | crates/git-store/src/kind.rs:665-671 | A listing is the kind's entity refs as its first access meets them, whatever the index ref holds, and changes nothing. |
| `KindListing.ReadValidated` | crates/git-store/src/index.rs:81-110 | The cached entries are used exactly when the index tree reads as the source itself; the check that cached names stay under the prefix can never fail. |
| `KindListing.UsedWhenRight` | crates/git-store/src/index.rs:98-109 | The cache is accepted if and only if it is readable and names the very entities listed. |
| `KindListing.WrittenIsUsed` | crates/git-store/src/index.rs:98-109 | Every non-empty index a writer leaves in agreement is accepted by the next listing. |
| `KindListing.RebuildIndex` | crates/git-store/src/kind.rs:678-714 | The attempt that finishes writes nothing or lands exactly the one edit its two reads make; the index ends at its listing, no entity moves, and with nobody in between the index agrees. |
| `KindListing.RebuiltAgrees` | crates/git-store/src/kind.rs:678-714 | Under any contention: the rebuilt index agrees if and only if the entities are still those of the listing it was built from. |
| `CommitForward.NoLostUpdate` | crates/git-store/src/store.rs:483-514 | Over any interleaving of any builders the tip is the fold of the builders that reported success, each once and in landing order; history has grown by exactly one commit for each; no other ref moved. |
| `CommitForward.FailureHasCause` | crates/git-store/src/store.rs:489-513 | In any run a client is told it failed only if a step of its own failed, or its job is refused (no tree, or no accepted message) over a value it read from the ref in that run; losing a race never fails it. |
| `CommitForward.FailsExactly` | crates/git-store/src/store.rs:489-513 | And exactly when a step of its own fails before it is done, or it builds over a value its job is refused over. |
| `CommitForward.StepPhase` | crates/git-store/src/store.rs:493-512 | Where each step leaves a client; after a lost race, to read again. |
| `CommitForward.LandingOverDisplaced` | crates/git-store/src/store.rs:494-509 | A landed commit's parent is exactly the value it displaced, its tree is what its builder makes of that value, and its message is one the store accepts. |
| `StoreClient.Forward` | crates/git-store/src/store.rs:483-531 | The loop itself, under arbitrary interference: its accesses are a run of a client of `CommitForward` that ends with the last of them and in what is returned. Success is one landed batch over exactly the displaced value, every other ref as it was met; failure leaves exactly the refs the others' last write left, the ref then holding a value over which the builder fails or else the message is refused; with nobody in between it succeeds exactly when neither is so; retries are bounded by the others' writes. |
| `StoreClient.Walk` | crates/git-store/src/store.rs:555-563 | The history loop ends and yields the whole first-parent walk, or an error naming the object on it that is no commit. |
| `StoreClient.RefHistory` | crates/git-store/src/store.rs:555-563 | History of a ref is the whole first-parent walk from the value its one read meets, empty when absent, or an error naming the object on it that is no commit; nothing changes. |
| `Transaction.Commit` | crates/git-store/src/transaction.rs:122-177 | Exactly: either an operation did not stage over what its own read of its ref met, for the first of its checks that failed there, all before it staging, and nothing is written; or all were staged and the one batch their reads make, every entity edit and for each touched kind in order the index edit of its listing and index read, landed whole at the last access or lost its race there. An error leaves exactly the refs the others' last write left, so the whole ref map unchanged with nobody in between; then it succeeds exactly when every operation stages (a publication as a lone one goes ahead; a deletion when its expectation is met by nothing, by a tombstone of the kind, or by a live commit and the message is accepted), and with no ref named twice every touched kind's entities move by exactly the deltas, its index agrees, and no other kind is touched. |
| `Transaction.StageMeaning` | crates/git-store/src/transaction.rs:179-258 | When an operation stages and as what, exactly: a publication as the commit that stands or a new one with its document and the transaction's message over what the ref held; a deletion over nothing or a tombstone of the kind as neither commit nor edit, and over a live commit as a tombstone of the given id with the transaction's message; otherwise it fails with the first of its checks that does. |
| `Transaction.StageAll` | crates/git-store/src/transaction.rs:127-146 | Each operation is staged against its own read of its ref, in order, each read meeting what the store and the others' writes put there; every step is what its operation contributes over what it met; edits, publications and per-kind deltas are exactly those of the steps; an error is that of the last operation read for, the first that does not stage, with nothing written. |
| `Transaction.QuietCommit` | crates/git-store/src/transaction.rs:148-175 | With nobody in between the whole batch holds of the refs it was read from, so it gets through whenever every operation stages; and it publishes to exactly the deltas of every kind, index included, for any number of kinds and operations. |
| `Transaction.DemandsMet` | crates/git-store/src/transaction.rs:179-258 | Under any contention, every operation of a landed transaction that moves its ref found there, at that instant, what it demanded. |
| `Transaction.ErasedDisplaced` | crates/git-store/src/transaction.rs:214-258 | A deletion of a landed transaction that moves its ref displaced the live commit it demanded and reads back as a tombstone of the id it was given; that tombstone names the displaced document, as a lone deletion's does, if and only if the demanded commit holds the document of that id. |
| `Transaction.MovesForward` | crates/git-store/src/transaction.rs:179-258 | Under any contention a landed transaction moves every name of every kind forward only. |
| `TransactionIndex.LandedIndex` | crates/git-store/src/transaction.rs:148-167 | Under any contention, landing over an agreeing index: it agrees afterwards if and only if the listing the transaction wrote is the entities it left, or it wrote no index and moved no entity. |
| `TransactionIndex.AgreementExactly` | crates/git-store/src/transaction.rs:148-167 | In terms of the others' writes: no ref named twice and the index right when read, it agrees afterwards if and only if the listing read first, with the deltas made, is the entities of the moment the index was read, off the names the transaction moved. |
| `TransactionIndex.StaleWhenListingMoved` | crates/git-store/src/transaction.rs:148-167 | When every operation of the kind moves its ref: if and only if nobody changed another name of the kind between the transaction's read of the listing and its read of the index. |
| `TransactionIndex.TransactionGoesStale` | crates/git-store/src/transaction.rs:148-175 | The stale run: for any two names and documents, a publication elsewhere between those two reads leaves an index that agreed throughout stale once the transaction lands. |
| `LockedBatch.Linearizable` | crates/gix-refstore/src/repo.rs:197-238 | Every interleaving of locked batches is a sequence of atomic ones in log order: the refs are what it leaves, every outcome is the one it gives, every batch that did not fail for want of a backend appears once, a failed one not at all. |
| `LockedBatch.BackendExactly` | crates/gix-refstore/src/repo.rs:197-238 | A process ends in a failure of the backend if and only if a step of its own fails while it is unfinished; a lost race is never reported as one. |
| `LockedBatch.WithoutFailures` | crates/gix-refstore/src/repo.rs:211-238 | So if no step fails, every finished process is in the log, and reports what its batch, applied atomically there, gives. |
| `LockedBatch.MutualExclusion` | crates/gix-refstore/src/repo.rs:202-209 | Two batches past acquisition never share a ref. |
| `LockedBatch.PublishKeepsOthers` | crates/gix-refstore/src/repo.rs:211-227 | Nobody else's publish disturbs an expectation that has been checked. |
| `LockedBatch.PublishNeverRefused` | crates/gix-refstore/src/repo.rs:211-237 | At the publish step every expectation still holds, so the comparison made there again never refuses. |
| `LockedBatch.NoDeadlock` | crates/gix-refstore/src/repo.rs:202-209 | While a process is unfinished some process can step: waiting is always for a greater name. |
| `LockedBatch.CanDrain` | crates/gix-refstore/src/repo.rs:202-209 | From every reachable state all processes can finish with no timeout at all, each then with an outcome of its batch that the log has. |
| `LockedBatch.EncodeRefInjective` | crates/gix-refstore/src/repo.rs:57-62 | Escaping a ref name into a lock file name can be undone, so different refs lock different files. |
| `GixRefStore.GixRefStore.Apply` | crates/gix-refstore/src/repo.rs:197-238 | One process's loops: with none of its lock files taken the result and refs are the atomic batch's; otherwise it gives up with the refs untouched; it never leaves a lock file behind. |
| `GixRefStore.SortedNames` | crates/gix-refstore/src/repo.rs:202-205 | The names locked are exactly the batch's, once each, strictly ascending. |
| `RefStore.MemoryRefStore.Apply` | crates/gix-refstore/src/memory.rs:74-109 | Check everything, then write everything: the new refs are the batch's, and a refused batch changes nothing and names the failure. |
| `RefStore.FailureIsFirst` | crates/gix-refstore/src/memory.rs:78-93 | The failure reported is the first expectation, in order, that does not hold. |
| `RefStore.PublishedValue` | crates/gix-refstore/src/memory.rs:94-107 | When no name repeats, each named ref ends at its own edit's target, or absent. |
| `RefStore.MemoryRefStore.Prefixed` | crates/gix-refstore/src/memory.rs:62-72 | The listing is exactly the refs under the prefix, strictly ascending. |
| `Index.ReadWritten` | crates/git-store/src/index.rs:112-165 | For every listing strictly ascending by path, reading the tree written of it gives back exactly that listing, although the tree is sorted by encoded filename. |
| `Index.ReadTreeMeaning` | crates/git-store/src/index.rs:138-165 | Exactly the trees are read whose filenames ascend strictly and whose entries are commits under names that decode, no name twice; as those names in strict order, each with its commit. |
| `Index.IndexMapOfValue` | crates/git-store/src/index.rs:112-165 | Hence no two sets of entities share an index object, and its entities can be read back from it. |
| `Kind.EditShape` | crates/git-store/src/index.rs:50-79 | There is no edit exactly when the index ref already holds the object of the entries; otherwise the edit names that ref, expects what was read there, and leaves exactly that object. |
| `Index.Upsert` | crates/git-store/src/kind.rs:477-483 | Overwriting an entry in place, or pushing and sorting, yields the listing of the entities with that name set. |
| `KindListing.ReadTreeOrdered` | crates/git-store/src/index.rs:138-165 | Whatever tree it is given, what is read is valid names in strictly ascending order. |
| `IndexCodec.DecodePath` | crates/git-store/src/index.rs:178-203 | On arbitrary bytes the cursor loop stays in bounds, ends, and computes the decoding. |
| `IndexCodec.EncodePath` | crates/git-store/src/index.rs:167-176 | The accumulator loop computes the encoding. |
| `IndexCodec.DecodeEncoded` | crates/git-store/src/index.rs:167-203 | Every valid path with segments under 2^32 bytes decodes from its encoding. |
| `IndexCodec.EncodedInjective` | crates/git-store/src/index.rs:167-176 | So no two such paths share a filename. |
| `IndexCodec.ParseHex` | crates/git-store/src/index.rs:221-229 | The checked accumulation yields the number the digits stand for, each at the power of its place, exactly when all are hex digits and it fits in 64 bits. |
| `IndexCodec.HexMeaning` | crates/git-store/src/index.rs:205-229 | Small hex letters are written, and either case is read. |
| `IndexCanonical.ReencodesExactly` | crates/git-store/src/index.rs:178-203 | The other direction, exactly: an accepted filename re-encodes to itself if and only if it has no upper-case hex digit and no frame holding a slash. |
| `Fingerprint.PreimageInjective` | crates/git-store/src/kind.rs:748-762 | The bytes hashed determine the kind name and the whole entry list. |
| `Fingerprint.Feed` | crates/git-store/src/kind.rs:748-762 | The nested loops feed exactly those bytes. |
| `Fingerprint.DomainBytes` | crates/git-store/src/kind.rs:748-762 | Byte for byte, the three null-terminated words that come first. |
| `Fingerprint.BigEndianValue` | crates/git-store/src/kind.rs:748-762 | The eight bytes of a count stand for it, the first weighing most. |
| `Envelope.HidingIsInvisible` | crates/git-store/src/envelope.rs:139-198 | For any canonical value without a `.schema` entry, following the bound root through the view to any depth shows exactly what the bare value shows through the store. |
| `Envelope.ViewShadowsNothing` | crates/git-store/src/envelope.rs:181-198 | Intercepting the root's id hides nothing below it, since no object contains itself. |
| `Envelope.BindThenHide` | crates/git-store/src/envelope.rs:147-178 | Hiding `.schema` in a binding leaves exactly the value's entries in order; looking it up finds exactly the schema. |
| `Envelope.BindInjective` | crates/git-store/src/store.rs:446-460 | A binding determines both the value and the schema. |
| `Envelope.SplitOfBind` | crates/git-store/src/envelope.rs:63-112 | Splitting recovers the schema of every binding of a non-empty value and refuses the empty one. |
| `Envelope.BoundExactlyWhenSplits` | crates/git-store/src/store.rs:340-396 | Inspection, which sorts by lossily decoded names first, answers Bound exactly when splitting succeeds, with the same schema. |
| `Envelope.InspectMeaning` | crates/git-store/src/store.rs:340-396 | Every tree is classified by what it has under `.schema`: nothing, no tree, a missing object, a tree and nothing else, or a schema; a malformed one with the names it holds, decoded and in order, each as often as it occurs. |
| `Envelope.SplitMeaning` | crates/git-store/src/envelope.rs:63-112 | Splitting succeeds for exactly the trees of two or more entries whose `.schema` is a tree that is there, and otherwise names the first fault. |
| `Envelope.NewViewMeaning` | crates/git-store/src/envelope.rs:147-198 | A view can be had of exactly the trees there are; it answers as the store for every id but the root's, whose entries it gives without `.schema`. |
| `Unicode.LossyFinds` | crates/git-store/src/store.rs:346-357 | Lossy decoding yields a given ASCII name only for that name, so looking `.schema` up by decoded name finds what looking it up by bytes finds. |
| `Unicode.BadMeaning` | crates/git-store/src/store.rs:346-357 | In lossy decoding one replacement stands for the longest stretch a scalar could still have begun with, or for one byte. |
| `Envelope.BindSchema` | crates/git-store/src/store.rs:446-460 | The result holds the value's entries and the schema's, in Git's order; for a value without a `.schema` of its own it is canonical, hides to exactly the value, and holds exactly the schema at `.schema`; a missing object or one that is no tree is named. |
| `Trees.KeyOrder` | crates/git-store/src/store.rs:446-460 | The sort of a bound tree is Git's comparison: byte by byte, a subtree's name counting as if a slash followed. |
| `Envelope.BoundToOne` | crates/git-store/src/store.rs:446-460 | There is only one such tree. |
| `Tombstones.DocumentReads` | crates/git-store/src/tombstone.rs:142-184 | A written tombstone is a document and reads back as exactly the deletion it was written for. |
| `Tombstones.StateMeaning` | crates/git-store/src/kind.rs:197-231 | What a commit reads as, exactly: present if and only if its tree is a document with a schema other than the tombstone's; deleted if and only if that schema is the tombstone's and the rest are the fields of a deletion of the kind; unreadable if and only if neither. |
| `Tombstones.BoundIsLive` | crates/git-store/src/tombstone.rs:160-184 | Every document bound from a non-empty value and a schema other than the tombstone's is live, whatever its fields. |
| `Layout.IndexRefValid` | crates/git-store/src/index.rs:15-22 | The index ref built for any kind is a valid ref name, so building it never panics. |
| `Layout.RefsSpelled` | crates/git-store/src/index.rs:10-22 | The refs of an entity and of an index, spelled out for every kind and name. |
| `Layout.IndexRefInjective` | crates/git-store/src/index.rs:13-22 | The index ref is injective in the kind name. |
| `Layout.IndexApart` | crates/git-store/src/index.rs:10-22 | No index ref is an entity of any kind. |
| `Layout.EntityRefValid` | crates/git-store/src/kind.rs:88-90 | Every entity of a kind has a valid ref name, though it is built unchecked. |
| `Layout.EntityRefInjective` | crates/git-store/src/store.rs:103-118 | No two entities, of one kind or of two, share a ref. |
| `Layout.SourceOfEntityWrite` | crates/git-store/src/index.rs:28-44 | Writing an entity's ref changes the kind's listing at that name and nowhere else. |
| `Names.SegmentMeaning` | crates/gix-refstore/src/name.rs:78-132 | The early-return scans accept a segment exactly when, position by position, it has no slash, control, space or forbidden character, no dot at an end or beside a dot, no `@{`, and is neither empty, `@` nor a `.lock` name. |
| `Names.CheckPathMeaning` | crates/gix-refstore/src/name.rs:108-132 | A name passes the check exactly when each of its slash-separated segments passes the segment check. |
| `Names.SegmentReports` | crates/gix-refstore/src/name.rs:78-132 | The rule reported is the first broken one in the order they are tried, and of bad characters the first. |
| `Names.PathReports` | crates/gix-refstore/src/name.rs:108-124 | A name is reported as empty, then for a slash at an end, then for what its first bad segment breaks. |
| `Names.ParseDisplay` | crates/gix-refstore/src/name.rs:201-248 | Displaying a path and parsing it gives the path back. |
| `Names.DisplayParse` | crates/gix-refstore/src/name.rs:201-248 | Parsing a text and displaying it gives the text back, and the path is valid. |
| `Names.JoinPathValid` | crates/gix-refstore/src/name.rs:373-386 | Joining and descending skip the check, and may: the result always passes it, with the segments appended. |
| `Names.UnderMeansStrictPrefix` | crates/gix-refstore/src/name.rs:307-314 | A name is under a prefix exactly when the prefix's segments strictly begin the name's. |
| `Names.RelativeOfJoin` | crates/gix-refstore/src/name.rs:299-306 | Making relative undoes joining. |
| `Names.JoinOfRelative` | crates/gix-refstore/src/name.rs:299-306 | Joining undoes making relative. |
| `Names.UnderIsRelative` | crates/gix-refstore/src/name.rs:299-314 | A valid name accepted as under a prefix is never dropped when made relative. |
| `Order.PathLessMeaning` | crates/gix-refstore/src/name.rs:196-200 | Paths are ordered segment by segment, each by its bytes: the lesser ends, or has the lesser segment, where the two part. |
| `AsOf.AsOfRefStore.ReadRef` | crates/gix-refstore/src/as_of.rs:78-91 | Reads answer as the merged map does. |
| `AsOf.AsOfRefStore.Prefixed` | crates/gix-refstore/src/as_of.rs:93-114 | Listings are those of a memory store holding the merged map, strictly ascending. |
| `AsOf.Fold` | crates/gix-refstore/src/as_of.rs:98-112 | Inserting and removing the overrides one at a time, in any order, builds the merged listing. |
| `AsOf.ListedExactlyWhenRead` | crates/gix-refstore/src/as_of.rs:78-114 | A pair is listed exactly when its name is under the prefix and reading it gives that value. |
| `Canonical.BytesDetermine` | crates/git-store/src/canonical.rs:76-102 | For identities of one line, the first commit's names and emails free of a space followed by an opening bracket, two commits have the same bytes if and only if they agree in tree, ordered parents, names, emails, seconds, message, and offsets up to whole minutes and sign. |
| `Canonical.BytesExactly` | crates/git-store/src/canonical.rs:76-102 | Among commits with identities of one line, exactly: a commit's bytes are those of no other if and only if no name or email of it holds a space followed by an opening bracket. |
| `Canonical.OffsetDetermines` | crates/git-store/src/canonical.rs:133-138 | Two offsets are written alike exactly when they agree in sign and whole minutes, however many hours. |
| `Canonical.OffsetMeaning` | crates/git-store/src/canonical.rs:133-138 | An offset is its sign, its hours in two digits or more, and its minutes in exactly two, each standing for that number. |
| `Canonical.IntegerMeaning` | crates/git-store/src/canonical.rs:83-98 | Seconds are written as their decimal digits, after a minus sign exactly when negative, without leading zeros. |
| `Canonical.IdentityExactly` | crates/git-store/src/canonical.rs:83-98 | An identity line determines name, email, seconds and written offset if and only if neither name nor email holds a space followed by an opening bracket; other brackets do no harm. |
| `Canonical.NewlinesCollide` | crates/git-store/src/canonical.rs:83-100 | Newlines do collide: whatever a commit has from its author's email to the head of its message, another with the same bytes can have inside its author's name. |
| `Canonical.BytesSpelled` | crates/git-store/src/canonical.rs:76-102 | The bytes of a commit with one parent or none, spelled out label by label. |
| `Canonical.Write` | crates/git-store/src/canonical.rs:76-102 | Appending line by line produces the framed bytes. |
| `Canonical.FirstRepeat` | crates/git-store/src/canonical.rs:121-127 | The scan with a seen-set finds nothing exactly when no parent repeats, and otherwise the first parent that repeats an earlier one. |
| `Canonical.WriteCanonical` | crates/git-store/src/canonical.rs:121-131 | A message with a reserved trailer is refused, naming it; otherwise the write is refused exactly when some parent repeats, naming the first repeat; otherwise the framed bytes are stored. |
| `Messages.Validate` | crates/git-store/src/store.rs:151-162 | The scan line by line and trailer by trailer reports the first reserved trailer that begins a line, white space aside. |
| `Messages.AcceptedMeaning` | crates/git-store/src/store.rs:139-162 | A message is accepted if and only if nowhere in it a line begins, after nothing but white space, with a reserved trailer. |
| `Messages.RefusedForIt` | crates/git-store/src/store.rs:151-162 | The trailer reported is one the message recreates, on the first line that recreates any. |
| `Messages.TrailerReserved` | crates/git-store/src/store.rs:139-162 | Each of the four reserved trailers is refused at the head of any message. |
| `Messages.SpaceMeaning` | crates/git-store/src/store.rs:151-162 | The white space that is skipped is the characters with Unicode's White_Space property, in UTF-8. |

## Left out

- The value codec, schema validation, hashing, signing and the object database are libraries. A schema is an
  opaque object, a tombstone's three fields are three blobs, and failures of these libraries are the failing
  step of a client.
- Publishing a set of gix edits, and iterating the refs on disk, are each one atomic step. A lock timeout is a
  step that gives up and releases.
- Batches that name one ref twice follow the in-memory semantics; what gix does with them is not part of this
  model. For the same reason a transaction's agreement result asks that no ref be named twice.
- Only the default layout is modelled. A custom layout can place entities where index refs live.
- The canonical name derived from a document's hex id is a caller-chosen name here, and the name derived from a
  publication's own commit (`publish_named_by_commit`) is not modelled.
- `KindRuns.IndexAgreement`: covers publishers and deleters whose explicit parents stay on the walk. With
  transactions `KindMixedReads.AgreementByReads` has the exact condition on that walk, and
  `KindMixedIndex.AgreementAmongAll` off it. Rebuilds and outright removals are no events of a run; each has its
  own condition for one landing.
- `KindMixed.FastForwardAmongOthers`: has publishers, deleters and transactions as its events, not outright
  removals, which never move forward.
- `Tombstones.DocumentReads`: is of a stand-in for the typed codec, three blobs under one fixed schema; the
  codec itself is a library.
- `try_update` re-reads its expectation after rebuilding, so it carries no lost-update claim.
- Retry loops are bounded by the other writers' interference, not absolutely.
- The README of the repository says aliases are tombstoned or restored together; the code moves only the named
  ref, and the model follows the code.
- The document's id in a deletion's message is not modelled; whatever it is, the message is accepted.
- The errors of reading a document that is neither live nor a tombstone of the kind (no commit, not bound, of another
  kind, a malformed tombstone) are one `BadDocument` here; `Envelope.SplitMeaning` has those of splitting apart.
- A process killed outright leaves its lock files behind; in `LockedBatch` giving up always releases them.
- Encoding a segment of 2^32 bytes or more panics in the original; the writing methods here are specified by the
  encoding function and leave that panic out, while every statement about decoding asks for shorter segments.
- Other reads (`read`, `entries`, `list_under`, `kinds`) add only decoding and filters over the listing.
- The command line, output, editor, prompts, environment handling and the doctor are not modelled.
