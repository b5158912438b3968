# Verified model of the Tee in-memory lattice store

Tee keeps a hypothesis graph that many agents extend at once, and per incident the set of nodes and
edges that have been eliminated. This project models the in-memory store behind it, the lattices it
merges with, the conversions to and from the wire messages, and the validation in front of it, and
proves what holds over every run of requests.

## How the model is built

- `NodeLattice.dfy`, `EdgeLattice.dfy`, `Provenances.dfy`: the lattices. In-place merges are methods
  of small classes, proved against a pure `Join`. `GraphLattice.dfy`: maps of them under pointwise
  join, the composite lattice the store is compared with.
- `Proto.dfy`, `ProtoConvert.dfy`, `Validation.dfy`: messages, conversions, checks.
- `Events.dfy`: the store as an event machine. An event is one entry a write loop processes, `Step`
  is one iteration of a loop and `ReportOf` the list it pushes to. `Replay` runs a log of events.
- `StoreSpec.dfy`: requests. A request has a plan (its converted entries); it processes the entries
  before the first one that does not convert. `Run`, `Responses` and `Log` describe whole runs from
  requests to state, answers and processed entries.
- `MemoryStore.dfy`: the store itself, a class with three maps and a ghost log. Its methods have the
  loops and early returns of the original and are proved to do and answer what `StoreSpec` says, and
  to keep the invariant that the state is the replay of the log.
- `WireFormat.dfy`: what every conversion, number, id and listing order is on the fields clients see.
- Everything else proves properties of those runs: `ClosedForm`, `LatticeRefinement`, `Convergence`,
  `Commutation`, `WriteOrder`, `Grouping`, `Growth`, `Absorption`, `Retries`, `LiveViews`,
  `Snapshots`, `ValidatedRuns`, `Isolation`, `Conservation`, `HypothesisAnswers`,
  `TombstoneAnswers`, `ReadAnswers`, `EdgeIds`, `LockMachine`. `Counterexamples` holds concrete valid
  requests for which a documented claim fails, and `Runs` restates the main results for requests and
  answers.

Equality is exact unless a statement says otherwise. "Up to timestamps" means: the same type, label,
hypothetical flag and provenance identities `(source, trigger)`; the timestamps of provenance
records and of incident creation may differ. `Same`, `SameNodes`, `SameEdges`, `SameState` and
`SameGraph` are those equivalences.

Where the code and its documents differ, the model follows the code:

- `CRDT_Safe.md:58-64` claims that merging commutes. Type and label are first-write-wins, so it does
  not when two proposals for one id disagree (`Counterexamples.CommutingFails`).
  `WriteOrder.WritesCommuteIff`, `Runs.RunsConvergeIff` and `Convergence.OrderMattersIffDisputed`
  give the exact conditions.
- `CRDT_Safe.md:50-56` claims that grouping does not matter. It does when a bad type number cuts off
  entries that the other grouping would process (`Counterexamples.GroupingFailsAfterAnEdge`,
  `Counterexamples.GroupingFailsAfterABadNode`); `Grouping.GroupingIff` says exactly when.
- `hypothetical` is a conjunction, not the maximum the top-level document names
  (`src/domain/node.rs:19-21`), and a created node keeps the proposed value.
- An edge may dangle: its endpoints are not looked up among the nodes.
- A batch that stops half way has already stored the entries before the bad one, and the conflicts it
  had found are not reported to anyone.

## Model

| member | source | states |
|---|---|---|
| NodeLattices.MutableNode.Merge | src/domain/node.rs:64-73 | the in-place merge computes the join of the four fields; it answers "changed" exactly when the receiver changed, which is exactly when the argument carried something new |
| NodeLattices.MergeConflict | src/domain/node.rs:14-15 | a conflict field goes to top on any disagreement and reports a change exactly then |
| NodeLattices.MergeMin | src/domain/node.rs:19-21 | hypothetical is a conjunction; once false it stays false |
| NodeLattices.JoinLaws | src/domain/node.rs:64-73 | the join is associative and idempotent exactly, commutative up to timestamps, and leaves its receiver exactly unchanged iff the argument is below it, top included |
| NodeLattices.JoinIsLeastUpperBound | src/domain/node.rs:64-73 | the join is the least upper bound in the information order |
| NodeLattices.BelowIsOrder | src/domain/node.rs:13-17 | the information order is a preorder whose equivalence is equality up to timestamps |
| NodeLattices.ConflictIsDisagreement | src/domain/node.rs:45-61 | two conflict-free nodes join to a conflict iff they disagree, and the field named is the type before the label |
| Provenances.MergeSet | src/domain/provenance.rs:5-11 | provenance union keeps the record on file; comparing sizes answers exactly whether the set changed |
| Provenances.ExtendLaws | src/domain/provenance.rs:39-57 | union is associative and idempotent with timestamps, its identities do not depend on the order, and it changes nothing iff no new identity arrives |
| EdgeLattices.MutableEdge.Merge | src/domain/edge.rs:43-47 | the in-place edge merge computes the join and answers whether anything changed |
| EdgeLattices.JoinLaws | src/domain/edge.rs:43-47 | associative and idempotent exactly, commutative up to timestamps |
| EdgeLattices.JoinIsLeastUpperBound | src/domain/edge.rs:43-47 | the edge join is the least upper bound |
| GraphLattices.MergeNodesLaws | src/domain/graph.rs:6-8 | node maps under pointwise merge: all semilattice laws, unchanged iff the argument is below, least upper bound |
| GraphLattices.MergeEdgesLaws | src/domain/graph.rs:10-11 | the same for edge maps |
| ProtoConvert.NodeTypeFromNumber | src/proto_convert.rs:20-43 | a node type number converts iff it is one of the four, and converts back to itself |
| ProtoConvert.EdgeTypeFromNumber | src/proto_convert.rs:47-68 | an edge type number converts iff it is one of the three, and converts back to itself |
| ProtoConvert.CollectHoldsTheList | src/proto_convert.rs:72-103 | a provenance list collected into a set keeps every identity, each with the timestamp of a listed record, or the epoch if that record has none |
| WireFormat.TypeNumbers | src/proto_convert.rs:18-68 | which type each number is, which number each type is, and the names a conflict quotes, literally |
| WireFormat.NodeEntryOnWire | src/proto_convert.rs:97-106 | a node converts iff its type number is 1 to 4; its id, label, flag, type and records are those sent |
| WireFormat.EdgeEntryOnWire | src/proto_convert.rs:134-144 | an edge converts iff its type number is 1 to 3; its ends, type and records are those sent |
| WireFormat.TombstoneEntryOnWire | src/store/memory.rs:257-260 | an edge-tombstone entry names the edge with its source, target and type, or its bad number is the error |
| WireFormat.EdgeIdOnWire | src/store/memory.rs:117 | the reported id of an edge, character by character: source, arrow, target, colon, type digit |
| WireFormat.KeyOrderOnWire | src/domain/provenance.rs:53-57 | provenance is ordered by source, then trigger, both lexicographic |
| WireFormat.EdgeKeyOrderOnWire | src/domain/edge.rs:10-16 | edge keys are ordered by source, then target, then type number |
| WireFormat.RecordsOnWire | src/proto_convert.rs:82-93 | a provenance set is listed by source and trigger, each record once, with its own timestamp |
| WireFormat.ListingOnWire | src/proto_convert.rs:108-159 | a listed node or edge, field by field, an unresolved type or label showing as unspecified or empty |
| ProtoConvert.ProvenanceRoundTrip | src/proto_convert.rs:72-93 | listing a provenance set and collecting the list gives the set back, timestamps included |
| ProtoConvert.NodeRoundTrip | src/proto_convert.rs:97-130 | exporting a conflict-free node and reading it back gives the same id and lattice |
| ProtoConvert.EdgeRoundTrip | src/proto_convert.rs:134-159 | exporting an edge and reading it back gives the same key and lattice |
| Validation.ValidateNode | src/schema/validation.rs:41-58 | accepts exactly nodes with id, label, specified type and at least one provenance record, all of them attributed; says for every other node which error it gets |
| Validation.ValidateEdge | src/schema/validation.rs:60-80 | accepts exactly edges between two different named ends with specified type and attributed provenance; says for every other edge which error it gets |
| Validation.ValidateHypothesisDelta | src/schema/validation.rs:82-90 | accepts a delta iff it accepts every node and every edge |
| Validation.RejectionNamesFirstOffender | src/schema/validation.rs:82-90 | a rejected delta is rejected with the error of its first bad node, or of its first bad edge when no node is bad |
| Validation.ValidateNodeTombstoneRequest | src/schema/validation.rs:92-106 | accepts exactly requests with incident, at least one id and attributed provenance, and says which error any other gets |
| Validation.ValidateEdgeTombstoneRequest | src/schema/validation.rs:108-133 | accepts exactly requests with incident, attributed provenance and at least one entry, all entries complete, and says which error any other gets |
| Orders.StringLeqIsLexicographic | src/store/memory.rs:29-31 | one string comes no later than another iff it is a prefix of it or has the smaller character where they first differ |
| Orders.SortedStringsAscend | src/store/memory.rs:29-31 | strings are iterated in that order, each once |
| Orders.SortedIsSorted | src/store/memory.rs:29-31 | a map or set iterates in increasing order of its key order, each key once, whatever that order is |
| Orders.FilterKeepsSorted | src/store/memory.rs:292-308 | a filtered iteration is still in key order |
| MemoryStore.InMemoryStore.constructor | src/store/memory.rs:43-49 | a new store is empty |
| MemoryStore.InMemoryStore.PutNodeEntry | src/store/memory.rs:73-112 | one node iteration: insert, or merge a clone and keep it only if it is not in conflict; reports created, merged, or the conflict with the stored value |
| MemoryStore.InMemoryStore.PutEdgeEntry | src/store/memory.rs:121-130 | one edge iteration: insert or merge in place |
| MemoryStore.InMemoryStore.BuryNodeEntry | src/store/memory.rs:219-229 | one node-tombstone iteration |
| MemoryStore.InMemoryStore.BuryEdgeEntry | src/store/memory.rs:257-272 | one edge-tombstone iteration |
| MemoryStore.InMemoryStore.ProcessNodes | src/store/memory.rs:67-113 | the node loop processes exactly the entries before the first that does not convert and collects exactly their reports |
| MemoryStore.InMemoryStore.ProcessEdges | src/store/memory.rs:115-131 | the same for the edge loop |
| MemoryStore.InMemoryStore.MergeHypothesis | src/store/memory.rs:58-138 | the new state, the answer and the processed entries are those of the specification, on success and on early return, and the state stays the replay of the log |
| MemoryStore.InMemoryStore.CreateIncident | src/store/memory.rs:140-166 | opens the incident once; answers created iff it was unknown; an existing incident is untouched |
| MemoryStore.InMemoryStore.MergeNodeTombstones | src/store/memory.rs:201-237 | as specified, an unknown incident being an error that changes nothing |
| MemoryStore.InMemoryStore.MergeEdgeTombstones | src/store/memory.rs:239-280 | as specified, including the early return on a bad type number with earlier tombstones kept |
| StoreSpec.RunIsReplay | src/store/memory.rs:58-138 | a run of requests is the replay of its log, however the log was cut into batches |
| MemoryStore.PrefixOfConcatenation | src/store/memory.rs:67-131 | a batch of nodes then edges stops at the first bad node, or else at the first bad edge |
| ClosedForm.NodeClosedForm | src/store/memory.rs:67-113 | after any log: a node is stored iff it was proposed; type and label are those of its first proposal; hypothetical is the conjunction, and the records the union, over exactly the agreeing proposals; each record has the timestamp of the earliest agreeing proposal that carries it |
| ClosedForm.ClosedFormDeterminesNode | src/store/memory.rs:67-113 | the closed form leaves no freedom: two nodes that satisfy it are equal |
| ClosedForm.EdgeClosedForm | src/store/memory.rs:115-131 | an edge is stored iff submitted; its records are those of all submissions, each dated by the earliest |
| ClosedForm.IncidentClosedForm | src/store/memory.rs:140-166 | an incident is known iff opened, dated by its first opening, and its tombstones are exactly those submitted since |
| Runs.RunClosedForm | src/store/memory.rs:57-280 | the closed form of nodes, edges and incidents for every run of requests |
| LatticeRefinement.FoldOfConcatenation | src/domain/graph.rs:6-11 | the pure fold does not depend on how the log is grouped |
| LatticeRefinement.StoreRefinesFold | src/store/memory.rs:73-112 | an id is in conflict in the fold iff the store rejected a proposal for it; the fold names the type iff some rejection did, the label iff all rejections did; elsewhere store and fold are equal exactly |
| LatticeRefinement.StoredEdgesAreTheFold | src/store/memory.rs:121-130 | the stored edges are the fold exactly |
| Runs.RejectionsAreAnswered | src/store/memory.rs:78-102 | a conflict is in some answer iff some request that converts has it among its rejections; the log rejects exactly what any request rejects |
| Runs.RunRefinesLattice | src/store/memory.rs:58-138 | after every run the lattice is in conflict on an id exactly when some request met a conflict about it, in its answer or in a request that stopped half way; the field is the type iff one blamed the type; elsewhere the stored node is the lattice node exactly, and so are all edges |
| Runs.RejectionQuotesFirstProposal | src/store/memory.rs:84-96 | the value a conflict quotes is that of the first proposal for the id |
| Convergence.RejectedIffDisputed | src/store/memory.rs:78-102 | an id is ever rejected iff two proposals for it disagree, in whatever order they came |
| Convergence.OrderIndependentResidue | src/store/memory.rs:73-131 | with or without disagreement, two logs of the same entries give the same ids, edges, records, tombstones and rejected ids |
| Convergence.NodeConvergesIffSameWinner | src/store/memory.rs:73-112 | over the same entries an id is stored the same iff the first proposals for it agree |
| Convergence.ConvergesIffSameWinners | CRDT_Safe.md:44-74 | two logs of the same entries reach the same state up to timestamps iff for every id the first proposals agree |
| Convergence.StrongConvergence | CRDT_Safe.md:44-74 | any order, batching and multiplicity converge when no two proposals for one id disagree |
| Convergence.OrderMattersIffDisputed | CRDT_Safe.md:58-64 | a log can be permuted freely without effect iff no id is disputed |
| Runs.RunsConvergeIff | src/store/memory.rs:57-280 | the exact convergence condition for runs of requests |
| Runs.ResidueOfRuns | src/store/memory.rs:57-280 | the order-independent residue for runs of requests |
| Runs.ConvergedRunsReadAlike | src/store/memory.rs:282-353 | converged runs answer every read with the same lists in the same order, up to timestamps |
| Commutation.BatchesCommuteIff | CRDT_Safe.md:58-64 | two batches commute iff for every unknown id their first proposals agree |
| Commutation.HypothesesCommuteIff | CRDT_Safe.md:58-64 | the same for two requests in any reachable state, half-failed ones included |
| Grouping.GroupingIff | CRDT_Safe.md:50-56 | for any two deltas, submitting them one after the other or as one makes no difference in any state, timestamps included, iff what a bad type number cuts off in one grouping alone is nothing or repeats what was processed before it; stated case by case on the type numbers |
| Grouping.AbsorbsIff | CRDT_Safe.md:66-72 | one batch absorbs another in every state iff every entry of the other repeats it: the id or key, every record from an agreeing proposal, and a confirmation where it confirms |
| Counterexamples.CommutingFails | CRDT_Safe.md:58-64 | two valid requests whose order shows in an empty store: one id under two labels |
| Counterexamples.OpeningOrderShows | src/store/memory.rs:211-213 | two valid requests, creating an incident and a tombstone for it, whose order shows |
| Counterexamples.GroupingFailsAfterAnEdge | CRDT_Safe.md:50-56 | two valid requests whose grouping shows: an edge, then a node with an unknown type number |
| Counterexamples.GroupingFailsAfterABadNode | CRDT_Safe.md:50-56 | the same with the unknown type number in the first request |
| WriteOrder.WritesCommuteIff | CRDT_Safe.md:58-80 | any two writes in any reachable state can be swapped, up to timestamps, iff they do not compete for an unknown id and neither creates the unknown incident of the other's tombstones, unless those process no entry |
| WriteOrder.UnrelatedWritesCommute | CRDT_Safe.md:58-80 | writes to different parts of the store commute exactly, in every state, known or unknown incidents included |
| WriteOrder.TombstonesCommute | CRDT_Safe.md:58-80 | tombstone requests always commute exactly |
| Commutation.LogsOpenFirst | src/store/memory.rs:211-213 | no run of requests places a tombstone in an unknown incident |
| Growth.ReplayGrows | src/store/memory.rs:57-280 | along every run nothing stored is lost; types, labels, timestamps and creation times never change; hypothetical never returns to true |
| Growth.ReplayStoresNoTop | src/store/memory.rs:75-106 | no stored node is ever in conflict |
| Retries.RunGrows | src/store/memory.rs:57-280 | both, for runs of requests from any state |
| Absorption.SettledIsNoOp | src/store/memory.rs:73-131 | an entry already accounted for changes nothing, rejected ones included |
| Absorption.ReplayAbsorbed | CRDT_Safe.md:66-72 | a batch that was processed once is absorbed exactly at any later point, and each entry is reported as a repetition |
| Retries.RetryHasNoEffect | CRDT_Safe.md:66-72 | a retried request, first answered with success or a backend failure, leaves the state exactly unchanged |
| Retries.RetriedHypothesisAnswer | src/store/memory.rs:97-111 | the retry of a hypothesis creates nothing, reports the identical conflicts, and merges everything else in the order of the request |
| Retries.RetriedNodeTombstonesAnswer | src/store/memory.rs:220-221 | the retry of a node-tombstone call lists every id as tombstoned already |
| Retries.RetriedEdgeTombstonesAnswer | src/store/memory.rs:263-264 | the same for edges |
| Retries.FailsIffBadTypeNumber | src/store/memory.rs:70-71 | a hypothesis fails iff some type number has no domain type; validated, iff one is out of range |
| Retries.FailureIsExactPrefix | src/store/memory.rs:68-119 | a failed hypothesis names its first bad type number and leaves the state of the entries before it, submitted as a batch of their own |
| Retries.EdgeTombstonesFailIff | src/store/memory.rs:249-259 | an edge-tombstone request fails iff its incident is unknown or some type number has no domain type, and names the first such number |
| Retries.FailedEdgeTombstonesAreExactPrefix | src/store/memory.rs:257-273 | one that stops half way leaves the state of the entries before the bad one, submitted as a request of their own |
| Retries.CorrectedBatchSupersedes | src/store/memory.rs:68-119 | resubmitting a corrected batch gives the state of submitting it from the start |
| LiveViews.LiveIsMainMinusTombstones | src/store/memory.rs:292-310 | the live view is the main graph listing with the tombstoned entries struck out |
| LiveViews.LiveViewIsExact | src/store/memory.rs:282-311 | an unknown incident has no live view; otherwise it lists exactly the live ids and keys, each once, nodes lexicographically and edges by source, target and type number |
| LiveViews.LiveViewIsClosedIff | src/store/memory.rs:299-308 | a live edge dangles iff it already dangles in the main graph |
| LiveViews.LiveViewIsMonotone | src/store/memory.rs:292-308 | the view grows with the graph and shrinks with the tombstones |
| LiveViews.NodeEliminationIsPermanent | src/store/memory.rs:292-306 | a tombstoned node and every edge touching it are absent from all later views, whenever they are proposed |
| LiveViews.EdgeEliminationIsPermanent | src/store/memory.rs:302-303 | likewise for a tombstoned edge |
| LiveViews.ReadsAgree | src/store/memory.rs:282-353 | states equal up to timestamps answer every read alike |
| MemoryStore.InMemoryStore.GetMainGraph | src/store/memory.rs:337-353 | the read answers what the specification answers in the current state |
| MemoryStore.InMemoryStore.GetLiveView | src/store/memory.rs:282-311 | likewise |
| MemoryStore.InMemoryStore.GetTombstones | src/store/memory.rs:313-335 | likewise |
| MemoryStore.InMemoryStore.GetIncidentContext | src/store/memory.rs:168-199 | likewise |
| ReadAnswers.MainGraphAnswer | src/store/memory.rs:337-353 | the main graph shows every stored node and edge once, in order, field by field |
| ReadAnswers.LiveViewAnswer | src/store/memory.rs:282-311 | the live view shows the live ones likewise, or is refused for an unknown incident |
| ReadAnswers.TombstonesAnswer | src/store/memory.rs:313-335 | the tombstone set shows every tombstone once, in order, or is refused for an unknown incident |
| ReadAnswers.ContextAnswer | src/store/memory.rs:168-199 | the context shows id, creation time and tombstones, or is refused for an unknown incident |
| ReadAnswers.ReadsKnowWhatWasCreated | src/store/memory.rs:173-176 | after any run the three incident reads succeed iff some request created the incident, and otherwise answer that it is not found |
| ReadAnswers.ContextDatesFirstCreation | src/store/memory.rs:145-160 | the creation time shown is the clock reading of the first request that created the incident |
| ReadAnswers.SubmittedNodeIsListed | src/proto_convert.rs:72-130 | a node merged into an empty store is listed as sent, record by record, a missing timestamp as the epoch |
| HypothesisAnswers.HypothesisAnswer | src/store/memory.rs:63-137 | the whole answer to a hypothesis from request and prior state: which list each entry is in, at which place, under which id, and which field and value a conflict quotes |
| HypothesisAnswers.StandingAfter | src/store/memory.rs:73-112 | in mid-request an id is known iff it was stored or mentioned before, with the type and label of the stored node or else of the first mention |
| HypothesisAnswers.IdsAreInOrder | src/store/memory.rs:63-136 | a result list holds the ids of its outcome and no others, in processing order |
| HypothesisAnswers.ConflictsAreInOrder | src/store/memory.rs:97-102 | the conflict list holds the rejections in processing order, each with id, field and quoted value |
| Snapshots.ImportIsAdoption | src/store/memory.rs:58-138 | importing another store's export joins the nodes both agree on, keeps the own ones where they do not, and joins all edges |
| Snapshots.RestoreIsExact | src/store/memory.rs:337-353 | an export merged into an empty store rebuilds the graph exactly, timestamps included |
| Snapshots.RestoreAnswer | src/store/memory.rs:108-111 | every exported id is reported created, none merged, none in conflict |
| Snapshots.SelfMergeChangesNothing | src/store/memory.rs:337-353 | an export merged back into its own store changes nothing |
| Snapshots.SelfMergeAnswer | src/store/memory.rs:103-106 | every exported id is reported merged |
| Snapshots.ReplicasConvergeIffTheyAgree | src/store/memory.rs:337-353 | two stores that exchange exports hold the same graph iff they agreed on every shared id |
| Snapshots.ReplicaJoinIsLeastUpperBound | src/store/memory.rs:337-353 | in that case the common graph is the least upper bound of the two |
| ValidatedRuns.ValidatedRunsAreSound | src/service.rs:43 | after validated requests only, every stored node and edge is complete, attributed and free of conflict |
| ValidatedRuns.ExportIsValid | src/schema/validation.rs:82-90 | the export of such a store passes validation |
| ValidatedRuns.SnapshotAndRestore | src/service.rs:37-50 | snapshot, validation, restore and self-merge together, for every run of validated requests |
| ValidatedRuns.ListedTypesAreSpecified | src/proto_convert.rs:109-116 | no listing ever carries the unspecified node type |
| Isolation.Noninterference | src/store/memory.rs:140-335 | deleting all operations addressed to other incidents changes neither the remaining answers nor what an observer of the incident sees |
| Isolation.ObserverSeesNoDifference | src/store/memory.rs:168-335 | in particular live view, tombstones and context are equal |
| Conservation.HypothesisCallSplits | src/store/memory.rs:63-137 | a successful hypothesis call puts every submitted entry in exactly one of its three lists |
| Conservation.NodeTombstoneCallSplits | src/store/memory.rs:215-236 | a tombstone call splits its request, repetitions counted, into its three lists |
| Conservation.EdgeTombstoneCallSplits | src/store/memory.rs:253-279 | the same for edges |
| Conservation.AnnouncedOnce | src/store/memory.rs:63-280 | over a run nothing is announced as new that is not stored, nothing twice, and everything stored is announced unless a batch stopped half way |
| Conservation.NodeTombstonesConserved | src/store/memory.rs:215-236 | in every run each tombstoned node is announced exactly once, so the set's size is the sum of the list lengths |
| Conservation.GraphConserved | src/store/memory.rs:63-131 | an id is announced created as often as nodes and edges are stored under it |
| Conservation.ArrowFreeEdgesAnnouncedOnce | src/store/memory.rs:117-129 | with arrow-free ends each stored edge is announced exactly once |
| TombstoneAnswers.NodeTombstoneAnswer | src/store/memory.rs:211-236 | the whole answer from request and prior state: an unknown incident is an error; otherwise each mention goes, in order, to the list its position decides: known and fresh, unknown and fresh, mentioned or tombstoned before |
| TombstoneAnswers.EdgeTombstoneAnswer | src/store/memory.rs:249-279 | the same for edges, the first bad type number being an error, with the number of times each rendered id occurs in each list |
| TombstoneAnswers.TombstoneListing | src/store/memory.rs:168-199 | the listing holds exactly the tombstones, nodes lexicographically and edges by source, target and type number; the incident context shows the same listing with the creation time |
| TombstoneAnswers.TombstonesTransfer | src/store/memory.rs:313-335 | submitting one incident's tombstone listing to another leaves exactly the union of both, and nothing else changed |
| EdgeIds.SameIdIff | src/store/memory.rs:117 | what the id of an edge reads, and when exactly two edges are reported under one id |
| EdgeIds.AmbiguousIff | src/store/memory.rs:117 | an edge shares its id with some other edge iff one of its ends contains an arrow |
| EdgeIds.ArrowFreeIdsIdentify | src/store/memory.rs:261 | ids identify edges when no source, or no target, contains an arrow |
| LockMachine.EveryRunIsSequential | src/store/memory.rs:62 | every interleaving of clients under the lock, one entry per step, gives the answers of a sequential run, and its state up to the running writer's progress |
| LockMachine.ReadersSeeWholeBatches | src/store/memory.rs:286 | a reader never sees the inside of a batch |
| LockMachine.StoreIsStableUnderReaders | src/store/memory.rs:338 | no step of anyone changes the state while a reader reads |
| LockMachine.ClientsSeeTheOrder | src/store/memory.rs:205 | each client's replies are those of the sequential run, in the order it submitted its requests |
| LockMachine.OrderRespectsRealTime | src/store/memory.rs:243 | a request called after another was answered comes after it in the sequential order |
| LockMachine.SomeoneCanMove | src/store/memory.rs:62 | while a client waits, some step other than a new call is possible |
| LockMachine.EveryoneFinishes | src/store/memory.rs:62-138 | without new calls only a bounded number of steps remains, and when none is possible every client is idle and has received the sequential answer to each of its requests |

## Left out

- The gRPC service, server start-up, configuration and build script; of the service only the fact that validation precedes every store call is used.
- The Neo4j backend and the queries in the top-level document: not part of this model.
- Universe anchors, elimination set ids and the other designs under docs/ that the code does not implement.
- The internals of the readers-writer lock and of task scheduling: `LockMachine` assumes its mutual exclusion; a task dropped in mid-batch is not modelled.
- The clock: the time of creation is an argument of `CreateIncident`.
- The internals of the lattice, map and set libraries: they are modelled by their contracts, a merge answering whether its receiver changed and an iteration going in key order.
- Collect: which of two records with the same identity inside one incoming list survives is decided in the standard library; the model leaves it open and no statement depends on it.
- Error texts: a backend error carries the conversion error, not its rendered message; the always-empty proposed value of a conflict is modelled as the empty string.
- Integer widths: timestamps and type numbers are unbounded integers; nothing is computed with them apart from rendering a type number.
- Text encoding: strings are sequences of characters compared by code point, which is the order of their encoded bytes.
- References into the maps: an entry updated through a mutable reference is modelled as a value read, merged and written back.
- ValidatedRuns.SnapshotAndRestore: incidents and tombstones are not part of an export, so a restored store has none.
- Serialisation, hashing, bottom tests and conversions between lattice representations.
