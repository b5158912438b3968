/**
 When it makes no difference whether two deltas are submitted one after the other or as one. Only a
 bad type number can make one: it cuts off entries that the other grouping would process.
 */
module Grouping {
  import opened Wrappers
  import opened Events
  import opened ClosedForm
  import opened Absorption
  import opened StoreSpec
  import opened Retries
  import opened Commutation
  import Conservation
  import Convergence
  import MemoryStore
  import Proto
  import N = NodeLattices
  import E = EdgeLattices
  import P = Provenances

  // ---- When one batch absorbs another ----

  /** Some proposal in the batch agrees with `n` and carries record `k`. */
  ghost predicate CarriesRecord(es: seq<Event>, id: string, n: Proposal, k: P.ProvKey) {
    exists i :: ProposedAt(es, i, id) && N.Agree(es[i].node, n) && k in es[i].node.provenance
  }

  /** Some proposal in the batch agrees with `n` and is not hypothetical. */
  ghost predicate Confirms(es: seq<Event>, id: string, n: Proposal) {
    exists i :: ProposedAt(es, i, id) && N.Agree(es[i].node, n) && !es[i].node.hypothetical
  }

  /** The batch has already said everything that entry `f` says. */
  ghost predicate Repeats(es: seq<Event>, f: Event) {
    match f
    case PutNode(id, n) =>
      && Proposed(es, id)
      && (forall k | k in n.provenance :: CarriesRecord(es, id, n, k))
      && (!n.hypothetical ==> Confirms(es, id, n))
    case PutEdge(k, l) =>
      && (exists i :: EdgeAt(es, i, k))
      && (forall p | p in l.provenance :: EdgeRecorded(es, k, p))
    case _ => false
  }

  /** In no state does `fs` change anything after `es`. */
  ghost predicate Absorbs(es: seq<Event>, fs: seq<Event>) {
    forall s :: Replay(Replay(s, es), fs) == Replay(s, es)
  }

  lemma EntrySettled(s: State, es: seq<Event>, i: nat)
    requires AllGraphEntries(es) && i < |es|
    ensures Settled(Replay(s, es), es[i])
  {
    hide Replay, Settled, Step;
    assert forall e | e in es :: Addressed(s, e);
    BatchSettles(s, es);
    assert es[i] in es;
  }

  lemma RepeatedNodeIsSettled(s: State, es: seq<Event>, id: string, n: Proposal)
    requires AllGraphEntries(es) && Repeats(es, PutNode(id, n))
    ensures Settled(Replay(s, es), PutNode(id, n))
  {
    var t := Replay(s, es);
    hide Replay, AllGraphEntries;
    var i :| ProposedAt(es, i, id);
    EntrySettled(s, es, i);
    if N.Agree(n, t.nodes[id]) {
      forall k | k in n.provenance ensures k in t.nodes[id].provenance {
        var j :| ProposedAt(es, j, id) && N.Agree(es[j].node, n) && k in es[j].node.provenance;
        EntrySettled(s, es, j);
      }
      if !n.hypothetical {
        var j :| ProposedAt(es, j, id) && N.Agree(es[j].node, n) && !es[j].node.hypothetical;
        EntrySettled(s, es, j);
      }
    }
  }

  lemma RepeatedEdgeIsSettled(s: State, es: seq<Event>, k: E.EdgeKey, l: E.EdgeLattice)
    requires AllGraphEntries(es) && Repeats(es, PutEdge(k, l))
    ensures Settled(Replay(s, es), PutEdge(k, l))
  {
    var t := Replay(s, es);
    hide Replay, AllGraphEntries;
    var i :| EdgeAt(es, i, k);
    EntrySettled(s, es, i);
    forall p | p in l.provenance ensures p in t.edges[k].provenance {
      var j :| EdgeAt(es, j, k) && p in es[j].edge.provenance;
      EntrySettled(s, es, j);
    }
  }

  lemma RepetitionsAreAbsorbed(es: seq<Event>, fs: seq<Event>)
    requires AllGraphEntries(es) && forall f | f in fs :: Repeats(es, f)
    ensures Absorbs(es, fs)
  {
    forall s ensures Replay(Replay(s, es), fs) == Replay(s, es) {
      forall f | f in fs ensures Settled(Replay(s, es), f) {
        assert Repeats(es, f);
        if f.PutNode? {
          RepeatedNodeIsSettled(s, es, f.id, f.node);
        } else {
          RepeatedEdgeIsSettled(s, es, f.key, f.edge);
        }
      }
      hide *;
      SettledBatchIsNoOp(Replay(s, es), fs);
    }
  }

  /** A proposal with the type and label of `n` and nothing else to say. */
  function Seed(n: Proposal): Proposal {
    N.NodeLattice(n.nodeType, n.nodeLabel, true, map[])
  }

  function Seeded(es: seq<Event>, id: string, n: Proposal): seq<Event> {
    [PutNode(id, Seed(n))] + es
  }

  /** After the seed of a proposal exactly the proposals that agree with it count. */
  lemma CountsAfterSeed(es: seq<Event>, id: string, n: Proposal, i: int)
    requires Counts(Seeded(es, id, n), 0, i, id) && i != 0
    ensures ProposedAt(es, i - 1, id) && N.Agree(es[i - 1].node, n) && Seeded(es, id, n)[i] == es[i - 1]
  {
  }

  lemma StoredAfterSeed(es: seq<Event>, id: string, n: Proposal)
    ensures id in Replay(EMPTY, Seeded(es, id, n)).nodes
    ensures IsNodeOf(Replay(EMPTY, Seeded(es, id, n)).nodes[id], Seeded(es, id, n), 0, id)
    ensures N.Agree(Replay(EMPTY, Seeded(es, id, n)).nodes[id], n)
  {
    var log := Seeded(es, id, n);
    assert FirstProposal(log, 0, id) && N.Agree(log[0].node, n);
    NodeClosedForm(log, id);
    hide Replay, IsNodeOf, Seeded;
    Convergence.FirstWins(log, 0, id);
    var f :| FirstProposal(log, f, id) && IsNodeOf(Replay(EMPTY, log).nodes[id], log, f, id);
    assert f == 0;
  }

  lemma RecordedAfterSeed(es: seq<Event>, id: string, n: Proposal, k: P.ProvKey)
    requires Recorded(Seeded(es, id, n), 0, id, k)
    ensures CarriesRecord(es, id, n, k)
  {
    var log := Seeded(es, id, n);
    assert log[0].node == Seed(n);
    hide Seeded;
    var i :| Counts(log, 0, i, id) && k in log[i].node.provenance;
    CountsAfterSeed(es, id, n, i);
  }

  lemma ConfirmedAfterSeed(es: seq<Event>, id: string, n: Proposal)
    requires !AllHypothetical(Seeded(es, id, n), 0, id)
    ensures Confirms(es, id, n)
  {
    var log := Seeded(es, id, n);
    assert log[0].node == Seed(n);
    hide Seeded;
    var i :| Counts(log, 0, i, id) && !log[i].node.hypothetical;
    CountsAfterSeed(es, id, n, i);
  }

  lemma BelowSeededRepeats(es: seq<Event>, id: string, n: Proposal, stored: N.NodeLattice)
    requires Proposed(es, id) && IsNodeOf(stored, Seeded(es, id, n), 0, id) && N.Below(n, stored)
    ensures Repeats(es, PutNode(id, n))
  {
    hide Recorded, Dated, Seeded, AllHypothetical, Confirms, CarriesRecord, Proposed;
    forall k | k in n.provenance ensures CarriesRecord(es, id, n, k) {
      RecordedAfterSeed(es, id, n, k);
    }
    if !n.hypothetical {
      ConfirmedAfterSeed(es, id, n);
    }
  }

  lemma SettledIsBelow(s: State, id: string, n: Proposal)
    requires Settled(s, PutNode(id, n))
    ensures id in s.nodes && (N.Agree(s.nodes[id], n) ==> N.Below(n, s.nodes[id]))
  {
  }

  /** Starting from the seed of a proposal, a batch that absorbs the proposal repeats it. */
  lemma AbsorbedNodeRepeats(es: seq<Event>, fs: seq<Event>, id: string, n: Proposal)
    requires AllGraphEntries(fs) && Absorbs(es, fs) && PutNode(id, n) in fs
    ensures Repeats(es, PutNode(id, n))
  {
    hide *;
    var seed := [PutNode(id, Seed(n))];
    var log := Seeded(es, id, n);
    assert log == seed + es by { SeededIs(es, id, n); }
    AbsorbedIsSettled(EMPTY, es, fs, PutNode(id, n));
    SettledIsBelow(Replay(EMPTY, es), id, n);
    StoredIffProposed(es, id);
    AbsorbedIsSettled(Replay(EMPTY, seed), es, fs, PutNode(id, n));
    ReplayConcat(EMPTY, seed, es);
    StoredAfterSeed(es, id, n);
    SettledIsBelow(Replay(EMPTY, log), id, n);
    BelowSeededRepeats(es, id, n, Replay(EMPTY, log).nodes[id]);
  }

  lemma SeededIs(es: seq<Event>, id: string, n: Proposal)
    ensures Seeded(es, id, n) == [PutNode(id, Seed(n))] + es
  {
  }

  lemma AbsorbedEdgeRepeats(es: seq<Event>, fs: seq<Event>, k: E.EdgeKey, l: E.EdgeLattice)
    requires AllGraphEntries(fs) && Absorbs(es, fs) && PutEdge(k, l) in fs
    ensures Repeats(es, PutEdge(k, l))
  {
    AbsorbedIsSettled(EMPTY, es, fs, PutEdge(k, l));
    EdgeClosedForm(es, k);
  }

  lemma AbsorbedIsSettled(s: State, es: seq<Event>, fs: seq<Event>, f: Event)
    requires AllGraphEntries(fs) && Absorbs(es, fs) && f in fs
    ensures Settled(Replay(s, es), f)
  {
    hide Replay, Settled;
    var i :| 0 <= i < |fs| && fs[i] == f;
    EntrySettled(Replay(s, es), fs, i);
  }

  /** One batch absorbs another, in every state, exactly when it has said everything the other says. */
  lemma AbsorbsIff(es: seq<Event>, fs: seq<Event>)
    requires AllGraphEntries(es) && AllGraphEntries(fs)
    ensures Absorbs(es, fs) <==> forall f | f in fs :: Repeats(es, f)
  {
    if forall f | f in fs :: Repeats(es, f) {
      RepetitionsAreAbsorbed(es, fs);
    }
    if Absorbs(es, fs) {
      forall f | f in fs ensures Repeats(es, f) {
        assert Conservation.IsGraphEntry(f);
        hide Absorbs, Repeats, AllGraphEntries;
        match f
        case PutNode(id, n) => AbsorbedNodeRepeats(es, fs, id, n);
        case PutEdge(k, l) => AbsorbedEdgeRepeats(es, fs, k, l);
      }
    }
  }

  // ---- What the two groupings process ----

  lemma NodeAndEdgeCommute(s: State, n: Event, e: Event)
    requires n.PutNode? && e.PutEdge?
    ensures Step(Step(s, n), e) == Step(Step(s, e), n)
  {
  }

  lemma {:induction false} NodeCrossesEdges(s: State, n: Event, es: seq<Event>)
    requires n.PutNode? && forall e | e in es :: e.PutEdge?
    ensures Step(Replay(s, es), n) == Replay(Step(s, n), es)
  {
    hide Replay, Reports, Step, ReportOf;
    ReplayNothing(s);
    ReplayNothing(Step(s, n));
    if es != [] {
      var init, last := es[..|es| - 1], es[|es| - 1];
      assert es == init + [last] && last in es;
      NodeCrossesEdges(s, n, init);
      ReplaySnoc(s, init, last);
      ReplaySnoc(Step(s, n), init, last);
      NodeAndEdgeCommute(Replay(s, init), n, last);
    }
  }

  lemma {:induction false} NodesCrossEdges(s: State, es: seq<Event>, ns: seq<Event>)
    requires (forall e | e in es :: e.PutEdge?) && forall n | n in ns :: n.PutNode?
    ensures Replay(s, es + ns) == Replay(s, ns + es)
  {
    hide Replay, Reports, Step, ReportOf;
    if ns == [] {
      assert es + ns == ns + es;
    } else {
      var init, last := ns[..|ns| - 1], ns[|ns| - 1];
      assert ns == init + [last] && last in ns;
      NodesCrossEdges(s, es, init);
      assert es + ns == (es + init) + [last];
      ReplaySnoc(s, es + init, last);
      ReplayConcat(s, init, es);
      NodeCrossesEdges(Replay(s, init), last, es);
      ReplaySnoc(s, init, last);
      ReplayConcat(s, ns, es);
    }
  }

  lemma InterleavedReplay(s: State, n1: seq<Event>, e1: seq<Event>, n2: seq<Event>, e2: seq<Event>)
    requires (forall e | e in e1 :: e.PutEdge?) && (forall n | n in n2 :: n.PutNode?)
    ensures Replay(Replay(s, n1 + e1), n2 + e2) == Replay(s, (n1 + n2) + (e1 + e2))
  {
    hide *;
    ReplayConcat(s, n1 + e1, n2 + e2);
    assert (n1 + e1) + (n2 + e2) == n1 + (e1 + n2) + e2;
    ReplayConcat(s, n1 + (e1 + n2), e2);
    ReplayConcat(s, n1, e1 + n2);
    NodesCrossEdges(Replay(s, n1), e1, n2);
    ReplayConcat(s, n1, n2 + e1);
    ReplayConcat(s, n1 + (n2 + e1), e2);
    assert n1 + (n2 + e1) + e2 == (n1 + n2) + (e1 + e2);
  }

  /** Two deltas submitted as one. */
  function Together(d1: Proto.HypothesisDelta, d2: Proto.HypothesisDelta): Proto.HypothesisDelta {
    Proto.HypothesisDelta(d1.nodes + d2.nodes, d1.edges + d2.edges)
  }

  lemma NodePlanFailsIff(ns: seq<Proto.Node>)
    ensures Failure(NodePlan(ns)) == None <==> forall n | n in ns :: !BadNodeType(n)
  {
    var plan := NodePlan(ns);
    FailsIffSomeEntryFails(plan);
    assert forall i | 0 <= i < |ns| :: plan[i].Err? <==> BadNodeType(ns[i]);
    hide *;
    if n :| n in ns && BadNodeType(n) {
      var i :| 0 <= i < |ns| && ns[i] == n;
      assert plan[i].Err?;
    }
    if i :| 0 <= i < |plan| && plan[i].Err? {
      assert ns[i] in ns;
    }
  }

  lemma EdgePlanFailsIff(es: seq<Proto.Edge>)
    ensures Failure(EdgePlan(es)) == None <==> forall e | e in es :: !BadEdgeType(e.typeNumber)
    ensures Prefix(EdgePlan(es)) == [] <==> es == [] || BadEdgeType(es[0].typeNumber)
  {
    var plan := EdgePlan(es);
    FailsIffSomeEntryFails(plan);
    assert forall i | 0 <= i < |es| :: plan[i].Err? <==> BadEdgeType(es[i].typeNumber);
    hide *;
    if e :| e in es && BadEdgeType(e.typeNumber) {
      var i :| 0 <= i < |es| && es[i] == e;
      assert plan[i].Err?;
    }
    if i :| 0 <= i < |plan| && plan[i].Err? {
      assert es[i] in es;
    }
    if es != [] && Prefix(plan) != [] {
      assert plan[0] == Ok(Prefix(plan)[0]);
    }
  }

  function NodeEntries(d: Proto.HypothesisDelta): seq<Event> {
    Prefix(NodePlan(d.nodes))
  }

  function EdgeEntries(d: Proto.HypothesisDelta): seq<Event> {
    Prefix(EdgePlan(d.edges))
  }

  /** What a delta processes: its nodes, then its edges if all its nodes convert. */
  function Processed(d: Proto.HypothesisDelta): seq<Event> {
    if NodesConvert(d) then NodeEntries(d) + EdgeEntries(d) else NodeEntries(d)
  }

  lemma DeltaProcesses(s: State, d: Proto.HypothesisDelta)
    ensures Perform(s, MergeHypothesis(d)) == Replay(s, Processed(d))
    ensures Processed(d) == Prefix(Plan(MergeHypothesis(d)))
    ensures AllGraphEntries(Processed(d))
    ensures (forall n | n in NodeEntries(d) :: n.PutNode?) && (forall e | e in EdgeEntries(d) :: e.PutEdge?)
  {
    HypothesisIsWrite(s, d);
    MemoryStore.PlanOfDelta(d);
    NodePlanFailsIff(d.nodes);
    hide Prefix, Failure, Perform, Replay, Plan, NodePlan, EdgePlan, AllGraphEntries;
    var ns, es := NodeEntries(d), EdgeEntries(d);
    forall i | 0 <= i < |ns| ensures ns[i].PutNode? {
      assert NodePlan(d.nodes)[i] == Ok(ns[i]);
    }
    forall i | 0 <= i < |es| ensures es[i].PutEdge? {
      assert EdgePlan(d.edges)[i] == Ok(es[i]);
    }
  }

  /** What the two deltas process as one. */
  lemma TogetherProcesses(d1: Proto.HypothesisDelta, d2: Proto.HypothesisDelta)
    ensures Processed(Together(d1, d2)) ==
            if !NodesConvert(d1) then NodeEntries(d1)
            else if !NodesConvert(d2) then NodeEntries(d1) + NodeEntries(d2)
            else if !EdgesConvert(d1) then (NodeEntries(d1) + NodeEntries(d2)) + EdgeEntries(d1)
            else (NodeEntries(d1) + NodeEntries(d2)) + (EdgeEntries(d1) + EdgeEntries(d2))
  {
    var d := Together(d1, d2);
    NodePlanFailsIff(d1.nodes);
    EdgePlanFailsIff(d1.edges);
    hide Prefix, Failure, NodePlan, EdgePlan, NodeConversion, EdgeConversion;
    assert NodePlan(d.nodes) == NodePlan(d1.nodes) + NodePlan(d2.nodes);
    assert EdgePlan(d.edges) == EdgePlan(d1.edges) + EdgePlan(d2.edges);
    MemoryStore.PrefixOfConcatenation(NodePlan(d1.nodes), NodePlan(d2.nodes));
    MemoryStore.PrefixOfConcatenation(EdgePlan(d1.edges), EdgePlan(d2.edges));
  }

  // ---- The theorem ----

  /** Submitting the two deltas one after the other comes to the same, exactly, as submitting them as one. */
  ghost predicate GroupsExactly(d1: Proto.HypothesisDelta, d2: Proto.HypothesisDelta) {
    forall s :: Perform(Perform(s, MergeHypothesis(d1)), MergeHypothesis(d2)) ==
                Perform(s, MergeHypothesis(Together(d1, d2)))
  }

  /** No edge of the delta is ever processed. */
  predicate NoEdgeConvertsFirst(d: Proto.HypothesisDelta) {
    d.edges == [] || BadEdgeType(d.edges[0].typeNumber)
  }

  /**
   What the two groupings must have in common. A bad node of the first cuts off all of the second, a
   bad node of the second the edges of the first, a bad edge of the first the edges of the second;
   what is cut off must repeat what was processed before it, or be nothing.
   */
  ghost predicate Regroupable(d1: Proto.HypothesisDelta, d2: Proto.HypothesisDelta) {
    if !NodesConvert(d1) then forall f | f in Processed(d2) :: Repeats(NodeEntries(d1), f)
    else if !NodesConvert(d2) then NoEdgeConvertsFirst(d1)
    else EdgesConvert(d1) || forall f | f in EdgeEntries(d2) :: Repeats(EdgeEntries(d1), f)
  }

  lemma BadNodeGroupings(s: State, d1: Proto.HypothesisDelta, d2: Proto.HypothesisDelta)
    requires !NodesConvert(d1)
    ensures Perform(Perform(s, MergeHypothesis(d1)), MergeHypothesis(d2)) ==
            Replay(Replay(s, NodeEntries(d1)), Processed(d2))
    ensures Perform(s, MergeHypothesis(Together(d1, d2))) == Replay(s, NodeEntries(d1))
  {
    hide Perform, Replay, Plan, Prefix, Together, NodeEntries, EdgeEntries, NodesConvert, EdgesConvert;
    DeltaProcesses(s, d1);
    DeltaProcesses(Perform(s, MergeHypothesis(d1)), d2);
    DeltaProcesses(s, Together(d1, d2));
    TogetherProcesses(d1, d2);
  }

  lemma BadNodeInFirst(d1: Proto.HypothesisDelta, d2: Proto.HypothesisDelta)
    requires !NodesConvert(d1)
    ensures GroupsExactly(d1, d2) <==> forall f | f in Processed(d2) :: Repeats(NodeEntries(d1), f)
  {
    forall s
      ensures Perform(Perform(s, MergeHypothesis(d1)), MergeHypothesis(d2)) ==
              Replay(Replay(s, NodeEntries(d1)), Processed(d2))
      ensures Perform(s, MergeHypothesis(Together(d1, d2))) == Replay(s, NodeEntries(d1))
    {
      BadNodeGroupings(s, d1, d2);
    }
    hide Perform, Replay, Plan, Prefix, Repeats, Together, NodeEntries, EdgeEntries, NodesConvert, EdgesConvert, AllGraphEntries;
    DeltaProcesses(EMPTY, d1);
    DeltaProcesses(EMPTY, d2);
    AbsorbsIff(NodeEntries(d1), Processed(d2));
    assert GroupsExactly(d1, d2) <==> Absorbs(NodeEntries(d1), Processed(d2));
  }

  lemma EdgeSubmitted(es: seq<Event>, i: nat)
    requires i < |es| && es[i].PutEdge?
    ensures es[i].key in Replay(EMPTY, es).edges
  {
    EdgeClosedForm(es, es[i].key);
    assert EdgeAt(es, i, es[i].key);
  }

  lemma NoEdgeSubmitted(es: seq<Event>, k: E.EdgeKey)
    requires forall e | e in es :: e.PutNode?
    ensures k !in Replay(EMPTY, es).edges
  {
    EdgeClosedForm(es, k);
    assert forall i | 0 <= i < |es| :: es[i] in es;
  }

  lemma BadNodeInSecond(d1: Proto.HypothesisDelta, d2: Proto.HypothesisDelta)
    requires NodesConvert(d1) && !NodesConvert(d2)
    ensures GroupsExactly(d1, d2) <==> NoEdgeConvertsFirst(d1)
  {
    hide Perform, Replay, Plan, Prefix, Together, NodesConvert, EdgesConvert, NodeEntries, EdgeEntries, NodePlan, EdgePlan;
    var n1, e1, n2 := NodeEntries(d1), EdgeEntries(d1), NodeEntries(d2);
    NoEdgeEntries(d1);
    if e1 == [] {
      forall s ensures Perform(Perform(s, MergeHypothesis(d1)), MergeHypothesis(d2)) ==
                       Perform(s, MergeHypothesis(Together(d1, d2))) {
        BothGroupings(s, d1, d2);
        assert n1 + e1 == n1;
        ReplayConcat(s, n1, n2);
      }
    } else {
      BadNodeCutsOffEdges(d1, d2);
    }
  }

  lemma BadNodeCutsOffEdges(d1: Proto.HypothesisDelta, d2: Proto.HypothesisDelta)
    requires NodesConvert(d1) && !NodesConvert(d2) && !NoEdgeConvertsFirst(d1)
    ensures Perform(Perform(EMPTY, MergeHypothesis(d1)), MergeHypothesis(d2)) !=
            Perform(EMPTY, MergeHypothesis(Together(d1, d2)))
  {
    hide *;
    var n1, e1, n2 := NodeEntries(d1), EdgeEntries(d1), NodeEntries(d2);
    NoEdgeEntries(d1);
    BothGroupings(EMPTY, d1, d2);
    DeltaProcesses(EMPTY, d1);
    DeltaProcesses(EMPTY, d2);
    ReplayConcat(EMPTY, n1 + e1, n2);
    assert e1[0] in e1;
    EdgeSubmitted((n1 + e1) + n2, |n1|);
    NoEdgeSubmitted(n1 + n2, e1[0].key);
  }

  lemma NoEdgeEntries(d: Proto.HypothesisDelta)
    ensures EdgeEntries(d) == [] <==> NoEdgeConvertsFirst(d)
  {
    EdgePlanFailsIff(d.edges);
  }

  lemma BothGroupings(s: State, d1: Proto.HypothesisDelta, d2: Proto.HypothesisDelta)
    requires NodesConvert(d1)
    ensures Perform(Perform(s, MergeHypothesis(d1)), MergeHypothesis(d2)) ==
            Replay(Replay(s, NodeEntries(d1) + EdgeEntries(d1)), Processed(d2))
    ensures Processed(d2) == if NodesConvert(d2) then NodeEntries(d2) + EdgeEntries(d2) else NodeEntries(d2)
    ensures Perform(s, MergeHypothesis(Together(d1, d2))) ==
            Replay(s, if !NodesConvert(d2) then NodeEntries(d1) + NodeEntries(d2)
                      else if !EdgesConvert(d1) then (NodeEntries(d1) + NodeEntries(d2)) + EdgeEntries(d1)
                      else (NodeEntries(d1) + NodeEntries(d2)) + (EdgeEntries(d1) + EdgeEntries(d2)))
  {
    hide Perform, Replay, Plan, Prefix, Together, NodeEntries, EdgeEntries, NodesConvert, EdgesConvert;
    DeltaProcesses(s, d1);
    DeltaProcesses(Perform(s, MergeHypothesis(d1)), d2);
    DeltaProcesses(s, Together(d1, d2));
    TogetherProcesses(d1, d2);
  }

  /** An edge repeats nothing but edges. */
  lemma NodesDoNotCount(ns: seq<Event>, es: seq<Event>, f: Event)
    requires (forall n | n in ns :: n.PutNode?) && f.PutEdge?
    ensures Repeats(ns + es, f) <==> Repeats(es, f)
  {
    var all := ns + es;
    forall i ensures EdgeAt(all, i, f.key) <==> EdgeAt(es, i - |ns|, f.key) {
      if 0 <= i < |ns| {
        assert all[i] in ns;
      }
    }
    forall p ensures EdgeRecorded(all, f.key, p) <==> EdgeRecorded(es, f.key, p) {
      if i :| EdgeAt(all, i, f.key) && p in all[i].edge.provenance {
        assert EdgeAt(es, i - |ns|, f.key) && p in es[i - |ns|].edge.provenance;
      }
      if i :| EdgeAt(es, i, f.key) && p in es[i].edge.provenance {
        assert EdgeAt(all, i + |ns|, f.key) && p in all[i + |ns|].edge.provenance;
      }
    }
    if i :| EdgeAt(es, i, f.key) {
      assert EdgeAt(all, i + |ns|, f.key);
    }
  }

  lemma AllNodesConvert(d1: Proto.HypothesisDelta, d2: Proto.HypothesisDelta)
    requires NodesConvert(d1) && NodesConvert(d2)
    ensures GroupsExactly(d1, d2) <==> EdgesConvert(d1) || forall f | f in EdgeEntries(d2) :: Repeats(EdgeEntries(d1), f)
  {
    hide Perform, Replay, Plan, Prefix, Together, NodesConvert, EdgesConvert, NodeEntries, EdgeEntries, Repeats;
    var n1, e1, n2, e2 := NodeEntries(d1), EdgeEntries(d1), NodeEntries(d2), EdgeEntries(d2);
    DeltaProcesses(EMPTY, d1);
    DeltaProcesses(EMPTY, d2);
    var before := (n1 + n2) + e1;
    assert (n1 + n2) + (e1 + e2) == before + e2;
    forall s
      ensures Perform(Perform(s, MergeHypothesis(d1)), MergeHypothesis(d2)) == Replay(Replay(s, before), e2)
      ensures Perform(s, MergeHypothesis(Together(d1, d2))) ==
              if EdgesConvert(d1) then Replay(Replay(s, before), e2) else Replay(s, before)
    {
      BothGroupings(s, d1, d2);
      InterleavedReplay(s, n1, e1, n2, e2);
      ReplayConcat(s, before, e2);
    }
    AbsorbsIff(before, e2);
    assert !EdgesConvert(d1) ==> (GroupsExactly(d1, d2) <==> Absorbs(before, e2));
    forall f | f in e2 ensures Repeats(before, f) <==> Repeats(e1, f) {
      NodesDoNotCount(n1 + n2, e1, f);
    }
  }

  /**
   Grouping, exactly, for any two deltas: submitting them one after the other and submitting them as
   one leave the same state in every state, timestamps included, if and only if whatever a bad type
   number cuts off in one grouping alone adds nothing to what was processed before it.
   */
  lemma GroupingIff(d1: Proto.HypothesisDelta, d2: Proto.HypothesisDelta)
    ensures GroupsExactly(d1, d2) <==> Regroupable(d1, d2)
  {
    hide GroupsExactly, NodesConvert, EdgesConvert, Repeats, NoEdgeConvertsFirst, Processed, NodeEntries, EdgeEntries;
    if !NodesConvert(d1) {
      BadNodeInFirst(d1, d2);
    } else if !NodesConvert(d2) {
      BadNodeInSecond(d1, d2);
    } else {
      AllNodesConvert(d1, d2);
    }
  }
}
