/** What validation guarantees about everything that is ever stored, and so about every export. */
module ValidatedRuns {
  import opened Wrappers
  import opened Orders
  import opened Provenances
  import opened Events
  import opened Growth
  import opened ProtoConvert
  import opened StoreSpec
  import opened Validation
  import opened Snapshots
  import Proto
  import N = NodeLattices
  import E = EdgeLattices

  /** The check a request passes before its operation runs. */
  predicate Validated(op: Op) {
    match op
    case MergeHypothesis(d) => ValidateHypothesisDelta(d).Ok?
    case CreateIncident(i, _) => ValidateIncidentId(i).Ok?
    case MergeNodeTombstones(r) => ValidateNodeTombstoneRequest(r).Ok?
    case MergeEdgeTombstones(r) => ValidateEdgeTombstoneRequest(r).Ok?
    case GetIncidentContext(i) => ValidateIncidentId(i).Ok?
    case GetLiveView(i) => ValidateIncidentId(i).Ok?
    case GetTombstones(i) => ValidateIncidentId(i).Ok?
    case GetMainGraph => true
  }

  predicate AllAttributed(p: ProvSet) {
    p != map[] && forall k | k in p :: k.source != "" && k.trigger != ""
  }

  predicate SoundNode(id: string, n: N.NodeLattice) {
    id != "" && n.nodeType.Agreed? && n.nodeLabel.Agreed? && n.nodeLabel.value != "" && AllAttributed(n.provenance)
  }

  predicate SoundEdge(k: E.EdgeKey, e: E.EdgeLattice) {
    k.source != "" && k.target != "" && k.source != k.target && AllAttributed(e.provenance)
  }

  predicate SoundEntry(e: Event) {
    match e
    case PutNode(id, n) => SoundNode(id, n)
    case PutEdge(k, l) => SoundEdge(k, l)
    case _ => true
  }

  ghost predicate Sound(s: State) {
    && (forall id | id in s.nodes :: SoundNode(id, s.nodes[id]))
    && (forall k | k in s.edges :: SoundEdge(k, s.edges[k]))
  }

  lemma StepStaysSound(s: State, e: Event)
    requires Sound(s) && SoundEntry(e)
    ensures Sound(Step(s, e))
  {
    if e.PutNode? && e.id in s.nodes {
      var n := s.nodes[e.id];
      assert SoundNode(e.id, n);
      N.ConflictIsDisagreement(n, e.node);
      UnionStaysAttributed(n.provenance, e.node.provenance);
    }
    if e.PutEdge? && e.key in s.edges {
      assert SoundEdge(e.key, s.edges[e.key]);
      UnionStaysAttributed(s.edges[e.key].provenance, e.edge.provenance);
    }
  }

  lemma UnionStaysAttributed(a: ProvSet, b: ProvSet)
    requires AllAttributed(a) && AllAttributed(b)
    ensures AllAttributed(Extend(a, b))
  {
    var k :| k in a;
    assert k in Extend(a, b);
  }

  lemma {:induction false} ReplayStaysSound(s: State, es: seq<Event>)
    requires Sound(s) && forall e | e in es :: SoundEntry(e)
    ensures Sound(Replay(s, es))
  {
    if es != [] {
      ReplayStaysSound(s, es[..|es| - 1]);
      StepStaysSound(Replay(s, es[..|es| - 1]), es[|es| - 1]);
    }
  }

  lemma CollectedIsAttributed(ps: seq<Proto.Provenance>)
    requires ps != [] && forall p | p in ps :: p.source != "" && p.trigger != ""
    ensures AllAttributed(Collect(ps))
  {
    CollectHoldsTheList(ps);
    hide Collect;
    assert ProvKey(ps[0].source, ps[0].trigger) in Collect(ps);
    forall k | k in Collect(ps) ensures k.source != "" && k.trigger != "" {
      var i :| 0 <= i < |ps| && FiledAs(ps[i], k, Collect(ps)[k]);
      assert ps[i] in ps;
    }
  }

  lemma ValidNodeIsSound(n: Proto.Node)
    requires ValidateNode(n).Ok? && NodeConversion(n).Ok?
    ensures SoundEntry(NodeConversion(n).value)
  {
    CollectedIsAttributed(n.provenance);
  }

  lemma ValidEdgeIsSound(e: Proto.Edge)
    requires ValidateEdge(e).Ok? && EdgeConversion(e).Ok?
    ensures SoundEntry(EdgeConversion(e).value)
  {
    CollectedIsAttributed(e.provenance);
  }

  lemma ValidatedItemIsSound(d: Proto.HypothesisDelta, plan: seq<Conversion>, i: nat)
    requires forall n | n in d.nodes :: ValidateNode(n).Ok?
    requires forall e | e in d.edges :: ValidateEdge(e).Ok?
    requires plan == NodePlan(d.nodes) + EdgePlan(d.edges) && i < |plan| && plan[i].Ok?
    ensures SoundEntry(plan[i].value)
  {
    hide *;
    var n := |d.nodes|;
    if i < n {
      assert d.nodes[i] in d.nodes && plan[i] == NodePlan(d.nodes)[i];
      ValidNodeIsSound(d.nodes[i]);
    } else {
      assert d.edges[i - n] in d.edges && plan[i] == EdgePlan(d.edges)[i - n];
      ValidEdgeIsSound(d.edges[i - n]);
    }
  }

  lemma OtherEntriesAreSound(op: Op, e: Event)
    requires KindOf(op, e) && !op.MergeHypothesis?
    ensures SoundEntry(e)
  {
  }

  lemma ValidatedEntriesAreSound(op: Op, i: nat)
    requires Validated(op) && i < |Plan(op)| && Plan(op)[i].Ok?
    ensures SoundEntry(Plan(op)[i].value)
  {
    assert op.MergeHypothesis? ==> Plan(op) == NodePlan(op.delta.nodes) + EdgePlan(op.delta.edges);
    hide Plan, SoundEntry, KindOf, NodePlan, EdgePlan;
    if op.MergeHypothesis? {
      ValidatedItemIsSound(op.delta, Plan(op), i);
    } else {
      PlanKeepsKind(op, i);
      OtherEntriesAreSound(op, Plan(op)[i].value);
    }
  }

  /** In a store reached only through validated requests every stored node and edge is complete. */
  lemma {:induction false} ValidatedRunsAreSound(ops: seq<Op>)
    requires forall op | op in ops :: Validated(op)
    ensures Sound(Run(EMPTY, ops)) && NoStoredTop(Run(EMPTY, ops))
  {
    if ops != [] {
      var init, last := ops[..|ops| - 1], ops[|ops| - 1];
      var s := Run(EMPTY, init);
      assert last in ops;
      ValidatedRunsAreSound(init);
      var es := Entries(s, last);
      assert Run(EMPTY, ops) == Replay(s, es);
      forall e | e in es ensures SoundEntry(e) {
        var i :| 0 <= i < |es| && es[i] == e;
        assert es == Prefix(Plan(last));
        assert Plan(last)[i] == Ok(e);
        ValidatedEntriesAreSound(last, i);
      }
      hide *;
      ReplayStaysSound(s, es);
      ReplayStoresNoTop(s, es);
    }
  }

  // ---- Exports of such stores ----

  lemma AttributedLists(p: ProvSet)
    requires AllAttributed(p)
    ensures ListProvenance(p) != []
    ensures forall q | q in ListProvenance(p) :: q.source != "" && q.trigger != ""
  {
    KeyOrder();
    var k :| k in p;
    assert k in p.Keys;
  }

  lemma SoundNodeIsValid(id: string, n: N.NodeLattice)
    requires SoundNode(id, n)
    ensures ValidateNode(DomainNodeToProto(id, n)).Ok?
  {
    AttributedLists(n.provenance);
    hide ListProvenance;
  }

  lemma SoundEdgeIsValid(k: E.EdgeKey, e: E.EdgeLattice)
    requires SoundEdge(k, e)
    ensures ValidateEdge(DomainEdgeToProto(k, e)).Ok?
  {
    AttributedLists(e.provenance);
    hide ListProvenance;
  }

  /** The export of a sound store passes validation, so it can be submitted as it is. */
  lemma ExportIsValid(s: State)
    requires Sound(s)
    ensures ValidateHypothesisDelta(Export(s)).Ok?
  {
    var d := Export(s);
    hide DomainNodeToProto, DomainEdgeToProto, ValidateNode, ValidateEdge, SoundNode, SoundEdge, SortedStrings, E.SortedEdgeKeys, ListNodes, ListEdges;
    var ids, ks := SortedStrings(s.nodes.Keys), E.SortedEdgeKeys(s.edges.Keys);
    assert d.nodes == ListNodes(s.nodes, ids) && d.edges == ListEdges(s.edges, ks);
    forall n | n in d.nodes ensures ValidateNode(n).Ok? {
      var i :| 0 <= i < |ids| && d.nodes[i] == n;
      assert ids[i] in ids;
      SoundNodeIsValid(ids[i], s.nodes[ids[i]]);
    }
    forall e | e in d.edges ensures ValidateEdge(e).Ok? {
      var i :| 0 <= i < |ks| && d.edges[i] == e;
      assert ks[i] in ks;
      SoundEdgeIsValid(ks[i], s.edges[ks[i]]);
    }
  }

  /**
   Snapshot and restore, for any store reached through validated requests: its export is a valid
   request; an empty store that merges it holds exactly the same nodes and edges, timestamps
   included, and reports them all as created; its own store merges it without any change.
   */
  lemma SnapshotAndRestore(ops: seq<Op>)
    requires forall op | op in ops :: Validated(op)
    ensures var s := Run(EMPTY, ops);
            && Validated(Import(EMPTY, s))
            && Perform(EMPTY, Import(EMPTY, s)) == State(s.nodes, s.edges, map[])
            && Respond(EMPTY, Import(EMPTY, s)) == HypothesisReply(Ok(Proto.HypothesisMergeResult(ExportedIds(s), [], [])))
            && Perform(s, Import(s, s)) == s
            && Respond(s, Import(s, s)) == HypothesisReply(Ok(Proto.HypothesisMergeResult([], ExportedIds(s), [])))
  {
    var s := Run(EMPTY, ops);
    assert Validated(Import(EMPTY, s)) <==> ValidateHypothesisDelta(Export(s)).Ok?;
    hide *;
    ValidatedRunsAreSound(ops);
    ExportIsValid(s);
    RestoreIsExact(s);
    RestoreAnswer(s);
    SelfMergeChangesNothing(s);
    SelfMergeAnswer(s);
  }

  /** No export, and no live view, ever shows the unspecified type. */
  lemma ListedTypesAreSpecified(s: State, ids: seq<string>)
    requires NoStoredTop(s) && forall id | id in ids :: id in s.nodes
    ensures forall n | n in ListNodes(s.nodes, ids) :: Proto.NODE_TYPE_SERVICE <= n.typeNumber <= Proto.NODE_TYPE_MECHANISM
  {
    forall n | n in ListNodes(s.nodes, ids)
      ensures Proto.NODE_TYPE_SERVICE <= n.typeNumber <= Proto.NODE_TYPE_MECHANISM
    {
      var i :| 0 <= i < |ids| && ListNodes(s.nodes, ids)[i] == n;
      assert ids[i] in ids;
    }
  }
}
