/**
 What the order, batching and repetition of submissions can and cannot change.

 Logs are compared entry by entry, up to timestamps: two retries of one proposal that differ only in
 when they were made count as the same entry.
 */
module Convergence {
  import opened Provenances
  import opened Events
  import opened GraphLattices
  import opened ClosedForm
  import opened LatticeRefinement
  import Growth
  import N = NodeLattices
  import E = EdgeLattices

  // ---- The same entries, the same state ----

  ghost predicate SameEvent(a: Event, b: Event) {
    match a
    case PutNode(id, n) => b.PutNode? && b.id == id && N.Same(n, b.node)
    case PutEdge(k, e) => b.PutEdge? && b.key == k && E.Same(e, b.edge)
    case Open(i, _) => b.Open? && b.incident == i
    case BuryNode(_, _) => a == b
    case BuryEdge(_, _) => a == b
  }

  ghost predicate Occurs(e: Event, es: seq<Event>) {
    exists j :: 0 <= j < |es| && SameEvent(e, es[j])
  }

  ghost predicate Covers(a: seq<Event>, b: seq<Event>) {
    forall i | 0 <= i < |a| :: Occurs(a[i], b)
  }

  /** Every entry of either log occurs in the other: any order, any multiplicity. */
  ghost predicate SameEntries(a: seq<Event>, b: seq<Event>) {
    Covers(a, b) && Covers(b, a)
  }

  ghost predicate SameIncident(a: IncidentState, b: IncidentState) {
    a.nodeTombstones == b.nodeTombstones && a.edgeTombstones == b.edgeTombstones
  }

  ghost predicate SameIncidents(a: map<string, IncidentState>, b: map<string, IncidentState>) {
    a.Keys == b.Keys && forall i | i in a :: SameIncident(a[i], b[i])
  }

  /** Equal up to timestamps: those of provenance records and those of incident creation. */
  ghost predicate SameState(s: State, t: State) {
    SameNodes(s.nodes, t.nodes) && SameEdges(s.edges, t.edges) && SameIncidents(s.incidents, t.incidents)
  }

  // ---- Conditions on a log ----

  /** Two entries of the log propose different types or labels for `id`. */
  ghost predicate Disputed(es: seq<Event>, id: string) {
    exists i, j :: ProposedAt(es, i, id) && ProposedAt(es, j, id) && !N.Agree(es[i].node, es[j].node)
  }

  ghost predicate Harmonious(es: seq<Event>) {
    forall id :: !Disputed(es, id)
  }

  ghost predicate BuriesFor(e: Event, incident: string) {
    (e.BuryNode? || e.BuryEdge?) && e.incident == incident
  }

  /** Every tombstone is submitted to an incident that has been opened. */
  ghost predicate OpenedFirst(es: seq<Event>) {
    forall i, incident | 0 <= i < |es| && BuriesFor(es[i], incident) ::
      exists o :: o < i && OpenedAt(es, o, incident)
  }

  // ---- What never depends on the order ----

  lemma ProposalCovered(a: seq<Event>, b: seq<Event>, i: int, id: string)
    requires Covers(a, b) && ProposedAt(a, i, id)
    ensures exists j :: ProposedAt(b, j, id) && N.Same(a[i].node, b[j].node)
  {
    assert Occurs(a[i], b);
    var j :| 0 <= j < |b| && SameEvent(a[i], b[j]);
    assert ProposedAt(b, j, id);
  }

  lemma NodeIdsCovered(a: seq<Event>, b: seq<Event>, id: string)
    requires Covers(a, b)
    ensures id in Replay(EMPTY, a).nodes ==> id in Replay(EMPTY, b).nodes
  {
    NodeClosedForm(a, id);
    NodeClosedForm(b, id);
    if i :| ProposedAt(a, i, id) {
      ProposalCovered(a, b, i, id);
    }
  }

  lemma DisputeCovered(a: seq<Event>, b: seq<Event>, id: string)
    requires Covers(a, b)
    ensures Disputed(a, id) ==> Disputed(b, id)
  {
    if i, j :| ProposedAt(a, i, id) && ProposedAt(a, j, id) && !N.Agree(a[i].node, a[j].node) {
      ProposalCovered(a, b, i, id);
      ProposalCovered(a, b, j, id);
      var i' :| ProposedAt(b, i', id) && N.Same(a[i].node, b[i'].node);
      var j' :| ProposedAt(b, j', id) && N.Same(a[j].node, b[j'].node);
      assert !N.Agree(b[i'].node, b[j'].node);
    }
  }

  /** An id is ever rejected exactly when two proposals for it disagree. */
  lemma RejectedIffDisputed(es: seq<Event>, id: string)
    ensures EverRejected(es, id, "type") || EverRejected(es, id, "label") <==> Disputed(es, id)
  {
    if field: string, i :| field in ["type", "label"] && RejectedAt(es, i, id, field) {
      RejectionComesFromDispute(es, i, id, field);
    }
    if Disputed(es, id) {
      DisputeIsRejected(es, id);
    }
  }

  lemma RejectionComesFromDispute(es: seq<Event>, i: int, id: string, field: string)
    requires RejectedAt(es, i, id, field)
    ensures Disputed(es, id)
  {
    var init := es[..i];
    Growth.ReplayStoresNoTop(EMPTY, init);
    RejectionIsDisagreement(Replay(EMPTY, init), es[i], id, field);
    NodeClosedForm(init, id);
    var f :| FirstProposal(init, f, id) && IsNodeOf(Replay(EMPTY, init).nodes[id], init, f, id);
    assert ProposedAt(es, f, id) && ProposedAt(es, i, id) && !N.Agree(es[f].node, es[i].node);
  }

  lemma FirstWins(es: seq<Event>, f: int, id: string)
    requires FirstProposal(es, f, id)
    ensures id in Replay(EMPTY, es).nodes && N.Agree(Replay(EMPTY, es).nodes[id], es[f].node)
  {
    NodeClosedForm(es, id);
    var f' :| FirstProposal(es, f', id) && IsNodeOf(Replay(EMPTY, es).nodes[id], es, f', id);
    assert f == f';
  }

  lemma FirstInPrefix(es: seq<Event>, f: int, g: int, id: string)
    requires FirstProposal(es, f, id) && ProposedAt(es, g, id) && f != g
    ensures f < g && FirstProposal(es[..g], f, id)
  {
    assert f < g;
    forall j | 0 <= j < f ensures !ProposedAt(es[..g], j, id) {
      assert !ProposedAt(es, j, id);
    }
  }

  lemma DisputeIsRejected(es: seq<Event>, id: string)
    requires Disputed(es, id)
    ensures EverRejected(es, id, "type") || EverRejected(es, id, "label")
  {
    NodeClosedForm(es, id);
    hide Replay, ReportOf, IsNodeOf;
    var i, j :| ProposedAt(es, i, id) && ProposedAt(es, j, id) && !N.Agree(es[i].node, es[j].node);
    var f :| FirstProposal(es, f, id);
    var g := if N.Agree(es[f].node, es[i].node) then j else i;
    assert ProposedAt(es, g, id) && !N.Agree(es[f].node, es[g].node);
    var init := es[..g];
    FirstInPrefix(es, f, g, id);
    FirstWins(init, f, id);
    Growth.ReplayStoresNoTop(EMPTY, init);
    var field := if Replay(EMPTY, init).nodes[id].nodeType != es[g].node.nodeType then "type" else "label";
    RejectionIsDisagreement(Replay(EMPTY, init), es[g], id, field);
    assert RejectedAt(es, g, id, field);
  }

  lemma EdgeCovered(a: seq<Event>, b: seq<Event>, i: int, k: E.EdgeKey)
    requires Covers(a, b) && EdgeAt(a, i, k)
    ensures exists j :: EdgeAt(b, j, k) && E.Same(a[i].edge, b[j].edge)
  {
    assert Occurs(a[i], b);
    var j :| 0 <= j < |b| && SameEvent(a[i], b[j]);
    assert EdgeAt(b, j, k);
  }

  lemma EdgeRecordCovered(a: seq<Event>, b: seq<Event>, k: E.EdgeKey, p: ProvKey)
    requires Covers(a, b)
    ensures EdgeRecorded(a, k, p) ==> EdgeRecorded(b, k, p)
  {
    if i :| EdgeAt(a, i, k) && p in a[i].edge.provenance {
      EdgeCovered(a, b, i, k);
      var j :| EdgeAt(b, j, k) && E.Same(a[i].edge, b[j].edge);
      assert EdgeAt(b, j, k) && p in b[j].edge.provenance;
    }
  }

  lemma EdgesResidue(a: seq<Event>, b: seq<Event>)
    requires SameEntries(a, b)
    ensures SameEdges(Replay(EMPTY, a).edges, Replay(EMPTY, b).edges)
  {
    var s, t := Replay(EMPTY, a).edges, Replay(EMPTY, b).edges;
    forall k ensures k in s <==> k in t {
      EdgeClosedForm(a, k);
      EdgeClosedForm(b, k);
      if i :| EdgeAt(a, i, k) { EdgeCovered(a, b, i, k); }
      if i :| EdgeAt(b, i, k) { EdgeCovered(b, a, i, k); }
    }
    assert s.Keys == t.Keys;
    forall k | k in s ensures E.Same(s[k], t[k]) {
      EdgeClosedForm(a, k);
      EdgeClosedForm(b, k);
      forall p ensures p in s[k].provenance <==> p in t[k].provenance {
        EdgeRecordCovered(a, b, k, p);
        EdgeRecordCovered(b, a, k, p);
      }
    }
  }

  lemma OpeningCovered(a: seq<Event>, b: seq<Event>, incident: string)
    requires Covers(a, b)
    ensures incident in Replay(EMPTY, a).incidents ==> incident in Replay(EMPTY, b).incidents
  {
    IncidentClosedForm(a, incident);
    IncidentClosedForm(b, incident);
    if o :| OpenedAt(a, o, incident) {
      assert Occurs(a[o], b);
      var j :| 0 <= j < |b| && SameEvent(a[o], b[j]);
      assert OpenedAt(b, j, incident);
    }
  }

  /** In a log that opens incidents first, a tombstone is on file iff it was submitted at all. */
  lemma TombstonesAreSubmissions(es: seq<Event>, incident: string)
    requires OpenedFirst(es) && incident in Replay(EMPTY, es).incidents
    ensures forall id :: id in Replay(EMPTY, es).incidents[incident].nodeTombstones <==> BuryNode(incident, id) in es
    ensures forall k :: k in Replay(EMPTY, es).incidents[incident].edgeTombstones <==> BuryEdge(incident, k) in es
  {
    IncidentClosedForm(es, incident);
    var inc := Replay(EMPTY, es).incidents[incident];
    var o :| FirstOpening(es, o, incident) && IsIncidentOf(inc, es, o, incident);
    forall i | 0 <= i < |es| && BuriesFor(es[i], incident) ensures o < i {
      var p :| p < i && OpenedAt(es, p, incident);
    }
    forall id ensures id in inc.nodeTombstones <==> BuryNode(incident, id) in es {
      if BuryNode(incident, id) in es {
        var i :| 0 <= i < |es| && es[i] == BuryNode(incident, id);
        assert BuriesFor(es[i], incident) && NodeBuriedAt(es, i, incident, id);
      }
    }
    forall k ensures k in inc.edgeTombstones <==> BuryEdge(incident, k) in es {
      if BuryEdge(incident, k) in es {
        var i :| 0 <= i < |es| && es[i] == BuryEdge(incident, k);
        assert BuriesFor(es[i], incident) && EdgeBuriedAt(es, i, incident, k);
      }
    }
  }

  lemma BurialCovered(a: seq<Event>, b: seq<Event>, e: Event)
    requires Covers(a, b) && e in a && (e.BuryNode? || e.BuryEdge?)
    ensures e in b
  {
    var i :| 0 <= i < |a| && a[i] == e;
    assert Occurs(a[i], b);
  }

  lemma TombstonesCovered(a: seq<Event>, b: seq<Event>, i: string)
    requires Covers(a, b) && OpenedFirst(a) && OpenedFirst(b)
    requires i in Replay(EMPTY, a).incidents && i in Replay(EMPTY, b).incidents
    ensures Replay(EMPTY, a).incidents[i].nodeTombstones <= Replay(EMPTY, b).incidents[i].nodeTombstones
    ensures Replay(EMPTY, a).incidents[i].edgeTombstones <= Replay(EMPTY, b).incidents[i].edgeTombstones
  {
    TombstonesAreSubmissions(a, i);
    TombstonesAreSubmissions(b, i);
    var x, y := Replay(EMPTY, a).incidents[i], Replay(EMPTY, b).incidents[i];
    forall id | id in x.nodeTombstones ensures id in y.nodeTombstones {
      BurialCovered(a, b, BuryNode(i, id));
    }
    forall k | k in x.edgeTombstones ensures k in y.edgeTombstones {
      BurialCovered(a, b, BuryEdge(i, k));
    }
  }

  lemma IncidentsResidue(a: seq<Event>, b: seq<Event>)
    requires SameEntries(a, b) && OpenedFirst(a) && OpenedFirst(b)
    ensures SameIncidents(Replay(EMPTY, a).incidents, Replay(EMPTY, b).incidents)
  {
    var s, t := Replay(EMPTY, a).incidents, Replay(EMPTY, b).incidents;
    forall i ensures i in s <==> i in t {
      OpeningCovered(a, b, i);
      OpeningCovered(b, a, i);
    }
    assert s.Keys == t.Keys;
    forall i | i in s ensures SameIncident(s[i], t[i]) {
      TombstonesCovered(a, b, i);
      TombstonesCovered(b, a, i);
    }
  }

  /**
   Whatever the proposals say, runs over the same entries agree on the node ids, the edges with
   their records, the incidents with their tombstones, and the ids ever reported in conflict.
   */
  lemma OrderIndependentResidue(a: seq<Event>, b: seq<Event>)
    requires SameEntries(a, b)
    ensures Replay(EMPTY, a).nodes.Keys == Replay(EMPTY, b).nodes.Keys
    ensures SameEdges(Replay(EMPTY, a).edges, Replay(EMPTY, b).edges)
    ensures OpenedFirst(a) && OpenedFirst(b) ==> SameIncidents(Replay(EMPTY, a).incidents, Replay(EMPTY, b).incidents)
    ensures forall id :: EverRejected(a, id, "type") || EverRejected(a, id, "label")
                         <==> EverRejected(b, id, "type") || EverRejected(b, id, "label")
  {
    forall id ensures id in Replay(EMPTY, a).nodes <==> id in Replay(EMPTY, b).nodes {
      NodeIdsCovered(a, b, id);
      NodeIdsCovered(b, a, id);
    }
    EdgesResidue(a, b);
    if OpenedFirst(a) && OpenedFirst(b) {
      IncidentsResidue(a, b);
    }
    forall id
      ensures EverRejected(a, id, "type") || EverRejected(a, id, "label")
              <==> EverRejected(b, id, "type") || EverRejected(b, id, "label")
    {
      RejectedIffDisputed(a, id);
      RejectedIffDisputed(b, id);
      DisputeCovered(a, b, id);
      DisputeCovered(b, a, id);
    }
  }

  // ---- Exactly when two runs converge ----

  /** Both logs give `id` the same type and label: their first proposals for it agree. */
  ghost predicate SameWinner(a: seq<Event>, b: seq<Event>, id: string) {
    forall f, g | FirstProposal(a, f, id) && FirstProposal(b, g, id) :: N.Agree(a[f].node, b[g].node)
  }

  lemma RecordCovered(a: seq<Event>, b: seq<Event>, f: int, g: int, id: string, k: ProvKey)
    requires Covers(a, b)
    requires ProposedAt(a, f, id) && ProposedAt(b, g, id) && N.Agree(a[f].node, b[g].node)
    ensures Recorded(a, f, id, k) ==> Recorded(b, g, id, k)
  {
    if i :| Counts(a, f, i, id) && k in a[i].node.provenance {
      ProposalCovered(a, b, i, id);
      var j :| ProposedAt(b, j, id) && N.Same(a[i].node, b[j].node);
      assert Counts(b, g, j, id) && k in b[j].node.provenance;
    }
  }

  lemma HypotheticalCovered(a: seq<Event>, b: seq<Event>, f: int, g: int, id: string)
    requires Covers(a, b)
    requires ProposedAt(a, f, id) && ProposedAt(b, g, id) && N.Agree(a[f].node, b[g].node)
    ensures AllHypothetical(b, g, id) ==> AllHypothetical(a, f, id)
  {
    if AllHypothetical(b, g, id) {
      forall i | Counts(a, f, i, id) ensures a[i].node.hypothetical {
        ProposalCovered(a, b, i, id);
        var j :| ProposedAt(b, j, id) && N.Same(a[i].node, b[j].node);
        assert Counts(b, g, j, id);
      }
    }
  }

  lemma ClosedFormsBelow(a: seq<Event>, b: seq<Event>, id: string, m: N.NodeLattice, n: N.NodeLattice)
    requires Covers(a, b) && SameWinner(a, b, id)
    requires HasClosedForm(m, a, id) && HasClosedForm(n, b, id)
    ensures N.Below(m, n)
  {
    var f :| FirstProposal(a, f, id) && IsNodeOf(m, a, f, id);
    var g :| FirstProposal(b, g, id) && IsNodeOf(n, b, g, id);
    HypotheticalCovered(a, b, f, g, id);
    forall k | k in m.provenance ensures k in n.provenance {
      RecordCovered(a, b, f, g, id, k);
    }
  }

  lemma SameWinnerSuffices(a: seq<Event>, b: seq<Event>, id: string)
    requires SameEntries(a, b) && SameWinner(a, b, id)
    requires id in Replay(EMPTY, a).nodes && id in Replay(EMPTY, b).nodes
    ensures N.Same(Replay(EMPTY, a).nodes[id], Replay(EMPTY, b).nodes[id])
  {
    var m, n := Replay(EMPTY, a).nodes[id], Replay(EMPTY, b).nodes[id];
    NodeClosedForm(a, id);
    NodeClosedForm(b, id);
    hide Replay, HasClosedForm;
    ClosedFormsBelow(a, b, id, m, n);
    ClosedFormsBelow(b, a, id, n, m);
    N.BelowIsOrder(m, n, m);
  }

  lemma SameWinnerIsNeeded(a: seq<Event>, b: seq<Event>, id: string)
    requires id in Replay(EMPTY, a).nodes && id in Replay(EMPTY, b).nodes
    requires N.Same(Replay(EMPTY, a).nodes[id], Replay(EMPTY, b).nodes[id])
    ensures SameWinner(a, b, id)
  {
    hide Replay;
    forall f, g | FirstProposal(a, f, id) && FirstProposal(b, g, id) ensures N.Agree(a[f].node, b[g].node) {
      FirstWins(a, f, id);
      FirstWins(b, g, id);
    }
  }

  /** Over the same entries, an id is stored the same exactly when the two first proposals for it agree. */
  lemma NodeConvergesIffSameWinner(a: seq<Event>, b: seq<Event>, id: string)
    requires SameEntries(a, b)
    requires id in Replay(EMPTY, a).nodes && id in Replay(EMPTY, b).nodes
    ensures N.Same(Replay(EMPTY, a).nodes[id], Replay(EMPTY, b).nodes[id]) <==> SameWinner(a, b, id)
  {
    hide *;
    if SameWinner(a, b, id) {
      SameWinnerSuffices(a, b, id);
    }
    if N.Same(Replay(EMPTY, a).nodes[id], Replay(EMPTY, b).nodes[id]) {
      SameWinnerIsNeeded(a, b, id);
    }
  }

  lemma UnproposedHasNoWinner(a: seq<Event>, b: seq<Event>, id: string)
    requires id !in Replay(EMPTY, a).nodes
    ensures SameWinner(a, b, id)
  {
    NodeClosedForm(a, id);
  }

  /**
   Two runs over the same entries, in any order, batching and multiplicity, end in the same state up
   to timestamps exactly when for every id their first proposals agree.
   */
  lemma ConvergesIffSameWinners(a: seq<Event>, b: seq<Event>)
    requires SameEntries(a, b)
    requires OpenedFirst(a) && OpenedFirst(b)
    ensures SameState(Replay(EMPTY, a), Replay(EMPTY, b)) <==> forall id :: SameWinner(a, b, id)
  {
    OrderIndependentResidue(a, b);
    hide Replay, SameWinner, OpenedFirst, SameEntries, SameEdges, SameIncidents, N.Same;
    var s, t := Replay(EMPTY, a).nodes, Replay(EMPTY, b).nodes;
    forall id ensures id in s ==> id in t && (N.Same(s[id], t[id]) <==> SameWinner(a, b, id)) {
      if id in s {
        assert id in t.Keys;
        NodeConvergesIffSameWinner(a, b, id);
      }
    }
    forall id ensures id !in s ==> SameWinner(a, b, id) {
      if id !in s {
        UnproposedHasNoWinner(a, b, id);
      }
    }
  }

  lemma UndisputedHasOneWinner(a: seq<Event>, b: seq<Event>, id: string)
    requires Covers(b, a) && !Disputed(a, id)
    ensures SameWinner(a, b, id)
  {
    forall f, g | FirstProposal(a, f, id) && FirstProposal(b, g, id) ensures N.Agree(a[f].node, b[g].node) {
      ProposalCovered(b, a, g, id);
      var j :| ProposedAt(a, j, id) && N.Same(b[g].node, a[j].node);
      assert N.Agree(a[f].node, a[j].node);
    }
  }

  /**
   Strong convergence. Runs over the same entries, in any order, batching and multiplicity, end in
   the same state up to timestamps, provided no id is disputed and incidents are opened first.
   */
  lemma StrongConvergence(a: seq<Event>, b: seq<Event>)
    requires SameEntries(a, b) && Harmonious(a)
    requires OpenedFirst(a) && OpenedFirst(b)
    ensures SameState(Replay(EMPTY, a), Replay(EMPTY, b))
  {
    hide SameState, SameWinner, OpenedFirst, Replay, Disputed;
    forall id ensures SameWinner(a, b, id) {
      UndisputedHasOneWinner(a, b, id);
    }
    ConvergesIffSameWinners(a, b);
  }

  // ---- Exactly when no reordering matters ----

  ghost predicate Reordering(a: seq<Event>, b: seq<Event>) {
    multiset(a) == multiset(b) && OpenedFirst(b)
  }

  ghost predicate OrderIndependent(es: seq<Event>) {
    forall es' | Reordering(es, es') :: SameState(Replay(EMPTY, es), Replay(EMPTY, es'))
  }

  lemma ReorderingHasSameEntries(a: seq<Event>, b: seq<Event>)
    requires multiset(a) == multiset(b)
    ensures Covers(a, b)
  {
    forall i | 0 <= i < |a| ensures Occurs(a[i], b) {
      assert a[i] in multiset(b);
      var j :| 0 <= j < |b| && b[j] == a[i];
      assert SameEvent(a[i], b[j]);
    }
  }

  /** Entry `g` moved to the front. */
  function MovedToFront(es: seq<Event>, g: nat): seq<Event>
    requires g < |es|
  {
    [es[g]] + es[..g] + es[g + 1..]
  }

  lemma MovingIsReordering(es: seq<Event>, g: nat)
    requires g < |es| && es[g].PutNode? && OpenedFirst(es)
    ensures Reordering(es, MovedToFront(es, g))
  {
    var es' := MovedToFront(es, g);
    assert es == es[..g] + [es[g]] + es[g + 1..];
    forall i, incident | 0 <= i < |es'| && BuriesFor(es'[i], incident)
      ensures exists o :: o < i && OpenedAt(es', o, incident)
    {
      var from := if i <= g then i - 1 else i;
      assert es'[i] == es[from];
      assert BuriesFor(es[from], incident);
      var o :| o < from && OpenedAt(es, o, incident);
      var to := if o < g then o + 1 else o;
      assert es'[to] == es[o];
      assert OpenedAt(es', to, incident);
    }
  }

  lemma DisputeMakesOrderMatter(es: seq<Event>, id: string)
    requires OpenedFirst(es) && Disputed(es, id)
    ensures !OrderIndependent(es)
  {
    var i, j :| ProposedAt(es, i, id) && ProposedAt(es, j, id) && !N.Agree(es[i].node, es[j].node);
    NodeClosedForm(es, id);
    hide Replay, IsNodeOf;
    var f :| FirstProposal(es, f, id);
    FirstWins(es, f, id);
    var g := if N.Agree(es[f].node, es[i].node) then j else i;
    var es' := MovedToFront(es, g);
    MovingIsReordering(es, g);
    assert FirstProposal(es', 0, id);
    FirstWins(es', 0, id);
    assert !N.Same(Replay(EMPTY, es).nodes[id], Replay(EMPTY, es').nodes[id]);
    assert !SameNodes(Replay(EMPTY, es).nodes, Replay(EMPTY, es').nodes);
  }

  /**
   The order of a log can be permuted without effect exactly when no two of its proposals for one
   id disagree on type or label.
   */
  lemma OrderMattersIffDisputed(es: seq<Event>)
    requires OpenedFirst(es)
    ensures OrderIndependent(es) <==> Harmonious(es)
  {
    if Harmonious(es) {
      forall es' | Reordering(es, es') ensures SameState(Replay(EMPTY, es), Replay(EMPTY, es')) {
        ReorderingHasSameEntries(es, es');
        ReorderingHasSameEntries(es', es);
        StrongConvergence(es, es');
      }
    } else {
      var id :| Disputed(es, id);
      DisputeMakesOrderMatter(es, id);
    }
  }
}
