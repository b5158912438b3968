/**
 What the store holds, read off the log of processed entries without running anything: every field
 of every reachable state is pinned down by quantifiers over the log.
 */
module ClosedForm {
  import opened Provenances
  import opened Events
  import Growth
  import N = NodeLattices
  import E = EdgeLattices

  // ---- Nodes ----

  predicate Proposes(e: Event, id: string) {
    e.PutNode? && e.id == id
  }

  ghost predicate ProposedAt(es: seq<Event>, i: int, id: string) {
    0 <= i < |es| && Proposes(es[i], id)
  }

  /** `f` is the first entry of the log that proposes `id`. */
  ghost predicate FirstProposal(es: seq<Event>, f: int, id: string) {
    ProposedAt(es, f, id) && forall j | 0 <= j < f :: !ProposedAt(es, j, id)
  }

  /** Entry `i` proposes `id` with the type and label of entry `f`. */
  ghost predicate Counts(es: seq<Event>, f: int, i: int, id: string) {
    ProposedAt(es, f, id) && ProposedAt(es, i, id) && N.Agree(es[f].node, es[i].node)
  }

  /** Entry `i` is the earliest counted one that carries record `k`. */
  ghost predicate EarliestRecord(es: seq<Event>, f: int, i: int, id: string, k: ProvKey) {
    && Counts(es, f, i, id) && k in es[i].node.provenance
    && forall j | 0 <= j < i :: Counts(es, f, j, id) ==> k !in es[j].node.provenance
  }

  /** Some counted entry carries record `k`. */
  ghost predicate Recorded(es: seq<Event>, f: int, id: string, k: ProvKey) {
    exists i :: Counts(es, f, i, id) && k in es[i].node.provenance
  }

  /** `t` is the timestamp the earliest counted entry gives record `k`. */
  ghost predicate Dated(es: seq<Event>, f: int, id: string, k: ProvKey, t: Timestamp) {
    exists i :: EarliestRecord(es, f, i, id, k) && es[i].node.provenance[k] == t
  }

  /** The node a log with first proposal `f` leaves behind. */
  ghost predicate IsNodeOf(n: N.NodeLattice, es: seq<Event>, f: int, id: string) {
    && ProposedAt(es, f, id)
    && N.Agree(n, es[f].node)
    && (n.hypothetical <==> AllHypothetical(es, f, id))
    && (forall k :: k in n.provenance <==> Recorded(es, f, id, k))
    && (forall k | k in n.provenance :: Dated(es, f, id, k, n.provenance[k]))
  }

  /** `n` is what the log says about `id`. */
  ghost predicate HasClosedForm(n: N.NodeLattice, es: seq<Event>, id: string) {
    exists f :: FirstProposal(es, f, id) && IsNodeOf(n, es, f, id)
  }

  lemma DatingIsUnique(es: seq<Event>, f: int, id: string, k: ProvKey, t: Timestamp, u: Timestamp)
    requires Dated(es, f, id, k, t) && Dated(es, f, id, k, u)
    ensures t == u
  {
    var i :| EarliestRecord(es, f, i, id, k) && es[i].node.provenance[k] == t;
    var j :| EarliestRecord(es, f, j, id, k) && es[j].node.provenance[k] == u;
    assert i == j;
  }

  lemma SameFormSameNode(a: N.NodeLattice, b: N.NodeLattice, es: seq<Event>, f: int, id: string)
    requires IsNodeOf(a, es, f, id) && IsNodeOf(b, es, f, id)
    ensures a == b
  {
    assert a.provenance.Keys == b.provenance.Keys;
    forall k | k in a.provenance ensures a.provenance[k] == b.provenance[k] {
      DatingIsUnique(es, f, id, k, a.provenance[k], b.provenance[k]);
    }
  }

  /** Two nodes with the same closed form are equal, so the closed form determines the stored node. */
  lemma ClosedFormDeterminesNode(a: N.NodeLattice, b: N.NodeLattice, es: seq<Event>, id: string)
    requires HasClosedForm(a, es, id) && HasClosedForm(b, es, id)
    ensures a == b
  {
    var f :| FirstProposal(es, f, id) && IsNodeOf(a, es, f, id);
    var g :| FirstProposal(es, g, id) && IsNodeOf(b, es, g, id);
    assert f == g;
    SameFormSameNode(a, b, es, f, id);
  }

  lemma CountsPrefix(es: seq<Event>, f: int, i: int, id: string)
    requires es != []
    requires f < |es| - 1
    ensures i < |es| - 1 ==> (Counts(es[..|es| - 1], f, i, id) <==> Counts(es, f, i, id))
    ensures !Counts(es[..|es| - 1], f, |es| - 1, id)
  {
  }

  /** What the last entry adds to the records and to their dating. */
  lemma RecordedStep(es: seq<Event>, f: int, id: string, k: ProvKey)
    requires es != [] && f < |es| - 1
    ensures Recorded(es, f, id, k) <==>
            || Recorded(es[..|es| - 1], f, id, k)
            || (Counts(es, f, |es| - 1, id) && k in es[|es| - 1].node.provenance)
  {
    var init, l := es[..|es| - 1], |es| - 1;
    if Recorded(es, f, id, k) {
      var i :| Counts(es, f, i, id) && k in es[i].node.provenance;
      CountsPrefix(es, f, i, id);
      if i != l {
        assert Counts(init, f, i, id) && k in init[i].node.provenance;
      }
    }
    if Recorded(init, f, id, k) {
      var i :| Counts(init, f, i, id) && k in init[i].node.provenance;
      CountsPrefix(es, f, i, id);
      assert Counts(es, f, i, id) && k in es[i].node.provenance;
    }
  }

  lemma DatingKept(es: seq<Event>, f: int, id: string, k: ProvKey, t: Timestamp)
    requires es != [] && f < |es| - 1
    requires Dated(es[..|es| - 1], f, id, k, t)
    ensures Dated(es, f, id, k, t)
  {
    var init := es[..|es| - 1];
    var i :| EarliestRecord(init, f, i, id, k) && init[i].node.provenance[k] == t;
    forall j | 0 <= j <= i ensures Counts(init, f, j, id) <==> Counts(es, f, j, id) {
      CountsPrefix(es, f, j, id);
    }
    assert EarliestRecord(es, f, i, id, k);
  }

  lemma DatingStarts(es: seq<Event>, f: int, id: string, k: ProvKey)
    requires es != [] && f < |es| - 1
    requires Counts(es, f, |es| - 1, id) && k in es[|es| - 1].node.provenance
    requires !Recorded(es[..|es| - 1], f, id, k)
    ensures EarliestRecord(es, f, |es| - 1, id, k)
  {
    var init, l := es[..|es| - 1], |es| - 1;
    forall j | 0 <= j < l && Counts(es, f, j, id) ensures k !in es[j].node.provenance {
      CountsPrefix(es, f, j, id);
      assert Counts(init, f, j, id) && init[j].node == es[j].node;
    }
  }

  ghost predicate AllHypothetical(es: seq<Event>, f: int, id: string) {
    forall i | Counts(es, f, i, id) :: es[i].node.hypothetical
  }

  lemma HypotheticalStep(es: seq<Event>, f: int, id: string)
    requires es != [] && f < |es| - 1
    ensures AllHypothetical(es, f, id) <==>
            && AllHypothetical(es[..|es| - 1], f, id)
            && (Counts(es, f, |es| - 1, id) ==> es[|es| - 1].node.hypothetical)
  {
    var init, l := es[..|es| - 1], |es| - 1;
    forall i | i != l ensures Counts(init, f, i, id) <==> Counts(es, f, i, id) {
      CountsPrefix(es, f, i, id);
    }
    if AllHypothetical(es, f, id) {
      forall i | Counts(init, f, i, id) ensures init[i].node.hypothetical {
        assert Counts(es, f, i, id) && es[i] == init[i];
      }
    }
    if AllHypothetical(init, f, id) && (Counts(es, f, l, id) ==> es[l].node.hypothetical) {
      forall i | Counts(es, f, i, id) ensures es[i].node.hypothetical {
        if i != l { assert Counts(init, f, i, id) && es[i] == init[i]; }
      }
    }
  }

  /** An entry that does not count leaves the closed form alone. */
  lemma ClosedFormIgnores(n: N.NodeLattice, es: seq<Event>, f: int, id: string)
    requires es != [] && f < |es| - 1
    requires IsNodeOf(n, es[..|es| - 1], f, id)
    requires !Counts(es, f, |es| - 1, id)
    ensures IsNodeOf(n, es, f, id)
  {
    HypotheticalStep(es, f, id);
    forall k ensures k in n.provenance <==> Recorded(es, f, id, k) {
      RecordedStep(es, f, id, k);
    }
    forall k | k in n.provenance
      ensures Dated(es, f, id, k, n.provenance[k])
    {
      DatingKept(es, f, id, k, n.provenance[k]);
    }
  }

  /** An entry that counts is joined in. */
  lemma ClosedFormJoins(n: N.NodeLattice, es: seq<Event>, f: int, id: string)
    requires es != [] && f < |es| - 1
    requires IsNodeOf(n, es[..|es| - 1], f, id)
    requires Counts(es, f, |es| - 1, id)
    ensures IsNodeOf(N.Join(n, es[|es| - 1].node), es, f, id)
  {
    var l := |es| - 1;
    var m := N.Join(n, es[l].node);
    HypotheticalStep(es, f, id);
    forall k ensures k in m.provenance <==> Recorded(es, f, id, k) {
      RecordedStep(es, f, id, k);
    }
    forall k | k in m.provenance
      ensures Dated(es, f, id, k, m.provenance[k])
    {
      if k in n.provenance {
        DatingKept(es, f, id, k, n.provenance[k]);
      } else {
        DatingStarts(es, f, id, k);
      }
    }
  }

  /**
   Every node, after any run: stored iff proposed at all, with the type and label of its first
   proposal; hypothetical iff every agreeing proposal is; its records are those of the agreeing
   proposals, each with the timestamp of the earliest agreeing proposal that carries it.
   */
  lemma {:induction false} NodeClosedForm(es: seq<Event>, id: string)
    ensures id in Replay(EMPTY, es).nodes <==> exists i :: ProposedAt(es, i, id)
    ensures id in Replay(EMPTY, es).nodes ==> HasClosedForm(Replay(EMPTY, es).nodes[id], es, id)
  {
    if es != [] {
      var init, l := es[..|es| - 1], |es| - 1;
      var s := Replay(EMPTY, init);
      assert Replay(EMPTY, es) == Step(s, es[l]);
      hide Replay, N.Join, N.Agree;
      NodeClosedForm(init, id);
      Growth.ReplayStoresNoTop(EMPTY, init);
      if id in s.nodes {
        var f :| FirstProposal(init, f, id) && IsNodeOf(s.nodes[id], init, f, id);
        assert forall j | 0 <= j < l :: ProposedAt(init, j, id) <==> ProposedAt(es, j, id);
        assert FirstProposal(es, f, id);
        if Proposes(es[l], id) {
          N.ConflictIsDisagreement(s.nodes[id], es[l].node);
        }
        if Counts(es, f, l, id) {
          ClosedFormJoins(s.nodes[id], es, f, id);
        } else {
          ClosedFormIgnores(s.nodes[id], es, f, id);
        }
      } else {
        forall j | 0 <= j < l ensures !ProposedAt(es, j, id) {
          assert !ProposedAt(init, j, id);
        }
        if Proposes(es[l], id) {
          FirstProposalStored(es, id);
        }
      }
    }
  }

  lemma FirstProposalStored(es: seq<Event>, id: string)
    requires es != [] && FirstProposal(es, |es| - 1, id)
    ensures IsNodeOf(es[|es| - 1].node, es, |es| - 1, id)
  {
    var l := |es| - 1;
    assert forall i :: Counts(es, l, i, id) <==> i == l;
    forall k | k in es[l].node.provenance ensures EarliestRecord(es, l, l, id, k) {
    }
  }

  // ---- Edges ----

  ghost predicate EdgeAt(es: seq<Event>, i: int, k: E.EdgeKey) {
    0 <= i < |es| && es[i].PutEdge? && es[i].key == k
  }

  ghost predicate EarliestEdgeRecord(es: seq<Event>, i: int, k: E.EdgeKey, p: ProvKey) {
    && EdgeAt(es, i, k) && p in es[i].edge.provenance
    && forall j | 0 <= j < i :: EdgeAt(es, j, k) ==> p !in es[j].edge.provenance
  }

  ghost predicate EdgeRecorded(es: seq<Event>, k: E.EdgeKey, p: ProvKey) {
    exists i :: EdgeAt(es, i, k) && p in es[i].edge.provenance
  }

  ghost predicate EdgeDated(es: seq<Event>, k: E.EdgeKey, p: ProvKey, t: Timestamp) {
    exists i :: EarliestEdgeRecord(es, i, k, p) && es[i].edge.provenance[p] == t
  }

  ghost predicate IsEdgeOf(e: E.EdgeLattice, es: seq<Event>, k: E.EdgeKey) {
    && (forall p :: p in e.provenance <==> EdgeRecorded(es, k, p))
    && (forall p | p in e.provenance :: EdgeDated(es, k, p, e.provenance[p]))
  }

  lemma EdgeRecordedStep(es: seq<Event>, k: E.EdgeKey, p: ProvKey)
    requires es != []
    ensures EdgeRecorded(es, k, p) <==>
            || EdgeRecorded(es[..|es| - 1], k, p)
            || (EdgeAt(es, |es| - 1, k) && p in es[|es| - 1].edge.provenance)
  {
    var init, l := es[..|es| - 1], |es| - 1;
    if EdgeRecorded(es, k, p) {
      var i :| EdgeAt(es, i, k) && p in es[i].edge.provenance;
      if i != l {
        assert EdgeAt(init, i, k) && p in init[i].edge.provenance;
      }
    }
    if EdgeRecorded(init, k, p) {
      var i :| EdgeAt(init, i, k) && p in init[i].edge.provenance;
      assert EdgeAt(es, i, k) && p in es[i].edge.provenance;
    }
  }

  lemma EdgeDatingKept(es: seq<Event>, k: E.EdgeKey, p: ProvKey, t: Timestamp)
    requires es != [] && EdgeDated(es[..|es| - 1], k, p, t)
    ensures EdgeDated(es, k, p, t)
  {
    var init := es[..|es| - 1];
    var i :| EarliestEdgeRecord(init, i, k, p) && init[i].edge.provenance[p] == t;
    assert forall j | 0 <= j <= i :: EdgeAt(init, j, k) <==> EdgeAt(es, j, k);
    assert EarliestEdgeRecord(es, i, k, p);
  }

  lemma EdgeDatingStarts(es: seq<Event>, k: E.EdgeKey, p: ProvKey)
    requires es != [] && EdgeAt(es, |es| - 1, k) && p in es[|es| - 1].edge.provenance
    requires !EdgeRecorded(es[..|es| - 1], k, p)
    ensures EarliestEdgeRecord(es, |es| - 1, k, p)
  {
    var init, l := es[..|es| - 1], |es| - 1;
    forall j | 0 <= j < l && EdgeAt(es, j, k) ensures p !in es[j].edge.provenance {
      assert EdgeAt(init, j, k) && init[j].edge == es[j].edge;
    }
  }

  lemma EdgeFormIgnores(e: E.EdgeLattice, es: seq<Event>, k: E.EdgeKey)
    requires es != [] && IsEdgeOf(e, es[..|es| - 1], k) && !EdgeAt(es, |es| - 1, k)
    ensures IsEdgeOf(e, es, k)
  {
    forall p ensures p in e.provenance <==> EdgeRecorded(es, k, p) {
      EdgeRecordedStep(es, k, p);
    }
    forall p | p in e.provenance
      ensures EdgeDated(es, k, p, e.provenance[p])
    {
      EdgeDatingKept(es, k, p, e.provenance[p]);
    }
  }

  lemma EdgeFormJoins(e: E.EdgeLattice, es: seq<Event>, k: E.EdgeKey)
    requires es != [] && IsEdgeOf(e, es[..|es| - 1], k) && EdgeAt(es, |es| - 1, k)
    ensures IsEdgeOf(E.Join(e, es[|es| - 1].edge), es, k)
  {
    var m := E.Join(e, es[|es| - 1].edge);
    forall p ensures p in m.provenance <==> EdgeRecorded(es, k, p) {
      EdgeRecordedStep(es, k, p);
    }
    forall p | p in m.provenance
      ensures EdgeDated(es, k, p, m.provenance[p])
    {
      if p in e.provenance {
        EdgeDatingKept(es, k, p, e.provenance[p]);
      } else {
        EdgeDatingStarts(es, k, p);
      }
    }
  }

  /** Every edge, after any run: stored iff submitted, its records those of all its submissions. */
  lemma {:induction false} EdgeClosedForm(es: seq<Event>, k: E.EdgeKey)
    ensures k in Replay(EMPTY, es).edges <==> exists i :: EdgeAt(es, i, k)
    ensures k in Replay(EMPTY, es).edges ==> IsEdgeOf(Replay(EMPTY, es).edges[k], es, k)
  {
    if es != [] {
      var init, l := es[..|es| - 1], |es| - 1;
      var s := Replay(EMPTY, init);
      EdgeClosedForm(init, k);
      if k in s.edges {
        var i :| EdgeAt(init, i, k);
        assert EdgeAt(es, i, k);
        if EdgeAt(es, l, k) {
          EdgeFormJoins(s.edges[k], es, k);
        } else {
          EdgeFormIgnores(s.edges[k], es, k);
        }
      } else {
        forall j | 0 <= j < l ensures !EdgeAt(es, j, k) {
          assert !EdgeAt(init, j, k);
        }
        if EdgeAt(es, l, k) {
          forall p | p in es[l].edge.provenance ensures EarliestEdgeRecord(es, l, k, p) {
          }
        }
      }
    }
  }

  // ---- Incidents ----

  ghost predicate OpenedAt(es: seq<Event>, i: int, incident: string) {
    0 <= i < |es| && es[i].Open? && es[i].incident == incident
  }

  ghost predicate FirstOpening(es: seq<Event>, o: int, incident: string) {
    OpenedAt(es, o, incident) && forall j | 0 <= j < o :: !OpenedAt(es, j, incident)
  }

  ghost predicate NodeBuriedAt(es: seq<Event>, i: int, incident: string, id: string) {
    0 <= i < |es| && es[i] == BuryNode(incident, id)
  }

  ghost predicate EdgeBuriedAt(es: seq<Event>, i: int, incident: string, k: E.EdgeKey) {
    0 <= i < |es| && es[i] == BuryEdge(incident, k)
  }

  ghost predicate NodeBuriedSince(es: seq<Event>, o: int, incident: string, id: string) {
    exists i :: o < i && NodeBuriedAt(es, i, incident, id)
  }

  ghost predicate EdgeBuriedSince(es: seq<Event>, o: int, incident: string, k: E.EdgeKey) {
    exists i :: o < i && EdgeBuriedAt(es, i, incident, k)
  }

  /** Opened at `o`; its tombstones are those submitted after that, and no others. */
  ghost predicate IsIncidentOf(inc: IncidentState, es: seq<Event>, o: int, incident: string) {
    && OpenedAt(es, o, incident)
    && inc.createdAt == es[o].createdAt
    && (forall id :: id in inc.nodeTombstones <==> NodeBuriedSince(es, o, incident, id))
    && (forall k :: k in inc.edgeTombstones <==> EdgeBuriedSince(es, o, incident, k))
  }

  lemma NodeBuriedStep(es: seq<Event>, o: int, incident: string, id: string)
    requires es != [] && o < |es| - 1
    ensures NodeBuriedSince(es, o, incident, id) <==>
            NodeBuriedSince(es[..|es| - 1], o, incident, id) || es[|es| - 1] == BuryNode(incident, id)
  {
    var init, l := es[..|es| - 1], |es| - 1;
    assert forall i | i != l :: NodeBuriedAt(init, i, incident, id) <==> NodeBuriedAt(es, i, incident, id);
    assert NodeBuriedAt(es, l, incident, id) <==> es[l] == BuryNode(incident, id);
  }

  lemma EdgeBuriedStep(es: seq<Event>, o: int, incident: string, k: E.EdgeKey)
    requires es != [] && o < |es| - 1
    ensures EdgeBuriedSince(es, o, incident, k) <==>
            EdgeBuriedSince(es[..|es| - 1], o, incident, k) || es[|es| - 1] == BuryEdge(incident, k)
  {
    var init, l := es[..|es| - 1], |es| - 1;
    assert forall i | i != l :: EdgeBuriedAt(init, i, incident, k) <==> EdgeBuriedAt(es, i, incident, k);
    assert EdgeBuriedAt(es, l, incident, k) <==> es[l] == BuryEdge(incident, k);
  }

  lemma IncidentStep(s: State, e: Event, incident: string)
    requires incident in s.incidents
    ensures incident in Step(s, e).incidents
    ensures Step(s, e).incidents[incident].createdAt == s.incidents[incident].createdAt
    ensures forall id :: id in Step(s, e).incidents[incident].nodeTombstones <==>
                         id in s.incidents[incident].nodeTombstones || e == BuryNode(incident, id)
    ensures forall k :: k in Step(s, e).incidents[incident].edgeTombstones <==>
                        k in s.incidents[incident].edgeTombstones || e == BuryEdge(incident, k)
  {
  }

  lemma IncidentFormStep(es: seq<Event>, o: int, incident: string)
    requires es != [] && o < |es| - 1
    requires incident in Replay(EMPTY, es[..|es| - 1]).incidents
    requires IsIncidentOf(Replay(EMPTY, es[..|es| - 1]).incidents[incident], es[..|es| - 1], o, incident)
    ensures incident in Replay(EMPTY, es).incidents
    ensures IsIncidentOf(Replay(EMPTY, es).incidents[incident], es, o, incident)
  {
    var init, last := es[..|es| - 1], es[|es| - 1];
    var before := Replay(EMPTY, init);
    assert Replay(EMPTY, es) == Step(before, last);
    IncidentStep(before, last, incident);
    var after := Step(before, last).incidents[incident];
    forall id ensures id in after.nodeTombstones <==> NodeBuriedSince(es, o, incident, id) {
      NodeBuriedStep(es, o, incident, id);
    }
    forall k ensures k in after.edgeTombstones <==> EdgeBuriedSince(es, o, incident, k) {
      EdgeBuriedStep(es, o, incident, k);
    }
  }

  /** Every incident, after any run: known iff opened, dated by its first opening, buried since then. */
  lemma {:induction false} IncidentClosedForm(es: seq<Event>, incident: string)
    ensures incident in Replay(EMPTY, es).incidents <==> exists o :: OpenedAt(es, o, incident)
    ensures incident in Replay(EMPTY, es).incidents ==>
              exists o :: FirstOpening(es, o, incident) && IsIncidentOf(Replay(EMPTY, es).incidents[incident], es, o, incident)
  {
    if es != [] {
      var init, l := es[..|es| - 1], |es| - 1;
      IncidentClosedForm(init, incident);
      if incident in Replay(EMPTY, init).incidents {
        var o :| FirstOpening(init, o, incident) && IsIncidentOf(Replay(EMPTY, init).incidents[incident], init, o, incident);
        assert forall j | 0 <= j < l :: OpenedAt(init, j, incident) <==> OpenedAt(es, j, incident);
        assert FirstOpening(es, o, incident);
        IncidentFormStep(es, o, incident);
      } else {
        forall j | 0 <= j < l ensures !OpenedAt(es, j, incident) {
          assert !OpenedAt(init, j, incident);
        }
        if OpenedAt(es, l, incident) {
          assert FirstOpening(es, l, incident);
          assert IsIncidentOf(Replay(EMPTY, es).incidents[incident], es, l, incident);
        }
      }
    }
  }
}
