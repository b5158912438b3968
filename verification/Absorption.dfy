/** Retries: an entry that has been processed once has no further effect, ever. */
module Absorption {
  import opened Events
  import opened Growth
  import N = NodeLattices
  import E = EdgeLattices

  /** The entry names an incident only if the store knows it. */
  predicate Addressed(s: State, e: Event) {
    e.BuryNode? || e.BuryEdge? ==> e.incident in s.incidents
  }

  /** Everything the entry could contribute is on file, or it has been and will be rejected. */
  ghost predicate Settled(s: State, e: Event) {
    match e
    case PutNode(id, n) => id in s.nodes && (N.Agree(n, s.nodes[id]) ==> N.Below(n, s.nodes[id]))
    case PutEdge(k, l) => k in s.edges && E.Below(l, s.edges[k])
    case Open(i, _) => i in s.incidents
    case BuryNode(i, id) => i in s.incidents && id in s.incidents[i].nodeTombstones
    case BuryEdge(i, k) => i in s.incidents && k in s.incidents[i].edgeTombstones
  }

  /** A proposal is turned away exactly when it disagrees with the stored node, even with a `Top` one. */
  lemma RejectedIffDisagrees(stored: N.NodeLattice, n: Proposal)
    ensures N.Join(stored, n).HasConflict() <==> !N.Agree(n, stored)
  {
    if !stored.HasConflict() {
      N.ConflictIsDisagreement(stored, n);
    }
  }

  lemma SettledIsNoOp(s: State, e: Event)
    requires Settled(s, e)
    ensures Step(s, e) == s
  {
    match e
    case PutNode(id, n) =>
      RejectedIffDisagrees(s.nodes[id], n);
      N.JoinLaws(s.nodes[id], n, n);
    case PutEdge(k, l) =>
      E.JoinLaws(s.edges[k], l, l);
    case Open(_, _) =>
    case BuryNode(i, id) =>
      assert s.incidents[i].nodeTombstones + {id} == s.incidents[i].nodeTombstones;
    case BuryEdge(i, k) =>
      assert s.incidents[i].edgeTombstones + {k} == s.incidents[i].edgeTombstones;
  }

  lemma StepSettles(s: State, e: Event)
    requires Addressed(s, e)
    ensures Settled(Step(s, e), e)
  {
    match e
    case PutNode(id, n) =>
      if id in s.nodes {
        RejectedIffDisagrees(s.nodes[id], n);
        N.JoinIsLeastUpperBound(s.nodes[id], n, n);
      }
    case PutEdge(k, l) =>
      if k in s.edges {
        E.JoinIsLeastUpperBound(s.edges[k], l, l);
      }
    case _ =>
  }

  lemma SettledStays(s: State, t: State, e: Event)
    requires Settled(s, e) && Grows(s, t)
    ensures Settled(t, e)
  {
    match e
    case PutNode(id, n) =>
      assert NodeGrows(s.nodes[id], t.nodes[id]);
    case PutEdge(k, l) =>
      assert ProvenanceGrows(s.edges[k].provenance, t.edges[k].provenance);
    case Open(i, _) =>
    case BuryNode(i, _) =>
      assert IncidentGrows(s.incidents[i], t.incidents[i]);
    case BuryEdge(i, _) =>
      assert IncidentGrows(s.incidents[i], t.incidents[i]);
  }

  lemma AddressedStays(s: State, t: State, e: Event)
    requires Addressed(s, e) && Grows(s, t)
    ensures Addressed(t, e)
  {
  }

  /** Once a batch has run, all of its entries are settled. */
  lemma {:induction false} BatchSettles(s: State, es: seq<Event>)
    requires forall e | e in es :: Addressed(s, e)
    ensures forall e | e in es :: Settled(Replay(s, es), e)
  {
    if es != [] {
      var init, last := es[..|es| - 1], es[|es| - 1];
      var t := Replay(s, init);
      BatchSettles(s, init);
      ReplayGrows(s, init);
      AddressedStays(s, t, last);
      StepSettles(t, last);
      StepGrows(t, last);
      forall e | e in es ensures Settled(Replay(s, es), e) {
        assert es == init + [last];
        if e in init {
          SettledStays(t, Step(t, last), e);
        }
      }
    }
  }

  lemma {:induction false} SettledBatchIsNoOp(s: State, es: seq<Event>)
    requires forall e | e in es :: Settled(s, e)
    ensures Replay(s, es) == s
    ensures forall i | 0 <= i < |es| :: Reports(s, es)[i] == ReportOf(s, es[i])
  {
    if es != [] {
      SettledBatchIsNoOp(s, es[..|es| - 1]);
      SettledIsNoOp(s, es[|es| - 1]);
    }
  }

  /** What a report turns into when the entry is submitted again. */
  function OnReplay(r: Report): Report {
    match r.outcome
    case Created => Report(Merged, r.id)
    case Opened => Report(AlreadyOpen, r.id)
    case Applied => Report(AlreadyTombstoned, r.id)
    case Unmatched => Report(AlreadyTombstoned, r.id)
    case _ => r
  }

  lemma ReplayedNodeReport(s: State, t: State, e: Event)
    requires e.PutNode? && Grows(Step(s, e), t)
    ensures ReportOf(t, e) == OnReplay(ReportOf(s, e))
  {
    var u := Step(s, e);
    assert NodeGrows(u.nodes[e.id], t.nodes[e.id]);
    RejectedIffDisagrees(t.nodes[e.id], e.node);
    if e.id in s.nodes {
      RejectedIffDisagrees(s.nodes[e.id], e.node);
      assert N.Agree(s.nodes[e.id], t.nodes[e.id]);
    }
  }

  lemma ReplayedReport(s: State, t: State, e: Event)
    requires Grows(Step(s, e), t)
    requires Addressed(s, e)
    ensures ReportOf(t, e) == OnReplay(ReportOf(s, e))
  {
    if e.PutNode? {
      ReplayedNodeReport(s, t, e);
    } else if e.BuryNode? || e.BuryEdge? {
      assert IncidentGrows(Step(s, e).incidents[e.incident], t.incidents[e.incident]);
    }
  }

  /**
   A batch that has been processed once is absorbed at any later point: the state does not change
   at all, timestamps included and rejected proposals notwithstanding, and each entry is reported
   as a repetition of its first report, rejections word for word.
   */
  lemma ReplayAbsorbed(s: State, es: seq<Event>, later: seq<Event>)
    requires forall e | e in es :: Addressed(s, e)
    ensures Replay(Replay(s, es + later), es) == Replay(s, es + later)
    ensures forall i | 0 <= i < |es| :: Reports(Replay(s, es + later), es)[i] == OnReplay(Reports(s, es)[i])
  {
    var u := Replay(s, es);
    var t := Replay(u, later);
    ReplayConcat(s, es, later);
    BatchSettles(s, es);
    ReplayGrows(u, later);
    forall e | e in es ensures Settled(t, e) {
      SettledStays(u, t, e);
    }
    SettledBatchIsNoOp(t, es);
    forall i | 0 <= i < |es| ensures Reports(t, es)[i] == OnReplay(Reports(s, es)[i]) {
      ReportReplayed(s, es, t, i);
    }
  }

  /** So a batch that repeats the entries of an earlier one acts as if it alone had been submitted. */
  lemma RepeatedPrefixAbsorbed(s: State, es: seq<Event>, rest: seq<Event>)
    requires forall e | e in es :: Addressed(s, e)
    ensures Replay(Replay(s, es), es + rest) == Replay(s, es + rest)
  {
    hide *;
    ReplayAbsorbed(s, es, []);
    assert es + [] == es;
    ReplayConcat(s, es, rest);
    ReplayConcat(Replay(s, es), es, rest);
  }

  lemma GrowsSinceIteration(s: State, es: seq<Event>, i: nat)
    requires i < |es|
    ensures Grows(Step(Replay(s, es[..i]), es[i]), Replay(s, es))
  {
    var upto := es[..i] + [es[i]];
    assert es == upto + es[i + 1..];
    ReplaySnoc(s, es[..i], es[i]);
    ReplayConcat(s, upto, es[i + 1..]);
    ReplayGrows(Replay(s, upto), es[i + 1..]);
  }

  lemma ReportReplayed(s: State, es: seq<Event>, t: State, i: nat)
    requires Grows(Replay(s, es), t)
    requires i < |es| && Addressed(s, es[i])
    ensures ReportOf(t, es[i]) == OnReplay(Reports(s, es)[i])
  {
    var before := Replay(s, es[..i]);
    ReportsAt(s, es, i);
    ReplayGrows(s, es[..i]);
    AddressedStays(s, before, es[i]);
    GrowsSinceIteration(s, es, i);
    GrowsTransitive(Step(before, es[i]), Replay(s, es), t);
    ReplayedReport(before, t, es[i]);
  }
}
