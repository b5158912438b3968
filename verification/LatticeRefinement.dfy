/**
 The store against the composite lattice of a whole graph. The store keeps what the lattice would
 hold wherever the lattice has not gone to `Top`, and reports a conflict exactly where it has.
 */
module LatticeRefinement {
  import opened Wrappers
  import opened Events
  import opened GraphLattices
  import Growth
  import N = NodeLattices

  /** The node proposals of a log merged one after the other, disagreements included. */
  function FoldNodes(es: seq<Event>): NodeMap {
    if es == [] then map[]
    else
      var sofar := FoldNodes(es[..|es| - 1]);
      match es[|es| - 1]
      case PutNode(id, n) => MergeNodes(sofar, map[id := n])
      case _ => sofar
  }

  function FoldEdges(es: seq<Event>): EdgeMap {
    if es == [] then map[]
    else
      var sofar := FoldEdges(es[..|es| - 1]);
      match es[|es| - 1]
      case PutEdge(k, e) => MergeEdges(sofar, map[k := e])
      case _ => sofar
  }

  /** The fold does not see how a log is cut into batches. */
  lemma {:induction false} FoldOfConcatenation(a: seq<Event>, b: seq<Event>)
    ensures FoldNodes(a + b) == MergeNodes(FoldNodes(a), FoldNodes(b))
    ensures FoldEdges(a + b) == MergeEdges(FoldEdges(a), FoldEdges(b))
  {
    if b == [] {
      assert a + b == a;
    } else {
      var init, last := b[..|b| - 1], b[|b| - 1];
      FoldOfConcatenation(a, init);
      assert (a + b)[..|a + b| - 1] == a + init;
      if last.PutNode? {
        MergeNodesAssociative(FoldNodes(a), FoldNodes(init), map[last.id := last.node]);
      }
      if last.PutEdge? {
        MergeEdgesAssociative(FoldEdges(a), FoldEdges(init), map[last.key := last.edge]);
      }
    }
  }

  // ---- Rejections ----

  /** Iteration `i` of the log rejects its proposal for `id`, naming `field`. */
  ghost predicate RejectedAt(es: seq<Event>, i: int, id: string, field: string) {
    && 0 <= i < |es|
    && var r := ReportOf(Replay(EMPTY, es[..i]), es[i]);
       r.outcome.Rejected? && r.outcome.field == field && r.id == id
  }

  ghost predicate EverRejected(es: seq<Event>, id: string, field: string) {
    exists i :: RejectedAt(es, i, id, field)
  }

  lemma RejectedStep(es: seq<Event>, id: string, field: string)
    requires es != []
    ensures EverRejected(es, id, field) <==> EverRejected(es[..|es| - 1], id, field) || RejectedAt(es, |es| - 1, id, field)
  {
    var init := es[..|es| - 1];
    forall i | i != |es| - 1 ensures RejectedAt(init, i, id, field) <==> RejectedAt(es, i, id, field) {
      if 0 <= i < |es| - 1 {
        assert init[..i] == es[..i];
      }
    }
  }

  /** One iteration rejects exactly a proposal that disagrees with the stored node, type before label. */
  lemma RejectionIsDisagreement(s: State, e: Event, id: string, field: string)
    requires Growth.NoStoredTop(s)
    ensures (var r := ReportOf(s, e); r.outcome.Rejected? && r.outcome.field == field && r.id == id) <==>
            && e.PutNode? && e.id == id && id in s.nodes
            && field == (if s.nodes[id].nodeType != e.node.nodeType then "type" else "label")
            && !N.Agree(s.nodes[id], e.node)
  {
    if e.PutNode? && e.id in s.nodes {
      N.ConflictIsDisagreement(s.nodes[e.id], e.node);
    }
  }

  // ---- The refinement ----

  /** How a stored node relates to the fold of the same log. */
  ghost predicate Refines(es: seq<Event>, id: string, stored: N.NodeLattice, fold: N.NodeLattice) {
    && N.ConflictBelow(stored.nodeType, fold.nodeType)
    && N.ConflictBelow(stored.nodeLabel, fold.nodeLabel)
    && (fold.nodeType.Top? <==> EverRejected(es, id, "type"))
    && (fold.HasConflict() <==> EverRejected(es, id, "type") || EverRejected(es, id, "label"))
    && (!fold.HasConflict() ==> fold == stored)
    && N.Below(stored, fold)
  }

  lemma RefinesProposal(es: seq<Event>, id: string, stored: N.NodeLattice, fold: N.NodeLattice)
    requires es != [] && es[|es| - 1].PutNode? && es[|es| - 1].id == id
    requires Growth.NoStoredTop(Replay(EMPTY, es[..|es| - 1]))
    requires id in Replay(EMPTY, es[..|es| - 1]).nodes && stored == Replay(EMPTY, es[..|es| - 1]).nodes[id]
    requires Refines(es[..|es| - 1], id, stored, fold)
    ensures Refines(es, id, Replay(EMPTY, es).nodes[id], N.Join(fold, es[|es| - 1].node))
  {
    var s, n := Replay(EMPTY, es[..|es| - 1]), es[|es| - 1].node;
    RejectedStep(es, id, "type");
    RejectedStep(es, id, "label");
    RejectionIsDisagreement(s, es[|es| - 1], id, "type");
    RejectionIsDisagreement(s, es[|es| - 1], id, "label");
    N.ConflictIsDisagreement(stored, n);
    N.JoinIsLeastUpperBound(fold, n, fold);
    N.BelowIsOrder(stored, fold, N.Join(fold, n));
    N.JoinIsLeastUpperBound(stored, n, N.Join(fold, n));
  }

  /**
   After any run the fold and the store hold the same ids, and for every id: the fold is in
   conflict iff the store rejected some proposal for it; it blames the type iff some rejection did,
   and the label iff there were rejections and all of them did; where it is not in conflict the
   stored node is the fold exactly, and elsewhere it is below it.
   */
  lemma {:induction false} StoreRefinesFold(es: seq<Event>, id: string)
    ensures id in Replay(EMPTY, es).nodes <==> id in FoldNodes(es)
    ensures id in FoldNodes(es) ==> Refines(es, id, Replay(EMPTY, es).nodes[id], FoldNodes(es)[id])
    ensures id !in FoldNodes(es) ==> !EverRejected(es, id, "type") && !EverRejected(es, id, "label")
    ensures id in FoldNodes(es) ==>
              var field := FoldNodes(es)[id].ConflictField();
              && (field == Some("type") <==> EverRejected(es, id, "type"))
              && (field == Some("label") <==> EverRejected(es, id, "label") && !EverRejected(es, id, "type"))
              && (field == None ==> FoldNodes(es)[id] == Replay(EMPTY, es).nodes[id])
  {
    if es != [] {
      var init, last := es[..|es| - 1], es[|es| - 1];
      var s := Replay(EMPTY, init);
      StoreRefinesFold(init, id);
      Growth.ReplayStoresNoTop(EMPTY, init);
      assert Replay(EMPTY, es) == Step(s, last);
      hide Replay, ReportOf, N.Join, N.Below;
      if last.PutNode? && last.id == id && id in s.nodes {
        RefinesProposal(es, id, s.nodes[id], FoldNodes(init)[id]);
      } else {
        RejectedStep(es, id, "type");
        RejectedStep(es, id, "label");
        RejectionIsDisagreement(s, last, id, "type");
        RejectionIsDisagreement(s, last, id, "label");
      }
    }
  }

  /** Edges have nothing to disagree on: the stored edges are the fold, timestamps included. */
  lemma {:induction false} StoredEdgesAreTheFold(es: seq<Event>)
    ensures Replay(EMPTY, es).edges == FoldEdges(es)
  {
    if es != [] {
      StoredEdgesAreTheFold(es[..|es| - 1]);
    }
  }
}
