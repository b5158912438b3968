/** Nothing in the store is ever lost or rewritten. */
module Growth {
  import opened Provenances
  import opened Events
  import N = NodeLattices

  /** Records are only added, and a record on file keeps its timestamp. */
  ghost predicate ProvenanceGrows(a: ProvSet, b: ProvSet) {
    forall k | k in a :: k in b && b[k] == a[k]
  }

  /** Type and label are fixed, "hypothetical" is only ever switched off, provenance grows. */
  ghost predicate NodeGrows(a: N.NodeLattice, b: N.NodeLattice) {
    && N.Agree(a, b)
    && (b.hypothetical ==> a.hypothetical)
    && ProvenanceGrows(a.provenance, b.provenance)
  }

  ghost predicate IncidentGrows(a: IncidentState, b: IncidentState) {
    && a.createdAt == b.createdAt
    && a.nodeTombstones <= b.nodeTombstones
    && a.edgeTombstones <= b.edgeTombstones
  }

  ghost predicate Grows(s: State, t: State) {
    && (forall id | id in s.nodes :: id in t.nodes && NodeGrows(s.nodes[id], t.nodes[id]))
    && (forall k | k in s.edges :: k in t.edges && ProvenanceGrows(s.edges[k].provenance, t.edges[k].provenance))
    && (forall i | i in s.incidents :: i in t.incidents && IncidentGrows(s.incidents[i], t.incidents[i]))
  }

  lemma GrowsTransitive(s: State, t: State, u: State)
    requires Grows(s, t) && Grows(t, u)
    ensures Grows(s, u)
  {
    forall id | id in s.nodes ensures id in u.nodes && NodeGrows(s.nodes[id], u.nodes[id]) {
      assert NodeGrows(s.nodes[id], t.nodes[id]) && NodeGrows(t.nodes[id], u.nodes[id]);
    }
    forall k | k in s.edges
      ensures k in u.edges && ProvenanceGrows(s.edges[k].provenance, u.edges[k].provenance)
    {
      assert ProvenanceGrows(s.edges[k].provenance, t.edges[k].provenance);
      assert ProvenanceGrows(t.edges[k].provenance, u.edges[k].provenance);
    }
    forall i | i in s.incidents ensures i in u.incidents && IncidentGrows(s.incidents[i], u.incidents[i]) {
      assert IncidentGrows(s.incidents[i], t.incidents[i]) && IncidentGrows(t.incidents[i], u.incidents[i]);
    }
  }

  lemma StepGrows(s: State, e: Event)
    ensures Grows(s, Step(s, e))
  {
  }

  /** Along every run, from any state: whatever was stored stays stored, unchanged where it must be. */
  lemma {:induction false} ReplayGrows(s: State, es: seq<Event>)
    ensures Grows(s, Replay(s, es))
  {
    if es != [] {
      var t := Replay(s, es[..|es| - 1]);
      ReplayGrows(s, es[..|es| - 1]);
      StepGrows(t, es[|es| - 1]);
      GrowsTransitive(s, t, Step(t, es[|es| - 1]));
    }
  }

  ghost predicate NoStoredTop(s: State) {
    forall id | id in s.nodes :: !s.nodes[id].HasConflict()
  }

  /** A conflict is detected on a clone and never written back. */
  lemma {:induction false} ReplayStoresNoTop(s: State, es: seq<Event>)
    requires NoStoredTop(s)
    ensures NoStoredTop(Replay(s, es))
  {
    if es != [] {
      ReplayStoresNoTop(s, es[..|es| - 1]);
    }
  }
}
