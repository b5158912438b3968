/**
 When two hypothesis batches commute. The merge is a join, but on type and label the store keeps
 what came first, so two batches commute exactly when they do not compete for an unknown id.
 */
module Commutation {
  import opened Wrappers
  import opened Events
  import opened ClosedForm
  import opened Convergence
  import opened StoreSpec
  import Conservation
  import Retries
  import Absorption
  import Proto
  import N = NodeLattices

  predicate AllGraphEntries(es: seq<Event>) {
    forall e | e in es :: Conservation.IsGraphEntry(e)
  }

  /** The batches put `id` forward with different types or labels. */
  ghost predicate Compete(x: seq<Event>, y: seq<Event>, id: string) {
    !SameWinner(x, y, id)
  }

  // ---- Winners of concatenated logs ----

  ghost predicate Proposed(es: seq<Event>, id: string) {
    exists i :: ProposedAt(es, i, id)
  }

  lemma FirstExists(es: seq<Event>, id: string) returns (f: int)
    requires Proposed(es, id)
    ensures FirstProposal(es, f, id)
  {
    f := 0;
    while !Proposes(es[f], id)
      invariant 0 <= f < |es|
      invariant forall j | 0 <= j < f :: !ProposedAt(es, j, id)
      invariant exists i :: f <= i && ProposedAt(es, i, id)
      decreases |es| - f
    {
      var i :| f <= i && ProposedAt(es, i, id);
      assert f < i;
      f := f + 1;
    }
  }

  /** The first proposal of a concatenation is that of the earlier part, if that part has one. */
  lemma FirstOfConcatenation(a: seq<Event>, b: seq<Event>, f: int, id: string)
    ensures FirstProposal(a, f, id) ==> FirstProposal(a + b, f, id)
    ensures !Proposed(a, id) && FirstProposal(b, f, id) ==> FirstProposal(a + b, |a| + f, id)
  {
    forall i ensures i < |a| ==> (ProposedAt(a + b, i, id) <==> ProposedAt(a, i, id)) {
    }
    forall i ensures i >= |a| ==> (ProposedAt(a + b, i, id) <==> ProposedAt(b, i - |a|, id)) {
    }
  }

  lemma ProposedInConcatenation(a: seq<Event>, b: seq<Event>, id: string)
    ensures Proposed(a + b, id) <==> Proposed(a, id) || Proposed(b, id)
  {
    if i :| ProposedAt(a + b, i, id) {
      assert i < |a| ==> ProposedAt(a, i, id);
      assert i >= |a| ==> ProposedAt(b, i - |a|, id);
    }
    if i :| ProposedAt(a, i, id) { assert ProposedAt(a + b, i, id); }
    if i :| ProposedAt(b, i, id) { assert ProposedAt(a + b, |a| + i, id); }
  }

  /** The proposal whose type and label a log gives to `id`. */
  ghost function Winner(es: seq<Event>, id: string): Option<N.NodeLattice> {
    if f :| FirstProposal(es, f, id) then Some(es[f].node) else None
  }

  lemma WinnerIsFirst(es: seq<Event>, f: int, id: string)
    requires FirstProposal(es, f, id)
    ensures Winner(es, id) == Some(es[f].node)
  {
  }

  lemma WinnerIffProposed(es: seq<Event>, id: string)
    ensures Winner(es, id) == None <==> !Proposed(es, id)
  {
    if Proposed(es, id) {
      var f := FirstExists(es, id);
    }
  }

  lemma SameWinnerIs(a: seq<Event>, b: seq<Event>, id: string)
    ensures SameWinner(a, b, id) <==>
            (Winner(a, id).Some? && Winner(b, id).Some? ==> N.Agree(Winner(a, id).value, Winner(b, id).value))
  {
  }

  lemma WinnerOfConcatenation(a: seq<Event>, b: seq<Event>, id: string)
    ensures Winner(a + b, id) == if Winner(a, id).Some? then Winner(a, id) else Winner(b, id)
  {
    WinnerIffProposed(a, id);
    WinnerIffProposed(b, id);
    WinnerIffProposed(a + b, id);
    ProposedInConcatenation(a, b, id);
    hide Winner;
    if Proposed(a, id) {
      var f := FirstExists(a, id);
      FirstOfConcatenation(a, b, f, id);
      WinnerIsFirst(a, f, id);
      WinnerIsFirst(a + b, f, id);
    } else if Proposed(b, id) {
      var f := FirstExists(b, id);
      FirstOfConcatenation(a, b, f, id);
      WinnerIsFirst(b, f, id);
      WinnerIsFirst(a + b, |a| + f, id);
    }
  }

  lemma SwappedWinner(base: seq<Event>, x: seq<Event>, y: seq<Event>, id: string)
    ensures SameWinner(base + x + y, base + y + x, id) <==> Proposed(base, id) || SameWinner(x, y, id)
  {
    hide Winner, SameWinner, Proposed;
    SameWinnerIs(base + x + y, base + y + x, id);
    SameWinnerIs(x, y, id);
    WinnerIffProposed(base, id);
    WinnerOfConcatenation(base + x, y, id);
    WinnerOfConcatenation(base, x, id);
    WinnerOfConcatenation(base + y, x, id);
    WinnerOfConcatenation(base, y, id);
  }

  // ---- The theorem ----

  lemma SwapHasSameEntries(base: seq<Event>, x: seq<Event>, y: seq<Event>)
    ensures SameEntries(base + x + y, base + y + x)
  {
    assert multiset(base + x + y) == multiset(base + y + x);
    ReorderingHasSameEntries(base + x + y, base + y + x);
    ReorderingHasSameEntries(base + y + x, base + x + y);
  }

  lemma GraphEntriesKeepOpenedFirst(base: seq<Event>, x: seq<Event>)
    requires OpenedFirst(base) && AllGraphEntries(x)
    ensures OpenedFirst(base + x)
  {
    var es := base + x;
    assert forall i | |base| <= i < |es| :: es[i] in x;
    forall i, incident | 0 <= i < |es| && BuriesFor(es[i], incident)
      ensures exists o :: o < i && OpenedAt(es, o, incident)
    {
      var o :| o < i && OpenedAt(base, o, incident);
      assert OpenedAt(es, o, incident);
    }
  }

  /**
   Two batches of graph entries commute, up to timestamps, exactly when for every id the store does
   not know yet the first proposals of the two batches agree.
   */
  lemma BatchesCommuteIff(base: seq<Event>, x: seq<Event>, y: seq<Event>)
    requires OpenedFirst(base) && AllGraphEntries(x) && AllGraphEntries(y)
    ensures var s := Replay(EMPTY, base);
            SameState(Replay(Replay(s, x), y), Replay(Replay(s, y), x)) <==>
            forall id :: id in s.nodes || !Compete(x, y, id)
  {
    var s := Replay(EMPTY, base);
    hide Replay, Reports, OpenedFirst, SameState, SameEntries, SameWinner, AllGraphEntries, Proposed;
    ReplayConcat(EMPTY, base, x);
    ReplayConcat(EMPTY, base + x, y);
    ReplayConcat(EMPTY, base, y);
    ReplayConcat(EMPTY, base + y, x);
    SwapHasSameEntries(base, x, y);
    GraphEntriesKeepOpenedFirst(base, x);
    GraphEntriesKeepOpenedFirst(base + x, y);
    GraphEntriesKeepOpenedFirst(base, y);
    GraphEntriesKeepOpenedFirst(base + y, x);
    ConvergesIffSameWinners(base + x + y, base + y + x);
    forall id ensures SameWinner(base + x + y, base + y + x, id) <==> id in s.nodes || SameWinner(x, y, id) {
      SwappedWinner(base, x, y, id);
      StoredIffProposed(base, id);
    }
  }

  lemma StoredIffProposed(es: seq<Event>, id: string)
    ensures id in Replay(EMPTY, es).nodes <==> Proposed(es, id)
  {
    NodeClosedForm(es, id);
  }

  // ---- For requests ----

  lemma LogStep(s: State, op: Op)
    ensures forall e | e in Entries(s, op) :: Absorption.Addressed(s, e)
  {
    hide *;
    EntriesAre(s, op);
    if !Missing(s, op) {
      Retries.EntriesAreAddressed(s, op);
    }
  }

  lemma AddressedKeepsOpenedFirst(log: seq<Event>, es: seq<Event>)
    requires OpenedFirst(log) && forall e | e in es :: Absorption.Addressed(Replay(EMPTY, log), e)
    ensures OpenedFirst(log + es)
  {
    var all := log + es;
    forall i, incident | 0 <= i < |all| && BuriesFor(all[i], incident)
      ensures exists o :: o < i && OpenedAt(all, o, incident)
    {
      if i < |log| {
        assert all[i] == log[i];
        var o :| o < i && OpenedAt(log, o, incident);
        assert OpenedAt(all, o, incident);
      } else {
        assert all[i] in es;
        IncidentClosedForm(log, incident);
        var o :| OpenedAt(log, o, incident);
        assert OpenedAt(all, o, incident);
      }
    }
  }

  /** A request cannot place a tombstone in an unknown incident, so every log opens before it buries. */
  lemma {:induction false} LogsOpenFirst(ops: seq<Op>)
    ensures OpenedFirst(Log(EMPTY, ops))
  {
    hide *;
    if ops == [] {
      RunNothing(EMPTY);
      EmptyLog();
    } else {
      var init, last := ops[..|ops| - 1], ops[|ops| - 1];
      assert ops == init + [last];
      LogsOpenFirst(init);
      RunSnoc(EMPTY, init, last);
      RunIsReplay(EMPTY, init);
      LogStep(Run(EMPTY, init), last);
      AddressedKeepsOpenedFirst(Log(EMPTY, init), Entries(Run(EMPTY, init), last));
    }
  }

  lemma EmptyLog()
    ensures OpenedFirst([])
  {
  }

  /**
   The commutativity the design document claims, exactly: in any reachable state, two hypothesis
   requests can be swapped, up to timestamps, if and only if for every id not yet in the graph the
   first proposals of the two requests name the same type and label.
   */
  lemma HypothesesCommuteIff(ops: seq<Op>, d1: Proto.HypothesisDelta, d2: Proto.HypothesisDelta)
    ensures var s, x, y := Run(EMPTY, ops), MergeHypothesis(d1), MergeHypothesis(d2);
            SameState(Perform(Perform(s, x), y), Perform(Perform(s, y), x)) <==>
            forall id :: id in s.nodes || !Compete(Prefix(Plan(x)), Prefix(Plan(y)), id)
  {
    var s, x, y := Run(EMPTY, ops), MergeHypothesis(d1), MergeHypothesis(d2);
    hide *;
    var es, fs := Prefix(Plan(x)), Prefix(Plan(y));
    RunIsReplay(EMPTY, ops);
    LogsOpenFirst(ops);
    HypothesisIsWrite(s, d1);
    HypothesisIsWrite(s, d2);
    HypothesisIsWrite(Perform(s, y), d1);
    HypothesisIsWrite(Perform(s, x), d2);
    BatchesCommuteIff(Log(EMPTY, ops), es, fs);
  }

  lemma HypothesisIsWrite(s: State, d: Proto.HypothesisDelta)
    ensures var op := MergeHypothesis(d);
            Perform(s, op) == Replay(s, Prefix(Plan(op))) && AllGraphEntries(Prefix(Plan(op)))
  {
    var op := MergeHypothesis(d);
    assert !IsRead(op) && !Missing(s, op);
    WriteOutcome(s, op, Prefix(Plan(op)));
    hide Plan, Prefix, Entries, Perform, Respond, KindOf;
    var es := Prefix(Plan(op));
    Conservation.EntriesHaveKind(op);
    forall e | e in es ensures Conservation.IsGraphEntry(e) {
      Conservation.KindIsLedger(s, op, e);
    }
  }
}
