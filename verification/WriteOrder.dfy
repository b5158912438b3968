/**
 When any two write requests commute. Hypotheses compete for unknown ids; tombstones always commute;
 and the one other order that shows is that of creating an incident and submitting tombstones to it.
 */
module WriteOrder {
  import opened Wrappers
  import opened Events
  import opened GraphLattices
  import opened Convergence
  import opened StoreSpec
  import opened Commutation
  import Absorption
  import Growth
  import MemoryStore
  import Conservation
  import N = NodeLattices

  // ---- Entries that commute ----

  predicate IsBurial(e: Event) {
    e.BuryNode? || e.BuryEdge?
  }

  /** The entries commute in `s` and in every later state. */
  predicate Independent(s: State, a: Event, b: Event) {
    || Conservation.IsGraphEntry(a) != Conservation.IsGraphEntry(b)
    || (IsBurial(a) && IsBurial(b))
    || (a.Open? && (b.Open? || IsBurial(b)) && (a.incident != b.incident || a.incident in s.incidents))
    || (b.Open? && IsBurial(a) && (a.incident != b.incident || a.incident in s.incidents))
  }

  function BuryIn(inc: IncidentState, e: Event): IncidentState
    requires IsBurial(e)
  {
    match e
    case BuryNode(_, id) => inc.(nodeTombstones := inc.nodeTombstones + {id})
    case BuryEdge(_, k) => inc.(edgeTombstones := inc.edgeTombstones + {k})
  }

  lemma BurialIs(s: State, e: Event)
    requires IsBurial(e)
    ensures Step(s, e) ==
            if e.incident in s.incidents
            then s.(incidents := s.incidents[e.incident := BuryIn(s.incidents[e.incident], e)])
            else s
  {
  }

  lemma BuriedTogether(inc: IncidentState, a: Event, b: Event)
    requires IsBurial(a) && IsBurial(b)
    ensures BuryIn(BuryIn(inc, a), b) == BuryIn(BuryIn(inc, b), a)
  {
    assert forall x: set<string>, y, z :: (x + y) + z == (x + z) + y;
  }

  lemma BurialsCommute(s: State, a: Event, b: Event)
    requires IsBurial(a) && IsBurial(b)
    ensures Step(Step(s, a), b) == Step(Step(s, b), a)
  {
    hide Step, BuryIn;
    BurialIs(s, a);
    BurialIs(s, b);
    BurialIs(Step(s, a), b);
    BurialIs(Step(s, b), a);
    if a.incident in s.incidents {
      BuriedTogether(s.incidents[a.incident], a, b);
    }
  }

  lemma OpeningIs(s: State, e: Event)
    requires e.Open?
    ensures Step(s, e) ==
            if e.incident in s.incidents
            then s
            else s.(incidents := s.incidents[e.incident := IncidentState(e.createdAt, {}, {})])
  {
  }

  lemma OpeningCommutes(s: State, a: Event, b: Event)
    requires a.Open? && (b.Open? || IsBurial(b)) && (a.incident != b.incident || a.incident in s.incidents)
    ensures Step(Step(s, a), b) == Step(Step(s, b), a)
  {
    hide Step, BuryIn;
    OpeningIs(s, a);
    OpeningIs(Step(s, b), a);
    if b.Open? {
      OpeningIs(s, b);
      OpeningIs(Step(s, a), b);
    } else {
      BurialIs(s, b);
      BurialIs(Step(s, a), b);
    }
  }

  /** A graph entry sees and touches the graph only, any other entry the incidents only. */
  lemma EntriesKeepApart(s: State, e: Event)
    ensures Conservation.IsGraphEntry(e) ==>
              var g := Step(State(s.nodes, s.edges, map[]), e);
              Step(s, e) == State(g.nodes, g.edges, s.incidents)
    ensures !Conservation.IsGraphEntry(e) ==>
              Step(s, e) == State(s.nodes, s.edges, Step(State(map[], map[], s.incidents), e).incidents)
  {
    hide N.Join;
  }

  lemma GraphEntryCommutes(s: State, a: Event, b: Event)
    requires Conservation.IsGraphEntry(a) && !Conservation.IsGraphEntry(b)
    ensures Step(Step(s, a), b) == Step(Step(s, b), a)
  {
    hide *;
    EntriesKeepApart(s, a);
    EntriesKeepApart(s, b);
    EntriesKeepApart(Step(s, a), b);
    EntriesKeepApart(Step(s, b), a);
  }

  lemma IndependentEntriesCommute(s: State, a: Event, b: Event)
    requires Independent(s, a, b)
    ensures Step(Step(s, a), b) == Step(Step(s, b), a)
  {
    hide Step;
    if Conservation.IsGraphEntry(a) != Conservation.IsGraphEntry(b) {
      if Conservation.IsGraphEntry(a) {
        GraphEntryCommutes(s, a, b);
      } else {
        GraphEntryCommutes(s, b, a);
      }
    } else if IsBurial(a) && IsBurial(b) {
      BurialsCommute(s, a, b);
    } else if a.Open? {
      OpeningCommutes(s, a, b);
    } else {
      OpeningCommutes(s, b, a);
    }
  }

  lemma IndependenceStays(s: State, es: seq<Event>, a: Event, b: Event)
    requires Independent(s, a, b)
    ensures Independent(Replay(s, es), a, b)
  {
    Growth.ReplayGrows(s, es);
  }

  lemma {:induction false} EntryCrosses(s: State, a: Event, fs: seq<Event>)
    requires forall f | f in fs :: Independent(s, a, f)
    ensures Step(Replay(s, fs), a) == Replay(Step(s, a), fs)
  {
    hide *;
    ReplayNothing(s);
    ReplayNothing(Step(s, a));
    if fs != [] {
      var init, last := fs[..|fs| - 1], fs[|fs| - 1];
      assert fs == init + [last] && last in fs;
      EntryCrosses(s, a, init);
      ReplaySnoc(s, init, last);
      ReplaySnoc(Step(s, a), init, last);
      IndependenceStays(s, init, a, last);
      IndependentEntriesCommute(Replay(s, init), a, last);
    }
  }

  lemma {:induction false} BatchesCross(s: State, es: seq<Event>, fs: seq<Event>)
    requires forall e, f | e in es && f in fs :: Independent(s, e, f)
    ensures Replay(Replay(s, es), fs) == Replay(Replay(s, fs), es)
  {
    hide *;
    ReplayNothing(s);
    ReplayNothing(Replay(s, fs));
    if es != [] {
      var init, last := es[..|es| - 1], es[|es| - 1];
      assert es == init + [last] && last in es;
      BatchesCross(s, init, fs);
      ReplaySnoc(s, init, last);
      ReplaySnoc(Replay(s, fs), init, last);
      forall f | f in fs ensures Independent(Replay(s, init), last, f) {
        IndependenceStays(s, init, last, f);
      }
      EntryCrosses(Replay(s, init), last, fs);
    }
  }

  // ---- Requests that commute ----

  /** Whether `x` creates the incident `y` submits tombstones to. */
  predicate Opens(x: Op, y: Op) {
    x.CreateIncident? && !IsRead(y) && Needs(y) == Some(x.incident)
  }

  predicate BothHypotheses(x: Op, y: Op) {
    x.MergeHypothesis? && y.MergeHypothesis?
  }

  predicate CreateTheSame(x: Op, y: Op) {
    x.CreateIncident? && y.CreateIncident? && x.incident == y.incident
  }

  /** The requests touch different parts of the store, or the same part in a way that commutes. */
  predicate Unrelated(s: State, x: Op, y: Op) {
    && !BothHypotheses(x, y)
    && (Opens(x, y) || Opens(y, x) || CreateTheSame(x, y) ==> Incident(x) in s.incidents)
  }

  function Incident(op: Op): string {
    match op
    case CreateIncident(i, _) => i
    case MergeNodeTombstones(r) => r.incident
    case MergeEdgeTombstones(r) => r.incident
    case _ => ""
  }

  lemma KindsAreIndependent(s: State, x: Op, y: Op, e: Event, f: Event)
    requires !IsRead(x) && !IsRead(y) && Unrelated(s, x, y) && KindOf(x, e) && KindOf(y, f)
    ensures Independent(s, e, f)
  {
  }

  lemma StillMissing(s: State, x: Op, y: Op)
    requires !IsRead(x) && !IsRead(y) && Unrelated(s, x, y)
    ensures Missing(Perform(s, x), y) <==> Missing(s, y)
  {
    EntriesAre(s, x);
    Conservation.EntriesHaveKind(x);
    hide Perform, Entries, Plan, Prefix, KindOf, Unrelated, IsRead;
    PerformIs(s, x);
    var es := Entries(s, x);
    if Needs(y).Some? {
      OpenedByKind(s, x, y, es);
    }
  }

  lemma PerformIs(s: State, op: Op)
    ensures Perform(s, op) == Replay(s, Entries(s, op))
  {
  }

  lemma {:induction false} OpenedByKind(s: State, x: Op, y: Op, es: seq<Event>)
    requires !IsRead(x) && !IsRead(y) && Unrelated(s, x, y) && Needs(y).Some?
    requires forall e | e in es :: KindOf(x, e)
    ensures Needs(y).value in Replay(s, es).incidents <==> Needs(y).value in s.incidents
  {
    if es != [] {
      var init, last := es[..|es| - 1], es[|es| - 1];
      assert last in es && KindOf(x, last);
      OpenedByKind(s, x, y, init);
      assert Replay(s, es) == Step(Replay(s, init), last);
      hide Replay, Plan;
    }
  }

  /** Unrelated requests commute exactly, in every state. */
  lemma UnrelatedWritesCommute(s: State, x: Op, y: Op)
    requires !IsRead(x) && !IsRead(y) && Unrelated(s, x, y)
    ensures Perform(Perform(s, x), y) == Perform(Perform(s, y), x)
  {
    hide *;
    var es, fs := Entries(s, x), Entries(s, y);
    UnrelatedIsSymmetric(s, x, y);
    StillMissing(s, x, y);
    StillMissing(s, y, x);
    EntriesAre(s, x);
    EntriesAre(s, y);
    EntriesAre(Perform(s, y), x);
    EntriesAre(Perform(s, x), y);
    PerformIs(s, x);
    PerformIs(s, y);
    PerformIs(Perform(s, y), x);
    PerformIs(Perform(s, x), y);
    Conservation.EntriesHaveKind(x);
    Conservation.EntriesHaveKind(y);
    forall e, f | e in es && f in fs ensures Independent(s, e, f) {
      KindsAreIndependent(s, x, y, e, f);
    }
    BatchesCross(s, es, fs);
  }

  lemma UnrelatedIsSymmetric(s: State, x: Op, y: Op)
    requires !IsRead(x) && !IsRead(y)
    ensures Unrelated(s, x, y) <==> Unrelated(s, y, x)
  {
  }

  /** In particular tombstone requests commute exactly, whatever their incidents, in every state. */
  lemma TombstonesCommute(s: State, x: Op, y: Op)
    requires x.MergeNodeTombstones? || x.MergeEdgeTombstones?
    requires y.MergeNodeTombstones? || y.MergeEdgeTombstones?
    ensures Perform(Perform(s, x), y) == Perform(Perform(s, y), x)
  {
    UnrelatedWritesCommute(s, x, y);
  }

  // ---- Creating an incident ----

  lemma CreatingIs(s: State, x: Op)
    requires x.CreateIncident?
    ensures Perform(s, x) == Step(s, Open(x.incident, x.now))
  {
    MemoryStore.OpeningAnswer(s, x.incident, x.now);
  }

  lemma TombstonesShow(t: State, es: seq<Event>, incident: string)
    requires incident in t.incidents && t.incidents[incident].nodeTombstones == {} && t.incidents[incident].edgeTombstones == {}
    requires forall e | e in es :: IsBurial(e) && e.incident == incident
    ensures SameState(Replay(t, es), t) <==> es == []
  {
    hide Replay, Step;
    ReplayNothing(t);
    if es == [] {
      SameStateIsReflexive(t);
    } else {
      assert es[0] in es;
      Absorption.BatchSettles(t, es);
      assert Absorption.Settled(Replay(t, es), es[0]);
      hide SameNodes, SameEdges, N.Same;
      assert !SameIncident(Replay(t, es).incidents[incident], t.incidents[incident]);
    }
  }

  lemma SameStateIsReflexive(s: State)
    ensures SameState(s, s)
  {
  }

  lemma OpeningOrder(s: State, x: Op, y: Op)
    requires Opens(x, y) && x.incident !in s.incidents
    ensures SameState(Perform(Perform(s, x), y), Perform(Perform(s, y), x)) <==> Prefix(Plan(y)) == []
  {
    var i, t, es := x.incident, Step(s, Open(x.incident, x.now)), Prefix(Plan(y));
    assert i in t.incidents && t.incidents[i].nodeTombstones == {} && t.incidents[i].edgeTombstones == {};
    assert Missing(s, y) && !Missing(t, y);
    OpenerNeeded(x, y);
    hide *;
    CreatingIs(s, x);
    MissingOutcome(s, y);
    WriteOutcome(t, y, es);
    Conservation.EntriesHaveKind(y);
    forall e | e in es ensures IsBurial(e) && e.incident == i {
      TombstoneKind(x, y, e);
    }
    TombstonesShow(t, es, i);
  }

  lemma OpenerNeeded(x: Op, y: Op)
    requires Opens(x, y)
    ensures x.CreateIncident? && !IsRead(y)
  {
  }

  lemma TombstoneKind(x: Op, y: Op, e: Event)
    requires Opens(x, y) && KindOf(y, e)
    ensures IsBurial(e) && e.incident == x.incident
  {
  }

  lemma CreatedTwice(s: State, x: Op, y: Op)
    requires CreateTheSame(x, y)
    ensures SameState(Perform(Perform(s, x), y), Perform(Perform(s, y), x))
  {
    hide Perform;
    CreatingIs(s, x);
    CreatingIs(s, y);
    CreatingIs(Perform(s, x), y);
    CreatingIs(Perform(s, y), x);
  }

  /** When the order of two writes does not show. */
  ghost predicate Swappable(s: State, x: Op, y: Op) {
    if BothHypotheses(x, y) then forall id :: id in s.nodes || !Compete(Prefix(Plan(x)), Prefix(Plan(y)), id)
    else if Opens(x, y) then x.incident in s.incidents || Prefix(Plan(y)) == []
    else if Opens(y, x) then y.incident in s.incidents || Prefix(Plan(x)) == []
    else true
  }

  /**
   Any two writes, in any reachable state, can be swapped, up to timestamps, if and only if they do
   not compete for an unknown id and neither creates the unknown incident of the other's tombstones.
   */
  lemma WritesCommuteIff(ops: seq<Op>, x: Op, y: Op)
    requires !IsRead(x) && !IsRead(y)
    ensures var s := Run(EMPTY, ops);
            SameState(Perform(Perform(s, x), y), Perform(Perform(s, y), x)) <==> Swappable(s, x, y)
  {
    var s := Run(EMPTY, ops);
    hide Run, Perform, Prefix, Plan, SameState, Compete;
    if BothHypotheses(x, y) {
      HypothesesCommuteIff(ops, x.delta, y.delta);
    } else if Unrelated(s, x, y) {
      UnrelatedWritesCommute(s, x, y);
      SameStateIsReflexive(Perform(Perform(s, x), y));
    } else if CreateTheSame(x, y) {
      CreatedTwice(s, x, y);
    } else if Opens(x, y) {
      OpeningOrder(s, x, y);
    } else {
      OpeningOrder(s, y, x);
      SameStateIsSymmetric(Perform(Perform(s, x), y), Perform(Perform(s, y), x));
    }
  }

  lemma SameStateIsSymmetric(s: State, t: State)
    ensures SameState(s, t) <==> SameState(t, s)
  {
  }
}
