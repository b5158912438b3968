/**
 Nothing is lost or doubled in the answers: a call accounts for every id it was given, and over a
 run the answers announce everything that is stored, each thing once.
 */
module Conservation {
  import opened Wrappers
  import opened Events
  import opened Growth
  import opened ProtoConvert
  import opened StoreSpec
  import opened Retries
  import A = Absorption
  import EdgeIds
  import Proto
  import E = EdgeLattices

  // ---- One call ----

  function Names(rs: seq<Report>): (ids: seq<string>)
    ensures |ids| == |rs|
    ensures forall i | 0 <= i < |rs| :: ids[i] == rs[i].id
  {
    if rs == [] then [] else Names(rs[..|rs| - 1]) + [rs[|rs| - 1].id]
  }

  function ConflictIds(cs: seq<Proto.MergeConflict>): seq<string> {
    if cs == [] then [] else ConflictIds(cs[..|cs| - 1]) + [cs[|cs| - 1].id]
  }

  lemma OneMoreName(rs: seq<Report>, r: Report)
    ensures Names(rs + [r]) == Names(rs) + [r.id]
  {
  }

  lemma OneMoreConflict(cs: seq<Proto.MergeConflict>, c: Proto.MergeConflict)
    ensures ConflictIds(cs + [c]) == ConflictIds(cs) + [c.id]
  {
    assert (cs + [c])[..|cs|] == cs;
  }

  predicate IsGraphOutcome(o: Outcome) {
    o.Created? || o.Merged? || o.Rejected?
  }

  predicate IsTombstoneOutcome(o: Outcome) {
    o.Applied? || o.AlreadyTombstoned? || o.Unmatched?
  }

  ghost function HypothesisIds(h: Proto.HypothesisMergeResult): multiset<string> {
    multiset(h.createdIds) + multiset(h.mergedIds) + multiset(ConflictIds(h.conflicts))
  }

  ghost function TombstoneIds(t: Proto.TombstoneMergeResult): multiset<string> {
    multiset(t.appliedIds) + multiset(t.alreadyTombstonedIds) + multiset(t.unmatchedIds)
  }

  lemma OneMoreHypothesisId(rs: seq<Report>, r: Report)
    requires IsGraphOutcome(r.outcome)
    ensures HypothesisIds(HypothesisResult(rs + [r])) == HypothesisIds(HypothesisResult(rs)) + multiset{r.id}
  {
    var before, after := HypothesisResult(rs), HypothesisResult(rs + [r]);
    OneMoreReport(rs, r);
    hide IdsWith, ConflictsIn, ConflictIds;
    match r.outcome
    case Created => assert after == before.(createdIds := before.createdIds + [r.id]);
    case Merged => assert after == before.(mergedIds := before.mergedIds + [r.id]);
    case Rejected(field, existingValue) =>
      var c := Proto.MergeConflict(r.id, field, existingValue, "");
      OneMoreConflict(before.conflicts, c);
      assert after == before.(conflicts := before.conflicts + [c]);
  }

  lemma OneMoreTombstoneId(rs: seq<Report>, r: Report)
    requires IsTombstoneOutcome(r.outcome)
    ensures TombstoneIds(TombstoneResult(rs + [r])) == TombstoneIds(TombstoneResult(rs)) + multiset{r.id}
  {
    OneMoreReport(rs, r);
    hide IdsWith, ConflictsIn;
  }

  lemma NoIds()
    ensures HypothesisIds(HypothesisResult([])) == TombstoneIds(TombstoneResult([])) == multiset(Names([])) == multiset{}
  {
  }

  predicate AllGraph(rs: seq<Report>) {
    forall r | r in rs :: IsGraphOutcome(r.outcome)
  }

  predicate AllTombstone(rs: seq<Report>) {
    forall r | r in rs :: IsTombstoneOutcome(r.outcome)
  }

  lemma {:induction false} HypothesisSplit(rs: seq<Report>)
    requires AllGraph(rs)
    ensures HypothesisIds(HypothesisResult(rs)) == multiset(Names(rs))
  {
    hide HypothesisIds, HypothesisResult, Names;
    NoIds();
    if rs != [] {
      var init, last := rs[..|rs| - 1], rs[|rs| - 1];
      assert rs == init + [last] && last in rs;
      HypothesisSplit(init);
      OneMoreHypothesisId(init, last);
      OneMoreName(init, last);
    }
  }

  lemma {:induction false} TombstoneSplit(rs: seq<Report>)
    requires AllTombstone(rs)
    ensures TombstoneIds(TombstoneResult(rs)) == multiset(Names(rs))
  {
    hide TombstoneIds, TombstoneResult, Names;
    NoIds();
    if rs != [] {
      var init, last := rs[..|rs| - 1], rs[|rs| - 1];
      assert rs == init + [last] && last in rs;
      TombstoneSplit(init);
      OneMoreTombstoneId(init, last);
      OneMoreName(init, last);
    }
  }

  predicate IsGraphEntry(e: Event) {
    e.PutNode? || e.PutEdge?
  }

  lemma ReportsAreAbout(s: State, es: seq<Event>, i: nat)
    requires i < |es| && A.Addressed(s, es[i])
    ensures Reports(s, es)[i].id == Subject(es[i])
    ensures IsGraphEntry(es[i]) ==> IsGraphOutcome(Reports(s, es)[i].outcome)
    ensures es[i].BuryNode? || es[i].BuryEdge? ==> IsTombstoneOutcome(Reports(s, es)[i].outcome)
    ensures es[i].Open? ==> Reports(s, es)[i].outcome.Opened? || Reports(s, es)[i].outcome.AlreadyOpen?
  {
    ReportsAt(s, es, i);
    ReplayGrows(s, es[..i]);
    A.AddressedStays(s, Replay(s, es[..i]), es[i]);
  }

  function NodeIds(ns: seq<Proto.Node>): (ids: seq<string>)
    ensures |ids| == |ns|
    ensures forall i | 0 <= i < |ns| :: ids[i] == ns[i].id
  {
    if ns == [] then [] else NodeIds(ns[..|ns| - 1]) + [ns[|ns| - 1].id]
  }

  function RenderedId(e: Proto.Edge): string {
    RenderEdgeId(e.source, e.target, e.typeNumber)
  }

  function RenderedIds(es: seq<Proto.Edge>): (ids: seq<string>)
    ensures |ids| == |es|
    ensures forall i | 0 <= i < |es| :: ids[i] == RenderedId(es[i])
  {
    if es == [] then [] else RenderedIds(es[..|es| - 1]) + [RenderedId(es[|es| - 1])]
  }

  /** The ids a delta is reported under, nodes before edges. */
  function DeltaIds(d: Proto.HypothesisDelta): seq<string> {
    NodeIds(d.nodes) + RenderedIds(d.edges)
  }

  predicate IsNamed(c: Conversion, id: string) {
    c.Ok? ==> IsGraphEntry(c.value) && Subject(c.value) == id
  }

  lemma ConversionKeepsName(n: Proto.Node, e: Proto.Edge)
    ensures IsNamed(NodeConversion(n), n.id)
    ensures IsNamed(EdgeConversion(e), RenderedId(e))
  {
  }

  lemma PlanIsNamed(d: Proto.HypothesisDelta)
    ensures |Plan(MergeHypothesis(d))| == |DeltaIds(d)|
    ensures forall i | 0 <= i < |DeltaIds(d)| :: IsNamed(Plan(MergeHypothesis(d))[i], DeltaIds(d)[i])
  {
    var plan, ids := Plan(MergeHypothesis(d)), DeltaIds(d);
    assert plan == NodePlan(d.nodes) + EdgePlan(d.edges);
    assert ids == NodeIds(d.nodes) + RenderedIds(d.edges);
    hide *;
    forall i | 0 <= i < |ids| ensures IsNamed(plan[i], ids[i]) {
      PlanItemIsNamed(d, plan, ids, i);
    }
  }

  lemma PlanItemIsNamed(d: Proto.HypothesisDelta, plan: seq<Conversion>, ids: seq<string>, i: nat)
    requires plan == NodePlan(d.nodes) + EdgePlan(d.edges)
    requires ids == NodeIds(d.nodes) + RenderedIds(d.edges)
    requires i < |ids|
    ensures IsNamed(plan[i], ids[i])
  {
    hide *;
    var n := |d.nodes|;
    if i < n {
      ConversionKeepsName(d.nodes[i], Proto.Edge("", "", 0, []));
      assert plan[i] == NodePlan(d.nodes)[i] && ids[i] == NodeIds(d.nodes)[i];
    } else {
      ConversionKeepsName(Proto.Node("", 0, "", false, []), d.edges[i - n]);
      assert plan[i] == EdgePlan(d.edges)[i - n] && ids[i] == RenderedIds(d.edges)[i - n];
    }
  }

  lemma NamedEntryReport(s: State, es: seq<Event>, i: nat, id: string)
    requires i < |es| && IsNamed(Ok(es[i]), id)
    ensures IsGraphOutcome(Reports(s, es)[i].outcome) && Reports(s, es)[i].id == id
  {
    ReportsAreAbout(s, es, i);
  }

  lemma DeltaReports(s: State, d: Proto.HypothesisDelta)
    requires Failure(Plan(MergeHypothesis(d))) == None
    ensures var rs := Reports(s, Prefix(Plan(MergeHypothesis(d))));
            AllGraph(rs) && Names(rs) == DeltaIds(d)
  {
    var plan := Plan(MergeHypothesis(d));
    var es, ids := Prefix(plan), DeltaIds(d);
    var rs := Reports(s, es);
    hide Plan, Prefix, Failure, Reports, DeltaIds, IsNamed, IsGraphOutcome, Names;
    PlanIsNamed(d);
    forall i | 0 <= i < |rs| ensures IsGraphOutcome(rs[i].outcome) && rs[i].id == ids[i] {
      assert plan[i] == Ok(es[i]);
      NamedEntryReport(s, es, i, ids[i]);
    }
    assert Names(rs) == ids;
  }

  /**
   A successful hypothesis call accounts for every submitted entry, repetitions counted: each is in
   exactly one of the created, merged and conflict lists.
   */
  lemma HypothesisCallSplits(s: State, d: Proto.HypothesisDelta)
    requires Respond(s, MergeHypothesis(d)).hypothesis.Ok?
    ensures HypothesisIds(Respond(s, MergeHypothesis(d)).hypothesis.value) == multiset(DeltaIds(d))
  {
    var op := MergeHypothesis(d);
    var rs := Reports(s, Prefix(Plan(op)));
    assert Failure(Plan(op)) == None && Respond(s, op) == HypothesisReply(Ok(HypothesisResult(rs)));
    hide *;
    DeltaReports(s, d);
    HypothesisSplit(rs);
  }

  lemma BurialsSplit(s: State, es: seq<Event>, incident: string, ids: seq<string>)
    requires incident in s.incidents && AllBury(es, incident, ids)
    ensures TombstoneIds(TombstoneResult(Reports(s, es))) == multiset(ids)
  {
    var rs := Reports(s, es);
    hide Reports, TombstoneIds, TombstoneResult, Subject, Names;
    forall i | 0 <= i < |rs| ensures IsTombstoneOutcome(rs[i].outcome) && rs[i].id == ids[i] {
      ReportsAreAbout(s, es, i);
    }
    TombstoneSplit(rs);
    assert Names(rs) == ids;
  }

  /** A successful tombstone call splits its request into its three lists, repetitions counted. */
  lemma NodeTombstoneCallSplits(s: State, r: Proto.NodeTombstoneRequest)
    requires Respond(s, MergeNodeTombstones(r)).tombstones.Ok?
    ensures TombstoneIds(Respond(s, MergeNodeTombstones(r)).tombstones.value) == multiset(r.nodeIds)
  {
    var op := MergeNodeTombstones(r);
    assert r.incident in s.incidents;
    assert Respond(s, op) == TombstoneReply(Ok(TombstoneResult(Reports(s, Prefix(Plan(op))))));
    hide *;
    NodeBurials(r);
    BurialsSplit(s, Prefix(Plan(op)), r.incident, r.nodeIds);
  }

  lemma EdgeTombstoneCallSplits(s: State, r: Proto.EdgeTombstoneRequest)
    requires Respond(s, MergeEdgeTombstones(r)).tombstones.Ok?
    ensures TombstoneIds(Respond(s, MergeEdgeTombstones(r)).tombstones.value) == multiset(EntryIds(r.entries))
  {
    var op := MergeEdgeTombstones(r);
    assert r.incident in s.incidents && Failure(Plan(op)) == None;
    assert Respond(s, op) == TombstoneReply(Ok(TombstoneResult(Reports(s, Prefix(Plan(op))))));
    hide *;
    EdgeBurials(r);
    BurialsSplit(s, Prefix(Plan(op)), r.incident, EntryIds(r.entries));
  }

  // ---- Whole runs: what is stored, by name ----

  /** The four ledgers whose growth the answers announce. */
  datatype Ledger = Graph | Incidents | NodeTombstonesOf(incident: string) | EdgeTombstonesOf(incident: string)

  function LedgerOf(e: Event): Ledger {
    match e
    case PutNode(_, _) => Graph
    case PutEdge(_, _) => Graph
    case Open(_, _) => Incidents
    case BuryNode(i, _) => NodeTombstonesOf(i)
    case BuryEdge(i, _) => EdgeTombstonesOf(i)
  }

  function EdgesNamed(ks: set<E.EdgeKey>, x: string): set<E.EdgeKey> {
    set k | k in ks && EdgeId(k) == x
  }

  function NodeTombstones(s: State, incident: string): set<string> {
    if incident in s.incidents then s.incidents[incident].nodeTombstones else {}
  }

  function EdgeTombstones(s: State, incident: string): set<E.EdgeKey> {
    if incident in s.incidents then s.incidents[incident].edgeTombstones else {}
  }

  /** How many things the ledger holds under the name `x`. */
  function Stored(s: State, l: Ledger, x: string): nat {
    match l
    case Graph => (if x in s.nodes then 1 else 0) + |EdgesNamed(s.edges.Keys, x)|
    case Incidents => if x in s.incidents then 1 else 0
    case NodeTombstonesOf(i) => if x in NodeTombstones(s, i) then 1 else 0
    case EdgeTombstonesOf(i) => |EdgesNamed(EdgeTombstones(s, i), x)|
  }

  predicate IsNew(o: Outcome) {
    o.Created? || o.Opened? || o.Applied? || o.Unmatched?
  }

  lemma OneMoreNamed(ks: set<E.EdgeKey>, k: E.EdgeKey, x: string)
    ensures |EdgesNamed(ks + {k}, x)| == |EdgesNamed(ks, x)| + if k !in ks && EdgeId(k) == x then 1 else 0
  {
    hide EdgeId;
    if k !in ks && EdgeId(k) == x {
      assert EdgesNamed(ks + {k}, x) == EdgesNamed(ks, x) + {k};
    } else {
      assert EdgesNamed(ks + {k}, x) == EdgesNamed(ks, x);
    }
  }

  function Announces(s: State, e: Event, l: Ledger, x: string): nat {
    if LedgerOf(e) == l && IsNew(ReportOf(s, e).outcome) && ReportOf(s, e).id == x then 1 else 0
  }

  lemma StoredAfterNode(s: State, e: Event, l: Ledger, x: string)
    requires e.PutNode?
    ensures Stored(Step(s, e), l, x) == Stored(s, l, x) + Announces(s, e, l, x)
  {
    hide EdgeId;
  }

  lemma StoredAfterEdge(s: State, e: Event, l: Ledger, x: string)
    requires e.PutEdge?
    ensures Stored(Step(s, e), l, x) == Stored(s, l, x) + Announces(s, e, l, x)
  {
    assert Step(s, e).edges.Keys == s.edges.Keys + {e.key};
    OneMoreNamed(s.edges.Keys, e.key, x);
    hide EdgeId, EdgesNamed;
  }

  lemma StoredAfterBurial(s: State, e: Event, l: Ledger, x: string)
    requires (e.BuryNode? || e.BuryEdge?) && e.incident in s.incidents
    ensures Stored(Step(s, e), l, x) == Stored(s, l, x) + Announces(s, e, l, x)
  {
    if e.BuryEdge? {
      OneMoreNamed(s.incidents[e.incident].edgeTombstones, e.key, x);
    }
    hide EdgeId, EdgesNamed;
  }

  /** One iteration adds one thing to its ledger, under its name, exactly when it reports it as new. */
  lemma StoredStep(s: State, e: Event, l: Ledger, x: string)
    requires A.Addressed(s, e)
    ensures Stored(Step(s, e), l, x) == Stored(s, l, x) + Announces(s, e, l, x)
  {
    match e
    case PutNode(_, _) => StoredAfterNode(s, e, l, x);
    case PutEdge(_, _) => StoredAfterEdge(s, e, l, x);
    case Open(_, _) => hide EdgeId, EdgesNamed;
    case _ => StoredAfterBurial(s, e, l, x);
  }

  /** The ids of the reports that announce something new. */
  function NewIds(rs: seq<Report>): seq<string> {
    if rs == [] then []
    else NewIds(rs[..|rs| - 1]) + if IsNew(rs[|rs| - 1].outcome) then [rs[|rs| - 1].id] else []
  }

  lemma OneMoreNewId(rs: seq<Report>, r: Report)
    ensures NewIds([]) == []
    ensures NewIds(rs + [r]) == NewIds(rs) + if IsNew(r.outcome) then [r.id] else []
  {
    assert (rs + [r])[..|rs|] == rs;
  }

  lemma {:induction false} StoredReplay(s: State, es: seq<Event>, own: Ledger, l: Ledger, x: string)
    requires forall e | e in es :: A.Addressed(s, e) && LedgerOf(e) == own
    ensures Stored(Replay(s, es), l, x) ==
            Stored(s, l, x) + if l == own then multiset(NewIds(Reports(s, es)))[x] else 0
  {
    hide Replay, Reports, NewIds, Stored, Step, ReportOf, A.Addressed, LedgerOf;
    ReplayNothing(s);
    if es == [] {
      OneMoreNewId([], Report(Created, ""));
    } else {
      var init, last := es[..|es| - 1], es[|es| - 1];
      var t := Replay(s, init);
      assert es == init + [last] && last in es;
      StoredReplay(s, init, own, l, x);
      ReplaySnoc(s, init, last);
      OneMoreNewId(Reports(s, init), ReportOf(t, last));
      ReplayGrows(s, init);
      A.AddressedStays(s, t, last);
      StoredStep(t, last, l, x);
    }
  }

  // ---- What the answers announce ----

  /** The ids an answer announces as new. */
  function Announced(r: Response): seq<string> {
    match r
    case HypothesisReply(Ok(h)) => h.createdIds
    case IncidentReply(c) => if c.created then [c.incident] else []
    case TombstoneReply(Ok(t)) => t.appliedIds + t.unmatchedIds
    case _ => []
  }

  /** The batch stopped half way, and its answer says nothing about the half it had processed. */
  predicate Silent(r: Response) {
    match r
    case HypothesisReply(Err(Backend(_))) => true
    case TombstoneReply(Err(Backend(_))) => true
    case _ => false
  }

  function LedgerOfOp(op: Op): Option<Ledger> {
    match op
    case MergeHypothesis(_) => Some(Graph)
    case CreateIncident(_, _) => Some(Incidents)
    case MergeNodeTombstones(r) => Some(NodeTombstonesOf(r.incident))
    case MergeEdgeTombstones(r) => Some(EdgeTombstonesOf(r.incident))
    case _ => None
  }

  lemma {:induction false} NewIdsByOutcome(rs: seq<Report>)
    ensures multiset(NewIds(rs)) ==
            multiset(IdsWith(rs, Created)) + multiset(IdsWith(rs, Opened)) +
            multiset(IdsWith(rs, Applied)) + multiset(IdsWith(rs, Unmatched))
  {
    hide IdsWith, ConflictsIn, NewIds;
    NoReports();
    OneMoreNewId([], Report(Created, ""));
    if rs != [] {
      var init, last := rs[..|rs| - 1], rs[|rs| - 1];
      NewIdsByOutcome(init);
      assert rs == init + [last];
      OneMoreReport(init, last);
      OneMoreNewId(init, last);
    }
  }

  lemma {:induction false} NoneWith(rs: seq<Report>, o: Outcome)
    requires forall r | r in rs :: r.outcome != o
    ensures IdsWith(rs, o) == []
  {
    if rs != [] {
      NoneWith(rs[..|rs| - 1], o);
      assert rs[|rs| - 1] in rs;
    }
  }

  lemma ToldAnswer(op: Op, rs: seq<Report>)
    requires !IsRead(op) && !Silent(WriteResponse(op, false, rs))
    ensures op.MergeHypothesis? ==> Announced(WriteResponse(op, false, rs)) == IdsWith(rs, Created)
    ensures op.MergeNodeTombstones? || op.MergeEdgeTombstones? ==>
              Announced(WriteResponse(op, false, rs)) == IdsWith(rs, Applied) + IdsWith(rs, Unmatched)
    ensures op.CreateIncident? ==>
              Announced(WriteResponse(op, false, rs)) == if IdsWith(rs, Opened) == [op.incident] then [op.incident] else []
  {
    hide Plan, Failure, Prefix, IdsWith, ConflictsIn;
  }

  lemma GraphAnswer(op: Op, rs: seq<Report>)
    requires op.MergeHypothesis? && !IsRead(op) && !Silent(WriteResponse(op, false, rs)) && AllGraph(rs)
    ensures multiset(Announced(WriteResponse(op, false, rs))) == multiset(NewIds(rs))
  {
    hide WriteResponse, IdsWith, NewIds, Announced, Silent, IsRead;
    ToldAnswer(op, rs);
    NewIdsByOutcome(rs);
    NoneWith(rs, Opened);
    NoneWith(rs, Applied);
    NoneWith(rs, Unmatched);
  }

  lemma TombstoneAnswerAnnounces(op: Op, rs: seq<Report>)
    requires (op.MergeNodeTombstones? || op.MergeEdgeTombstones?) && !IsRead(op)
    requires !Silent(WriteResponse(op, false, rs)) && AllTombstone(rs)
    ensures multiset(Announced(WriteResponse(op, false, rs))) == multiset(NewIds(rs))
  {
    hide WriteResponse, IdsWith, NewIds, Announced, Silent, IsRead;
    ToldAnswer(op, rs);
    NewIdsByOutcome(rs);
    NoneWith(rs, Created);
    NoneWith(rs, Opened);
  }

  lemma SingleAnswer(op: Op, r: Report)
    requires op.CreateIncident? && !IsRead(op) && !Silent(WriteResponse(op, false, [r]))
    requires r.id == op.incident && (r.outcome.Opened? || r.outcome.AlreadyOpen?)
    ensures multiset(Announced(WriteResponse(op, false, [r]))) == multiset(NewIds([r]))
  {
    hide WriteResponse, IdsWith, ConflictsIn, NewIds, Announced, Silent, IsRead;
    ToldAnswer(op, [r]);
    assert [] + [r] == [r];
    NoReports();
    OneMoreReport([], r);
    OneMoreNewId([], r);
  }

  lemma KindIsLedger(s: State, op: Op, e: Event)
    requires KindOf(op, e)
    ensures LedgerOfOp(op) == Some(LedgerOf(e))
    ensures op.MergeHypothesis? <==> IsGraphEntry(e)
    ensures op.CreateIncident? <==> e.Open?
    ensures e.Open? ==> Subject(e) == op.incident
    ensures op.MergeNodeTombstones? || op.MergeEdgeTombstones? <==> e.BuryNode? || e.BuryEdge?
  {
  }

  lemma EntriesHaveKind(op: Op)
    ensures forall e | e in Prefix(Plan(op)) :: KindOf(op, e)
  {
    hide *;
    var es := Prefix(Plan(op));
    forall e | e in es ensures KindOf(op, e) {
      var i :| 0 <= i < |es| && es[i] == e;
      assert Plan(op)[i] == Ok(e);
      PlanKeepsKind(op, i);
    }
  }

  lemma OpeningHasOneEntry(op: Op)
    requires op.CreateIncident?
    ensures Prefix(Plan(op)) == [Open(op.incident, op.now)]
  {
    PrefixIsUnique(Plan(op), [Open(op.incident, op.now)]);
  }

  /** A write that is not silent announces exactly the new ids among its reports. */
  lemma PresentWriteAnnounces(s: State, op: Op)
    requires !IsRead(op) && !Missing(s, op) && !Silent(Respond(s, op))
    ensures multiset(Announced(Respond(s, op))) == multiset(NewIds(Reports(s, Prefix(Plan(op)))))
  {
    hide *;
    var es := Prefix(Plan(op));
    var rs := Reports(s, es);
    WriteOutcome(s, op, es);
    EntriesHaveKind(op);
    EntriesAreAddressed(s, op);
    forall i | 0 <= i < |rs|
      ensures op.MergeHypothesis? ==> IsGraphOutcome(rs[i].outcome)
      ensures op.MergeNodeTombstones? || op.MergeEdgeTombstones? ==> IsTombstoneOutcome(rs[i].outcome)
      ensures op.CreateIncident? ==> rs[i].id == op.incident && (rs[i].outcome.Opened? || rs[i].outcome.AlreadyOpen?)
    {
      KindIsLedger(s, op, es[i]);
      ReportsAreAbout(s, es, i);
    }
    ReportsOfKind(rs);
    if op.MergeHypothesis? {
      GraphAnswer(op, rs);
    } else if op.CreateIncident? {
      OpeningHasOneEntry(op);
      assert rs == [rs[0]];
      SingleAnswer(op, rs[0]);
    } else {
      WritesAre(op);
      TombstoneAnswerAnnounces(op, rs);
    }
  }

  lemma WritesAre(op: Op)
    requires !IsRead(op)
    ensures op.MergeHypothesis? || op.CreateIncident? || op.MergeNodeTombstones? || op.MergeEdgeTombstones?
  {
  }

  lemma ReportsOfKind(rs: seq<Report>)
    ensures (forall i | 0 <= i < |rs| :: IsGraphOutcome(rs[i].outcome)) ==> AllGraph(rs)
    ensures (forall i | 0 <= i < |rs| :: IsTombstoneOutcome(rs[i].outcome)) ==> AllTombstone(rs)
  {
  }

  lemma NothingHappens(s: State, op: Op)
    requires IsRead(op) || Missing(s, op)
    ensures Perform(s, op) == s && Announced(Respond(s, op)) == [] && !Silent(Respond(s, op))
  {
  }

  lemma SilenceAnnouncesNothing(r: Response)
    ensures Silent(r) ==> Announced(r) == []
  {
  }

  /** What one operation's answer announces is what its ledger gained, unless the answer is silent. */
  lemma OpAnnounces(s: State, op: Op, l: Ledger, x: string)
    ensures var gained := Stored(Perform(s, op), l, x) - Stored(s, l, x);
            var announced := if LedgerOfOp(op) == Some(l) then multiset(Announced(Respond(s, op)))[x] else 0;
            && announced <= gained
            && (LedgerOfOp(op) != Some(l) || !Silent(Respond(s, op)) ==> announced == gained)
  {
    hide *;
    if IsRead(op) || Missing(s, op) {
      NothingHappens(s, op);
    } else {
      var es := Prefix(Plan(op));
      WriteOutcome(s, op, es);
      EntriesHaveKind(op);
      EntriesAreAddressed(s, op);
      var own := WriteLedger(op);
      forall e | e in es ensures LedgerOf(e) == own {
        KindIsLedger(s, op, e);
      }
      StoredReplay(s, es, own, l, x);
      SilenceAnnouncesNothing(Respond(s, op));
      if !Silent(Respond(s, op)) {
        PresentWriteAnnounces(s, op);
      }
    }
  }

  lemma WriteLedger(op: Op) returns (own: Ledger)
    requires !IsRead(op)
    ensures LedgerOfOp(op) == Some(own)
  {
    own := LedgerOfOp(op).value;
  }

  /** The ids announced for one ledger over a run, in order. */
  function AnnouncedOver(l: Ledger, ops: seq<Op>, rs: seq<Response>): seq<string>
    requires |ops| == |rs|
  {
    if ops == [] then []
    else
      AnnouncedOver(l, ops[..|ops| - 1], rs[..|rs| - 1]) +
      if LedgerOfOp(ops[|ops| - 1]) == Some(l) then Announced(rs[|rs| - 1]) else []
  }

  /** No batch for this ledger stopped half way. */
  predicate NoneSilent(l: Ledger, ops: seq<Op>, rs: seq<Response>)
    requires |ops| == |rs|
  {
    forall i | 0 <= i < |ops| :: LedgerOfOp(ops[i]) == Some(l) ==> !Silent(rs[i])
  }

  lemma AnnouncedSnoc(l: Ledger, ops: seq<Op>, rs: seq<Response>, op: Op, r: Response)
    requires |ops| == |rs|
    ensures AnnouncedOver(l, ops + [op], rs + [r]) ==
            AnnouncedOver(l, ops, rs) + if LedgerOfOp(op) == Some(l) then Announced(r) else []
    ensures NoneSilent(l, ops + [op], rs + [r]) ==>
              NoneSilent(l, ops, rs) && (LedgerOfOp(op) == Some(l) ==> !Silent(r))
  {
    var all, replies := ops + [op], rs + [r];
    assert all[..|ops|] == ops && replies[..|rs|] == rs;
    if NoneSilent(l, all, replies) {
      assert all[|ops|] == op && replies[|ops|] == r;
      forall i | 0 <= i < |ops| && LedgerOfOp(ops[i]) == Some(l) ensures !Silent(rs[i]) {
        assert all[i] == ops[i] && replies[i] == rs[i];
      }
    }
  }

  lemma NothingStored(l: Ledger, x: string)
    ensures Stored(EMPTY, l, x) == 0 && AnnouncedOver(l, [], []) == []
  {
    assert EdgesNamed({}, x) == {};
  }

  /**
   Over a whole run nothing is announced that is not stored, nothing twice; and unless a batch
   stopped half way, everything stored is announced: an id occurs among the announcements exactly
   as often as the ledger holds something under it.
   */
  lemma {:induction false} AnnouncedOnce(ops: seq<Op>, l: Ledger, x: string)
    ensures var rs := Responses(EMPTY, ops);
            var announced, stored := multiset(AnnouncedOver(l, ops, rs))[x], Stored(Run(EMPTY, ops), l, x);
            && announced <= stored
            && (NoneSilent(l, ops, rs) ==> announced == stored)
  {
    hide *;
    RunNothing(EMPTY);
    if ops == [] {
      NothingStored(l, x);
    } else {
      var init, last := ops[..|ops| - 1], ops[|ops| - 1];
      assert ops == init + [last];
      AnnouncedOnce(init, l, x);
      RunSnoc(EMPTY, init, last);
      OpAnnounces(Run(EMPTY, init), last, l, x);
      AnnouncedSnoc(l, init, Responses(EMPTY, init), last, Respond(Run(EMPTY, init), last));
    }
  }

  // ---- Ledger by ledger ----

  lemma NodeBatchesAreNeverSilent(s: State, op: Op, incident: string)
    requires LedgerOfOp(op) == Some(NodeTombstonesOf(incident))
    ensures !Silent(Respond(s, op))
  {
  }

  lemma ResponseAt(s: State, ops: seq<Op>, i: nat)
    requires i < |ops|
    ensures Responses(s, ops)[i] == Respond(Run(s, ops[..i]), ops[i])
  {
    hide Run, Responses, Respond;
    assert ops == ops[..i + 1] + ops[i + 1..] && ops[..i + 1] == ops[..i] + [ops[i]];
    RunConcat(s, ops[..i + 1], ops[i + 1..]);
    RunSnoc(s, ops[..i], ops[i]);
  }

  /**
   Every tombstoned node of an incident is announced exactly once, as applied or as unmatched, in
   every run whatsoever; so the size of the set is the sum of the lengths of those lists.
   */
  lemma NodeTombstonesConserved(ops: seq<Op>, incident: string)
    ensures var announced := AnnouncedOver(NodeTombstonesOf(incident), ops, Responses(EMPTY, ops));
            var tombstones := NodeTombstones(Run(EMPTY, ops), incident);
            multiset(announced) == multiset(tombstones) && |announced| == |tombstones|
  {
    var l := NodeTombstonesOf(incident);
    var rs := Responses(EMPTY, ops);
    var announced, tombstones := AnnouncedOver(l, ops, rs), NodeTombstones(Run(EMPTY, ops), incident);
    assert forall x :: Stored(Run(EMPTY, ops), l, x) == if x in tombstones then 1 else 0;
    hide Run, Responses, Respond, AnnouncedOver, NodeTombstones, Stored, Silent, LedgerOfOp;
    forall i | 0 <= i < |ops| && LedgerOfOp(ops[i]) == Some(l) ensures !Silent(rs[i]) {
      ResponseAt(EMPTY, ops, i);
      NodeBatchesAreNeverSilent(Run(EMPTY, ops[..i]), ops[i], incident);
    }
    forall x ensures multiset(announced)[x] == multiset(tombstones)[x] {
      AnnouncedOnce(ops, l, x);
    }
    assert multiset(announced) == multiset(tombstones);
    assert |announced| == |multiset(announced)| && |tombstones| == |multiset(tombstones)|;
  }

  /** Every stored node and edge is announced as created exactly once, when no batch stopped half way. */
  lemma GraphConserved(ops: seq<Op>, x: string)
    requires NoneSilent(Graph, ops, Responses(EMPTY, ops))
    ensures var s := Run(EMPTY, ops);
            multiset(AnnouncedOver(Graph, ops, Responses(EMPTY, ops)))[x] ==
            (if x in s.nodes then 1 else 0) + |EdgesNamed(s.edges.Keys, x)|
  {
    var s := Run(EMPTY, ops);
    assert Stored(s, Graph, x) == (if x in s.nodes then 1 else 0) + |EdgesNamed(s.edges.Keys, x)|;
    hide *;
    AnnouncedOnce(ops, Graph, x);
  }

  /**
   Where no source, or no target, contains an arrow, the id of a stored edge is announced exactly
   once on its own account; it is announced again only if a node bears the same id.
   */
  lemma ArrowFreeEdgesAnnouncedOnce(ops: seq<Op>, k: E.EdgeKey)
    requires NoneSilent(Graph, ops, Responses(EMPTY, ops)) && k in Run(EMPTY, ops).edges
    requires var ks := Run(EMPTY, ops).edges.Keys;
             (forall k | k in ks :: !EdgeIds.HasArrow(k.source)) || (forall k | k in ks :: !EdgeIds.HasArrow(k.target))
    ensures multiset(AnnouncedOver(Graph, ops, Responses(EMPTY, ops)))[EdgeId(k)] ==
            1 + if EdgeId(k) in Run(EMPTY, ops).nodes then 1 else 0
  {
    var ks := Run(EMPTY, ops).edges.Keys;
    GraphConserved(ops, EdgeId(k));
    hide Run, Responses, AnnouncedOver, EdgeId, EdgeIds.HasArrow;
    forall other | other in EdgesNamed(ks, EdgeId(k)) ensures other == k {
      EdgeIds.ArrowFreeIdsIdentify(ks, other, k);
    }
    assert EdgesNamed(ks, EdgeId(k)) == {k};
  }
}
