/**
 What a hypothesis request answers, read off the request and the state before it: which list each
 entry goes to, in which place, and what a conflict quotes.
 */
module HypothesisAnswers {
  import opened Wrappers
  import opened Events
  import opened Growth
  import opened ProtoConvert
  import opened StoreSpec
  import opened Retries
  import opened Grouping
  import opened WireFormat
  import MemoryStore
  import Proto
  import N = NodeLattices
  import E = EdgeLattices

  // ---- The lists of an answer ----

  /** How many reports say `o`. */
  function Count(rs: seq<Report>, o: Outcome): nat {
    if rs == [] then 0 else Count(rs[..|rs| - 1], o) + if rs[|rs| - 1].outcome == o then 1 else 0
  }

  /** How many reports are rejections. */
  function Rejections(rs: seq<Report>): nat {
    if rs == [] then 0 else Rejections(rs[..|rs| - 1]) + if rs[|rs| - 1].outcome.Rejected? then 1 else 0
  }

  lemma CountSnoc(rs: seq<Report>, r: Report, o: Outcome)
    ensures Count([], o) == 0 && Rejections([]) == 0
    ensures Count(rs + [r], o) == Count(rs, o) + if r.outcome == o then 1 else 0
    ensures Rejections(rs + [r]) == Rejections(rs) + if r.outcome.Rejected? then 1 else 0
  {
    assert (rs + [r])[..|rs|] == rs;
  }

  /** An id is listed in the place its report has among the reports of the same outcome. */
  ghost predicate ListedAt(rs: seq<Report>, o: Outcome, i: int)
    requires 0 <= i < |rs|
  {
    Count(rs[..i], o) < |IdsWith(rs, o)| && IdsWith(rs, o)[Count(rs[..i], o)] == rs[i].id
  }

  lemma {:induction false} IdsAreInOrder(rs: seq<Report>, o: Outcome)
    ensures |IdsWith(rs, o)| == Count(rs, o)
    ensures forall i | 0 <= i < |rs| && rs[i].outcome == o ::
              Count(rs[..i], o) < |IdsWith(rs, o)| && IdsWith(rs, o)[Count(rs[..i], o)] == rs[i].id
  {
    hide IdsWith, ConflictsIn, Count, Rejections;
    NoReports();
    if rs == [] {
      CountSnoc([], Report(o, ""), o);
    } else {
      var init, last := rs[..|rs| - 1], rs[|rs| - 1];
      assert rs == init + [last];
      IdsAreInOrder(init, o);
      OneMoreReport(init, last);
      CountSnoc(init, last, o);
      forall i | 0 <= i < |rs| && rs[i].outcome == o ensures ListedAt(rs, o, i) {
        if i < |init| {
          assert rs[..i] == init[..i] && rs[i] == init[i];
          assert ListedAt(init, o, i);
        } else {
          assert rs[..i] == init;
        }
      }
      forall i | 0 <= i < |rs| && rs[i].outcome == o
        ensures Count(rs[..i], o) < |IdsWith(rs, o)| && IdsWith(rs, o)[Count(rs[..i], o)] == rs[i].id
      {
        assert ListedAt(rs, o, i);
      }
    }
  }

  /** A rejection is listed in its place among the rejections, with field and quoted value. */
  ghost predicate ConflictAt(rs: seq<Report>, i: int)
    requires 0 <= i < |rs| && rs[i].outcome.Rejected?
  {
    && Rejections(rs[..i]) < |ConflictsIn(rs)|
    && var c := ConflictsIn(rs)[Rejections(rs[..i])];
       && c.id == rs[i].id && c.field == rs[i].outcome.field
       && c.existingValue == rs[i].outcome.existingValue && c.proposedValue == ""
  }

  lemma {:induction false} ConflictsAreInOrder(rs: seq<Report>)
    ensures |ConflictsIn(rs)| == Rejections(rs)
    ensures forall i | 0 <= i < |rs| && rs[i].outcome.Rejected? :: ConflictAt(rs, i)
  {
    hide IdsWith, ConflictsIn, Count, Rejections;
    NoReports();
    if rs == [] {
      CountSnoc([], Report(Created, ""), Created);
    } else {
      var init, last := rs[..|rs| - 1], rs[|rs| - 1];
      assert rs == init + [last];
      ConflictsAreInOrder(init);
      OneMoreReport(init, last);
      CountSnoc(init, last, Created);
      forall i | 0 <= i < |rs| && rs[i].outcome.Rejected? ensures ConflictAt(rs, i) {
        if i < |init| {
          assert rs[..i] == init[..i] && rs[i] == init[i];
          assert ConflictAt(init, i);
        } else {
          assert rs[..i] == init;
        }
      }
    }
  }

  // ---- Nodes ----

  /** The first node of the list with the given id. */
  function FirstWith(ns: seq<Proto.Node>, id: string): (j: nat)
    requires exists i :: 0 <= i < |ns| && ns[i].id == id
    ensures j < |ns| && ns[j].id == id && forall k | 0 <= k < j :: ns[k].id != id
  {
    if ns[0].id == id then 0
    else
      var i :| 0 <= i < |ns| && ns[i].id == id;
      assert ns[1..][i - 1].id == id;
      1 + FirstWith(ns[1..], id)
  }

  predicate Mentions(ns: seq<Proto.Node>, id: string) {
    exists i :: 0 <= i < |ns| && ns[i].id == id
  }

  function TypeNumberOf(l: N.NodeLattice): int {
    if l.nodeType == N.Agreed(N.Service) then 1
    else if l.nodeType == N.Agreed(N.Dependency) then 2
    else if l.nodeType == N.Agreed(N.Infrastructure) then 3
    else if l.nodeType == N.Agreed(N.Mechanism) then 4
    else 0
  }

  function TypeName(number: int): string {
    if number == 1 then "SERVICE"
    else if number == 2 then "DEPENDENCY"
    else if number == 3 then "INFRASTRUCTURE"
    else "MECHANISM"
  }

  /** What a proposal is measured against: the stored node, or else the first proposal of the request. */
  function Standing(s: State, ns: seq<Proto.Node>, id: string): (int, string)
    requires id in s.nodes || Mentions(ns, id)
  {
    if id in s.nodes then
      (TypeNumberOf(s.nodes[id]), if s.nodes[id].nodeLabel.Agreed? then s.nodes[id].nodeLabel.value else "")
    else
      var first := ns[FirstWith(ns, id)];
      (first.typeNumber, first.nodeLabel)
  }

  /** What the `i`-th node of a request is reported as. */
  function NodeMention(s: State, ns: seq<Proto.Node>, i: nat): Report
    requires i < |ns|
  {
    var n := ns[i];
    if n.id !in s.nodes && !Mentions(ns[..i], n.id) then Report(Created, n.id)
    else
      var (standingType, standingLabel) := Standing(s, ns[..i], n.id);
      if n.typeNumber != standingType then Report(Rejected("type", TypeName(standingType)), n.id)
      else if n.nodeLabel != standingLabel then Report(Rejected("label", standingLabel), n.id)
      else Report(Merged, n.id)
  }

  function NodeMentions(s: State, ns: seq<Proto.Node>): (rs: seq<Report>)
    ensures |rs| == |ns|
    ensures forall i | 0 <= i < |ns| :: rs[i] == NodeMention(s, ns, i)
  {
    seq(|ns|, i requires 0 <= i < |ns| => NodeMention(s, ns, i))
  }

  /** The entries are those of the nodes, one for one. */
  ghost predicate EntriesOf(es: seq<Event>, ns: seq<Proto.Node>) {
    |es| == |ns| && forall i | 0 <= i < |ns| :: IsEntryOf(es[i], ns[i])
  }

  ghost predicate IsEntryOf(e: Event, n: Proto.Node) {
    && 1 <= n.typeNumber <= 4
    && e.PutNode? && e.id == n.id
    && TypeNumberOf(e.node) == n.typeNumber && e.node.nodeLabel == N.Agreed(n.nodeLabel)
  }

  /** The stored node stands where the request says it should. */
  ghost predicate Stands(l: N.NodeLattice, standing: (int, string)) {
    TypeNumberOf(l) == standing.0 && l.nodeLabel == N.Agreed(standing.1)
  }

  lemma FirstIs(ns: seq<Proto.Node>, id: string, j: nat)
    requires j < |ns| && ns[j].id == id && forall k | 0 <= k < j :: ns[k].id != id
    ensures Mentions(ns, id) && FirstWith(ns, id) == j
  {
    var f := FirstWith(ns, id);
    assert ns[f].id == id;
  }

  lemma MentionsSnoc(ns: seq<Proto.Node>, id: string)
    requires ns != []
    ensures Mentions(ns, id) <==> Mentions(ns[..|ns| - 1], id) || ns[|ns| - 1].id == id
  {
    var init := ns[..|ns| - 1];
    if i :| 0 <= i < |init| && init[i].id == id {
      assert ns[i].id == id;
    }
    if i :| 0 <= i < |ns| && ns[i].id == id {
      assert i < |init| ==> init[i].id == id;
    }
  }

  lemma EarlierFirst(ns: seq<Proto.Node>, id: string)
    requires ns != []
    ensures Mentions(ns, id) <==> Mentions(ns[..|ns| - 1], id) || ns[|ns| - 1].id == id
    ensures Mentions(ns[..|ns| - 1], id) ==> ns[FirstWith(ns, id)] == ns[..|ns| - 1][FirstWith(ns[..|ns| - 1], id)]
    ensures !Mentions(ns[..|ns| - 1], id) && ns[|ns| - 1].id == id ==> ns[FirstWith(ns, id)] == ns[|ns| - 1]
  {
    var init := ns[..|ns| - 1];
    MentionsSnoc(ns, id);
    hide FirstWith;
    if Mentions(init, id) {
      FirstIs(ns, id, FirstWith(init, id));
    } else if ns[|ns| - 1].id == id {
      forall k | 0 <= k < |init| ensures ns[k].id != id {
        assert init[k] == ns[k];
      }
      FirstIs(ns, id, |ns| - 1);
    }
  }

  lemma StandsFirm(s: State, e: Event, id: string, standing: (int, string))
    requires id in s.nodes && Stands(s.nodes[id], standing)
    ensures id in Step(s, e).nodes && Stands(Step(s, e).nodes[id], standing)
  {
    StepGrows(s, e);
    assert NodeGrows(s.nodes[id], Step(s, e).nodes[id]);
  }

  lemma StandsAtOnce(s: State, e: Event, n: Proto.Node)
    requires IsEntryOf(e, n) && n.id !in s.nodes
    ensures n.id in Step(s, e).nodes && Stands(Step(s, e).nodes[n.id], (n.typeNumber, n.nodeLabel))
  {
  }

  lemma OtherIdsStay(s: State, e: Event, id: string)
    requires e.PutNode? && e.id != id
    ensures id in Step(s, e).nodes <==> id in s.nodes
  {
  }

  lemma StoredStands(s: State, ns: seq<Proto.Node>, id: string)
    requires NoStoredTop(s) && id in s.nodes
    ensures Stands(s.nodes[id], Standing(s, ns, id))
  {
  }

  lemma StandingOfFirst(s: State, ns: seq<Proto.Node>, id: string)
    requires id !in s.nodes && Mentions(ns, id)
    ensures Standing(s, ns, id) == (ns[FirstWith(ns, id)].typeNumber, ns[FirstWith(ns, id)].nodeLabel)
  {
  }

  /** After some nodes of a request, an id is known iff it was or is among them, and stands as it should. */
  lemma {:induction false} StandingAfter(s: State, es: seq<Event>, ns: seq<Proto.Node>, id: string)
    requires NoStoredTop(s) && EntriesOf(es, ns)
    ensures id in Replay(s, es).nodes <==> id in s.nodes || Mentions(ns, id)
    ensures id in Replay(s, es).nodes ==> Stands(Replay(s, es).nodes[id], Standing(s, ns, id))
  {
    hide Replay, Reports, ReportOf, Step, Standing, Stands, IsEntryOf, FirstWith, Mentions;
    ReplayNothing(s);
    if es == [] {
      NothingMentioned(id);
      if id in s.nodes {
        StoredStands(s, ns, id);
      }
    } else {
      var init, last, before, n := es[..|es| - 1], es[|es| - 1], ns[..|ns| - 1], ns[|ns| - 1];
      var u := Replay(s, init);
      assert es == init + [last];
      StandingAfter(s, init, before, id);
      ReplaySnoc(s, init, last);
      EarlierFirst(ns, id);
      EntryIsPut(last, n);
      if id in u.nodes {
        StandsFirm(u, last, id, Standing(s, before, id));
        SameStanding(s, ns, id);
      } else if n.id == id {
        StandsAtOnce(u, last, n);
        StandingOfFirst(s, ns, id);
      } else {
        OtherIdsStay(u, last, id);
      }
    }
  }

  lemma NothingMentioned(id: string)
    ensures !Mentions([], id)
  {
  }

  lemma EntryIsPut(e: Event, n: Proto.Node)
    requires IsEntryOf(e, n)
    ensures e.PutNode? && e.id == n.id
  {
  }

  lemma SameStanding(s: State, ns: seq<Proto.Node>, id: string)
    requires ns != [] && (id in s.nodes || Mentions(ns[..|ns| - 1], id))
    ensures (id in s.nodes || Mentions(ns, id)) && Standing(s, ns, id) == Standing(s, ns[..|ns| - 1], id)
  {
    EarlierFirst(ns, id);
    hide FirstWith, Mentions;
  }

  lemma MeasuredReport(u: State, e: Event, n: Proto.Node, standing: (int, string))
    requires IsEntryOf(e, n) && n.id in u.nodes && !u.nodes[n.id].HasConflict() && Stands(u.nodes[n.id], standing)
    ensures ReportOf(u, e) ==
            Report(
              if n.typeNumber != standing.0 then Rejected("type", TypeName(standing.0))
              else if n.nodeLabel != standing.1 then Rejected("label", standing.1)
              else Merged,
              n.id)
  {
    N.ConflictIsDisagreement(u.nodes[n.id], e.node);
  }

  lemma NewReport(u: State, e: Event, n: Proto.Node)
    requires IsEntryOf(e, n) && n.id !in u.nodes
    ensures ReportOf(u, e) == Report(Created, n.id)
  {
  }

  lemma NodeMentionIs(s: State, ns: seq<Proto.Node>, i: nat)
    requires i < |ns|
    ensures ns[i].id !in s.nodes && !Mentions(ns[..i], ns[i].id) ==> NodeMention(s, ns, i) == Report(Created, ns[i].id)
    ensures ns[i].id in s.nodes || Mentions(ns[..i], ns[i].id) ==>
              var standing := Standing(s, ns[..i], ns[i].id);
              NodeMention(s, ns, i) ==
              Report(
                if ns[i].typeNumber != standing.0 then Rejected("type", TypeName(standing.0))
                else if ns[i].nodeLabel != standing.1 then Rejected("label", standing.1)
                else Merged,
                ns[i].id)
  {
    hide Mentions, Standing, TypeName;
  }

  lemma NodeIsReported(s: State, es: seq<Event>, ns: seq<Proto.Node>, i: nat)
    requires NoStoredTop(s) && EntriesOf(es, ns) && i < |ns|
    ensures Reports(s, es)[i] == NodeMention(s, ns, i)
  {
    assert IsEntryOf(es[i], ns[i]);
    EntriesOfPrefix(es, ns, i);
    hide *;
    var u := Replay(s, es[..i]);
    ReportsAt(s, es, i);
    StandingAfter(s, es[..i], ns[..i], ns[i].id);
    NodeMentionIs(s, ns, i);
    if ns[i].id in u.nodes {
      ReplayStoresNoTop(s, es[..i]);
      NoTopAt(u, ns[i].id);
      MeasuredReport(u, es[i], ns[i], Standing(s, ns[..i], ns[i].id));
    } else {
      NewReport(u, es[i], ns[i]);
    }
  }

  lemma NoTopAt(s: State, id: string)
    requires NoStoredTop(s) && id in s.nodes
    ensures !s.nodes[id].HasConflict()
  {
  }

  lemma EntriesOfPrefix(es: seq<Event>, ns: seq<Proto.Node>, i: nat)
    requires EntriesOf(es, ns) && i <= |ns|
    ensures |es| == |ns| && EntriesOf(es[..i], ns[..i])
  {
    hide IsEntryOf;
  }

  // ---- Edges ----

  function KeyOf(e: Proto.Edge): E.EdgeKey {
    E.EdgeKey(e.source, e.target, EdgeTypeOf(e.typeNumber))
  }

  /** What the `i`-th edge of a request is reported as. */
  function EdgeMention(s: State, es: seq<Proto.Edge>, i: nat): Report
    requires i < |es|
  {
    Report(
      if KeyOf(es[i]) !in s.edges && forall j | 0 <= j < i :: KeyOf(es[j]) != KeyOf(es[i]) then Created else Merged,
      EdgeText(KeyOf(es[i])))
  }

  function EdgeMentions(s: State, es: seq<Proto.Edge>): (rs: seq<Report>)
    ensures |rs| == |es|
    ensures forall i | 0 <= i < |es| :: rs[i] == EdgeMention(s, es, i)
  {
    seq(|es|, i requires 0 <= i < |es| => EdgeMention(s, es, i))
  }

  ghost predicate EdgeEntriesOf(ls: seq<Event>, es: seq<Proto.Edge>) {
    |ls| == |es| && forall i | 0 <= i < |es| :: ls[i].PutEdge? && ls[i].key == KeyOf(es[i])
  }

  lemma {:induction false} EdgesAfter(s: State, ls: seq<Event>, k: E.EdgeKey)
    requires forall l | l in ls :: l.PutEdge?
    ensures k in Replay(s, ls).edges <==> k in s.edges || exists j :: 0 <= j < |ls| && ls[j].key == k
  {
    if ls != [] {
      var init, last := ls[..|ls| - 1], ls[|ls| - 1];
      assert last in ls;
      EdgesAfter(s, init, k);
      assert Replay(s, ls) == Step(Replay(s, init), last);
      hide Replay, E.Join;
      if j :| 0 <= j < |init| && init[j].key == k { assert ls[j].key == k; }
      if j :| 0 <= j < |ls| && ls[j].key == k { assert j < |init| ==> init[j].key == k; }
    }
  }

  lemma EdgeReport(u: State, e: Event)
    requires e.PutEdge?
    ensures ReportOf(u, e) == Report(if e.key in u.edges then Merged else Created, EdgeText(e.key))
  {
    EdgeTextIsId(e.key);
    hide EdgeId, EdgeText;
  }

  lemma EdgeIsReported(s: State, ls: seq<Event>, es: seq<Proto.Edge>, i: nat)
    requires EdgeEntriesOf(ls, es) && i < |es|
    ensures Reports(s, ls)[i] == EdgeMention(s, es, i)
  {
    hide Replay, Reports, ReportOf, EdgeText, KeyOf;
    ReportsAt(s, ls, i);
    EdgesAfter(s, ls[..i], KeyOf(es[i]));
    EdgeReport(Replay(s, ls[..i]), ls[i]);
  }

  lemma {:induction false} NodesLeaveEdges(s: State, es: seq<Event>)
    requires forall e | e in es :: e.PutNode?
    ensures Replay(s, es).edges == s.edges
  {
    if es != [] {
      assert es[|es| - 1] in es;
      NodesLeaveEdges(s, es[..|es| - 1]);
      hide N.Join;
    }
  }

  // ---- The answer ----

  lemma ConvertedNode(n: Proto.Node)
    requires !BadNodeType(n)
    ensures NodeConversion(n).Ok? && IsEntryOf(NodeConversion(n).value, n)
  {
    NodeEntryOnWire(n);
    hide NodeConversion, FilesRecords;
  }

  lemma ConvertedEdge(e: Proto.Edge)
    requires !BadEdgeType(e.typeNumber)
    ensures EdgeConversion(e).Ok? && EdgeConversion(e).value.PutEdge? && EdgeConversion(e).value.key == KeyOf(e)
  {
    EdgeEntryOnWire(e);
    hide EdgeConversion, FilesRecords;
  }

  lemma NodeEntriesAre(d: Proto.HypothesisDelta)
    requires NodesConvert(d)
    ensures EntriesOf(NodeEntries(d), d.nodes)
  {
    var plan, es := NodePlan(d.nodes), NodeEntries(d);
    NodePlanFailsIff(d.nodes);
    assert es == Prefix(plan) && |es| == |plan|;
    assert forall i | 0 <= i < |d.nodes| :: d.nodes[i] in d.nodes;
    hide NodePlan, NodeEntries, NodeConversion, Prefix, Failure, BadNodeType, IsEntryOf;
    forall i | 0 <= i < |es| ensures IsEntryOf(es[i], d.nodes[i]) {
      assert plan[i] == Ok(es[i]);
      ConvertedNode(d.nodes[i]);
    }
  }

  lemma EdgeEntriesAre(d: Proto.HypothesisDelta)
    requires EdgesConvert(d)
    ensures EdgeEntriesOf(EdgeEntries(d), d.edges)
  {
    var plan, ls := EdgePlan(d.edges), EdgeEntries(d);
    EdgePlanFailsIff(d.edges);
    assert ls == Prefix(plan) && |ls| == |plan|;
    assert forall i | 0 <= i < |d.edges| :: d.edges[i] in d.edges;
    hide EdgePlan, EdgeEntries, EdgeConversion, Prefix, Failure, BadEdgeType, KeyOf;
    forall i | 0 <= i < |ls| ensures ls[i].PutEdge? && ls[i].key == KeyOf(d.edges[i]) {
      assert plan[i] == Ok(ls[i]);
      ConvertedEdge(d.edges[i]);
    }
  }

  lemma MentionsAreReported(s: State, d: Proto.HypothesisDelta)
    requires NoStoredTop(s) && NodesConvert(d) && EdgesConvert(d)
    ensures Reports(s, NodeEntries(d) + EdgeEntries(d)) == NodeMentions(s, d.nodes) + EdgeMentions(s, d.edges)
  {
    hide *;
    var es, ls := NodeEntries(d), EdgeEntries(d);
    var t := Replay(s, es);
    NodeEntriesAre(d);
    EdgeEntriesAre(d);
    DeltaProcesses(s, d);
    ReplayConcat(s, es, ls);
    NodesLeaveEdges(s, es);
    LengthsAgree(es, d.nodes, ls, d.edges);
    forall i | 0 <= i < |es| ensures Reports(s, es)[i] == NodeMentions(s, d.nodes)[i] {
      NodeIsReported(s, es, d.nodes, i);
    }
    forall i | 0 <= i < |ls| ensures Reports(t, ls)[i] == EdgeMentions(s, d.edges)[i] {
      EdgeIsReported(t, ls, d.edges, i);
      SameEdgesMention(s, t, d.edges, i);
    }
    assert Reports(s, es) == NodeMentions(s, d.nodes);
    assert Reports(t, ls) == EdgeMentions(s, d.edges);
  }

  lemma LengthsAgree(es: seq<Event>, ns: seq<Proto.Node>, ls: seq<Event>, edges: seq<Proto.Edge>)
    requires EntriesOf(es, ns) && EdgeEntriesOf(ls, edges)
    ensures |es| == |ns| && |ls| == |edges|
  {
  }

  lemma SameEdgesMention(s: State, t: State, es: seq<Proto.Edge>, i: nat)
    requires s.edges == t.edges && i < |es|
    ensures EdgeMention(s, es, i) == EdgeMention(t, es, i)
  {
  }

  lemma ConvertedAnswer(s: State, d: Proto.HypothesisDelta)
    requires NodesConvert(d) && EdgesConvert(d)
    ensures Respond(s, MergeHypothesis(d)) ==
            HypothesisReply(Ok(HypothesisResult(Reports(s, NodeEntries(d) + EdgeEntries(d)))))
  {
    var op := MergeHypothesis(d);
    NodePlanFailsIff(d.nodes);
    EdgePlanFailsIff(d.edges);
    MemoryStore.PlanOfDelta(d);
    assert !IsRead(op) && !Missing(s, op);
    assert NodeEntries(d) == Prefix(NodePlan(d.nodes)) && EdgeEntries(d) == Prefix(EdgePlan(d.edges));
    hide Plan, NodePlan, EdgePlan, Prefix, Failure, Entries, Perform, Respond, Reports, HypothesisResult, NodeEntries, EdgeEntries, IsRead, Missing;
    WriteOutcome(s, op, Prefix(Plan(op)));
  }

  /**
   The answer to a hypothesis request, exactly. If all type numbers have a domain type, every entry is
   reported by what was there before it: a node as created if its id is new to the store and to the
   request; as a conflict about its type, or else its label, if it differs from the stored node or else
   from the first node of the request with its id, quoting that one; as merged otherwise; an edge as
   created or merged under its rendered id. Each list holds its entries in the order of the request.
   */
  lemma HypothesisAnswer(s: State, d: Proto.HypothesisDelta)
    requires NoStoredTop(s) && NodesConvert(d) && EdgesConvert(d)
    ensures var rs := NodeMentions(s, d.nodes) + EdgeMentions(s, d.edges);
            var answer := Respond(s, MergeHypothesis(d));
            && answer.HypothesisReply? && answer.hypothesis.Ok?
            && var h := answer.hypothesis.value;
               && |h.createdIds| == Count(rs, Created) && |h.mergedIds| == Count(rs, Merged) && |h.conflicts| == Rejections(rs)
               && (forall i | 0 <= i < |rs| && rs[i].outcome == Created ::
                     Count(rs[..i], Created) < |h.createdIds| && h.createdIds[Count(rs[..i], Created)] == rs[i].id)
               && (forall i | 0 <= i < |rs| && rs[i].outcome == Merged ::
                     Count(rs[..i], Merged) < |h.mergedIds| && h.mergedIds[Count(rs[..i], Merged)] == rs[i].id)
               && (forall i | 0 <= i < |rs| && rs[i].outcome.Rejected? ::
                     && Rejections(rs[..i]) < |h.conflicts|
                     && h.conflicts[Rejections(rs[..i])] ==
                        Proto.MergeConflict(rs[i].id, rs[i].outcome.field, rs[i].outcome.existingValue, ""))
  {
    var rs := NodeMentions(s, d.nodes) + EdgeMentions(s, d.edges);
    MentionsAreReported(s, d);
    ConvertedAnswer(s, d);
    hide NodeMentions, EdgeMentions, NodeEntries, EdgeEntries, Respond, Reports, IdsWith, ConflictsIn, Count, Rejections;
    ListsOfResult(rs);
  }

  lemma ListsOfResult(rs: seq<Report>)
    ensures var h := HypothesisResult(rs);
            && |h.createdIds| == Count(rs, Created) && |h.mergedIds| == Count(rs, Merged) && |h.conflicts| == Rejections(rs)
            && (forall i | 0 <= i < |rs| && rs[i].outcome == Created ::
                  Count(rs[..i], Created) < |h.createdIds| && h.createdIds[Count(rs[..i], Created)] == rs[i].id)
            && (forall i | 0 <= i < |rs| && rs[i].outcome == Merged ::
                  Count(rs[..i], Merged) < |h.mergedIds| && h.mergedIds[Count(rs[..i], Merged)] == rs[i].id)
            && (forall i | 0 <= i < |rs| && rs[i].outcome.Rejected? ::
                  && Rejections(rs[..i]) < |h.conflicts|
                  && h.conflicts[Rejections(rs[..i])] ==
                     Proto.MergeConflict(rs[i].id, rs[i].outcome.field, rs[i].outcome.existingValue, ""))
  {
    IdsAreInOrder(rs, Created);
    IdsAreInOrder(rs, Merged);
    ConflictsAreInOrder(rs);
    hide IdsWith, ConflictsIn, Count, Rejections;
    forall i | 0 <= i < |rs| && rs[i].outcome.Rejected?
      ensures Rejections(rs[..i]) < |ConflictsIn(rs)|
      ensures ConflictsIn(rs)[Rejections(rs[..i])] ==
              Proto.MergeConflict(rs[i].id, rs[i].outcome.field, rs[i].outcome.existingValue, "")
    {
      assert ConflictAt(rs, i);
    }
  }
}
