/** What a tombstone call answers, read off the request and the state before the call. */
module TombstoneAnswers {
  import opened Wrappers
  import opened Orders
  import opened Events
  import opened ProtoConvert
  import opened StoreSpec
  import opened Conservation
  import opened Retries
  import opened WireFormat
  import Proto
  import E = EdgeLattices

  // ---- Nodes ----

  function NodeBurialsOf(incident: string, ids: seq<string>): (es: seq<Event>)
    ensures |es| == |ids|
    ensures forall i | 0 <= i < |ids| :: es[i] == BuryNode(incident, ids[i])
  {
    if ids == [] then [] else NodeBurialsOf(incident, ids[..|ids| - 1]) + [BuryNode(incident, ids[|ids| - 1])]
  }

  /** The requested ids the call newly tombstones, split by whether the graph knows them. */
  function FreshNodes(s: State, incident: string, ids: seq<string>, known: bool): set<string> {
    set id | id in ids && id !in NodeTombstones(s, incident) && (id in s.nodes <==> known)
  }

  function OutcomeFor(known: bool): Outcome {
    if known then Applied else Unmatched
  }

  function Listed<T>(xs: seq<T>): set<T> {
    set x | x in xs
  }

  lemma OneMoreListed<T>(xs: seq<T>, x: T)
    ensures Listed(xs + [x]) == Listed(xs) + {x}
    ensures Listed<T>([]) == {}
  {
  }

  lemma OneMoreBurial(s: State, t: State, incident: string, e: Event)
    requires incident in t.incidents && t.nodes == s.nodes && t.edges == s.edges
    ensures var u := Step(t, e);
            e.BuryNode? && e.incident == incident ==>
              && u.nodes == s.nodes && u.edges == s.edges && incident in u.incidents
              && u.incidents[incident].nodeTombstones == t.incidents[incident].nodeTombstones + {e.id}
    ensures var u := Step(t, e);
            e.BuryEdge? && e.incident == incident ==>
              && u.nodes == s.nodes && u.edges == s.edges && incident in u.incidents
              && u.incidents[incident].edgeTombstones == t.incidents[incident].edgeTombstones + {e.key}
  {
  }

  lemma {:induction false} BurialsGrowTombstones(s: State, incident: string, ids: seq<string>)
    requires incident in s.incidents
    ensures var t := Replay(s, NodeBurialsOf(incident, ids));
            && t.nodes == s.nodes && t.edges == s.edges && incident in t.incidents
            && t.incidents[incident].nodeTombstones == s.incidents[incident].nodeTombstones + Listed(ids)
  {
    hide Replay, Reports, NodeBurialsOf, Listed, Step, ReportOf;
    ReplayNothing(s);
    if ids == [] {
      assert NodeBurialsOf(incident, ids) == [];
      OneMoreListed(ids, "");
    } else {
      var init, last := ids[..|ids| - 1], ids[|ids| - 1];
      var es, e := NodeBurialsOf(incident, init), BuryNode(incident, last);
      BurialsGrowTombstones(s, incident, init);
      assert NodeBurialsOf(incident, ids) == es + [e] && ids == init + [last];
      ReplaySnoc(s, es, e);
      OneMoreListed(init, last);
      OneMoreBurial(s, Replay(s, es), incident, e);
    }
  }

  lemma OneMoreFreshNode(s: State, incident: string, init: seq<string>, last: string, known: bool)
    requires incident in s.incidents
    ensures FreshNodes(s, incident, init + [last], known) ==
            FreshNodes(s, incident, init, known) +
            if last !in NodeTombstones(s, incident) && (last in s.nodes <==> known) then {last} else {}
  {
  }

  lemma BurialOutcome(s: State, t: State, incident: string, init: seq<string>, last: string, known: bool)
    requires incident in s.incidents && incident in t.incidents && t.nodes == s.nodes
    requires t.incidents[incident].nodeTombstones == s.incidents[incident].nodeTombstones + Listed(init)
    ensures ReportOf(t, BuryNode(incident, last)).outcome == OutcomeFor(known) <==>
            && last !in NodeTombstones(s, incident) && (last in s.nodes <==> known)
            && last !in FreshNodes(s, incident, init, known)
  {
  }

  lemma NothingFresh(s: State, incident: string, known: bool)
    ensures FreshNodes(s, incident, [], known) == {} && FreshEdges(s, incident, [], known) == {}
    ensures forall x :: EdgesNamed({}, x) == {}
  {
  }

  lemma {:induction false} FreshNodesAreReported(s: State, incident: string, ids: seq<string>, known: bool)
    requires incident in s.incidents
    ensures multiset(IdsWith(Reports(s, NodeBurialsOf(incident, ids)), OutcomeFor(known))) ==
            multiset(FreshNodes(s, incident, ids, known))
  {
    hide Replay, Reports, NodeBurialsOf, ReportOf, IdsWith, ConflictsIn, NodeTombstones, OutcomeFor, FreshNodes, EdgesNamed, Listed;
    NoReports();
    ReplayNothing(s);
    if ids == [] {
      assert NodeBurialsOf(incident, ids) == [];
      NothingFresh(s, incident, known);
    } else {
      var init, last := ids[..|ids| - 1], ids[|ids| - 1];
      var es, e := NodeBurialsOf(incident, init), BuryNode(incident, last);
      var t := Replay(s, es);
      FreshNodesAreReported(s, incident, init, known);
      BurialsGrowTombstones(s, incident, init);
      assert NodeBurialsOf(incident, ids) == es + [e] && ids == init + [last];
      ReplaySnoc(s, es, e);
      OneMoreReport(Reports(s, es), ReportOf(t, e));
      OneMoreFreshNode(s, incident, init, last, known);
      BurialOutcome(s, t, incident, init, last, known);
    }
  }

  lemma NodePlanIsBurials(r: Proto.NodeTombstoneRequest)
    ensures Prefix(Plan(MergeNodeTombstones(r))) == NodeBurialsOf(r.incident, r.nodeIds)
  {
    var es := NodeBurialsOf(r.incident, r.nodeIds);
    assert Plan(MergeNodeTombstones(r)) == BuryPlan(r.incident, r.nodeIds);
    hide NodeBurialsOf, Plan, BuryPlan, Prefix;
    PrefixIsUnique(BuryPlan(r.incident, r.nodeIds), es);
  }

  lemma TombstoneReplyIs(s: State, r: Proto.NodeTombstoneRequest)
    ensures Respond(s, MergeNodeTombstones(r)) ==
            TombstoneReply(
              if r.incident in s.incidents then Ok(TombstoneResult(Reports(s, Prefix(Plan(MergeNodeTombstones(r))))))
              else Err(IncidentNotFound(r.incident)))
  {
  }

  /** What the `i`-th mention of a request is reported as. */
  function NodeMention(s: State, incident: string, ids: seq<string>, i: nat): Report
    requires i < |ids|
  {
    Report(
      if ids[i] in NodeTombstones(s, incident) || ids[i] in ids[..i] then AlreadyTombstoned
      else if ids[i] in s.nodes then Applied
      else Unmatched,
      ids[i])
  }

  function NodeMentions(s: State, incident: string, ids: seq<string>): (rs: seq<Report>)
    ensures |rs| == |ids|
    ensures forall i | 0 <= i < |rs| :: rs[i] == NodeMention(s, incident, ids, i)
  {
    seq(|ids|, i requires 0 <= i < |ids| => NodeMention(s, incident, ids, i))
  }

  lemma BurialReport(s: State, t: State, incident: string, init: seq<string>, id: string)
    requires incident in s.incidents && incident in t.incidents && t.nodes == s.nodes
    requires t.incidents[incident].nodeTombstones == s.incidents[incident].nodeTombstones + Listed(init)
    ensures ReportOf(t, BuryNode(incident, id)) ==
            Report(
              if id in NodeTombstones(s, incident) || id in init then AlreadyTombstoned
              else if id in s.nodes then Applied
              else Unmatched,
              id)
  {
  }

  lemma MentionIsReported(s: State, incident: string, ids: seq<string>, i: nat)
    requires incident in s.incidents && i < |ids|
    ensures Reports(s, NodeBurialsOf(incident, ids))[i] == NodeMention(s, incident, ids, i)
  {
    hide Replay, Reports, NodeBurialsOf, ReportOf, NodeTombstones, Listed;
    var es := NodeBurialsOf(incident, ids);
    assert es[..i] == NodeBurialsOf(incident, ids[..i]);
    ReportsAt(s, es, i);
    BurialsGrowTombstones(s, incident, ids[..i]);
    BurialReport(s, Replay(s, es[..i]), incident, ids[..i], ids[i]);
  }

  lemma MentionsAreReported(s: State, incident: string, ids: seq<string>)
    requires incident in s.incidents
    ensures Reports(s, NodeBurialsOf(incident, ids)) == NodeMentions(s, incident, ids)
  {
    hide *;
    forall i | 0 <= i < |ids| ensures Reports(s, NodeBurialsOf(incident, ids))[i] == NodeMention(s, incident, ids, i) {
      MentionIsReported(s, incident, ids, i);
    }
  }

  /**
   The answer to a node-tombstone call, exactly: it succeeds iff the incident exists; each mention of
   an id goes, in order, to the list its own position decides. So the ids that are in the graph and not
   yet tombstoned are applied, once each; those in neither are unmatched, once each; and every further
   mention is reported as tombstoned already.
   */
  lemma NodeTombstoneAnswer(s: State, r: Proto.NodeTombstoneRequest)
    ensures Respond(s, MergeNodeTombstones(r)) ==
            TombstoneReply(
              if r.incident in s.incidents then Ok(TombstoneResult(NodeMentions(s, r.incident, r.nodeIds)))
              else Err(IncidentNotFound(r.incident)))
    ensures r.incident in s.incidents ==>
              var t := Respond(s, MergeNodeTombstones(r)).tombstones.value;
              var applied, unmatched := FreshNodes(s, r.incident, r.nodeIds, true), FreshNodes(s, r.incident, r.nodeIds, false);
              && multiset(t.appliedIds) == multiset(applied)
              && multiset(t.unmatchedIds) == multiset(unmatched)
              && multiset(t.alreadyTombstonedIds) == multiset(r.nodeIds) - multiset(applied) - multiset(unmatched)
  {
    hide *;
    TombstoneReplyIs(s, r);
    if r.incident in s.incidents {
      NodePlanIsBurials(r);
      MentionsAreReported(s, r.incident, r.nodeIds);
      FreshNodesAreReported(s, r.incident, r.nodeIds, true);
      FreshNodesAreReported(s, r.incident, r.nodeIds, false);
      OutcomesAre();
      NodeTombstoneCallSplits(s, r);
      ResultLists(Reports(s, Prefix(Plan(MergeNodeTombstones(r)))));
    }
  }

  lemma OutcomesAre()
    ensures OutcomeFor(true) == Applied && OutcomeFor(false) == Unmatched
  {
  }

  lemma ResultLists(rs: seq<Report>)
    ensures TombstoneResult(rs).appliedIds == IdsWith(rs, Applied)
    ensures TombstoneResult(rs).unmatchedIds == IdsWith(rs, Unmatched)
    ensures TombstoneIds(TombstoneResult(rs)) ==
            multiset(IdsWith(rs, Applied)) + multiset(TombstoneResult(rs).alreadyTombstonedIds) + multiset(IdsWith(rs, Unmatched))
  {
    hide IdsWith;
  }

  // ---- Edges ----

  function EdgeBurialsOf(incident: string, ks: seq<E.EdgeKey>): (es: seq<Event>)
    ensures |es| == |ks|
    ensures forall i | 0 <= i < |ks| :: es[i] == BuryEdge(incident, ks[i])
  {
    if ks == [] then [] else EdgeBurialsOf(incident, ks[..|ks| - 1]) + [BuryEdge(incident, ks[|ks| - 1])]
  }

  function FreshEdges(s: State, incident: string, ks: seq<E.EdgeKey>, known: bool): set<E.EdgeKey> {
    set k | k in ks && k !in EdgeTombstones(s, incident) && (k in s.edges <==> known)
  }

  lemma {:induction false} EdgeBurialsGrowTombstones(s: State, incident: string, ks: seq<E.EdgeKey>)
    requires incident in s.incidents
    ensures var t := Replay(s, EdgeBurialsOf(incident, ks));
            && t.nodes == s.nodes && t.edges == s.edges && incident in t.incidents
            && t.incidents[incident].edgeTombstones == s.incidents[incident].edgeTombstones + Listed(ks)
  {
    hide Replay, Reports, EdgeBurialsOf, Listed, Step, ReportOf;
    ReplayNothing(s);
    if ks == [] {
      assert EdgeBurialsOf(incident, ks) == [];
      OneMoreListed(ks, E.EdgeKey("", "", E.DependsOn));
    } else {
      var init, last := ks[..|ks| - 1], ks[|ks| - 1];
      var es, e := EdgeBurialsOf(incident, init), BuryEdge(incident, last);
      EdgeBurialsGrowTombstones(s, incident, init);
      assert EdgeBurialsOf(incident, ks) == es + [e] && ks == init + [last];
      ReplaySnoc(s, es, e);
      OneMoreListed(init, last);
      OneMoreBurial(s, Replay(s, es), incident, e);
    }
  }

  lemma OneMoreFreshEdge(s: State, incident: string, init: seq<E.EdgeKey>, last: E.EdgeKey, known: bool)
    requires incident in s.incidents
    ensures FreshEdges(s, incident, init + [last], known) ==
            if last !in EdgeTombstones(s, incident) && (last in s.edges <==> known)
            then FreshEdges(s, incident, init, known) + {last}
            else FreshEdges(s, incident, init, known)
  {
  }

  lemma EdgeBurialOutcome(s: State, t: State, incident: string, init: seq<E.EdgeKey>, last: E.EdgeKey, known: bool)
    requires incident in s.incidents && incident in t.incidents && t.edges == s.edges
    requires t.incidents[incident].edgeTombstones == s.incidents[incident].edgeTombstones + Listed(init)
    ensures ReportOf(t, BuryEdge(incident, last)).id == EdgeId(last)
    ensures ReportOf(t, BuryEdge(incident, last)).outcome == OutcomeFor(known) <==>
            && last !in EdgeTombstones(s, incident) && (last in s.edges <==> known)
            && last !in FreshEdges(s, incident, init, known)
  {
    hide EdgeId;
  }

  lemma {:induction false} FreshEdgesAreReported(s: State, incident: string, ks: seq<E.EdgeKey>, known: bool, x: string)
    requires incident in s.incidents
    ensures multiset(IdsWith(Reports(s, EdgeBurialsOf(incident, ks)), OutcomeFor(known)))[x] ==
            |EdgesNamed(FreshEdges(s, incident, ks, known), x)|
  {
    hide *;
    NoReports();
    ReplayNothing(s);
    if ks == [] {
      assert EdgeBurialsOf(incident, ks) == [];
      NothingFresh(s, incident, known);
    } else {
      var init, last := ks[..|ks| - 1], ks[|ks| - 1];
      var es, e := EdgeBurialsOf(incident, init), BuryEdge(incident, last);
      var t := Replay(s, es);
      FreshEdgesAreReported(s, incident, init, known, x);
      EdgeBurialsGrowTombstones(s, incident, init);
      assert EdgeBurialsOf(incident, ks) == es + [e] && ks == init + [last];
      ReplaySnoc(s, es, e);
      var r := ReportOf(t, e);
      OneMoreReport(Reports(s, es), r);
      OneMoreFreshEdge(s, incident, init, last, known);
      EdgeBurialOutcome(s, t, incident, init, last, known);
      OneMoreNamed(FreshEdges(s, incident, init, known), last, x);
      StillFresh(s, incident, init, last, known);
      var before, after := IdsWith(Reports(s, es), OutcomeFor(known)), IdsWith(Reports(s, es + [e]), OutcomeFor(known));
      if r.outcome == OutcomeFor(known) {
        assert after == before + [EdgeId(last)];
      } else {
        assert after == before;
      }
    }
  }

  lemma StillFresh(s: State, incident: string, init: seq<E.EdgeKey>, last: E.EdgeKey, known: bool)
    ensures last in FreshEdges(s, incident, init, known) ==>
              FreshEdges(s, incident, init, known) + {last} == FreshEdges(s, incident, init, known)
  {
  }

  /** The requested entries as edge keys, if all their type numbers are valid. */
  ghost predicate RequestedKeys(r: Proto.EdgeTombstoneRequest, ks: seq<E.EdgeKey>) {
    && |ks| == |r.entries|
    && forall i | 0 <= i < |ks| ::
         && EdgeTypeFromNumber(r.entries[i].typeNumber).Ok?
         && ks[i] == E.EdgeKey(r.entries[i].source, r.entries[i].target, EdgeTypeFromNumber(r.entries[i].typeNumber).value)
  }

  lemma EdgePlanIsBurials(r: Proto.EdgeTombstoneRequest, ks: seq<E.EdgeKey>)
    requires RequestedKeys(r, ks)
    ensures Prefix(Plan(MergeEdgeTombstones(r))) == EdgeBurialsOf(r.incident, ks)
    ensures Failure(Plan(MergeEdgeTombstones(r))) == None
  {
    var plan, es := EntryPlan(r.incident, r.entries), EdgeBurialsOf(r.incident, ks);
    assert Plan(MergeEdgeTombstones(r)) == plan;
    hide EdgeBurialsOf, Plan, EntryPlan, Prefix, Failure, EdgeTypeFromNumber;
    forall i | 0 <= i < |es| ensures plan[i] == Ok(es[i]) {
      assert plan[i] == EntryConversion(r.incident, r.entries[i]);
    }
    PrefixIsUnique(plan, es);
  }

  function EdgeMention(s: State, incident: string, ks: seq<E.EdgeKey>, i: nat): Report
    requires i < |ks|
  {
    Report(
      if ks[i] in EdgeTombstones(s, incident) || ks[i] in ks[..i] then AlreadyTombstoned
      else if ks[i] in s.edges then Applied
      else Unmatched,
      EdgeText(ks[i]))
  }

  function EdgeMentions(s: State, incident: string, ks: seq<E.EdgeKey>): (rs: seq<Report>)
    ensures |rs| == |ks|
    ensures forall i | 0 <= i < |rs| :: rs[i] == EdgeMention(s, incident, ks, i)
  {
    seq(|ks|, i requires 0 <= i < |ks| => EdgeMention(s, incident, ks, i))
  }

  lemma EdgeBurialReport(s: State, t: State, incident: string, init: seq<E.EdgeKey>, k: E.EdgeKey)
    requires incident in s.incidents && incident in t.incidents && t.edges == s.edges
    requires t.incidents[incident].edgeTombstones == s.incidents[incident].edgeTombstones + Listed(init)
    ensures ReportOf(t, BuryEdge(incident, k)) ==
            Report(
              if k in EdgeTombstones(s, incident) || k in init then AlreadyTombstoned
              else if k in s.edges then Applied
              else Unmatched,
              EdgeText(k))
  {
    EdgeTextIsId(k);
    hide EdgeId, EdgeText;
  }

  lemma EdgeMentionIsReported(s: State, incident: string, ks: seq<E.EdgeKey>, i: nat)
    requires incident in s.incidents && i < |ks|
    ensures Reports(s, EdgeBurialsOf(incident, ks))[i] == EdgeMention(s, incident, ks, i)
  {
    hide Replay, Reports, EdgeBurialsOf, ReportOf, EdgeTombstones, Listed, EdgeText;
    var es := EdgeBurialsOf(incident, ks);
    assert es[..i] == EdgeBurialsOf(incident, ks[..i]);
    ReportsAt(s, es, i);
    EdgeBurialsGrowTombstones(s, incident, ks[..i]);
    EdgeBurialReport(s, Replay(s, es[..i]), incident, ks[..i], ks[i]);
  }

  lemma EdgeMentionsAreReported(s: State, incident: string, ks: seq<E.EdgeKey>)
    requires incident in s.incidents
    ensures Reports(s, EdgeBurialsOf(incident, ks)) == EdgeMentions(s, incident, ks)
  {
    hide *;
    forall i | 0 <= i < |ks| ensures Reports(s, EdgeBurialsOf(incident, ks))[i] == EdgeMention(s, incident, ks, i) {
      EdgeMentionIsReported(s, incident, ks, i);
    }
  }

  predicate AllValid(r: Proto.EdgeTombstoneRequest) {
    forall e | e in r.entries :: !BadEdgeType(e.typeNumber)
  }

  /** The requested entries as edge keys. */
  function KeysOf(r: Proto.EdgeTombstoneRequest): (ks: seq<E.EdgeKey>)
    requires AllValid(r)
    ensures RequestedKeys(r, ks)
  {
    seq(|r.entries|, i requires 0 <= i < |r.entries| =>
      assert r.entries[i] in r.entries;
      E.EdgeKey(r.entries[i].source, r.entries[i].target, EdgeTypeFromNumber(r.entries[i].typeNumber).value))
  }

  lemma EdgeMentionCounts(s: State, r: Proto.EdgeTombstoneRequest, x: string)
    requires r.incident in s.incidents && AllValid(r)
    ensures Respond(s, MergeEdgeTombstones(r)) ==
            TombstoneReply(Ok(TombstoneResult(EdgeMentions(s, r.incident, KeysOf(r)))))
    ensures var t, ks := TombstoneResult(EdgeMentions(s, r.incident, KeysOf(r))), KeysOf(r);
            var applied := |EdgesNamed(FreshEdges(s, r.incident, ks, true), x)|;
            var unmatched := |EdgesNamed(FreshEdges(s, r.incident, ks, false), x)|;
            && multiset(t.appliedIds)[x] == applied
            && multiset(t.unmatchedIds)[x] == unmatched
            && multiset(t.alreadyTombstonedIds)[x] == multiset(EntryIds(r.entries))[x] - applied - unmatched
  {
    hide *;
    var ks := KeysOf(r);
    EdgePlanIsBurials(r, ks);
    EdgeTombstoneReply(s, r);
    EdgeMentionsAreReported(s, r.incident, ks);
    FreshEdgesAreReported(s, r.incident, ks, true, x);
    FreshEdgesAreReported(s, r.incident, ks, false, x);
    OutcomesAre();
    EdgeTombstoneCallSplits(s, r);
    ResultLists(Reports(s, Prefix(Plan(MergeEdgeTombstones(r)))));
  }

  /**
   The answer to an edge-tombstone call, exactly. An unknown incident and, after that, the first type
   number without a domain type are errors. Otherwise each mention of an edge goes, in order, to the
   list its own position decides; so an id occurs among the applied ids as often as there are distinct
   requested edges of that id in the graph and not yet tombstoned, and among the unmatched ids as often
   as there are such edges in neither.
   */
  lemma EdgeTombstoneAnswer(s: State, r: Proto.EdgeTombstoneRequest, x: string)
    ensures var answer := Respond(s, MergeEdgeTombstones(r)).tombstones;
            if r.incident !in s.incidents then answer == Err(IncidentNotFound(r.incident))
            else if !AllValid(r) then
              exists n | 0 <= n < |r.entries| ::
                && BadEdgeType(r.entries[n].typeNumber)
                && (forall j | 0 <= j < n :: !BadEdgeType(r.entries[j].typeNumber))
                && answer == Err(Backend(InvalidEdgeType(r.entries[n].typeNumber)))
            else answer == Ok(TombstoneResult(EdgeMentions(s, r.incident, KeysOf(r))))
    ensures r.incident in s.incidents && AllValid(r) ==>
              var t, ks := Respond(s, MergeEdgeTombstones(r)).tombstones.value, KeysOf(r);
              var applied := |EdgesNamed(FreshEdges(s, r.incident, ks, true), x)|;
              var unmatched := |EdgesNamed(FreshEdges(s, r.incident, ks, false), x)|;
              && multiset(t.appliedIds)[x] == applied
              && multiset(t.unmatchedIds)[x] == unmatched
              && multiset(t.alreadyTombstonedIds)[x] == multiset(EntryIds(r.entries))[x] - applied - unmatched
  {
    hide Respond, Plan, Prefix, Failure, Stop, Reports, IdsWith, BadEdgeType, EdgesNamed, FreshEdges, EntryIds, TombstoneResult;
    EdgeTombstonesFailIff(s, r);
    if r.incident in s.incidents && AllValid(r) {
      EdgeMentionCounts(s, r, x);
    }
  }

  // ---- Listing tombstones and submitting the listing again ----

  /** The listing is strictly sorted and holds exactly the tombstones; the context shows the same. */
  lemma TombstoneListing(s: State, incident: string)
    requires incident in s.incidents
    ensures var inc := s.incidents[incident];
            var ids, ks := SortedStrings(inc.nodeTombstones), E.SortedEdgeKeys(inc.edgeTombstones);
            && Tombstones(s, incident) == Ok(Proto.TombstoneSet(ids, ListEntries(ks)))
            && (forall i, j | 0 <= i < j < |ids| :: Before(ids[i], ids[j])) && Listed(ids) == inc.nodeTombstones
            && (forall i, j | 0 <= i < j < |ks| :: KeyBefore(ks[i], ks[j])) && Listed(ks) == inc.edgeTombstones
            && IncidentContext(s, incident) ==
               Ok(Proto.IncidentContext(
                    incident, Proto.Timestamp(inc.createdAt.seconds, inc.createdAt.nanos), Tombstones(s, incident).value))
  {
    var inc := s.incidents[incident];
    StringOrder();
    E.EdgeKeyOrder();
    hide TotalOrder, StringLeq, E.EdgeKeyLeq, Sorted, StrictlySorted, Before, KeyBefore;
    SortedIsSorted(inc.nodeTombstones, StringLeq);
    SortedIsSorted(inc.edgeTombstones, E.EdgeKeyLeq);
    SortedOnWire(SortedStrings(inc.nodeTombstones), E.SortedEdgeKeys(inc.edgeTombstones));
  }

  /** A tombstone listing turned into requests to another incident. */
  function NodesInto(incident: string, t: Proto.TombstoneSet, p: Option<Proto.Provenance>): Op {
    MergeNodeTombstones(Proto.NodeTombstoneRequest(incident, t.nodeIds, p))
  }

  function EdgesInto(incident: string, t: Proto.TombstoneSet, p: Option<Proto.Provenance>): Op {
    MergeEdgeTombstones(Proto.EdgeTombstoneRequest(incident, t.edgeEntries, p))
  }

  lemma ListedEntriesAreKeys(incident: string, t: Proto.TombstoneSet, ks: seq<E.EdgeKey>, p: Option<Proto.Provenance>)
    requires t.edgeEntries == ListEntries(ks)
    ensures RequestedKeys(Proto.EdgeTombstoneRequest(incident, t.edgeEntries, p), ks)
  {
  }

  lemma NodesIntoIncident(s: State, incident: string, t: Proto.TombstoneSet, p: Option<Proto.Provenance>)
    requires incident in s.incidents
    ensures var u := Perform(s, NodesInto(incident, t, p));
            && u.nodes == s.nodes && u.edges == s.edges && u.incidents.Keys == s.incidents.Keys
            && u.incidents[incident] == s.incidents[incident].(
                 nodeTombstones := s.incidents[incident].nodeTombstones + Listed(t.nodeIds))
  {
    var r := Proto.NodeTombstoneRequest(incident, t.nodeIds, p);
    var op := NodesInto(incident, t, p);
    assert op == MergeNodeTombstones(r) && !IsRead(op) && !Missing(s, op);
    hide *;
    var es := NodeBurialsOf(incident, t.nodeIds);
    NodePlanIsBurials(r);
    WriteOutcome(s, op, es);
    BurialsGrowTombstones(s, incident, t.nodeIds);
    BurialsKeepTheRest(s, es, incident);
  }

  lemma EdgesIntoIncident(s: State, incident: string, t: Proto.TombstoneSet, ks: seq<E.EdgeKey>, p: Option<Proto.Provenance>)
    requires incident in s.incidents && t.edgeEntries == ListEntries(ks)
    ensures var u := Perform(s, EdgesInto(incident, t, p));
            && u.nodes == s.nodes && u.edges == s.edges && u.incidents.Keys == s.incidents.Keys
            && u.incidents[incident] == s.incidents[incident].(
                 edgeTombstones := s.incidents[incident].edgeTombstones + Listed(ks))
  {
    var r := Proto.EdgeTombstoneRequest(incident, t.edgeEntries, p);
    var op := EdgesInto(incident, t, p);
    assert op == MergeEdgeTombstones(r) && !IsRead(op) && !Missing(s, op);
    hide *;
    var es := EdgeBurialsOf(incident, ks);
    ListedEntriesAreKeys(incident, t, ks, p);
    EdgePlanIsBurials(r, ks);
    WriteOutcome(s, op, es);
    EdgeBurialsGrowTombstones(s, incident, ks);
    BurialsKeepTheRest(s, es, incident);
  }

  lemma BurialKeepsTheRest(s: State, e: Event, incident: string)
    requires incident in s.incidents && (e.BuryNode? || e.BuryEdge?) && e.incident == incident
    ensures var t := Step(s, e);
            && t.incidents.Keys == s.incidents.Keys
            && t.incidents[incident].createdAt == s.incidents[incident].createdAt
            && (e.BuryNode? ==> t.incidents[incident].edgeTombstones == s.incidents[incident].edgeTombstones)
            && (e.BuryEdge? ==> t.incidents[incident].nodeTombstones == s.incidents[incident].nodeTombstones)
  {
  }

  lemma {:induction false} BurialsKeepTheRest(s: State, es: seq<Event>, incident: string)
    requires incident in s.incidents
    requires forall i | 0 <= i < |es| :: (es[i].BuryNode? || es[i].BuryEdge?) && es[i].incident == incident
    ensures var t := Replay(s, es);
            && t.incidents.Keys == s.incidents.Keys
            && t.incidents[incident].createdAt == s.incidents[incident].createdAt
            && ((forall i | 0 <= i < |es| :: es[i].BuryNode?) ==>
                  t.incidents[incident].edgeTombstones == s.incidents[incident].edgeTombstones)
            && ((forall i | 0 <= i < |es| :: es[i].BuryEdge?) ==>
                  t.incidents[incident].nodeTombstones == s.incidents[incident].nodeTombstones)
  {
    hide Replay, Reports, ReportOf, Step;
    ReplayNothing(s);
    if es != [] {
      var init, last := es[..|es| - 1], es[|es| - 1];
      assert es == init + [last];
      BurialsKeepTheRest(s, init, incident);
      ReplaySnoc(s, init, last);
      BurialKeepsTheRest(Replay(s, init), last, incident);
    }
  }

  /**
   Submitting one incident's tombstone listing to another incident leaves the other with exactly the
   union of both tombstone sets and touches nothing else of it; a new incident becomes a copy.
   */
  lemma TombstonesTransfer(s: State, from: string, to: string, p: Option<Proto.Provenance>)
    requires from in s.incidents && to in s.incidents
    ensures var t := Tombstones(s, from).value;
            var u := Perform(Perform(s, NodesInto(to, t, p)), EdgesInto(to, t, p));
            && u.nodes == s.nodes && u.edges == s.edges && to in u.incidents
            && u.incidents[to] == IncidentState(
                 s.incidents[to].createdAt,
                 s.incidents[to].nodeTombstones + s.incidents[from].nodeTombstones,
                 s.incidents[to].edgeTombstones + s.incidents[from].edgeTombstones)
  {
    hide *;
    TombstoneListing(s, from);
    var t, ks := Tombstones(s, from).value, E.SortedEdgeKeys(s.incidents[from].edgeTombstones);
    NodesIntoIncident(s, to, t, p);
    EdgesIntoIncident(Perform(s, NodesInto(to, t, p)), to, t, ks, p);
  }
}
