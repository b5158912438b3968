/**
 The store as an event machine. One event is one entry a write loop processes; one step is one
 iteration of such a loop. A batch is a sequence of events, a run of batches is their concatenation.
 */
module Events {
  import opened Provenances
  import opened GraphLattices
  import N = NodeLattices
  import E = EdgeLattices
  import ProtoConvert

  datatype IncidentState = IncidentState(
    createdAt: Timestamp,
    nodeTombstones: set<string>,
    edgeTombstones: set<E.EdgeKey>)

  datatype State = State(nodes: NodeMap, edges: EdgeMap, incidents: map<string, IncidentState>)

  const EMPTY := State(map[], map[], map[])

  /** What a request can propose for a node: a definite type and label. */
  type Proposal = n: N.NodeLattice | !n.HasConflict() witness N.New(N.Service, "", true, map[])

  datatype Event =
    | PutNode(id: string, node: Proposal)
    | PutEdge(key: E.EdgeKey, edge: E.EdgeLattice)
    | Open(incident: string, createdAt: Timestamp)
    | BuryNode(incident: string, id: string)
    | BuryEdge(incident: string, key: E.EdgeKey)

  // ---- One iteration: its effect and what it reports ----

  function Step(s: State, e: Event): State {
    match e
    case PutNode(id, n) =>
      if id !in s.nodes then s.(nodes := s.nodes[id := n])
      else
        var candidate := N.Join(s.nodes[id], n);
        if candidate.HasConflict() then s else s.(nodes := s.nodes[id := candidate])
    case PutEdge(k, l) =>
      s.(edges := s.edges[k := if k in s.edges then E.Join(s.edges[k], l) else l])
    case Open(i, now) =>
      if i in s.incidents then s else s.(incidents := s.incidents[i := IncidentState(now, {}, {})])
    case BuryNode(i, id) =>
      if i !in s.incidents then s
      else
        var inc := s.incidents[i];
        s.(incidents := s.incidents[i := inc.(nodeTombstones := inc.nodeTombstones + {id})])
    case BuryEdge(i, k) =>
      if i !in s.incidents then s
      else
        var inc := s.incidents[i];
        s.(incidents := s.incidents[i := inc.(edgeTombstones := inc.edgeTombstones + {k})])
  }

  datatype Outcome =
    | Created
    | Merged
    | Rejected(field: string, existingValue: string)
    | Opened
    | AlreadyOpen
    | Applied
    | AlreadyTombstoned
    | Unmatched
    | NoIncident

  datatype Report = Report(outcome: Outcome, id: string)

  /** The id an entry is reported under. */
  function Subject(e: Event): string {
    match e
    case PutNode(id, _) => id
    case PutEdge(k, _) => ProtoConvert.EdgeId(k)
    case Open(i, _) => i
    case BuryNode(_, id) => id
    case BuryEdge(_, k) => ProtoConvert.EdgeId(k)
  }

  /** The stored value a rejection quotes. */
  function ExistingValue(n: N.NodeLattice, field: string): string {
    if field == "type" then (if n.nodeType.Agreed? then N.Display(n.nodeType.value) else "")
    else if field == "label" then (if n.nodeLabel.Agreed? then n.nodeLabel.value else "")
    else ""
  }

  function ReportOf(s: State, e: Event): (r: Report)
    ensures r.id == Subject(e)
    ensures e.PutNode? ==> r.outcome.Created? || r.outcome.Merged? || r.outcome.Rejected?
    ensures e.PutEdge? ==> r.outcome.Created? || r.outcome.Merged?
    ensures (e.BuryNode? || e.BuryEdge?) && e.incident in s.incidents ==>
              r.outcome.Applied? || r.outcome.AlreadyTombstoned? || r.outcome.Unmatched?
  {
    match e
    case PutNode(id, n) =>
      if id !in s.nodes then Report(Created, id)
      else
        var candidate := N.Join(s.nodes[id], n);
        if candidate.HasConflict() then
          var field := if candidate.ConflictField().Some? then candidate.ConflictField().value else "unknown";
          Report(Rejected(field, ExistingValue(s.nodes[id], field)), id)
        else Report(Merged, id)
    case PutEdge(k, _) =>
      Report(if k in s.edges then Merged else Created, ProtoConvert.EdgeId(k))
    case Open(i, _) =>
      Report(if i in s.incidents then AlreadyOpen else Opened, i)
    case BuryNode(i, id) =>
      Report(
        if i !in s.incidents then NoIncident
        else if id in s.incidents[i].nodeTombstones then AlreadyTombstoned
        else if id in s.nodes then Applied else Unmatched,
        id)
    case BuryEdge(i, k) =>
      Report(
        if i !in s.incidents then NoIncident
        else if k in s.incidents[i].edgeTombstones then AlreadyTombstoned
        else if k in s.edges then Applied else Unmatched,
        ProtoConvert.EdgeId(k))
  }

  // ---- Sequences of iterations ----

  function Replay(s: State, es: seq<Event>): State {
    if es == [] then s else Step(Replay(s, es[..|es| - 1]), es[|es| - 1])
  }

  function Reports(s: State, es: seq<Event>): (rs: seq<Report>)
    ensures |rs| == |es|
  {
    if es == [] then []
    else Reports(s, es[..|es| - 1]) + [ReportOf(Replay(s, es[..|es| - 1]), es[|es| - 1])]
  }

  lemma ReplayNothing(s: State)
    ensures Replay(s, []) == s && Reports(s, []) == []
  {
  }

  lemma ReplaySnoc(s: State, es: seq<Event>, e: Event)
    ensures Replay(s, es + [e]) == Step(Replay(s, es), e)
    ensures Reports(s, es + [e]) == Reports(s, es) + [ReportOf(Replay(s, es), e)]
  {
    assert (es + [e])[..|es|] == es;
  }

  lemma {:induction false} ReplayConcat(s: State, a: seq<Event>, b: seq<Event>)
    ensures Replay(s, a + b) == Replay(Replay(s, a), b)
    ensures Reports(s, a + b) == Reports(s, a) + Reports(Replay(s, a), b)
  {
    hide Replay, Reports, ReportOf, Step;
    ReplayNothing(Replay(s, a));
    if b == [] {
      assert a + b == a;
    } else {
      var init, last := b[..|b| - 1], b[|b| - 1];
      ReplayConcat(s, a, init);
      assert a + b == (a + init) + [last] && b == init + [last];
      ReplaySnoc(s, a + init, last);
      ReplaySnoc(Replay(s, a), init, last);
    }
  }

  /** Each report is made in the state the earlier iterations left. */
  lemma {:induction false} ReportsAt(s: State, es: seq<Event>, i: nat)
    requires i < |es|
    ensures Reports(s, es)[i] == ReportOf(Replay(s, es[..i]), es[i])
  {
    hide Replay, Reports, ReportOf, Step;
    assert es == es[..i + 1] + es[i + 1..];
    ReplayConcat(s, es[..i + 1], es[i + 1..]);
    assert es[..i + 1] == es[..i] + [es[i]];
    ReplaySnoc(s, es[..i], es[i]);
  }
}
