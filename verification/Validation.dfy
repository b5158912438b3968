/** The checks every request passes before it reaches the store. */
module Validation {
  import opened Wrappers
  import Proto

  datatype ValidationError =
    | EmptyNodeId
    | UnspecifiedNodeType
    | EmptyNodeLabel
    | EmptyEdgeSource
    | EmptyEdgeTarget
    | SelfLoop(id: string)
    | UnspecifiedEdgeType
    | MissingProvenance
    | EmptyProvenanceSource
    | EmptyProvenanceTrigger
    | EmptyIncidentId
    | EmptyTombstoneSet

  type Verdict = Result<(), ValidationError>

  function ValidateProvenance(p: Proto.Provenance): (r: Verdict)
    ensures r.Ok? <==> p.source != "" && p.trigger != ""
    ensures r == Err(EmptyProvenanceSource) <==> p.source == ""
    ensures r == Err(EmptyProvenanceTrigger) <==> p.source != "" && p.trigger == ""
  {
    if p.source == "" then Err(EmptyProvenanceSource)
    else if p.trigger == "" then Err(EmptyProvenanceTrigger)
    else Ok(())
  }

  function ValidateProvenances(ps: seq<Proto.Provenance>): (r: Verdict)
    ensures r.Ok? <==> forall p | p in ps :: p.source != "" && p.trigger != ""
    ensures r.Err? ==> r.error.EmptyProvenanceSource? || r.error.EmptyProvenanceTrigger?
    ensures forall i |
              && 0 <= i < |ps|
              && (forall j | 0 <= j < i :: ps[j].source != "" && ps[j].trigger != "") ::
              && (ps[i].source == "" ==> r == Err(EmptyProvenanceSource))
              && (ps[i].source != "" && ps[i].trigger == "" ==> r == Err(EmptyProvenanceTrigger))
  {
    assert ps != [] ==> ps[0] in ps;
    if ps == [] then Ok(())
    else if ValidateProvenance(ps[0]).Err? then ValidateProvenance(ps[0])
    else
      assert forall p :: p in ps <==> p == ps[0] || p in ps[1..];
      assert forall i | 0 < i < |ps| :: ps[i] == ps[1..][i - 1];
      ValidateProvenances(ps[1..])
  }

  function ValidateNode(n: Proto.Node): (r: Verdict)
    ensures r.Ok? <==>
            && n.id != "" && n.nodeLabel != "" && n.typeNumber != Proto.NODE_TYPE_UNSPECIFIED
            && n.provenance != []
            && forall p | p in n.provenance :: p.source != "" && p.trigger != ""
    ensures r == Err(EmptyNodeId) <==> n.id == ""
    ensures r == Err(UnspecifiedNodeType) <==> n.id != "" && n.typeNumber == Proto.NODE_TYPE_UNSPECIFIED
    ensures r == Err(EmptyNodeLabel) <==>
            n.id != "" && n.typeNumber != Proto.NODE_TYPE_UNSPECIFIED && n.nodeLabel == ""
    ensures n.id != "" && n.typeNumber != Proto.NODE_TYPE_UNSPECIFIED && n.nodeLabel != "" ==>
              && (n.provenance == [] ==> r == Err(MissingProvenance))
              && forall i |
                   && 0 <= i < |n.provenance|
                   && (forall j | 0 <= j < i :: n.provenance[j].source != "" && n.provenance[j].trigger != "") ::
                   && (n.provenance[i].source == "" ==> r == Err(EmptyProvenanceSource))
                   && (n.provenance[i].source != "" && n.provenance[i].trigger == "" ==> r == Err(EmptyProvenanceTrigger))
  {
    if n.id == "" then Err(EmptyNodeId)
    else if n.typeNumber == Proto.NODE_TYPE_UNSPECIFIED then Err(UnspecifiedNodeType)
    else if n.nodeLabel == "" then Err(EmptyNodeLabel)
    else if n.provenance == [] then Err(MissingProvenance)
    else ValidateProvenances(n.provenance)
  }

  function ValidateEdge(e: Proto.Edge): (r: Verdict)
    ensures r.Ok? <==>
            && e.source != "" && e.target != "" && e.source != e.target
            && e.typeNumber != Proto.EDGE_TYPE_UNSPECIFIED
            && e.provenance != []
            && forall p | p in e.provenance :: p.source != "" && p.trigger != ""
    ensures r == Err(EmptyEdgeSource) <==> e.source == ""
    ensures r == Err(EmptyEdgeTarget) <==> e.source != "" && e.target == ""
    ensures r == Err(SelfLoop(e.source)) <==> e.source != "" && e.source == e.target
    ensures r == Err(UnspecifiedEdgeType) <==>
            e.source != "" && e.target != "" && e.source != e.target && e.typeNumber == Proto.EDGE_TYPE_UNSPECIFIED
    ensures e.source != "" && e.target != "" && e.source != e.target && e.typeNumber != Proto.EDGE_TYPE_UNSPECIFIED ==>
              && (e.provenance == [] ==> r == Err(MissingProvenance))
              && forall i |
                   && 0 <= i < |e.provenance|
                   && (forall j | 0 <= j < i :: e.provenance[j].source != "" && e.provenance[j].trigger != "") ::
                   && (e.provenance[i].source == "" ==> r == Err(EmptyProvenanceSource))
                   && (e.provenance[i].source != "" && e.provenance[i].trigger == "" ==> r == Err(EmptyProvenanceTrigger))
  {
    if e.source == "" then Err(EmptyEdgeSource)
    else if e.target == "" then Err(EmptyEdgeTarget)
    else if e.source == e.target then Err(SelfLoop(e.source))
    else if e.typeNumber == Proto.EDGE_TYPE_UNSPECIFIED then Err(UnspecifiedEdgeType)
    else if e.provenance == [] then Err(MissingProvenance)
    else ValidateProvenances(e.provenance)
  }

  function ValidateNodes(ns: seq<Proto.Node>): (r: Verdict)
    ensures r.Ok? <==> forall n | n in ns :: ValidateNode(n).Ok?
  {
    if ns == [] then Ok(())
    else if ValidateNode(ns[0]).Err? then ValidateNode(ns[0])
    else
      assert forall n :: n in ns <==> n == ns[0] || n in ns[1..];
      ValidateNodes(ns[1..])
  }

  function ValidateEdges(es: seq<Proto.Edge>): (r: Verdict)
    ensures r.Ok? <==> forall e | e in es :: ValidateEdge(e).Ok?
  {
    if es == [] then Ok(())
    else if ValidateEdge(es[0]).Err? then ValidateEdge(es[0])
    else
      assert forall e :: e in es <==> e == es[0] || e in es[1..];
      ValidateEdges(es[1..])
  }

  function ValidateHypothesisDelta(d: Proto.HypothesisDelta): (r: Verdict)
    ensures r.Ok? <==>
            && (forall n | n in d.nodes :: ValidateNode(n).Ok?)
            && (forall e | e in d.edges :: ValidateEdge(e).Ok?)
  {
    if ValidateNodes(d.nodes).Err? then ValidateNodes(d.nodes) else ValidateEdges(d.edges)
  }

  lemma {:induction false} FirstBadNode(ns: seq<Proto.Node>, i: nat)
    requires i < |ns| && ValidateNode(ns[i]).Err?
    requires forall j | 0 <= j < i :: ValidateNode(ns[j]).Ok?
    ensures ValidateNodes(ns) == ValidateNode(ns[i])
  {
    if i > 0 {
      FirstBadNode(ns[1..], i - 1);
    }
  }

  lemma {:induction false} FirstBadEdge(es: seq<Proto.Edge>, i: nat)
    requires i < |es| && ValidateEdge(es[i]).Err?
    requires forall j | 0 <= j < i :: ValidateEdge(es[j]).Ok?
    ensures ValidateEdges(es) == ValidateEdge(es[i])
  {
    if i > 0 {
      FirstBadEdge(es[1..], i - 1);
    }
  }

  /** A rejected delta is rejected for its first bad node or, when no node is bad, its first bad edge. */
  lemma RejectionNamesFirstOffender(d: Proto.HypothesisDelta, i: nat)
    ensures i < |d.nodes| && ValidateNode(d.nodes[i]).Err? && (forall j | 0 <= j < i :: ValidateNode(d.nodes[j]).Ok?)
            ==> ValidateHypothesisDelta(d) == ValidateNode(d.nodes[i])
    ensures i < |d.edges| && ValidateEdge(d.edges[i]).Err? && (forall j | 0 <= j < i :: ValidateEdge(d.edges[j]).Ok?)
            && (forall n | n in d.nodes :: ValidateNode(n).Ok?)
            ==> ValidateHypothesisDelta(d) == ValidateEdge(d.edges[i])
  {
    if i < |d.nodes| && ValidateNode(d.nodes[i]).Err? && (forall j | 0 <= j < i :: ValidateNode(d.nodes[j]).Ok?) {
      FirstBadNode(d.nodes, i);
    }
    if i < |d.edges| && ValidateEdge(d.edges[i]).Err? && (forall j | 0 <= j < i :: ValidateEdge(d.edges[j]).Ok?) {
      FirstBadEdge(d.edges, i);
    }
  }

  function ValidateAttribution(p: Option<Proto.Provenance>): (r: Verdict)
    ensures r.Ok? <==> p.Some? && p.value.source != "" && p.value.trigger != ""
    ensures r == Err(MissingProvenance) <==> p == None
    ensures r == Err(EmptyProvenanceSource) <==> p.Some? && p.value.source == ""
    ensures r == Err(EmptyProvenanceTrigger) <==> p.Some? && p.value.source != "" && p.value.trigger == ""
  {
    match p
    case Some(p) => ValidateProvenance(p)
    case None => Err(MissingProvenance)
  }

  function ValidateNodeTombstoneRequest(req: Proto.NodeTombstoneRequest): (r: Verdict)
    ensures r.Ok? <==>
            && req.incident != "" && req.nodeIds != []
            && req.provenance.Some? && req.provenance.value.source != "" && req.provenance.value.trigger != ""
    ensures r == Err(EmptyIncidentId) <==> req.incident == ""
    ensures r == Err(EmptyTombstoneSet) <==> req.incident != "" && req.nodeIds == []
    ensures req.incident != "" && req.nodeIds != [] ==>
              && (r == Err(MissingProvenance) <==> req.provenance == None)
              && (r == Err(EmptyProvenanceSource) <==> req.provenance.Some? && req.provenance.value.source == "")
              && (r == Err(EmptyProvenanceTrigger) <==>
                    req.provenance.Some? && req.provenance.value.source != "" && req.provenance.value.trigger == "")
  {
    if req.incident == "" then Err(EmptyIncidentId)
    else if req.nodeIds == [] then Err(EmptyTombstoneSet)
    else ValidateAttribution(req.provenance)
  }

  function ValidateEntries(es: seq<Proto.EdgeTombstoneEntry>): (r: Verdict)
    ensures r.Ok? <==>
            forall e | e in es :: e.source != "" && e.target != "" && e.typeNumber != Proto.EDGE_TYPE_UNSPECIFIED
    ensures r.Err? ==> r.error.EmptyEdgeSource? || r.error.EmptyEdgeTarget? || r.error.UnspecifiedEdgeType?
    ensures forall i |
              && 0 <= i < |es|
              && (forall j | 0 <= j < i ::
                    es[j].source != "" && es[j].target != "" && es[j].typeNumber != Proto.EDGE_TYPE_UNSPECIFIED) ::
              && (es[i].source == "" ==> r == Err(EmptyEdgeSource))
              && (es[i].source != "" && es[i].target == "" ==> r == Err(EmptyEdgeTarget))
              && (es[i].source != "" && es[i].target != "" && es[i].typeNumber == Proto.EDGE_TYPE_UNSPECIFIED ==>
                    r == Err(UnspecifiedEdgeType))
  {
    assert es != [] ==> es[0] in es;
    if es == [] then Ok(())
    else if es[0].source == "" then Err(EmptyEdgeSource)
    else if es[0].target == "" then Err(EmptyEdgeTarget)
    else if es[0].typeNumber == Proto.EDGE_TYPE_UNSPECIFIED then Err(UnspecifiedEdgeType)
    else
      assert forall e :: e in es <==> e == es[0] || e in es[1..];
      assert forall i | 0 < i < |es| :: es[i] == es[1..][i - 1];
      ValidateEntries(es[1..])
  }

  function ValidateEdgeTombstoneRequest(req: Proto.EdgeTombstoneRequest): (r: Verdict)
    ensures r.Ok? <==>
            && req.incident != "" && req.entries != []
            && req.provenance.Some? && req.provenance.value.source != "" && req.provenance.value.trigger != ""
            && forall e | e in req.entries ::
                 e.source != "" && e.target != "" && e.typeNumber != Proto.EDGE_TYPE_UNSPECIFIED
    ensures r == Err(EmptyIncidentId) <==> req.incident == ""
    ensures r == Err(EmptyTombstoneSet) <==> req.incident != "" && req.entries == []
    ensures req.incident != "" && req.entries != [] ==>
              && (r == Err(MissingProvenance) <==> req.provenance == None)
              && (r == Err(EmptyProvenanceSource) <==> req.provenance.Some? && req.provenance.value.source == "")
              && (r == Err(EmptyProvenanceTrigger) <==>
                    req.provenance.Some? && req.provenance.value.source != "" && req.provenance.value.trigger == "")
    ensures && req.incident != "" && req.entries != []
            && req.provenance.Some? && req.provenance.value.source != "" && req.provenance.value.trigger != "" ==>
              forall i |
                && 0 <= i < |req.entries|
                && (forall j | 0 <= j < i ::
                      && req.entries[j].source != "" && req.entries[j].target != ""
                      && req.entries[j].typeNumber != Proto.EDGE_TYPE_UNSPECIFIED) ::
                var e := req.entries[i];
                && (e.source == "" ==> r == Err(EmptyEdgeSource))
                && (e.source != "" && e.target == "" ==> r == Err(EmptyEdgeTarget))
                && (e.source != "" && e.target != "" && e.typeNumber == Proto.EDGE_TYPE_UNSPECIFIED ==>
                      r == Err(UnspecifiedEdgeType))
  {
    if req.incident == "" then Err(EmptyIncidentId)
    else if req.entries == [] then Err(EmptyTombstoneSet)
    else if ValidateAttribution(req.provenance).Err? then ValidateAttribution(req.provenance)
    else ValidateEntries(req.entries)
  }

  function ValidateIncidentId(id: string): (r: Verdict)
    ensures r == if id != "" then Ok(()) else Err(EmptyIncidentId)
  {
    if id == "" then Err(EmptyIncidentId) else Ok(())
  }
}
