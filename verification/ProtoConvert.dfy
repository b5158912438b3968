/** Conversions between the wire messages and the domain lattices, both ways. */
module ProtoConvert {
  import opened Wrappers
  import opened Orders
  import opened Provenances
  import Proto
  import N = NodeLattices
  import E = EdgeLattices

  datatype ConversionError = InvalidNodeType(number: int) | InvalidEdgeType(number: int)

  // ---- Enum numbers ----

  function NodeTypeFromNumber(value: int): (r: Result<N.NodeType, ConversionError>)
    ensures r.Ok? ==> NodeTypeToNumber(r.value) == value
    ensures r.Ok? <==> Proto.NODE_TYPE_SERVICE <= value <= Proto.NODE_TYPE_MECHANISM
  {
    if value == Proto.NODE_TYPE_SERVICE then Ok(N.Service)
    else if value == Proto.NODE_TYPE_DEPENDENCY then Ok(N.Dependency)
    else if value == Proto.NODE_TYPE_INFRASTRUCTURE then Ok(N.Infrastructure)
    else if value == Proto.NODE_TYPE_MECHANISM then Ok(N.Mechanism)
    else Err(InvalidNodeType(value))
  }

  function NodeTypeToNumber(t: N.NodeType): (value: int)
    ensures Proto.NODE_TYPE_SERVICE <= value <= Proto.NODE_TYPE_MECHANISM
  {
    match t
    case Service => Proto.NODE_TYPE_SERVICE
    case Dependency => Proto.NODE_TYPE_DEPENDENCY
    case Infrastructure => Proto.NODE_TYPE_INFRASTRUCTURE
    case Mechanism => Proto.NODE_TYPE_MECHANISM
  }

  function EdgeTypeFromNumber(value: int): (r: Result<E.EdgeType, ConversionError>)
    ensures r.Ok? ==> EdgeTypeToNumber(r.value) == value
    ensures r.Ok? <==> Proto.EDGE_TYPE_DEPENDS_ON <= value <= Proto.EDGE_TYPE_MANIFESTS_AS
  {
    if value == Proto.EDGE_TYPE_DEPENDS_ON then Ok(E.DependsOn)
    else if value == Proto.EDGE_TYPE_PROPAGATES_TO then Ok(E.PropagatesTo)
    else if value == Proto.EDGE_TYPE_MANIFESTS_AS then Ok(E.ManifestsAs)
    else Err(InvalidEdgeType(value))
  }

  function EdgeTypeToNumber(t: E.EdgeType): (value: int)
    ensures Proto.EDGE_TYPE_DEPENDS_ON <= value <= Proto.EDGE_TYPE_MANIFESTS_AS
  {
    match t
    case DependsOn => Proto.EDGE_TYPE_DEPENDS_ON
    case PropagatesTo => Proto.EDGE_TYPE_PROPAGATES_TO
    case ManifestsAs => Proto.EDGE_TYPE_MANIFESTS_AS
  }

  // ---- Provenance ----

  /**
   Whether, of two entries of one incoming list with the same identity, the first or the last is
   collected into the set. That is decided inside the standard library, so it is left open here:
   nothing in the project depends on the answer.
   */
  const COLLECT_KEEPS_FIRST: bool

  function ProvenanceToDomain(p: Proto.Provenance): Provenance {
    var t := match p.timestamp
      case Some(t) => Timestamp(t.seconds, t.nanos)
      case None => Timestamp(0, 0);
    Provenance(p.source, p.trigger, t)
  }

  function ProvenanceToProto(k: ProvKey, t: Timestamp): Proto.Provenance {
    Proto.Provenance(k.source, k.trigger, Some(Proto.Timestamp(t.seconds, t.nanos)))
  }

  function Gather(sofar: ProvSet, p: Provenance): ProvSet {
    if COLLECT_KEEPS_FIRST && p.Key() in sofar then sofar else sofar[p.Key() := p.timestamp]
  }

  /** A provenance list gathered into a set. */
  function Collect(ps: seq<Proto.Provenance>): ProvSet {
    if ps == [] then map[] else Gather(Collect(ps[..|ps| - 1]), ProvenanceToDomain(ps[|ps| - 1]))
  }

  lemma CollectSnoc(ps: seq<Proto.Provenance>, p: Proto.Provenance)
    ensures Collect(ps + [p]) == Gather(Collect(ps), ProvenanceToDomain(p))
  {
    assert (ps + [p])[..|ps|] == ps;
  }

  /** The records of a set, in the order of a list of their identities. */
  function ListRecords(s: ProvSet, ks: seq<ProvKey>): (ps: seq<Proto.Provenance>)
    requires forall k | k in ks :: k in s
    ensures |ps| == |ks|
    ensures forall i | 0 <= i < |ks| :: ps[i] == ProvenanceToProto(ks[i], s[ks[i]])
  {
    if ks == [] then []
    else ListRecords(s, ks[..|ks| - 1]) + [ProvenanceToProto(ks[|ks| - 1], s[ks[|ks| - 1]])]
  }

  /** A provenance set listed in its iteration order. */
  function ListProvenance(s: ProvSet): (ps: seq<Proto.Provenance>)
    ensures |ps| == |s|
  {
    KeyOrder();
    ListRecords(s, Sorted(s.Keys, KeyLeq))
  }

  /** Record `p` of a request, filed under `k` with timestamp `t`; a missing timestamp is the epoch. */
  predicate FiledAs(p: Proto.Provenance, k: ProvKey, t: Timestamp) {
    && p.source == k.source && p.trigger == k.trigger
    && match p.timestamp
       case Some(given) => t.seconds == given.seconds && t.nanos == given.nanos
       case None => t.seconds == 0 && t.nanos == 0
  }

  lemma DomainRecordIsFiled(p: Proto.Provenance)
    ensures FiledAs(p, ProvenanceToDomain(p).Key(), ProvenanceToDomain(p).timestamp)
  {
  }

  /** A set collected from a list holds the identities of the list, each with a listed timestamp. */
  lemma {:induction false} CollectHoldsTheList(ps: seq<Proto.Provenance>)
    ensures forall i | 0 <= i < |ps| :: ProvKey(ps[i].source, ps[i].trigger) in Collect(ps)
    ensures forall k | k in Collect(ps) ::
              exists i :: 0 <= i < |ps| && FiledAs(ps[i], k, Collect(ps)[k])
  {
    if ps != [] {
      var rest, last := ps[..|ps| - 1], ps[|ps| - 1];
      CollectHoldsTheList(rest);
      DomainRecordIsFiled(last);
      assert Collect(ps) == Gather(Collect(rest), ProvenanceToDomain(last));
      hide Collect, FiledAs;
      assert ProvenanceToDomain(last).Key() == ProvKey(last.source, last.trigger);
      forall k | k in Collect(ps) ensures exists i :: 0 <= i < |ps| && FiledAs(ps[i], k, Collect(ps)[k]) {
        if k in Collect(rest) && Collect(rest)[k] == Collect(ps)[k] {
          var i :| 0 <= i < |rest| && FiledAs(rest[i], k, Collect(rest)[k]);
          assert ps[i] == rest[i];
        } else {
          assert ps[|ps| - 1] == last;
        }
      }
      forall i | 0 <= i < |ps| ensures ProvKey(ps[i].source, ps[i].trigger) in Collect(ps) {
        assert i < |rest| ==> ps[i] == rest[i];
      }
    }
  }

  lemma {:induction false} CollectListed(s: ProvSet, ks: seq<ProvKey>)
    requires forall k | k in ks :: k in s
    requires forall i, j | 0 <= i < j < |ks| :: ks[i] != ks[j]
    ensures Collect(ListRecords(s, ks)) == map k | k in ks :: s[k]
  {
    if ks != [] {
      var rest, last := ks[..|ks| - 1], ks[|ks| - 1];
      var p := ProvenanceToProto(last, s[last]);
      CollectListed(s, rest);
      assert ListRecords(s, ks) == ListRecords(s, rest) + [p];
      hide Collect, ListRecords;
      CollectSnoc(ListRecords(s, rest), p);
      assert ks == rest + [last];
      OneMoreRecord(s, rest, last);
    }
  }

  lemma OneMoreRecord(s: ProvSet, ks: seq<ProvKey>, last: ProvKey)
    requires (forall k | k in ks :: k in s) && last in s && last !in ks
    ensures Gather(map k | k in ks :: s[k], Provenance(last.source, last.trigger, s[last])) ==
            map k | k in ks + [last] :: s[k]
  {
  }

  /** Listing a provenance set and collecting the list gives the set back, timestamps included. */
  lemma ProvenanceRoundTrip(s: ProvSet)
    ensures Collect(ListProvenance(s)) == s
  {
    KeyOrder();
    hide Collect, ListRecords, KeyLeq, Sorted, TotalOrder;
    var ks := Sorted(s.Keys, KeyLeq);
    SortedIsSorted(s.Keys, KeyLeq);
    CollectListed(s, ks);
    assert (map k | k in ks :: s[k]) == s;
  }

  /** Sets with the same identities are listed with the same identities in the same order. */
  ghost predicate SameProvenance(ps: seq<Proto.Provenance>, qs: seq<Proto.Provenance>) {
    |ps| == |qs| && forall i | 0 <= i < |ps| :: ps[i].source == qs[i].source && ps[i].trigger == qs[i].trigger
  }

  // ---- Nodes ----

  function ProtoNodeToDomain(node: Proto.Node): (r: Result<(string, N.NodeLattice), ConversionError>)
    ensures r.Ok? ==> r.value.0 == node.id && !r.value.1.HasConflict()
  {
    match NodeTypeFromNumber(node.typeNumber)
    case Err(e) => Err(e)
    case Ok(t) => Ok((node.id, N.New(t, node.nodeLabel, node.hypothetical, Collect(node.provenance))))
  }

  function DomainNodeToProto(id: string, n: N.NodeLattice): Proto.Node {
    Proto.Node(
      id,
      match n.nodeType { case Agreed(t) => NodeTypeToNumber(t) case Top => Proto.NODE_TYPE_UNSPECIFIED },
      match n.nodeLabel { case Agreed(l) => l case Top => "" },
      n.hypothetical,
      ListProvenance(n.provenance))
  }

  lemma NodeFromItsFields(id: string, n: N.NodeLattice, ps: seq<Proto.Provenance>)
    requires !n.HasConflict() && Collect(ps) == n.provenance
    ensures ProtoNodeToDomain(
              Proto.Node(id, NodeTypeToNumber(n.nodeType.value), n.nodeLabel.value, n.hypothetical, ps)) == Ok((id, n))
  {
  }

  /** Exporting a node that is not in conflict and reading it back loses nothing, timestamps included. */
  lemma NodeRoundTrip(id: string, n: N.NodeLattice)
    requires !n.HasConflict()
    ensures ProtoNodeToDomain(DomainNodeToProto(id, n)) == Ok((id, n))
  {
    ProvenanceRoundTrip(n.provenance);
    NodeFromItsFields(id, n, ListProvenance(n.provenance));
  }

  // ---- Edges ----

  function ProtoEdgeToDomain(edge: Proto.Edge): Result<(E.EdgeKey, E.EdgeLattice), ConversionError> {
    match EdgeTypeFromNumber(edge.typeNumber)
    case Err(e) => Err(e)
    case Ok(t) => Ok((E.EdgeKey(edge.source, edge.target, t), E.EdgeLattice(Collect(edge.provenance))))
  }

  function DomainEdgeToProto(k: E.EdgeKey, e: E.EdgeLattice): Proto.Edge {
    Proto.Edge(k.source, k.target, EdgeTypeToNumber(k.edgeType), ListProvenance(e.provenance))
  }

  lemma EdgeFromItsFields(k: E.EdgeKey, e: E.EdgeLattice, ps: seq<Proto.Provenance>)
    requires Collect(ps) == e.provenance
    ensures ProtoEdgeToDomain(Proto.Edge(k.source, k.target, EdgeTypeToNumber(k.edgeType), ps)) == Ok((k, e))
  {
  }

  lemma EdgeRoundTrip(k: E.EdgeKey, e: E.EdgeLattice)
    ensures ProtoEdgeToDomain(DomainEdgeToProto(k, e)) == Ok((k, e))
  {
    ProvenanceRoundTrip(e.provenance);
    EdgeFromItsFields(k, e, ListProvenance(e.provenance));
  }

  // ---- The rendered id of an edge ----

  function Digits(n: nat): string {
    if n < 10 then ["0123456789"[n]] else Digits(n / 10) + ["0123456789"[n % 10]]
  }

  function Decimal(n: int): string {
    if n < 0 then "-" + Digits(-n) else Digits(n)
  }

  function RenderEdgeId(source: string, target: string, typeNumber: int): string {
    source + "->" + target + ":" + Decimal(typeNumber)
  }

  function EdgeId(k: E.EdgeKey): string {
    RenderEdgeId(k.source, k.target, EdgeTypeToNumber(k.edgeType))
  }
}
