/**
 What the wire fields mean: every conversion, number, name, id and listing order, field by field and
 with the literal values clients see.
 */
module WireFormat {
  import opened Wrappers
  import opened Orders
  import opened Provenances
  import opened Events
  import opened ProtoConvert
  import opened StoreSpec
  import Proto
  import N = NodeLattices
  import E = EdgeLattices

  // ---- Type numbers and names ----

  /** The number of every type, the type of every number, and the name a conflict quotes. */
  lemma TypeNumbers(number: int)
    ensures NodeTypeFromNumber(number) ==
            if number == 1 then Ok(N.Service)
            else if number == 2 then Ok(N.Dependency)
            else if number == 3 then Ok(N.Infrastructure)
            else if number == 4 then Ok(N.Mechanism)
            else Err(InvalidNodeType(number))
    ensures EdgeTypeFromNumber(number) ==
            if number == 1 then Ok(E.DependsOn)
            else if number == 2 then Ok(E.PropagatesTo)
            else if number == 3 then Ok(E.ManifestsAs)
            else Err(InvalidEdgeType(number))
    ensures NodeTypeToNumber(N.Service) == 1 && NodeTypeToNumber(N.Dependency) == 2
    ensures NodeTypeToNumber(N.Infrastructure) == 3 && NodeTypeToNumber(N.Mechanism) == 4
    ensures EdgeTypeToNumber(E.DependsOn) == 1 && EdgeTypeToNumber(E.PropagatesTo) == 2
    ensures EdgeTypeToNumber(E.ManifestsAs) == 3
    ensures N.Display(N.Service) == "SERVICE" && N.Display(N.Dependency) == "DEPENDENCY"
    ensures N.Display(N.Infrastructure) == "INFRASTRUCTURE" && N.Display(N.Mechanism) == "MECHANISM"
    ensures Proto.NODE_TYPE_UNSPECIFIED == 0 && Proto.EDGE_TYPE_UNSPECIFIED == 0
  {
  }

  // ---- Incoming messages ----

  /** The set holds the records of the list: every identity, each with the timestamp it was sent with. */
  ghost predicate FilesRecords(ps: seq<Proto.Provenance>, filed: ProvSet) {
    && (forall i | 0 <= i < |ps| :: ProvKey(ps[i].source, ps[i].trigger) in filed)
    && (forall k | k in filed :: WasSent(ps, k, filed[k]))
  }

  /** Some record of the list was sent under this identity, with this timestamp. */
  ghost predicate WasSent(ps: seq<Proto.Provenance>, k: ProvKey, t: Timestamp) {
    exists i :: 0 <= i < |ps| && FiledAs(ps[i], k, t)
  }

  lemma CollectFilesRecords(ps: seq<Proto.Provenance>)
    ensures FilesRecords(ps, Collect(ps))
  {
    CollectHoldsTheList(ps);
    hide Collect, FiledAs;
  }

  /** A node entry, field by field; an unknown type number is the error. */
  lemma NodeEntryOnWire(n: Proto.Node)
    ensures NodeConversion(n).Ok? <==> 1 <= n.typeNumber <= 4
    ensures !(1 <= n.typeNumber <= 4) ==> NodeConversion(n) == Err(InvalidNodeType(n.typeNumber))
    ensures 1 <= n.typeNumber <= 4 ==>
              var e := NodeConversion(n).value;
              && e.PutNode? && e.id == n.id
              && e.node.nodeLabel == N.Agreed(n.nodeLabel) && e.node.hypothetical == n.hypothetical
              && e.node.nodeType == N.Agreed(
                   if n.typeNumber == 1 then N.Service
                   else if n.typeNumber == 2 then N.Dependency
                   else if n.typeNumber == 3 then N.Infrastructure
                   else N.Mechanism)
              && FilesRecords(n.provenance, e.node.provenance)
  {
    CollectFilesRecords(n.provenance);
    hide Collect, FilesRecords;
  }

  function EdgeTypeOf(number: int): E.EdgeType {
    if number == 1 then E.DependsOn else if number == 2 then E.PropagatesTo else E.ManifestsAs
  }

  /** An edge entry, field by field. */
  lemma EdgeEntryOnWire(e: Proto.Edge)
    ensures EdgeConversion(e).Ok? <==> 1 <= e.typeNumber <= 3
    ensures !(1 <= e.typeNumber <= 3) ==> EdgeConversion(e) == Err(InvalidEdgeType(e.typeNumber))
    ensures 1 <= e.typeNumber <= 3 ==>
              var entry := EdgeConversion(e).value;
              && entry.PutEdge?
              && entry.key == E.EdgeKey(e.source, e.target, EdgeTypeOf(e.typeNumber))
              && FilesRecords(e.provenance, entry.edge.provenance)
  {
    CollectFilesRecords(e.provenance);
    hide Collect, FilesRecords;
  }

  /** An edge-tombstone entry, field by field. */
  lemma TombstoneEntryOnWire(incident: string, t: Proto.EdgeTombstoneEntry)
    ensures EntryConversion(incident, t) ==
            if 1 <= t.typeNumber <= 3
            then Ok(BuryEdge(incident, E.EdgeKey(t.source, t.target, EdgeTypeOf(t.typeNumber))))
            else Err(InvalidEdgeType(t.typeNumber))
  {
  }

  // ---- Ids of edges ----

  /** The id of an edge as clients read it. */
  function EdgeText(k: E.EdgeKey): string {
    k.source + "->" + k.target + ":" + match k.edgeType { case DependsOn => "1" case PropagatesTo => "2" case ManifestsAs => "3" }
  }

  lemma EdgeTextIsId(k: E.EdgeKey)
    ensures EdgeId(k) == EdgeText(k)
  {
  }

  /** An edge is reported as `source->target:number`, character by character. */
  lemma EdgeIdOnWire(k: E.EdgeKey)
    ensures var id, m, n := EdgeId(k), |k.source|, |k.target|;
            && |id| == m + n + 4
            && id[..m] == k.source
            && id[m] == '-' && id[m + 1] == '>'
            && id[m + 2..m + 2 + n] == k.target
            && id[m + n + 2] == ':'
            && id[m + n + 3] == match k.edgeType { case DependsOn => '1' case PropagatesTo => '2' case ManifestsAs => '3' }
  {
    var digit := Decimal(EdgeTypeToNumber(k.edgeType));
    assert |digit| == 1 && digit[0] ==
           match k.edgeType { case DependsOn => '1' case PropagatesTo => '2' case ManifestsAs => '3' };
    assert EdgeId(k) == k.source + "->" + k.target + ":" + digit;
    hide EdgeId, Decimal, Digits, RenderEdgeId;
  }

  // ---- The orders of listings ----

  ghost predicate RecordBefore(p: Proto.Provenance, q: Proto.Provenance) {
    Before(p.source, q.source) || (p.source == q.source && Before(p.trigger, q.trigger))
  }

  ghost predicate TripleBefore(s: string, t: string, n: int, s': string, t': string, n': int) {
    Before(s, s') || (s == s' && (Before(t, t') || (t == t' && n < n')))
  }

  /** Edges come by source, then target, then type number. */
  ghost predicate EdgeBefore(a: Proto.Edge, b: Proto.Edge) {
    TripleBefore(a.source, a.target, a.typeNumber, b.source, b.target, b.typeNumber)
  }

  ghost predicate EntryBefore(a: Proto.EdgeTombstoneEntry, b: Proto.EdgeTombstoneEntry) {
    TripleBefore(a.source, a.target, a.typeNumber, b.source, b.target, b.typeNumber)
  }

  /** The order of provenance identities: by source, then by trigger, both lexicographic. */
  lemma KeyOrderOnWire(a: ProvKey, b: ProvKey)
    ensures a != b && KeyLeq(a, b) <==>
            Before(a.source, b.source) || (a.source == b.source && Before(a.trigger, b.trigger))
  {
    BeforeIsStringOrder(a.source, b.source);
    BeforeIsStringOrder(a.trigger, b.trigger);
    StringOrder();
    hide StringLeq, Before;
  }

  /** The order of edge keys: by source, then by target, then by type number. */
  lemma EdgeKeyOrderOnWire(a: E.EdgeKey, b: E.EdgeKey)
    ensures a != b && E.EdgeKeyLeq(a, b) <==>
            TripleBefore(a.source, a.target, EdgeTypeToNumber(a.edgeType), b.source, b.target, EdgeTypeToNumber(b.edgeType))
  {
    BeforeIsStringOrder(a.source, b.source);
    BeforeIsStringOrder(a.target, b.target);
    StringOrder();
    hide StringLeq, Before;
  }

  ghost predicate KeyBefore(a: E.EdgeKey, b: E.EdgeKey) {
    TripleBefore(a.source, a.target, EdgeTypeToNumber(a.edgeType), b.source, b.target, EdgeTypeToNumber(b.edgeType))
  }

  /** The sorted lists the store iterates over are in these orders. */
  lemma SortedOnWire(ids: seq<string>, ks: seq<E.EdgeKey>)
    requires StrictlySorted(ids, StringLeq) && StrictlySorted(ks, E.EdgeKeyLeq)
    ensures forall i, j | 0 <= i < j < |ids| :: Before(ids[i], ids[j])
    ensures forall i, j | 0 <= i < j < |ks| :: KeyBefore(ks[i], ks[j])
  {
    hide StringLeq, E.EdgeKeyLeq, Before, TripleBefore;
    forall i, j | 0 <= i < j < |ids| ensures Before(ids[i], ids[j]) {
      BeforeIsStringOrder(ids[i], ids[j]);
    }
    forall i, j | 0 <= i < j < |ks| ensures KeyBefore(ks[i], ks[j]) {
      EdgeKeyOrderOnWire(ks[i], ks[j]);
    }
  }

  // ---- Outgoing messages ----

  /** The listing shows exactly the records of the set, in order. */
  ghost predicate ShowsRecords(ps: seq<Proto.Provenance>, filed: ProvSet) {
    && (forall i, j | 0 <= i < j < |ps| :: RecordBefore(ps[i], ps[j]))
    && (forall i | 0 <= i < |ps| ::
          var k := ProvKey(ps[i].source, ps[i].trigger);
          k in filed && ps[i].timestamp == Some(Proto.Timestamp(filed[k].seconds, filed[k].nanos)))
    && (forall k | k in filed :: exists i :: 0 <= i < |ps| && ps[i].source == k.source && ps[i].trigger == k.trigger)
  }

  lemma OrderedRecords(filed: ProvSet, ks: seq<ProvKey>)
    requires forall k :: k in ks <==> k in filed
    requires StrictlySorted(ks, KeyLeq)
    ensures ShowsRecords(ListRecords(filed, ks), filed)
  {
    hide ListRecords, KeyLeq, Before;
    var ps := ListRecords(filed, ks);
    assert forall i | 0 <= i < |ks| :: ks[i] in ks;
    forall i, j | 0 <= i < j < |ps| ensures RecordBefore(ps[i], ps[j]) {
      KeyOrderOnWire(ks[i], ks[j]);
    }
    forall k | k in filed ensures exists i :: 0 <= i < |ps| && ps[i].source == k.source && ps[i].trigger == k.trigger {
      var i :| 0 <= i < |ks| && ks[i] == k;
      assert ps[i] == ProvenanceToProto(ks[i], filed[ks[i]]);
    }
  }

  /** A provenance set is listed by source and trigger, each record once, with its own timestamp. */
  lemma RecordsOnWire(filed: ProvSet)
    ensures ShowsRecords(ListProvenance(filed), filed)
  {
    KeyOrder();
    hide KeyLeq, TotalOrder, ListRecords, Sorted, StrictlySorted, ShowsRecords;
    var ks := Sorted(filed.Keys, KeyLeq);
    SortedIsSorted(filed.Keys, KeyLeq);
    OrderedRecords(filed, ks);
  }

  ghost predicate ShowsNode(n: Proto.Node, l: N.NodeLattice) {
    && n.typeNumber ==
       (if l.nodeType == N.Agreed(N.Service) then 1
        else if l.nodeType == N.Agreed(N.Dependency) then 2
        else if l.nodeType == N.Agreed(N.Infrastructure) then 3
        else if l.nodeType == N.Agreed(N.Mechanism) then 4
        else 0)
    && n.nodeLabel == (if l.nodeLabel.Agreed? then l.nodeLabel.value else "")
    && n.hypothetical == l.hypothetical
    && ShowsRecords(n.provenance, l.provenance)
  }

  ghost predicate ShowsEdge(e: Proto.Edge, k: E.EdgeKey, l: E.EdgeLattice) {
    && e.source == k.source && e.target == k.target
    && e.typeNumber == (match k.edgeType { case DependsOn => 1 case PropagatesTo => 2 case ManifestsAs => 3 })
    && ShowsRecords(e.provenance, l.provenance)
  }

  /** A stored node and a stored edge, as listed. */
  lemma ListingOnWire(id: string, n: N.NodeLattice, k: E.EdgeKey, l: E.EdgeLattice)
    ensures DomainNodeToProto(id, n).id == id && ShowsNode(DomainNodeToProto(id, n), n)
    ensures ShowsEdge(DomainEdgeToProto(k, l), k, l)
  {
    RecordsOnWire(n.provenance);
    RecordsOnWire(l.provenance);
    hide ListProvenance, ShowsRecords;
  }
}
