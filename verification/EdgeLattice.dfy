/** Edge identities and the lattice of one hypothesis edge: its provenance. */
module EdgeLattices {
  import opened Orders
  import opened Provenances

  datatype EdgeType = DependsOn | PropagatesTo | ManifestsAs

  datatype EdgeKey = EdgeKey(source: string, target: string, edgeType: EdgeType)

  /** The declaration order of the edge types. */
  function Rank(t: EdgeType): nat {
    match t
    case DependsOn => 0
    case PropagatesTo => 1
    case ManifestsAs => 2
  }

  predicate EdgeKeyLeq(a: EdgeKey, b: EdgeKey) {
    && StringLeq(a.source, b.source)
    && (a.source == b.source ==>
          && StringLeq(a.target, b.target)
          && (a.target == b.target ==> Rank(a.edgeType) <= Rank(b.edgeType)))
  }

  lemma EdgeKeyOrder()
    ensures TotalOrder(EdgeKeyLeq)
  {
    StringOrder();
  }

  function SortedEdgeKeys(s: set<EdgeKey>): (xs: seq<EdgeKey>)
    ensures |xs| == |s|
    ensures forall x :: x in xs <==> x in s
  {
    EdgeKeyOrder();
    Sorted(s, EdgeKeyLeq)
  }

  datatype EdgeLattice = EdgeLattice(provenance: ProvSet)

  function Join(a: EdgeLattice, b: EdgeLattice): EdgeLattice {
    EdgeLattice(Extend(a.provenance, b.provenance))
  }

  /** An edge lattice value under update. */
  class MutableEdge {
    var provenance: ProvSet

    function Value(): EdgeLattice
      reads this
    {
      EdgeLattice(provenance)
    }

    constructor Clone(e: EdgeLattice)
      ensures Value() == e
    {
      provenance := e.provenance;
    }

    method Merge(other: EdgeLattice) returns (changed: bool)
      modifies this
      ensures Value() == Join(old(Value()), other)
      ensures changed <==> Value() != old(Value())
      ensures changed <==> !Below(other, old(Value()))
    {
      JoinLaws(Value(), other, other);
      var setMerge := MergeSet(provenance, other.provenance);
      provenance, changed := setMerge.0, setMerge.1;
    }
  }

  ghost predicate Below(a: EdgeLattice, b: EdgeLattice) {
    a.provenance.Keys <= b.provenance.Keys
  }

  ghost predicate Same(a: EdgeLattice, b: EdgeLattice) {
    a.provenance.Keys == b.provenance.Keys
  }

  lemma JoinLaws(a: EdgeLattice, b: EdgeLattice, c: EdgeLattice)
    ensures Join(a, Join(b, c)) == Join(Join(a, b), c)
    ensures Join(a, a) == a
    ensures Same(Join(a, b), Join(b, a))
    ensures Join(a, b) == a <==> Below(b, a)
  {
    ExtendLaws(a.provenance, b.provenance, c.provenance);
  }

  lemma JoinIsLeastUpperBound(a: EdgeLattice, b: EdgeLattice, c: EdgeLattice)
    ensures Below(a, Join(a, b)) && Below(b, Join(a, b))
    ensures Below(a, c) && Below(b, c) <==> Below(Join(a, b), c)
  {
    ExtendLaws(a.provenance, b.provenance, c.provenance);
  }
}
