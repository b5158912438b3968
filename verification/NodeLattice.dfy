/** The lattice of one hypothesis node. */
module NodeLattices {
  import opened Wrappers
  import opened Provenances

  datatype NodeType = Service | Dependency | Infrastructure | Mechanism

  function Display(t: NodeType): string {
    match t
    case Service => "SERVICE"
    case Dependency => "DEPENDENCY"
    case Infrastructure => "INFRASTRUCTURE"
    case Mechanism => "MECHANISM"
  }

  /** A value every proposal must agree on; `Top` records that two proposals did not. */
  datatype Conflict<T(==)> = Agreed(value: T) | Top

  datatype NodeLattice = NodeLattice(
    nodeType: Conflict<NodeType>,
    nodeLabel: Conflict<string>,
    hypothetical: bool,
    provenance: ProvSet)
  {
    predicate HasConflict() {
      nodeType.Top? || nodeLabel.Top?
    }

    function ConflictField(): Option<string> {
      if nodeType.Top? then Some("type")
      else if nodeLabel.Top? then Some("label")
      else None
    }
  }

  function New(nodeType: NodeType, nodeLabel: string, hypothetical: bool, provenance: ProvSet): NodeLattice {
    NodeLattice(Agreed(nodeType), Agreed(nodeLabel), hypothetical, provenance)
  }

  // ---- The join, field by field ----

  function JoinConflict<T(==)>(self: Conflict<T>, other: Conflict<T>): Conflict<T> {
    if self == other then self else Top
  }

  /** In-place merge of a conflict field: a disagreement or an incoming `Top` lifts it to `Top`. */
  function MergeConflict<T(==)>(self: Conflict<T>, other: Conflict<T>): (r: (Conflict<T>, bool))
    ensures r.0 == JoinConflict(self, other)
    ensures r.1 <==> r.0 != self
  {
    match self
    case Top => (self, false)
    case Agreed(mine) =>
      match other
      case Agreed(theirs) => if mine == theirs then (self, false) else (Top, true)
      case Top => (Top, true)
  }

  /** In-place merge of a minimum over booleans, `false` being the smaller. */
  function MergeMin(self: bool, other: bool): (r: (bool, bool))
    ensures r.0 <==> self && other
    ensures r.1 <==> r.0 != self
  {
    if self && !other then (other, true) else (self, false)
  }

  function Join(a: NodeLattice, b: NodeLattice): NodeLattice {
    NodeLattice(
      JoinConflict(a.nodeType, b.nodeType),
      JoinConflict(a.nodeLabel, b.nodeLabel),
      a.hypothetical && b.hypothetical,
      Extend(a.provenance, b.provenance))
  }

  /** A node lattice value under update. */
  class MutableNode {
    var nodeType: Conflict<NodeType>
    var nodeLabel: Conflict<string>
    var hypothetical: bool
    var provenance: ProvSet

    function Value(): NodeLattice
      reads this
    {
      NodeLattice(nodeType, nodeLabel, hypothetical, provenance)
    }

    constructor Clone(n: NodeLattice)
      ensures Value() == n
    {
      nodeType, nodeLabel, hypothetical, provenance := n.nodeType, n.nodeLabel, n.hypothetical, n.provenance;
    }

    method Merge(other: NodeLattice) returns (changed: bool)
      modifies this
      ensures Value() == Join(old(Value()), other)
      ensures changed <==> Value() != old(Value())
      ensures changed <==> !Below(other, old(Value()))
    {
      JoinLaws(Value(), other, other);
      changed := false;
      var typeMerge := MergeConflict(nodeType, other.nodeType);
      nodeType, changed := typeMerge.0, changed || typeMerge.1;
      var labelMerge := MergeConflict(nodeLabel, other.nodeLabel);
      nodeLabel, changed := labelMerge.0, changed || labelMerge.1;
      var minMerge := MergeMin(hypothetical, other.hypothetical);
      hypothetical, changed := minMerge.0, changed || minMerge.1;
      var setMerge := MergeSet(provenance, other.provenance);
      provenance, changed := setMerge.0, changed || setMerge.1;
    }
  }

  // ---- The order the join is a least upper bound for ----

  ghost predicate ConflictBelow<T>(a: Conflict<T>, b: Conflict<T>) {
    b.Top? || a == b
  }

  /** The information order: `b` says at least what `a` says. Timestamps carry no information. */
  ghost predicate Below(a: NodeLattice, b: NodeLattice) {
    && ConflictBelow(a.nodeType, b.nodeType)
    && ConflictBelow(a.nodeLabel, b.nodeLabel)
    && (b.hypothetical ==> a.hypothetical)
    && a.provenance.Keys <= b.provenance.Keys
  }

  /** Equal up to provenance timestamps. */
  ghost predicate Same(a: NodeLattice, b: NodeLattice) {
    && a.nodeType == b.nodeType
    && a.nodeLabel == b.nodeLabel
    && a.hypothetical == b.hypothetical
    && a.provenance.Keys == b.provenance.Keys
  }

  /** The two proposals name the same type and label. */
  predicate Agree(a: NodeLattice, b: NodeLattice) {
    a.nodeType == b.nodeType && a.nodeLabel == b.nodeLabel
  }

  /** `Below` is a preorder whose equivalence is `Same`. */
  lemma BelowIsOrder(a: NodeLattice, b: NodeLattice, c: NodeLattice)
    ensures Below(a, a)
    ensures Below(a, b) && Below(b, c) ==> Below(a, c)
    ensures Below(a, b) && Below(b, a) <==> Same(a, b)
  {
  }

  /**
   `Join` is associative and idempotent exactly, commutative up to timestamps, and leaves the
   receiver exactly unchanged just when the argument adds no information.
   */
  lemma JoinLaws(a: NodeLattice, b: NodeLattice, c: NodeLattice)
    ensures Join(a, Join(b, c)) == Join(Join(a, b), c)
    ensures Join(a, a) == a
    ensures Same(Join(a, b), Join(b, a))
    ensures Join(a, b) == a <==> Below(b, a)
  {
    ExtendLaws(a.provenance, b.provenance, c.provenance);
  }

  /** `Join` is the least upper bound of its arguments. */
  lemma JoinIsLeastUpperBound(a: NodeLattice, b: NodeLattice, c: NodeLattice)
    ensures Below(a, Join(a, b)) && Below(b, Join(a, b))
    ensures Below(a, c) && Below(b, c) <==> Below(Join(a, b), c)
  {
    ExtendLaws(a.provenance, b.provenance, c.provenance);
  }

  /** A join of two conflict-free nodes conflicts exactly when they disagree, type before label. */
  lemma ConflictIsDisagreement(a: NodeLattice, b: NodeLattice)
    requires !a.HasConflict() && !b.HasConflict()
    ensures Join(a, b).HasConflict() <==> !Agree(a, b)
    ensures Join(a, b).ConflictField() ==
            if a.nodeType != b.nodeType then Some("type") else if a.nodeLabel != b.nodeLabel then Some("label") else None
  {
  }
}
