/**
 Provenance records and the append-only sets of them.

 Two records are the same record when source and trigger agree; the timestamp is carried along but
 is not part of the identity. A set is therefore a map from that identity to the timestamp on file.
 */
module Provenances {
  import opened Orders

  datatype Timestamp = Timestamp(seconds: int, nanos: int)

  datatype ProvKey = ProvKey(source: string, trigger: string)

  datatype Provenance = Provenance(source: string, trigger: string, timestamp: Timestamp) {
    function Key(): ProvKey { ProvKey(source, trigger) }
  }

  /** The order of records: by source, then by trigger. */
  predicate KeyLeq(a: ProvKey, b: ProvKey) {
    StringLeq(a.source, b.source) && (a.source == b.source ==> StringLeq(a.trigger, b.trigger))
  }

  lemma KeyOrder()
    ensures TotalOrder(KeyLeq)
  {
    StringOrder();
  }

  type ProvSet = map<ProvKey, Timestamp>

  /** Union; a record already present keeps its timestamp. */
  function Extend(self: ProvSet, other: ProvSet): ProvSet {
    other + self
  }

  /** The union together with the "did anything change" answer, found by comparing sizes. */
  function MergeSet(self: ProvSet, other: ProvSet): (r: (ProvSet, bool))
    ensures r.0 == Extend(self, other)
    ensures r.1 <==> r.0 != self
  {
    var union := Extend(self, other);
    assert self.Keys <= union.Keys;
    if |union| <= |self| then SubsetOfSameSize(self.Keys, union.Keys); (union, false) else (union, true)
  }

  lemma {:induction false} SubsetOfSameSize<T>(a: set<T>, b: set<T>)
    requires a <= b && |b| <= |a|
    ensures a == b
  {
    if a != b {
      var x :| x in b && x !in a;
      SizeOfSubset(a, b - {x});
    }
  }

  lemma {:induction false} SizeOfSubset<T>(a: set<T>, b: set<T>)
    requires a <= b
    ensures |a| <= |b|
  {
    if x :| x in a {
      SizeOfSubset(a - {x}, b - {x});
    }
  }

  /**
   Union is associative and idempotent exactly, timestamps included; the identities in it do not
   depend on the order of the operands.
   */
  lemma ExtendLaws(a: ProvSet, b: ProvSet, c: ProvSet)
    ensures Extend(a, Extend(b, c)) == Extend(Extend(a, b), c)
    ensures Extend(a, a) == a
    ensures Extend(a, b).Keys == Extend(b, a).Keys == a.Keys + b.Keys
    ensures Extend(a, b) == a <==> b.Keys <= a.Keys
  {
    if Extend(a, b) == a {
      assert Extend(a, b).Keys == a.Keys + b.Keys;
    }
  }
}
