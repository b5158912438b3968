/** The composite lattice of a whole graph: maps of node and edge lattices under pointwise join. */
module GraphLattices {
  import N = NodeLattices
  import E = EdgeLattices

  type NodeMap = map<string, N.NodeLattice>
  type EdgeMap = map<E.EdgeKey, E.EdgeLattice>

  function MapUnion<K(==), V>(a: map<K, V>, b: map<K, V>, join: (V, V) -> V): (m: map<K, V>)
    ensures m.Keys == a.Keys + b.Keys
  {
    map k | k in a.Keys + b.Keys ::
      if k in a then (if k in b then join(a[k], b[k]) else a[k]) else b[k]
  }

  function MergeNodes(a: NodeMap, b: NodeMap): NodeMap {
    MapUnion(a, b, N.Join)
  }

  function MergeEdges(a: EdgeMap, b: EdgeMap): EdgeMap {
    MapUnion(a, b, E.Join)
  }

  // ---- The pointwise order ----

  ghost predicate NodesBelow(a: NodeMap, b: NodeMap) {
    forall id | id in a :: id in b && N.Below(a[id], b[id])
  }

  ghost predicate EdgesBelow(a: EdgeMap, b: EdgeMap) {
    forall k | k in a :: k in b && E.Below(a[k], b[k])
  }

  ghost predicate SameNodes(a: NodeMap, b: NodeMap) {
    a.Keys == b.Keys && forall id | id in a :: N.Same(a[id], b[id])
  }

  ghost predicate SameEdges(a: EdgeMap, b: EdgeMap) {
    a.Keys == b.Keys && forall k | k in a :: E.Same(a[k], b[k])
  }

  // ---- The laws of the node map ----

  lemma MergeNodesAssociative(a: NodeMap, b: NodeMap, c: NodeMap)
    ensures MergeNodes(a, MergeNodes(b, c)) == MergeNodes(MergeNodes(a, b), c)
  {
    var left, right := MergeNodes(a, MergeNodes(b, c)), MergeNodes(MergeNodes(a, b), c);
    assert left.Keys == right.Keys;
    forall id | id in left ensures left[id] == right[id] {
      if id in a && id in b && id in c {
        N.JoinLaws(a[id], b[id], c[id]);
      }
    }
  }

  lemma MergeNodesUnchanged(a: NodeMap, b: NodeMap)
    ensures MergeNodes(a, b) == a <==> NodesBelow(b, a)
    ensures MergeNodes(a, a) == a
  {
    var u := MergeNodes(a, b);
    forall id | id in a && id in b ensures u[id] == a[id] <==> N.Below(b[id], a[id]) {
      N.JoinLaws(a[id], b[id], b[id]);
    }
    if u == a {
      assert forall id | id in b :: id in u.Keys;
    }
    forall id | id in a ensures N.Join(a[id], a[id]) == a[id] {
      N.JoinLaws(a[id], a[id], a[id]);
    }
  }

  lemma MergeNodesIsLeastUpperBound(a: NodeMap, b: NodeMap, c: NodeMap)
    ensures NodesBelow(a, MergeNodes(a, b)) && NodesBelow(b, MergeNodes(a, b))
    ensures NodesBelow(a, c) && NodesBelow(b, c) <==> NodesBelow(MergeNodes(a, b), c)
  {
    var u := MergeNodes(a, b);
    forall id | id in u
      ensures id in a ==> N.Below(a[id], u[id])
      ensures id in b ==> N.Below(b[id], u[id])
      ensures id in c ==>
                ((id in a ==> N.Below(a[id], c[id])) && (id in b ==> N.Below(b[id], c[id])) <==> N.Below(u[id], c[id]))
    {
      if id in a && id in b {
        var bound := if id in c then c[id] else a[id];
        N.JoinLaws(a[id], b[id], bound);
        N.JoinIsLeastUpperBound(a[id], b[id], bound);
      }
    }
    if NodesBelow(u, c) {
      assert forall id | id in a :: id in u;
      assert forall id | id in b :: id in u;
    }
  }

  /**
   Merging node maps is associative and idempotent exactly and commutative up to timestamps;
   it leaves the receiver exactly unchanged just when the argument is below it, and it is the
   least upper bound of its arguments.
   */
  lemma MergeNodesLaws(a: NodeMap, b: NodeMap, c: NodeMap)
    ensures MergeNodes(a, MergeNodes(b, c)) == MergeNodes(MergeNodes(a, b), c)
    ensures MergeNodes(a, a) == a
    ensures SameNodes(MergeNodes(a, b), MergeNodes(b, a))
    ensures MergeNodes(a, b) == a <==> NodesBelow(b, a)
    ensures NodesBelow(a, MergeNodes(a, b)) && NodesBelow(b, MergeNodes(a, b))
    ensures NodesBelow(a, c) && NodesBelow(b, c) <==> NodesBelow(MergeNodes(a, b), c)
  {
    MergeNodesAssociative(a, b, c);
    MergeNodesUnchanged(a, b);
    MergeNodesIsLeastUpperBound(a, b, c);
    forall id | id in a && id in b ensures N.Same(N.Join(a[id], b[id]), N.Join(b[id], a[id])) {
      N.JoinLaws(a[id], b[id], b[id]);
    }
  }

  // ---- The laws of the edge map ----

  lemma MergeEdgesAssociative(a: EdgeMap, b: EdgeMap, c: EdgeMap)
    ensures MergeEdges(a, MergeEdges(b, c)) == MergeEdges(MergeEdges(a, b), c)
  {
    var left, right := MergeEdges(a, MergeEdges(b, c)), MergeEdges(MergeEdges(a, b), c);
    assert left.Keys == right.Keys;
    forall k | k in left ensures left[k] == right[k] {
      if k in a && k in b && k in c {
        E.JoinLaws(a[k], b[k], c[k]);
      }
    }
  }

  lemma MergeEdgesUnchanged(a: EdgeMap, b: EdgeMap)
    ensures MergeEdges(a, b) == a <==> EdgesBelow(b, a)
    ensures MergeEdges(a, a) == a
  {
    var u := MergeEdges(a, b);
    forall k | k in a && k in b ensures u[k] == a[k] <==> E.Below(b[k], a[k]) {
      E.JoinLaws(a[k], b[k], b[k]);
    }
    if u == a {
      assert forall k | k in b :: k in u.Keys;
    }
    forall k | k in a ensures E.Join(a[k], a[k]) == a[k] {
      E.JoinLaws(a[k], a[k], a[k]);
    }
  }

  lemma MergeEdgesIsLeastUpperBound(a: EdgeMap, b: EdgeMap, c: EdgeMap)
    ensures EdgesBelow(a, MergeEdges(a, b)) && EdgesBelow(b, MergeEdges(a, b))
    ensures EdgesBelow(a, c) && EdgesBelow(b, c) <==> EdgesBelow(MergeEdges(a, b), c)
  {
    var u := MergeEdges(a, b);
    forall k | k in u
      ensures k in a ==> E.Below(a[k], u[k])
      ensures k in b ==> E.Below(b[k], u[k])
      ensures k in c ==>
                ((k in a ==> E.Below(a[k], c[k])) && (k in b ==> E.Below(b[k], c[k])) <==> E.Below(u[k], c[k]))
    {
      if k in a && k in b {
        var bound := if k in c then c[k] else a[k];
        E.JoinLaws(a[k], b[k], bound);
        E.JoinIsLeastUpperBound(a[k], b[k], bound);
      }
    }
    if EdgesBelow(u, c) {
      assert forall k | k in a :: k in u;
      assert forall k | k in b :: k in u;
    }
  }

  /**
   Merging edge maps is associative and idempotent exactly and commutative up to timestamps;
   it leaves the receiver exactly unchanged just when the argument is below it, and it is the
   least upper bound of its arguments.
   */
  lemma MergeEdgesLaws(a: EdgeMap, b: EdgeMap, c: EdgeMap)
    ensures MergeEdges(a, MergeEdges(b, c)) == MergeEdges(MergeEdges(a, b), c)
    ensures MergeEdges(a, a) == a
    ensures SameEdges(MergeEdges(a, b), MergeEdges(b, a))
    ensures MergeEdges(a, b) == a <==> EdgesBelow(b, a)
    ensures EdgesBelow(a, MergeEdges(a, b)) && EdgesBelow(b, MergeEdges(a, b))
    ensures EdgesBelow(a, c) && EdgesBelow(b, c) <==> EdgesBelow(MergeEdges(a, b), c)
  {
    MergeEdgesAssociative(a, b, c);
    MergeEdgesUnchanged(a, b);
    MergeEdgesIsLeastUpperBound(a, b, c);
    forall k | k in a && k in b ensures E.Same(E.Join(a[k], b[k]), E.Join(b[k], a[k])) {
      E.JoinLaws(a[k], b[k], b[k]);
    }
  }
}
