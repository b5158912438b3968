/**
 How far the rendered id of an edge identifies the edge. Ids are rendered as
 `source->target:number`, so an arrow inside a source or a target can move the boundary.
 */
module EdgeIds {
  import opened ProtoConvert
  import opened EdgeLattices

  predicate HasArrow(s: string) {
    exists i :: 0 <= i < |s| - 1 && s[i] == '-' && s[i + 1] == '>'
  }

  function Ends(k: EdgeKey): string {
    k.source + "->" + k.target
  }

  lemma IdIsEndsAndType(a: EdgeKey, b: EdgeKey)
    ensures EdgeId(a) == EdgeId(b) <==> a.edgeType == b.edgeType && Ends(a) == Ends(b)
  {
    assert EdgeId(a) == Ends(a) + ":" + Decimal(EdgeTypeToNumber(a.edgeType));
    assert EdgeId(b) == Ends(b) + ":" + Decimal(EdgeTypeToNumber(b.edgeType));
    OneDigit(a.edgeType);
    OneDigit(b.edgeType);
    hide EdgeId, Decimal, Digits, Ends;
    if EdgeId(a) == EdgeId(b) {
      var n := |Ends(a)|;
      assert |EdgeId(a)| == n + 2 == |Ends(b)| + 2;
      assert Ends(a) == EdgeId(a)[..n] == Ends(b);
      assert EdgeId(a)[n + 1] == EdgeId(b)[n + 1];
    }
  }

  lemma OneDigit(t: EdgeType)
    ensures Decimal(EdgeTypeToNumber(t)) ==
            match t { case DependsOn => "1" case PropagatesTo => "2" case ManifestsAs => "3" }
  {
  }

  /** The arrow that joins the ends of `a` sits inside the source of `b`, and the other way round. */
  ghost predicate Swallows(b: EdgeKey, a: EdgeKey) {
    exists m: string :: b.source == a.source + "->" + m && a.target == m + "->" + b.target
  }

  lemma ShorterSourceIsSwallowed(a: EdgeKey, b: EdgeKey)
    requires Ends(a) == Ends(b) && |a.source| < |b.source|
    ensures Swallows(b, a)
  {
    var n, m := |a.source|, |b.source|;
    var all := Ends(a);
    assert all[n] == '-' && all[n + 1] == '>' && all[m] == '-';
    assert n + 2 <= m;
    var middle := all[n + 2..m];
    assert all[..n] == a.source && all[..m] == b.source;
    assert b.source == a.source + "->" + middle;
    assert a.target == all[n + 2..] == middle + all[m..];
    assert all[m..] == "->" + b.target;
  }

  /**
   Two edges are reported under one id exactly when they are the same edge, or have the same type
   and the source of one extends the other's past its arrow by what its target then lacks.
   */
  lemma SameIdIff(a: EdgeKey, b: EdgeKey)
    ensures EdgeId(a) ==
            a.source + "->" + a.target + ":" +
            match a.edgeType { case DependsOn => "1" case PropagatesTo => "2" case ManifestsAs => "3" }
    ensures EdgeId(a) == EdgeId(b) <==> a == b || (a.edgeType == b.edgeType && (Swallows(a, b) || Swallows(b, a)))
  {
    IdIsEndsAndType(a, b);
    OneDigit(a.edgeType);
    assert EdgeId(a) == a.source + "->" + a.target + ":" + Decimal(EdgeTypeToNumber(a.edgeType));
    hide EdgeId, Decimal;
    if EdgeId(a) == EdgeId(b) {
      if |a.source| < |b.source| {
        ShorterSourceIsSwallowed(a, b);
      } else if |b.source| < |a.source| {
        ShorterSourceIsSwallowed(b, a);
      } else {
        assert a.source == Ends(a)[..|a.source|] == b.source;
        assert a.target == Ends(a)[|a.source| + 2..] == b.target;
      }
    } else {
      SwallowedEndsAreSame(a, b);
      SwallowedEndsAreSame(b, a);
    }
  }

  lemma SwallowedEndsAreSame(a: EdgeKey, b: EdgeKey)
    ensures Swallows(b, a) ==> Ends(a) == Ends(b) && HasArrow(b.source) && HasArrow(a.target)
  {
    if m: string :| b.source == a.source + "->" + m && a.target == m + "->" + b.target {
      assert b.source[|a.source|] == '-' && b.source[|a.source| + 1] == '>';
      assert a.target[|m|] == '-' && a.target[|m| + 1] == '>';
      assert Ends(a) == a.source + "->" + m + "->" + b.target == Ends(b);
    }
  }

  /** Some other edge is reported under the id of `k` exactly when an end of `k` contains an arrow. */
  lemma AmbiguousIff(k: EdgeKey)
    ensures (exists other :: other != k && EdgeId(other) == EdgeId(k)) <==> HasArrow(k.source) || HasArrow(k.target)
  {
    hide EdgeId;
    if other :| other != k && EdgeId(other) == EdgeId(k) {
      SameIdIff(other, k);
      SwallowedEndsAreSame(other, k);
      SwallowedEndsAreSame(k, other);
    }
    if HasArrow(k.source) {
      var before, after := SplitAtArrow(k.source);
      MovedLeft(k, before, after);
    } else if HasArrow(k.target) {
      var before, after := SplitAtArrow(k.target);
      MovedRight(k, before, after);
    }
  }

  lemma SplitAtArrow(s: string) returns (before: string, after: string)
    requires HasArrow(s)
    ensures s == before + "->" + after
  {
    var i :| 0 <= i < |s| - 1 && s[i] == '-' && s[i + 1] == '>';
    before, after := s[..i], s[i + 2..];
    assert s == s[..i] + [s[i], s[i + 1]] + s[i + 2..];
  }

  lemma MovedLeft(k: EdgeKey, before: string, after: string)
    requires k.source == before + "->" + after
    ensures exists other :: other != k && EdgeId(other) == EdgeId(k)
  {
    hide EdgeId;
    var other := EdgeKey(before, after + "->" + k.target, k.edgeType);
    assert Swallows(k, other);
    SameIdIff(other, k);
    assert |other.source| < |k.source|;
  }

  lemma MovedRight(k: EdgeKey, before: string, after: string)
    requires k.target == before + "->" + after
    ensures exists other :: other != k && EdgeId(other) == EdgeId(k)
  {
    hide EdgeId;
    var other := EdgeKey(k.source + "->" + before, after, k.edgeType);
    assert Swallows(other, k);
    SameIdIff(other, k);
    assert |k.source| < |other.source|;
  }

  /** Reported ids identify edges as long as no source, or no target, contains an arrow. */
  lemma ArrowFreeIdsIdentify(ks: set<EdgeKey>, a: EdgeKey, b: EdgeKey)
    requires (forall k | k in ks :: !HasArrow(k.source)) || (forall k | k in ks :: !HasArrow(k.target))
    requires a in ks && b in ks && EdgeId(a) == EdgeId(b)
    ensures a == b
  {
    hide EdgeId;
    SameIdIff(a, b);
    SwallowedEndsAreSame(a, b);
    SwallowedEndsAreSame(b, a);
  }
}
