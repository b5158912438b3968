/**
 The sorted, duplicate-free iteration order of the ordered maps and sets the store is built on,
 and the filter its read operations apply to it.
 */
module Orders {

  ghost predicate TotalOrder<T(!new)>(leq: (T, T) -> bool) {
    && (forall a, b :: leq(a, b) || leq(b, a))
    && (forall a, b :: leq(a, b) && leq(b, a) ==> a == b)
    && (forall a, b, c :: leq(a, b) && leq(b, c) ==> leq(a, c))
  }

  ghost predicate StrictlySorted<T>(xs: seq<T>, leq: (T, T) -> bool) {
    forall i, j | 0 <= i < j < |xs| :: leq(xs[i], xs[j]) && xs[i] != xs[j]
  }

  lemma {:induction false} LeastExists<T(!new)>(s: set<T>, leq: (T, T) -> bool)
    requires TotalOrder(leq)
    requires s != {}
    ensures exists m :: m in s && forall x | x in s :: leq(m, x)
  {
    var a :| a in s;
    var rest := s - {a};
    if rest != {} {
      LeastExists(rest, leq);
      var b :| b in rest && forall x | x in rest :: leq(b, x);
      var m := if leq(a, b) then a else b;
      assert m in s && forall x | x in s :: leq(m, x);
    } else {
      assert s == {a} && leq(a, a);
    }
  }

  /** The elements of a set in iteration order: each once, smallest first. */
  function Sorted<T(==, !new)>(s: set<T>, leq: (T, T) -> bool): (xs: seq<T>)
    requires TotalOrder(leq)
    ensures |xs| == |s|
    ensures forall x :: x in xs <==> x in s
  {
    if s == {} then []
    else
      LeastExists(s, leq);
      var m :| m in s && forall x | x in s :: leq(m, x);
      [m] + Sorted(s - {m}, leq)
  }

  lemma SortedPutsLeastFirst<T(!new)>(s: set<T>, leq: (T, T) -> bool) returns (m: T)
    requires TotalOrder(leq) && s != {}
    ensures m in s && (forall x | x in s :: leq(m, x)) && Sorted(s, leq) == [m] + Sorted(s - {m}, leq)
  {
    m := Sorted(s, leq)[0];
  }

  lemma LeastFirstIsSorted<T>(m: T, rest: seq<T>, leq: (T, T) -> bool)
    requires StrictlySorted(rest, leq)
    requires forall x | x in rest :: leq(m, x) && m != x
    ensures StrictlySorted([m] + rest, leq)
  {
    assert forall j | 0 <= j < |rest| :: rest[j] in rest;
  }

  lemma {:induction false} SortedIsSorted<T(!new)>(s: set<T>, leq: (T, T) -> bool)
    requires TotalOrder(leq)
    ensures StrictlySorted(Sorted(s, leq), leq)
  {
    if s != {} {
      hide Sorted, TotalOrder, StrictlySorted;
      var m := SortedPutsLeastFirst(s, leq);
      SortedIsSorted(s - {m}, leq);
      LeastFirstIsSorted(m, Sorted(s - {m}, leq), leq);
    }
  }

  /** The elements that satisfy `keep`, in the order of the list. */
  function Filter<A(!new)>(xs: seq<A>, keep: A -> bool): (ys: seq<A>)
    ensures forall y :: y in ys <==> y in xs && keep(y)
  {
    if xs == [] then []
    else
      assert forall y :: y in xs <==> y == xs[0] || y in xs[1..];
      if keep(xs[0]) then [xs[0]] + Filter(xs[1..], keep) else Filter(xs[1..], keep)
  }

  lemma {:induction false} FilterKeepsSorted<T(!new)>(xs: seq<T>, keep: T -> bool, leq: (T, T) -> bool)
    requires StrictlySorted(xs, leq)
    ensures StrictlySorted(Filter(xs, keep), leq)
  {
    if xs != [] {
      FilterKeepsSorted(xs[1..], keep, leq);
      var rest := Filter(xs[1..], keep);
      forall j | 0 <= j < |rest| ensures leq(xs[0], rest[j]) && xs[0] != rest[j] {
        assert rest[j] in xs[1..];
      }
    }
  }

  // ---- The order of strings: lexicographic ----

  predicate StringLeq(a: string, b: string) {
    a == [] || (b != [] && (a[0] < b[0] || (a[0] == b[0] && StringLeq(a[1..], b[1..]))))
  }

  lemma {:induction false} StringLeqTotal(a: string, b: string)
    ensures StringLeq(a, b) || StringLeq(b, a)
  {
    if a != [] && b != [] && a[0] == b[0] {
      StringLeqTotal(a[1..], b[1..]);
    }
  }

  lemma {:induction false} StringLeqAntisymmetric(a: string, b: string)
    requires StringLeq(a, b) && StringLeq(b, a)
    ensures a == b
  {
    if a != [] && b != [] {
      StringLeqAntisymmetric(a[1..], b[1..]);
      assert a == [a[0]] + a[1..] && b == [b[0]] + b[1..];
    }
  }

  lemma {:induction false} StringLeqTransitive(a: string, b: string, c: string)
    requires StringLeq(a, b) && StringLeq(b, c)
    ensures StringLeq(a, c)
  {
    if a != [] && a[0] == b[0] == c[0] {
      StringLeqTransitive(a[1..], b[1..], c[1..]);
    }
  }

  lemma StringOrder()
    ensures TotalOrder(StringLeq)
  {
    forall a, b ensures StringLeq(a, b) || StringLeq(b, a) { StringLeqTotal(a, b); }
    forall a, b | StringLeq(a, b) && StringLeq(b, a) ensures a == b { StringLeqAntisymmetric(a, b); }
    forall a, b, c | StringLeq(a, b) && StringLeq(b, c) ensures StringLeq(a, c) { StringLeqTransitive(a, b, c); }
  }

  lemma CommonPrefixSharesFirst(a: string, b: string)
    ensures forall i | 0 < i < |a| && i < |b| && a[..i] == b[..i] :: a[0] == b[0]
  {
    forall i | 0 < i < |a| && i < |b| && a[..i] == b[..i] ensures a[0] == b[0] {
      assert a[..i][0] == b[..i][0];
    }
  }

  /**
   A string comes no later than another exactly when it is a prefix of it or has the smaller
   character where the two first differ.
   */
  lemma {:induction false} StringLeqIsLexicographic(a: string, b: string)
    ensures StringLeq(a, b) <==>
            a <= b || exists i :: 0 <= i < |a| && i < |b| && a[..i] == b[..i] && a[i] < b[i]
  {
    if a != [] && b != [] && a[0] == b[0] {
      var x, y := a[1..], b[1..];
      StringLeqIsLexicographic(x, y);
      assert a == [a[0]] + x && b == [b[0]] + y;
      if i :| 0 <= i < |x| && i < |y| && x[..i] == y[..i] && x[i] < y[i] {
        assert a[..i + 1] == [a[0]] + x[..i] && b[..i + 1] == [b[0]] + y[..i];
        assert a[i + 1] < b[i + 1];
      }
      if i :| 0 <= i < |a| && i < |b| && a[..i] == b[..i] && a[i] < b[i] {
        assert x[..i - 1] == a[..i][1..] && y[..i - 1] == b[..i][1..];
        assert x[i - 1] < y[i - 1];
      }
    } else if a != [] && b != [] {
      CommonPrefixSharesFirst(a, b);
      assert a[..0] == b[..0];
    }
  }

  /** Strictly earlier: a proper prefix, or the smaller character where the two first differ. */
  ghost predicate Before(a: string, b: string) {
    a != b && (a <= b || exists i :: 0 <= i < |a| && i < |b| && a[..i] == b[..i] && a[i] < b[i])
  }

  lemma BeforeIsStringOrder(a: string, b: string)
    ensures Before(a, b) <==> a != b && StringLeq(a, b)
  {
    StringLeqIsLexicographic(a, b);
  }

  function SortedStrings(s: set<string>): (xs: seq<string>)
    ensures |xs| == |s|
    ensures forall x :: x in xs <==> x in s
  {
    StringOrder();
    Sorted(s, StringLeq)
  }

  /** Strings are iterated in lexicographic order, each once. */
  lemma SortedStringsAscend(s: set<string>)
    ensures forall i, j | 0 <= i < j < |SortedStrings(s)| ::
              var a, b := SortedStrings(s)[i], SortedStrings(s)[j];
              a != b && (a <= b || exists n :: 0 <= n < |a| && n < |b| && a[..n] == b[..n] && a[n] < b[n])
  {
    StringOrder();
    var xs := SortedStrings(s);
    SortedIsSorted(s, StringLeq);
    hide Sorted, TotalOrder, StringLeq;
    forall i, j | 0 <= i < j < |xs|
      ensures var a, b := xs[i], xs[j];
              a != b && (a <= b || exists n :: 0 <= n < |a| && n < |b| && a[..n] == b[..n] && a[n] < b[n])
    {
      StringLeqIsLexicographic(xs[i], xs[j]);
    }
  }
}
