/** Sequence helpers shared by the SQL-like queries of the model: selection
    of the rows satisfying a WHERE condition, and the cross product of two
    row sets (an implicit join `FROM a, b`). Their membership facts are
    lemmas, called where needed, so that they do not weigh on every proof
    that mentions a query. */
module Seqs {

  /** The rows of `s` that satisfy `p`, in their original order. */
  function Filter<T>(s: seq<T>, p: T -> bool): (r: seq<T>)
    ensures |r| <= |s|
  {
    if s == [] then []
    else (if p(s[0]) then [s[0]] else []) + Filter(s[1..], p)
  }

  /** A row is selected exactly when it is in the table and satisfies the
      condition. */
  lemma {:induction false} FilterMembership<T>(s: seq<T>, p: T -> bool, x: T)
    ensures x in Filter(s, p) <==> x in s && p(x)
  {
    if s != [] {
      FilterMembership(s[1..], p, x);
      assert s == [s[0]] + s[1..];
    }
  }

  /** Nothing is selected when no row satisfies the condition. */
  lemma {:induction false} FilterNone<T>(s: seq<T>, p: T -> bool)
    requires forall i :: 0 <= i < |s| ==> !p(s[i])
    ensures Filter(s, p) == []
  {
    if s != [] {
      FilterNone(s[1..], p);
    }
  }

  /** At most one row is selected when no two rows both satisfy the
      condition (a WHERE on a primary key). */
  lemma {:induction false} FilterAtMostOne<T>(s: seq<T>, p: T -> bool)
    requires forall i, j :: 0 <= i < j < |s| && p(s[i]) ==> !p(s[j])
    ensures |Filter(s, p)| <= 1
  {
    if s != [] {
      FilterAtMostOne(s[1..], p);
      if p(s[0]) {
        FilterNone(s[1..], p);
      }
    }
  }

  /** `f(x, y)` for every `x` of `xs` (outer) and `y` of `ys` (inner). */
  function Product<A, B, C>(xs: seq<A>, ys: seq<B>, f: (A, B) -> C): (r: seq<C>)
    ensures |r| == |xs| * |ys|
  {
    if xs == [] then []
    else
      var rest := Product(xs[1..], ys, f);
      assert |xs| * |ys| == |ys| + |xs[1..]| * |ys| by {
        assert |xs| == 1 + |xs[1..]|;
      }
      Row(xs[0], ys, f) + rest
  }

  function Row<A, B, C>(x: A, ys: seq<B>, f: (A, B) -> C): (r: seq<C>)
    ensures |r| == |ys|
    ensures forall j :: 0 <= j < |ys| ==> r[j] == f(x, ys[j])
  {
    seq(|ys|, j requires 0 <= j < |ys| => f(x, ys[j]))
  }

  /** The cross product holds exactly the combinations of a row of each
      side. */
  lemma {:induction false} ProductMembership<A, B, C>(xs: seq<A>, ys: seq<B>, f: (A, B) -> C, c: C)
    ensures c in Product(xs, ys, f) <==> exists x, y :: x in xs && y in ys && c == f(x, y)
  {
    if xs != [] {
      var row := Row(xs[0], ys, f);
      ProductMembership(xs[1..], ys, f, c);
      assert xs == [xs[0]] + xs[1..];
      if c in row {
        var j :| 0 <= j < |ys| && row[j] == c;
        assert ys[j] in ys;
      }
      if exists x, y :: x in xs && y in ys && c == f(x, y) {
        var x, y :| x in xs && y in ys && c == f(x, y);
        if x == xs[0] {
          var j :| 0 <= j < |ys| && ys[j] == y;
          assert row[j] == c;
        } else {
          assert x in xs[1..];
        }
      }
    }
  }
}
