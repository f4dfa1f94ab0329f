/** Generic sequence operations shared by the parsers and the classifier:
    keeping the values a parser yields for each line, counting the elements
    that satisfy a test, and the first-match search of a loop that returns
    on its first hit. */
module Seqs {
  import opened Wrappers

  /** Keeps, in order, the elements of `xs` that satisfy `p`. */
  function Filter<T>(xs: seq<T>, p: T -> bool): (r: seq<T>)
    ensures |r| <= |xs|
    ensures forall y :: y in r ==> y in xs && p(y)
    decreases |xs|
  {
    if xs == [] then []
    else (if p(xs[0]) then [xs[0]] else []) + Filter(xs[1..], p)
  }

  /** Every element of `xs` satisfying `p` survives the filter. */
  lemma {:induction false} FilterComplete<T>(xs: seq<T>, p: T -> bool, x: T)
    requires x in xs && p(x)
    ensures x in Filter(xs, p)
    decreases |xs|
  {
    if xs[0] != x {
      FilterComplete(xs[1..], p, x);
    }
  }

  /** Filtering commutes with concatenation, so the filter keeps order. */
  lemma {:induction false} FilterAppend<T>(xs: seq<T>, ys: seq<T>, p: T -> bool)
    ensures Filter(xs + ys, p) == Filter(xs, p) + Filter(ys, p)
    decreases |xs|
  {
    if xs == [] {
      assert xs + ys == ys;
    } else {
      assert (xs + ys)[1..] == xs[1..] + ys;
      FilterAppend(xs[1..], ys, p);
    }
  }

  /** Applies `f` to every element and keeps, in order, the values it yields. */
  function FilterMap<A, B>(xs: seq<A>, f: A -> Option<B>): (r: seq<B>)
    ensures |r| <= |xs|
    ensures forall y :: y in r ==> exists x :: x in xs && f(x) == Some(y)
    ensures forall x :: x in xs && f(x).Some? ==> f(x).value in r
    decreases |xs|
  {
    if xs == [] then []
    else
      var rest := FilterMap(xs[1..], f);
      assert forall y :: y in rest ==> exists x :: x in xs && f(x) == Some(y) by {
        forall y | y in rest ensures exists x :: x in xs && f(x) == Some(y) {
          var x :| x in xs[1..] && f(x) == Some(y);
          assert x in xs;
        }
      }
      assert forall x :: x in xs ==> x == xs[0] || x in xs[1..];
      match f(xs[0])
      case Some(y) => [y] + rest
      case None => rest
  }

  /** Filter-mapping commutes with concatenation, so results keep input order. */
  lemma {:induction false} FilterMapAppend<A, B>(xs: seq<A>, ys: seq<A>, f: A -> Option<B>)
    ensures FilterMap(xs + ys, f) == FilterMap(xs, f) + FilterMap(ys, f)
    decreases |xs|
  {
    if xs == [] {
      assert xs + ys == ys;
    } else {
      assert (xs + ys)[1..] == xs[1..] + ys;
      FilterMapAppend(xs[1..], ys, f);
    }
  }

  /** When `f` yields `Some(h(x))` exactly on the elements satisfying `p`,
      filter-mapping is mapping `h` over the filtered elements. */
  lemma {:induction false} FilterMapIsMapOfFilter<A, B>(xs: seq<A>, f: A -> Option<B>, p: A -> bool, h: A -> B)
    requires forall x :: f(x) == if p(x) then Some(h(x)) else None
    ensures |FilterMap(xs, f)| == |Filter(xs, p)|
    ensures forall i :: 0 <= i < |Filter(xs, p)| ==> FilterMap(xs, f)[i] == h(Filter(xs, p)[i])
    decreases |xs|
  {
    if xs != [] {
      FilterMapIsMapOfFilter(xs[1..], f, p, h);
      var fm, fl := FilterMap(xs[1..], f), Filter(xs[1..], p);
      assert f(xs[0]) == if p(xs[0]) then Some(h(xs[0])) else None;
      if p(xs[0]) {
        assert FilterMap(xs, f) == [h(xs[0])] + fm;
        assert Filter(xs, p) == [xs[0]] + fl;
        MapCons(fm, fl, xs[0], h);
      } else {
        assert FilterMap(xs, f) == fm;
        assert Filter(xs, p) == fl;
      }
    }
  }

  /** Prepending `x` to the inputs and `h(x)` to the outputs keeps `h`
      mapping one onto the other. */
  lemma MapCons<A, B>(ys: seq<B>, xs: seq<A>, x: A, h: A -> B)
    requires |ys| == |xs|
    requires forall i :: 0 <= i < |xs| ==> ys[i] == h(xs[i])
    ensures forall i :: 0 <= i < |xs| + 1 ==> ([h(x)] + ys)[i] == h(([x] + xs)[i])
  {
  }

  /** An empty middle part changes nothing. */
  lemma EmptyMiddle<T>(xs: seq<T>, ys: seq<T>)
    ensures xs + [] + ys == xs + ys
  {
    assert xs + [] == xs;
  }

  /** No element occurs twice. */
  ghost predicate Distinct<T>(xs: seq<T>) {
    forall i, j :: 0 <= i < j < |xs| ==> xs[i] != xs[j]
  }

  /** The set of elements of a sequence. */
  function Elements<T>(xs: seq<T>): set<T> {
    set x | x in xs
  }

  /** A sequence without repetitions has as many elements as its set. */
  lemma {:induction false} DistinctCardinality<T>(xs: seq<T>)
    requires Distinct(xs)
    ensures |Elements(xs)| == |xs|
    decreases |xs|
  {
    if xs != [] {
      assert Distinct(xs[1..]) by {
        forall i, j | 0 <= i < j < |xs[1..]| ensures xs[1..][i] != xs[1..][j] {
          assert xs[1..][i] == xs[i + 1] && xs[1..][j] == xs[j + 1];
        }
      }
      DistinctCardinality(xs[1..]);
      assert xs[0] !in xs[1..] by {
        forall k | 0 <= k < |xs[1..]| ensures xs[1..][k] != xs[0] {
          assert xs[1..][k] == xs[k + 1];
        }
      }
      assert Elements(xs) == {xs[0]} + Elements(xs[1..]);
    }
  }

  /** Filtering a sequence without repetitions leaves one without repetitions. */
  lemma {:induction false} FilterDistinct<T>(xs: seq<T>, p: T -> bool)
    requires Distinct(xs)
    ensures Distinct(Filter(xs, p))
    decreases |xs|
  {
    if xs != [] {
      assert Distinct(xs[1..]) by {
        forall i, j | 0 <= i < j < |xs[1..]| ensures xs[1..][i] != xs[1..][j] {
          assert xs[1..][i] == xs[i + 1] && xs[1..][j] == xs[j + 1];
        }
      }
      FilterDistinct(xs[1..], p);
      var rest := Filter(xs[1..], p);
      assert xs[0] !in xs[1..] by {
        forall k | 0 <= k < |xs[1..]| ensures xs[1..][k] != xs[0] {
          assert xs[1..][k] == xs[k + 1];
        }
      }
      var head := if p(xs[0]) then [xs[0]] else [];
      assert Filter(xs, p) == head + rest;
      forall i, j | 0 <= i < j < |head + rest| ensures (head + rest)[i] != (head + rest)[j] {
        if i < |head| {
          assert (head + rest)[j] in rest;
        } else {
          assert (head + rest)[i] == rest[i - |head|] && (head + rest)[j] == rest[j - |head|];
        }
      }
    }
  }

  /** The elements of a filtered sequence are the elements satisfying `p`. */
  lemma FilterElements<T>(xs: seq<T>, p: T -> bool)
    ensures Elements(Filter(xs, p)) == set x | x in xs && p(x)
  {
    forall x | x in xs && p(x) ensures x in Filter(xs, p) {
      FilterComplete(xs, p, x);
    }
  }

  /** The first index at or after `from` whose element satisfies `p`, or `|xs|`
      when there is none: the search of a `for` loop that returns on a match. */
  function FirstWhere<T>(xs: seq<T>, p: T -> bool, from: nat): (k: nat)
    requires from <= |xs|
    ensures from <= k <= |xs|
    ensures k < |xs| ==> p(xs[k])
    ensures forall j :: from <= j < k ==> !p(xs[j])
    decreases |xs| - from
  {
    if from == |xs| then |xs|
    else if p(xs[from]) then from
    else FirstWhere(xs, p, from + 1)
  }

  /** The multiplicities in `m` of the elements of `order`, added up. */
  function SumMultiplicities<T>(order: seq<T>, m: multiset<T>): nat
    decreases |order|
  {
    if order == [] then 0 else m[order[0]] + SumMultiplicities(order[1..], m)
  }

  lemma {:induction false} SumMultiplicitiesAgree<T>(order: seq<T>, m1: multiset<T>, m2: multiset<T>)
    requires forall i :: 0 <= i < |order| ==> m1[order[i]] == m2[order[i]]
    ensures SumMultiplicities(order, m1) == SumMultiplicities(order, m2)
    decreases |order|
  {
    if order != [] {
      SumMultiplicitiesAgree(order[1..], m1, m2);
    }
  }

  /** Removing every copy of `x` takes exactly `m[x]` elements away. */
  lemma {:induction false} RemoveAllCopies<T>(m: multiset<T>, x: T)
    ensures |m| == m[x] + |m[x := 0]|
    decreases m[x]
  {
    if m[x] > 0 {
      var rest := m - multiset{x};
      assert m == rest + multiset{x};
      assert rest[x := 0] == m[x := 0];
      RemoveAllCopies(rest, x);
    } else {
      assert m[x := 0] == m;
    }
  }

  /** Over an enumeration of its elements, once each, the multiplicities of a
      multiset add up to its size. */
  lemma {:induction false} SumMultiplicitiesIsSize<T>(order: seq<T>, m: multiset<T>)
    requires Distinct(order)
    requires forall x :: x in m ==> x in order
    ensures SumMultiplicities(order, m) == |m|
    decreases |order|
  {
    if order == [] {
      assert m == multiset{};
    } else {
      var x := order[0];
      var tail := order[1..];
      var m' := m[x := 0];
      assert Distinct(tail) by {
        forall i, j | 0 <= i < j < |tail| ensures tail[i] != tail[j] {
          assert tail[i] == order[i + 1] && tail[j] == order[j + 1];
        }
      }
      forall y | y in m' ensures y in tail {
        assert y != x && y in order;
        var k :| 0 <= k < |order| && order[k] == y;
        assert k != 0;
        assert tail[k - 1] == y;
      }
      SumMultiplicitiesIsSize(tail, m');
      forall i | 0 <= i < |tail| ensures m[tail[i]] == m'[tail[i]] {
        assert tail[i] == order[i + 1] != order[0];
      }
      SumMultiplicitiesAgree(tail, m, m');
      RemoveAllCopies(m, x);
    }
  }
}
