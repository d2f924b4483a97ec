/** Cardinalities of finite sets, stated once for the counting arguments of the sampler. */
module Counting {

  /** The integers lo, lo + 1, ..., hi - 1. */
  ghost function Range(lo: int, hi: int): (r: set<int>)
    requires lo <= hi
    ensures forall x :: x in r <==> lo <= x < hi
    ensures |r| == hi - lo
    decreases hi - lo
  {
    if lo == hi then {} else Range(lo, hi - 1) + {hi - 1}
  }

  lemma Element<T>(s: set<T>) returns (x: T)
    requires s != {}
    ensures x in s
  {
    x :| x in s;
  }

  lemma SubsetSize<T>(a: set<T>, b: set<T>)
    requires a <= b
    ensures |a| <= |b|
    ensures |a| == |b| ==> a == b
  {
    assert b == a + (b - a);
    if |a| == |b| {
      assert |b - a| == 0;
      assert b - a == {};
    }
  }

  ghost function Image<X, Y>(xs: set<X>, f: X -> Y): set<Y> {
    set x | x in xs :: f(x)
  }

  ghost predicate InjectiveOn<X(!new), Y>(xs: set<X>, f: X -> Y) {
    forall x, x' :: x in xs && x' in xs && f(x) == f(x') ==> x == x'
  }

  /** An injective image has as many elements as its domain. */
  lemma {:induction false} ImageSize<X(!new), Y>(xs: set<X>, f: X -> Y)
    requires InjectiveOn(xs, f)
    ensures |Image(xs, f)| == |xs|
    decreases xs
  {
    if xs == {} {
      assert Image(xs, f) == {};
    } else {
      var x :| x in xs;
      ImageSize(xs - {x}, f);
      assert f(x) !in Image(xs - {x}, f);
      assert Image(xs, f) == Image(xs - {x}, f) + {f(x)};
    }
  }

  /** The elements of `xs` that `f` sends to `y`. */
  ghost function Fibre<X, Y>(xs: set<X>, f: X -> Y, y: Y): set<X> {
    set x | x in xs && f(x) == y
  }

  /** Counting by fibres: if `f` maps `xs` into `ys` and every fibre has `c` elements,
      then `xs` has `|ys| * c` elements. */
  lemma {:induction false} CountFibres<X(!new), Y(!new)>(xs: set<X>, f: X -> Y, ys: set<Y>, c: nat)
    requires forall x :: x in xs ==> f(x) in ys
    requires forall y :: y in ys ==> |Fibre(xs, f, y)| == c
    ensures |xs| == |ys| * c
    decreases ys
  {
    if ys == {} {
      assert xs == {};
    } else {
      var y :| y in ys;
      var rest := xs - Fibre(xs, f, y);
      forall y' | y' in ys - {y} ensures |Fibre(rest, f, y')| == c {
        assert Fibre(rest, f, y') == Fibre(xs, f, y');
      }
      CountFibres(rest, f, ys - {y}, c);
      assert xs == rest + Fibre(xs, f, y);
      assert |ys| == |ys - {y}| + 1;
      assert (|ys - {y}| + 1) * c == |ys - {y}| * c + c;
    }
  }

  /** The sum of multisets over a set. */
  ghost function Sum<X, R>(xs: set<X>, f: X -> multiset<R>): multiset<R> {
    if xs == {} then multiset{}
    else
      var x :| x in xs;
      f(x) + Sum(xs - {x}, f)
  }

  /** Any element can be taken out first. */
  lemma {:induction false} SumSplit<X, R>(xs: set<X>, f: X -> multiset<R>, x: X)
    requires x in xs
    ensures Sum(xs, f) == f(x) + Sum(xs - {x}, f)
    decreases xs
  {
    var y :| y in xs && Sum(xs, f) == f(y) + Sum(xs - {y}, f);
    if y == x {
    } else {
      SumSplit(xs - {y}, f, x);
      SumSplit(xs - {x}, f, y);
      assert xs - {y} - {x} == xs - {x} - {y};
    }
  }

  lemma {:induction false} SumSame<X(!new), R>(xs: set<X>, f: X -> multiset<R>, g: X -> multiset<R>)
    requires forall x :: x in xs ==> f(x) == g(x)
    ensures Sum(xs, f) == Sum(xs, g)
    decreases xs
  {
    if xs == {} {
    } else {
      var x :| x in xs;
      SumSplit(xs, f, x);
      SumSplit(xs, g, x);
      SumSame(xs - {x}, f, g);
    }
  }

  lemma {:induction false} SumOfNothing<X(!new), R>(xs: set<X>, f: X -> multiset<R>)
    requires forall x :: x in xs ==> f(x) == multiset{}
    ensures Sum(xs, f) == multiset{}
    decreases xs
  {
    if xs == {} {
    } else {
      var x :| x in xs;
      SumSplit(xs, f, x);
      SumOfNothing(xs - {x}, f);
    }
  }

  lemma {:induction false} SumMember<X(!new), R(!new)>(xs: set<X>, f: X -> multiset<R>, r: R) returns (x: X)
    requires r in Sum(xs, f)
    ensures x in xs && r in f(x)
    decreases xs
  {
    var y :| y in xs;
    SumSplit(xs, f, y);
    if r in f(y) {
      x := y;
    } else {
      x := SumMember(xs - {y}, f, r);
    }
  }

  /** One summand grows, so the sum does. */
  lemma SumGrows<X(!new), R>(xs: set<X>, f: X -> multiset<R>, g: X -> multiset<R>, x: X, more: multiset<R>)
    requires x in xs && g(x) == f(x) + more && forall y :: y in xs && y != x ==> g(y) == f(y)
    ensures Sum(xs, g) == Sum(xs, f) + more
  {
    SumSplit(xs, f, x);
    SumSplit(xs, g, x);
    SumSame(xs - {x}, f, g);
  }
}
