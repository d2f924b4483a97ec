/** Streams of rows that arrive in batches. */
module Streams {
  import opened Wrappers

  predicate Distinct<T(==)>(q: seq<T>) { forall i, j :: 0 <= i < j < |q| ==> q[i] != q[j] }

  /** The stream a sequence of batches carries. */
  function Flatten<T>(batches: seq<seq<T>>): seq<T> {
    if batches == [] then [] else Flatten(batches[..|batches| - 1]) + batches[|batches| - 1]
  }

  lemma FlattenNext<T>(batches: seq<seq<T>>, i: nat)
    requires i < |batches|
    ensures Flatten(batches[..i + 1]) == Flatten(batches[..i]) + batches[i]
  {
    assert batches[..i + 1][..i] == batches[..i];
  }

  lemma FlattenPush<T>(batches: seq<seq<T>>, batch: seq<T>)
    ensures Flatten(batches + [batch]) == Flatten(batches) + batch
  {
    assert (batches + [batch])[..|batches|] == batches;
  }

  /** A prefix of the batches carries a prefix of the stream. */
  lemma {:induction false} FlattenPrefix<T>(batches: seq<seq<T>>, i: nat)
    requires i <= |batches|
    ensures Flatten(batches[..i]) <= Flatten(batches)
    decreases |batches| - i
  {
    if i == |batches| {
      assert batches[..i] == batches;
    } else {
      FlattenPrefix(batches, i + 1);
      FlattenNext(batches, i);
    }
  }

  function Take<T>(k: nat, s: seq<T>): seq<T> { if k <= |s| then s[..k] else s }

  /** Polars' slice: rows offset..offset + len, as far as they exist. */
  function Slice<T>(s: seq<T>, offset: nat, len: nat): seq<T> {
    s[Min(offset, |s|)..Min(offset + len, |s|)]
  }

  lemma SliceOfTake<T>(s: seq<T>, k: nat, offset: nat, n: nat)
    requires offset + n <= k || |s| <= k
    ensures Slice(Take(k, s), offset, n) == Slice(s, offset, n)
  {
    if k <= |s| && offset + n <= k {
      var lo, hi := Min(offset, k), Min(offset + n, k);
      assert s[..k][lo..hi] == s[lo..hi];
    }
  }

  /** The rows a row-local filter keeps. */
  function Filter<T>(keep: T -> bool, s: seq<T>): seq<T> {
    if s == [] then []
    else Filter(keep, s[..|s| - 1]) + (if keep(s[|s| - 1]) then [s[|s| - 1]] else [])
  }

  lemma {:induction false} FilterConcat<T>(keep: T -> bool, a: seq<T>, b: seq<T>)
    ensures Filter(keep, a + b) == Filter(keep, a) + Filter(keep, b)
  {
    if b == [] {
      assert a + b == a;
    } else {
      assert (a + b)[..|a + b| - 1] == a + b[..|b| - 1];
      FilterConcat(keep, a, b[..|b| - 1]);
    }
  }

  lemma {:induction false} FilterSame<T>(p: T -> bool, q: T -> bool, s: seq<T>)
    requires forall i :: 0 <= i < |s| ==> p(s[i]) == q(s[i])
    ensures Filter(p, s) == Filter(q, s)
  {
    if s == [] {
    } else {
      FilterSame(p, q, s[..|s| - 1]);
    }
  }

  lemma {:induction false} FilterAll<T>(keep: T -> bool, s: seq<T>)
    requires forall i :: 0 <= i < |s| ==> keep(s[i])
    ensures Filter(keep, s) == s
  {
    if s == [] {
    } else {
      FilterAll(keep, s[..|s| - 1]);
    }
  }

  /** `at` lists, in increasing order, all positions of `s` whose row satisfies `keep`, and no others. */
  ghost predicate AreSelected<T>(keep: T -> bool, s: seq<T>, at: seq<nat>) {
    && (forall i, j :: 0 <= i < j < |at| ==> at[i] < at[j])
    && (forall i :: 0 <= i < |at| ==> at[i] < |s|)
    && (forall p: nat :: p < |s| ==> (p in at <==> keep(s[p])))
  }

  lemma SelectedNext<T>(keep: T -> bool, s: seq<T>, x: T, at: seq<nat>)
    requires AreSelected(keep, s, at)
    ensures AreSelected(keep, s + [x], if keep(x) then at + [|s|] else at)
  {
    var next := if keep(x) then at + [|s|] else at;
    forall p: nat | p < |s| + 1 ensures p in next <==> keep((s + [x])[p]) {
      assert p < |s| ==> (p in next <==> p in at);
    }
  }

  /** `rows` are the rows of `s` at these positions. */
  predicate PickedAt<T(==)>(rows: seq<T>, s: seq<T>, at: seq<nat>) {
    |rows| == |at| && forall i :: 0 <= i < |at| ==> at[i] < |s| && rows[i] == s[at[i]]
  }

  lemma PickedNext<T>(rows: seq<T>, s: seq<T>, x: T, at: seq<nat>)
    requires PickedAt(rows, s, at)
    ensures PickedAt(rows, s + [x], at) && PickedAt(rows + [x], s + [x], at + [|s|])
  {
  }

  lemma FilterNext<T>(keep: T -> bool, s: seq<T>, x: T)
    ensures Filter(keep, s + [x]) == Filter(keep, s) + if keep(x) then [x] else []
  {
    assert (s + [x])[..|s|] == s;
  }

  /** A filter leaves the rows at the positions whose row satisfies it, in their order. */
  lemma {:induction false} FilterSelects<T>(keep: T -> bool, s: seq<T>) returns (at: seq<nat>)
    ensures AreSelected(keep, s, at) && PickedAt(Filter(keep, s), s, at)
  {
    if s == [] {
      at := [];
    } else {
      hide AreSelected, PickedAt, Filter;
      var init, x := s[..|s| - 1], s[|s| - 1];
      at := FilterSelects(keep, init);
      SelectedNext(keep, init, x, at);
      PickedNext(Filter(keep, init), init, x, at);
      FilterNext(keep, init, x);
      assert s == init + [x];
      if keep(x) {
        at := at + [|init|];
      } else {
        assert Filter(keep, init) + [] == Filter(keep, init);
      }
    }
  }

  /** A row that satisfies the filter stays as often as it occurs, any other row goes. */
  lemma {:induction false} FilterCounts<T>(keep: T -> bool, s: seq<T>, x: T)
    ensures multiset(Filter(keep, s))[x] == if keep(x) then multiset(s)[x] else 0
  {
    if s == [] {
    } else {
      FilterCounts(keep, s[..|s| - 1], x);
      assert s == s[..|s| - 1] + [s[|s| - 1]];
    }
  }
}
