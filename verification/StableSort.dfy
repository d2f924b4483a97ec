/** Stable sorting under any total preorder, as the reference the top-k buffer is held to. */
module StableSort {
  import opened Streams

  ghost predicate TotalPreorder<T(!new)>(le: (T, T) -> bool) {
    && (forall x, y :: le(x, y) || le(y, x))
    && (forall x, y, z :: le(x, y) && le(y, z) ==> le(x, z))
  }

  predicate Sorted<T>(le: (T, T) -> bool, s: seq<T>) {
    forall i, j :: 0 <= i < j < |s| ==> le(s[i], s[j])
  }

  /** Puts `x` into a sorted sequence, behind everything that may come before it. */
  function Insert<T>(le: (T, T) -> bool, s: seq<T>, x: T): seq<T> {
    if s == [] then [x]
    else if le(s[0], x) then [s[0]] + Insert(le, s[1..], x)
    else [x] + s
  }

  function InsertAll<T>(le: (T, T) -> bool, s: seq<T>, r: seq<T>): seq<T>
    decreases r
  {
    if r == [] then s else InsertAll(le, Insert(le, s, r[0]), r[1..])
  }

  /** The stable sort: rows that compare equal keep their order. */
  function Sort<T>(le: (T, T) -> bool, s: seq<T>): seq<T> {
    InsertAll(le, [], s)
  }

  /** Neither of the two has to come before the other. */
  predicate Ties<T>(le: (T, T) -> bool, x: T, y: T) { le(x, y) && le(y, x) }

  /** The rows of `s` that tie with `x`, in the order they have in `s`. */
  function TiesOf<T>(le: (T, T) -> bool, s: seq<T>, x: T): seq<T> {
    if s == [] then []
    else (if Ties(le, s[0], x) then [s[0]] else []) + TiesOf(le, s[1..], x)
  }

  // ---------- Sort is the stable sort, and the only one ----------

  lemma {:induction false} InsertLength<T>(le: (T, T) -> bool, s: seq<T>, x: T)
    ensures |Insert(le, s, x)| == |s| + 1
    ensures forall i :: 0 <= i < |s| + 1 ==> Insert(le, s, x)[i] == x || Insert(le, s, x)[i] in s
  {
    if s == [] || !le(s[0], x) {
    } else {
      InsertLength(le, s[1..], x);
    }
  }

  lemma {:induction false} InsertSorted<T(!new)>(le: (T, T) -> bool, s: seq<T>, x: T)
    requires TotalPreorder(le) && Sorted(le, s)
    ensures Sorted(le, Insert(le, s, x))
  {
    if s == [] {
    } else {
      if le(s[0], x) {
        InsertSorted(le, s[1..], x);
        InsertLength(le, s[1..], x);
        var t := Insert(le, s[1..], x);
        forall i | 0 <= i < |t| ensures le(s[0], t[i]) {}
      } else {
        forall i | 0 <= i < |s| ensures le(x, s[i]) {
          assert le(x, s[0]) && (i == 0 || le(s[0], s[i]));
        }
      }
    }
  }

  lemma {:induction false} InsertAllSorted<T(!new)>(le: (T, T) -> bool, s: seq<T>, r: seq<T>)
    requires TotalPreorder(le) && Sorted(le, s)
    ensures Sorted(le, InsertAll(le, s, r)) && |InsertAll(le, s, r)| == |s| + |r|
    decreases r
  {
    if r == [] {
    } else {
      InsertSorted(le, s, r[0]);
      InsertLength(le, s, r[0]);
      InsertAllSorted(le, Insert(le, s, r[0]), r[1..]);
    }
  }

  lemma {:induction false} TiesOfConcat<T>(le: (T, T) -> bool, a: seq<T>, b: seq<T>, x: T)
    ensures TiesOf(le, a + b, x) == TiesOf(le, a, x) + TiesOf(le, b, x)
  {
    if a == [] {
      assert a + b == b;
    } else {
      var rest := a[1..];
      var first := if Ties(le, a[0], x) then [a[0]] else [];
      assert (a + b)[0] == a[0] && (a + b)[1..] == rest + b;
      TiesOfConcat(le, rest, b, x);
      assert TiesOf(le, a + b, x) == first + TiesOf(le, rest + b, x);
      assert TiesOf(le, a, x) == first + TiesOf(le, rest, x);
      hide TiesOf;
    }
  }

  lemma {:induction false} NoTies<T>(le: (T, T) -> bool, s: seq<T>, x: T)
    requires forall i :: 0 <= i < |s| ==> !Ties(le, s[i], x)
    ensures TiesOf(le, s, x) == []
  {
    if s == [] {
    } else {
      NoTies(le, s[1..], x);
    }
  }

  /** Inserting keeps every tie class in order: the new row goes to the end of its class. */
  lemma {:induction false} InsertTies<T(!new)>(le: (T, T) -> bool, s: seq<T>, y: T, x: T)
    requires TotalPreorder(le) && Sorted(le, s)
    ensures TiesOf(le, Insert(le, s, y), x) == TiesOf(le, s + [y], x)
  {
    TiesOfConcat(le, s, [y], x);
    if s != [] {
      if le(s[0], y) {
        InsertTies(le, s[1..], y, x);
        TiesOfConcat(le, s[1..], [y], x);
        assert ([s[0]] + Insert(le, s[1..], y))[1..] == Insert(le, s[1..], y);
      } else {
        TiesOfConcat(le, [y], s, x);
        if Ties(le, y, x) {
          NoTies(le, s, x);
        }
      }
    } else {
      assert s + [y] == [y];
    }
  }

  lemma {:induction false} InsertAllTies<T(!new)>(le: (T, T) -> bool, s: seq<T>, r: seq<T>, x: T)
    requires TotalPreorder(le) && Sorted(le, s)
    ensures TiesOf(le, InsertAll(le, s, r), x) == TiesOf(le, s + r, x)
    decreases r
  {
    if r == [] {
      assert s + r == s;
    } else {
      var t, rest := Insert(le, s, r[0]), r[1..];
      InsertSorted(le, s, r[0]);
      assert InsertAll(le, s, r) == InsertAll(le, t, rest);
      hide TiesOf, Insert, InsertAll, Sorted, TotalPreorder;
      calc {
        TiesOf(le, InsertAll(le, t, rest), x);
        { InsertAllTies(le, t, rest, x); }
        TiesOf(le, t + rest, x);
        { TiesOfConcat(le, t, rest, x); }
        TiesOf(le, t, x) + TiesOf(le, rest, x);
        { InsertTies(le, s, r[0], x); }
        TiesOf(le, s + [r[0]], x) + TiesOf(le, rest, x);
        { TiesOfConcat(le, s + [r[0]], rest, x); }
        TiesOf(le, s + [r[0]] + rest, x);
        { assert s + [r[0]] + rest == s + r; }
        TiesOf(le, s + r, x);
      }
    }
  }

  /** `Sort` sorts, and keeps the order within every class of ties (so it also keeps every row). */
  lemma SortIsStableSort<T(!new)>(le: (T, T) -> bool, s: seq<T>)
    requires TotalPreorder(le)
    ensures Sorted(le, Sort(le, s)) && |Sort(le, s)| == |s|
    ensures forall x :: TiesOf(le, Sort(le, s), x) == TiesOf(le, s, x)
  {
    InsertAllSorted(le, [], s);
    forall x ensures TiesOf(le, Sort(le, s), x) == TiesOf(le, s, x) {
      InsertAllTies(le, [], s, x);
      assert [] + s == s;
    }
  }

  lemma {:induction false} InsertPermutes<T>(le: (T, T) -> bool, s: seq<T>, x: T)
    ensures multiset(Insert(le, s, x)) == multiset(s) + multiset{x}
  {
    if s == [] {
    } else if le(s[0], x) {
      InsertPermutes(le, s[1..], x);
      assert s == [s[0]] + s[1..];
    }
  }

  lemma {:induction false} InsertAllPermutes<T>(le: (T, T) -> bool, s: seq<T>, r: seq<T>)
    ensures multiset(InsertAll(le, s, r)) == multiset(s) + multiset(r)
    decreases r
  {
    if r == [] {
    } else {
      InsertPermutes(le, s, r[0]);
      InsertAllPermutes(le, Insert(le, s, r[0]), r[1..]);
      assert r == [r[0]] + r[1..];
    }
  }

  /** Sorting neither loses nor invents a row, whatever the order. */
  lemma SortPermutes<T>(le: (T, T) -> bool, s: seq<T>)
    ensures multiset(Sort(le, s)) == multiset(s)
  {
    InsertAllPermutes(le, [], s);
  }

  lemma {:induction false} TiesOfMember<T>(le: (T, T) -> bool, s: seq<T>, x: T, i: nat)
    requires i < |s| && Ties(le, s[i], x)
    ensures TiesOf(le, s, x) != []
  {
    if i == 0 {
    } else {
      TiesOfMember(le, s[1..], x, i - 1);
    }
  }

  lemma {:induction false} TiesOfOrigin<T>(le: (T, T) -> bool, s: seq<T>, x: T) returns (i: nat)
    requires TiesOf(le, s, x) != []
    ensures i < |s| && Ties(le, s[i], x)
  {
    if Ties(le, s[0], x) {
      i := 0;
    } else {
      i := TiesOfOrigin(le, s[1..], x);
      i := i + 1;
    }
  }

  /** Two sorted sequences with the same tie classes start with the same row. */
  lemma SameHead<T(!new)>(le: (T, T) -> bool, a: seq<T>, b: seq<T>)
    requires TotalPreorder(le) && Sorted(le, a) && Sorted(le, b)
    requires forall x :: TiesOf(le, a, x) == TiesOf(le, b, x)
    requires a != []
    ensures b != [] && a[0] == b[0]
  {
    TiesOfMember(le, a, a[0], 0);
    var i := TiesOfOrigin(le, b, a[0]);
    TiesOfMember(le, b, b[0], 0);
    var j := TiesOfOrigin(le, a, b[0]);
    assert le(b[0], b[i]) || i == 0;
    assert le(a[0], a[j]) || j == 0;
    assert Ties(le, b[0], a[0]) && Ties(le, a[0], a[0]);
    assert TiesOf(le, a, a[0])[0] == a[0];
    assert TiesOf(le, b, a[0])[0] == b[0];
  }

  /** A sorted sequence is determined by its tie classes. */
  lemma {:induction false} StableSortUnique<T(!new)>(le: (T, T) -> bool, a: seq<T>, b: seq<T>)
    requires TotalPreorder(le) && Sorted(le, a) && Sorted(le, b)
    requires forall x :: TiesOf(le, a, x) == TiesOf(le, b, x)
    ensures a == b
    decreases |a|
  {
    if a == [] {
      if b != [] {
        TiesOfMember(le, b, b[0], 0);
        assert false;
      }
    } else {
      SameHead(le, a, b);
      forall x ensures TiesOf(le, a[1..], x) == TiesOf(le, b[1..], x) {
        var h := if Ties(le, a[0], x) then [a[0]] else [];
        assert TiesOf(le, a, x) == h + TiesOf(le, a[1..], x);
        assert TiesOf(le, b, x) == h + TiesOf(le, b[1..], x);
        assert (h + TiesOf(le, a[1..], x))[|h|..] == TiesOf(le, a[1..], x);
        assert (h + TiesOf(le, b[1..], x))[|h|..] == TiesOf(le, b[1..], x);
      }
      StableSortUnique(le, a[1..], b[1..]);
    }
  }

  // ---------- Sorting piecewise ----------

  lemma {:induction false} InsertAllConcat<T>(le: (T, T) -> bool, s: seq<T>, a: seq<T>, b: seq<T>)
    ensures InsertAll(le, s, a + b) == InsertAll(le, InsertAll(le, s, a), b)
    decreases a
  {
    if a == [] {
      assert a + b == b;
    } else {
      assert (a + b)[1..] == a[1..] + b;
      InsertAllConcat(le, Insert(le, s, a[0]), a[1..], b);
    }
  }

  /** Sorting an already sorted sequence changes nothing. */
  lemma SortSorted<T(!new)>(le: (T, T) -> bool, s: seq<T>)
    requires TotalPreorder(le) && Sorted(le, s)
    ensures Sort(le, s) == s
  {
    SortIsStableSort(le, s);
    StableSortUnique(le, Sort(le, s), s);
  }

  lemma TakeCons<T>(k: nat, x: T, s: seq<T>)
    requires k > 0
    ensures Take(k, [x] + s) == [x] + Take(k - 1, s)
  {
  }

  /** What lies beyond the first k rows never moves into them. */
  lemma {:induction false} TakeInsert<T>(le: (T, T) -> bool, k: nat, s: seq<T>, x: T)
    ensures Take(k, Insert(le, s, x)) == Take(k, Insert(le, Take(k, s), x))
  {
    if s == [] || k == 0 {
    } else {
      var t := Take(k, s);
      assert t[0] == s[0] && t[1..] == Take(k - 1, s[1..]);
      if le(s[0], x) {
        TakeInsert(le, k - 1, s[1..], x);
        TakeCons(k, s[0], Insert(le, s[1..], x));
        TakeCons(k, s[0], Insert(le, t[1..], x));
      } else {
        TakeCons(k, x, s);
        TakeCons(k, x, t);
        assert Take(k - 1, s) == Take(k - 1, t);
      }
    }
  }

  lemma {:induction false} TakeInsertAll<T>(le: (T, T) -> bool, k: nat, s: seq<T>, r: seq<T>)
    ensures Take(k, InsertAll(le, s, r)) == Take(k, InsertAll(le, Take(k, s), r))
    decreases r
  {
    if r == [] {
    } else {
      TakeInsertAll(le, k, Insert(le, s, r[0]), r[1..]);
      TakeInsertAll(le, k, Insert(le, Take(k, s), r[0]), r[1..]);
      TakeInsert(le, k, s, r[0]);
    }
  }

  /** The first k rows of a sort depend only on the first k sorted rows of a part and the rest. */
  lemma TopOfConcat<T(!new)>(le: (T, T) -> bool, k: nat, a: seq<T>, a': seq<T>, b: seq<T>)
    requires TotalPreorder(le)
    requires Take(k, Sort(le, a)) == Take(k, Sort(le, a'))
    ensures Take(k, Sort(le, a + b)) == Take(k, Sort(le, a' + b))
  {
    InsertAllConcat(le, [], a, b);
    InsertAllConcat(le, [], a', b);
    TakeInsertAll(le, k, Sort(le, a), b);
    TakeInsertAll(le, k, Sort(le, a'), b);
  }

  /** Cutting a sequence back to its first k sorted rows keeps those rows. */
  lemma TopOfTop<T(!new)>(le: (T, T) -> bool, k: nat, s: seq<T>)
    requires TotalPreorder(le)
    ensures Take(k, Sort(le, Take(k, Sort(le, s)))) == Take(k, Sort(le, s))
  {
    SortIsStableSort(le, s);
    SortSorted(le, Take(k, Sort(le, s)));
  }
}
