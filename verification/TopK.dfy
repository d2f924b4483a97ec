/** Sorting a windowed read in bounded memory: the top-k buffer and the branch that uses it. */
module TopK {
  import opened Wrappers
  import opened Streams
  import opened StableSort

  // ---------- The order of sort() ----------

  /** A row with the values of its sort columns, already mapped to an ordered domain. */
  datatype Keyed<T> = Keyed(keys: seq<int>, row: T)

  function KeyAt(keys: seq<int>, i: nat): int { if i < |keys| then keys[i] else 0 }

  /** Lexicographic order on the sort columns from column `i` on, each ascending or descending. */
  predicate KeysLe(descending: seq<bool>, i: nat, a: seq<int>, b: seq<int>)
    decreases |descending| - i
  {
    i >= |descending|
    || (if descending[i] then KeyAt(a, i) > KeyAt(b, i) else KeyAt(a, i) < KeyAt(b, i))
    || (KeyAt(a, i) == KeyAt(b, i) && KeysLe(descending, i + 1, a, b))
  }

  function ByKeys<T>(descending: seq<bool>): (Keyed<T>, Keyed<T>) -> bool {
    (x: Keyed<T>, y: Keyed<T>) => KeysLe(descending, 0, x.keys, y.keys)
  }

  lemma {:induction false} KeysLeTotal(descending: seq<bool>, i: nat, a: seq<int>, b: seq<int>)
    ensures KeysLe(descending, i, a, b) || KeysLe(descending, i, b, a)
    decreases |descending| - i
  {
    if i >= |descending| {
    } else {
      KeysLeTotal(descending, i + 1, a, b);
    }
  }

  lemma {:induction false} KeysLeTransitive(descending: seq<bool>, i: nat, a: seq<int>, b: seq<int>, c: seq<int>)
    requires KeysLe(descending, i, a, b) && KeysLe(descending, i, b, c)
    ensures KeysLe(descending, i, a, c)
    decreases |descending| - i
  {
    if i >= |descending| || !(KeyAt(a, i) == KeyAt(b, i) == KeyAt(c, i)) {
    } else {
      KeysLeTransitive(descending, i + 1, a, b, c);
    }
  }

  /** Any list of ascending and descending sort columns orders the rows. */
  lemma ByKeysIsOrder<T(!new)>(descending: seq<bool>)
    ensures TotalPreorder(ByKeys<T>(descending))
  {
    var le := ByKeys<T>(descending);
    forall x, y ensures le(x, y) || le(y, x) {
      KeysLeTotal(descending, 0, x.keys, y.keys);
    }
    forall x, y, z | le(x, y) && le(y, z) ensures le(x, z) {
      KeysLeTransitive(descending, 0, x.keys, y.keys, z.keys);
    }
  }

  /** `a` comes before `b` by their keys in column `c`, the first one in which they differ. */
  predicate PrecedesAt(descending: seq<bool>, a: seq<int>, b: seq<int>, c: nat)
    requires c < |descending| == |a| == |b|
  {
    && (forall d :: 0 <= d < c ==> a[d] == b[d])
    && (if descending[c] then a[c] > b[c] else a[c] < b[c])
  }

  /** `a` may stand before `b`: all keys agree, or `a` precedes `b` in the first column that differs. */
  ghost predicate MayPrecede(descending: seq<bool>, a: seq<int>, b: seq<int>)
    requires |descending| == |a| == |b|
  {
    a == b || exists c :: 0 <= c < |descending| && PrecedesAt(descending, a, b, c)
  }

  lemma {:induction false} KeysLeMeans(descending: seq<bool>, i: nat, a: seq<int>, b: seq<int>)
    requires i <= |descending| == |a| == |b| && forall d :: 0 <= d < i ==> a[d] == b[d]
    ensures KeysLe(descending, i, a, b) <==> MayPrecede(descending, a, b)
    decreases |descending| - i
  {
    if i == |descending| {
      assert a == b;
    } else if a[i] == b[i] {
      KeysLeMeans(descending, i + 1, a, b);
    } else if KeysLe(descending, i, a, b) {
      assert PrecedesAt(descending, a, b, i);
    }
  }

  /** Every row carries one key for each sort column. */
  predicate HasKeys<T>(columns: nat, s: seq<Keyed<T>>) {
    forall i :: 0 <= i < |s| ==> |s[i].keys| == columns
  }

  /** The rows stand in the order of their keys. */
  ghost predicate InKeyOrder<T>(descending: seq<bool>, s: seq<Keyed<T>>)
    requires HasKeys(|descending|, s)
  {
    forall i, j :: 0 <= i < j < |s| ==> MayPrecede(descending, s[i].keys, s[j].keys)
  }

  /** Sorting by the keys brings the rows into their order, and nothing else counts as sorted. */
  lemma SortedByKeys<T>(descending: seq<bool>, s: seq<Keyed<T>>)
    requires HasKeys(|descending|, s)
    ensures Sorted(ByKeys(descending), s) <==> InKeyOrder(descending, s)
  {
    var le := ByKeys<T>(descending);
    forall i, j | 0 <= i < j < |s|
      ensures le(s[i], s[j]) <==> MayPrecede(descending, s[i].keys, s[j].keys)
    {
      KeysLeMeans(descending, 0, s[i].keys, s[j].keys);
    }
  }

  /** A window of the sorted rows is a window of the same rows, in the order of their keys. */
  lemma WindowInKeyOrder<T(!new)>(descending: seq<bool>, s: seq<Keyed<T>>, offset: nat, n: nat)
    requires HasKeys(|descending|, s)
    ensures HasKeys(|descending|, Sort(ByKeys(descending), s))
    ensures HasKeys(|descending|, Slice(Sort(ByKeys(descending), s), offset, n))
    ensures InKeyOrder(descending, Slice(Sort(ByKeys(descending), s), offset, n))
  {
    hide KeysLe, ByKeys;
    var le := ByKeys<T>(descending);
    ByKeysIsOrder<T>(descending);
    SortIsStableSort(le, s);
    SortPermutes(le, s);
    var all, window := Sort(le, s), Slice(Sort(le, s), offset, n);
    forall i | 0 <= i < |all| ensures |all[i].keys| == |descending| {
      assert all[i] in multiset(s);
      assert all[i] in s;
    }
    forall i, j | 0 <= i < j < |window| ensures le(window[i], window[j]) {
      assert window[i] == all[offset + i] && window[j] == all[offset + j];
    }
    SortedByKeys(descending, window);
  }

  // ---------- Sorting row numbers instead of rows ----------

  function WithRowIndex<T>(s: seq<T>): seq<(T, nat)> {
    seq(|s|, i requires 0 <= i < |s| => (s[i], i))
  }

  function OnFirst<T>(le: (T, T) -> bool): ((T, nat), (T, nat)) -> bool {
    (p: (T, nat), q: (T, nat)) => le(p.0, q.0)
  }

  ghost function Firsts<T>(ps: seq<(T, nat)>): seq<T> {
    seq(|ps|, i requires 0 <= i < |ps| => ps[i].0)
  }

  lemma {:induction false} InsertFirsts<T>(le: (T, T) -> bool, ps: seq<(T, nat)>, p: (T, nat))
    ensures Firsts(Insert(OnFirst(le), ps, p)) == Insert(le, Firsts(ps), p.0)
  {
    if ps != [] {
      assert Firsts(ps)[1..] == Firsts(ps[1..]);
      if le(ps[0].0, p.0) {
        InsertFirsts(le, ps[1..], p);
        var t := Insert(OnFirst(le), ps[1..], p);
        assert Firsts([ps[0]] + t) == [ps[0].0] + Firsts(t);
      } else {
        assert Firsts([p] + ps) == [p.0] + Firsts(ps);
      }
    } else {
      assert Firsts([p]) == [p.0];
    }
  }

  lemma {:induction false} InsertAllFirsts<T>(le: (T, T) -> bool, ps: seq<(T, nat)>, qs: seq<(T, nat)>)
    ensures Firsts(InsertAll(OnFirst(le), ps, qs)) == InsertAll(le, Firsts(ps), Firsts(qs))
    decreases qs
  {
    if qs == [] {
    } else {
      InsertFirsts(le, ps, qs[0]);
      InsertAllFirsts(le, Insert(OnFirst(le), ps, qs[0]), qs[1..]);
      assert Firsts(qs)[1..] == Firsts(qs[1..]);
    }
  }

  lemma {:induction false} InsertAllMembers<T>(le: (T, T) -> bool, s: seq<T>, r: seq<T>)
    ensures |InsertAll(le, s, r)| == |s| + |r|
    ensures forall x :: x in InsertAll(le, s, r) ==> x in s || x in r
    decreases r
  {
    if r == [] {
    } else {
      InsertLength(le, s, r[0]);
      InsertAllMembers(le, Insert(le, s, r[0]), r[1..]);
    }
  }

  /** Sorting (row, row number) pairs by the row and gathering by the row number is sorting. */
  lemma IndexSort<T>(le: (T, T) -> bool, s: seq<T>)
    ensures var order := Sort(OnFirst(le), WithRowIndex(s));
      && |order| == |s| == |Sort(le, s)|
      && (forall i :: 0 <= i < |order| ==> order[i].1 < |s| && s[order[i].1] == Sort(le, s)[i])
  {
    var pairs := WithRowIndex(s);
    var order := Sort(OnFirst(le), pairs);
    InsertAllFirsts(le, [], pairs);
    assert Firsts<T>([]) == [] && Firsts(pairs) == s;
    InsertAllMembers(OnFirst(le), [], pairs);
    forall i | 0 <= i < |order| ensures order[i].1 < |s| && s[order[i].1] == Sort(le, s)[i] {
      assert order[i] in order;
      assert order[i] in pairs;
      assert Firsts(order)[i] == order[i].0;
    }
  }

  // ---------- The buffer ----------

  class TopKBuffer<T(!new)> {
    var buffer: seq<T>
    const le: (T, T) -> bool
    const k: u64
    const compactAt: u64
    /** Everything pushed so far. */
    ghost var stream: seq<T>

    /** The buffer's first k sorted rows are those of the whole stream, and it stays small. */
    ghost predicate Valid()
      reads this
    {
      && TotalPreorder(le)
      && k <= compactAt
      && |buffer| <= compactAt
      && |buffer| <= |stream|
      && Take(k, Sort(le, buffer)) == Take(k, Sort(le, stream))
    }

    constructor (le: (T, T) -> bool, k: u64, compactAt: u64)
      requires TotalPreorder(le)
      ensures Valid() && stream == []
      ensures this.le == le && this.k == k && this.compactAt == Max(compactAt, k)
    {
      this.le := le;
      this.k := k;
      this.compactAt := if compactAt >= k then compactAt else k;
      buffer := [];
      stream := [];
    }

    /** Sorts row numbers by the key columns and gathers the rows of the slice. */
    method SortedSlice(offset: u64, len: u64) returns (rows: seq<T>)
      requires offset + len < TWO64 || |buffer| < TWO64
      ensures rows == Slice(Sort(le, buffer), offset, len)
    {
      var keys := WithRowIndex(buffer);
      var top := Take(SaturatingAdd(offset, len), Sort(OnFirst(le), keys));
      var picked := Slice(top, offset, len);
      IndexSort(le, buffer);
      SliceOfTake(Sort(OnFirst(le), keys), SaturatingAdd(offset, len), offset, len);
      var gathered := buffer;
      rows := seq(|picked|, i requires 0 <= i < |picked| && picked[i].1 < |gathered| => gathered[picked[i].1]);
    }

    method Push(batch: seq<T>)
      requires Valid()
      modifies this
      ensures Valid() && stream == old(stream) + batch
    {
      TopOfConcat(le, k, buffer, stream, batch);
      buffer := buffer + batch;
      stream := stream + batch;
      if |buffer| > compactAt {
        TopOfTop(le, k, buffer);
        SortIsStableSort(le, buffer);
        var cut := SortedSlice(0, k);
        assert cut == Take(k, Sort(le, buffer));
        buffer := cut;
      }
    }

    /** The requested window of the sorted stream, however the stream was split into batches. */
    method Finish(offset: u64, n: u64) returns (rows: seq<T>)
      requires Valid() && (offset + n <= k || |stream| <= k < TWO64)
      ensures rows == Slice(Sort(le, stream), offset, n)
    {
      SortIsStableSort(le, buffer);
      SortIsStableSort(le, stream);
      rows := SortedSlice(offset, n);
      SliceOfTake(Sort(le, buffer), k, offset, n);
      SliceOfTake(Sort(le, stream), k, offset, n);
    }
  }

  // ---------- The two sort branches of a read ----------

  /** A window of the sorted stream, read batch by batch through the buffer. Heights are `usize`,
      so the stream has fewer than 2^64 rows. */
  method SortedWindow<T(!new)>(batches: seq<seq<Keyed<T>>>, descending: seq<bool>, offset: u64, n: u64)
      returns (rows: seq<Keyed<T>>)
    requires HasKeys(|descending|, Flatten(batches)) && |Flatten(batches)| < TWO64
    ensures rows == Slice(Sort(ByKeys(descending), Flatten(batches)), offset, n)
    ensures HasKeys(|descending|, rows) && InKeyOrder(descending, rows)
  {
    hide KeysLe, ByKeys, InKeyOrder;
    var le := ByKeys<T>(descending);
    ByKeysIsOrder<T>(descending);
    var k: u64 := SaturatingAdd(offset, n);
    var doubled: u64 := SaturatingMul(k, 2);
    var top := new TopKBuffer<Keyed<T>>(le, k, if doubled >= 0x1_0000 then doubled else 0x1_0000);
    for i := 0 to |batches|
      invariant top.Valid() && fresh(top) && top.le == le && top.k == k
      invariant top.stream == Flatten(batches[..i])
    {
      FlattenNext(batches, i);
      top.Push(batches[i]);
    }
    assert batches[..|batches|] == batches;
    rows := top.Finish(offset, n);
    WindowInKeyOrder(descending, Flatten(batches), offset, n);
  }

  /** The sort step of a read. When the row count `described` beforehand shows that the window
      covers every row, the whole frame is sorted and no window is cut; otherwise the buffer is
      used. Both give the same rows as long as the described count is not below the real one. */
  method SortStep<T(!new)>(batches: seq<seq<Keyed<T>>>, descending: seq<bool>, offset: u64, n: u64,
                           described: Option<u64>) returns (rows: seq<Keyed<T>>)
    requires HasKeys(|descending|, Flatten(batches)) && |Flatten(batches)| < TWO64
    ensures described.Some? && offset == 0 && n >= described.value
       ==> rows == Sort(ByKeys(descending), Flatten(batches))
    ensures described.None? || described.value >= |Flatten(batches)|
       ==> rows == Slice(Sort(ByKeys(descending), Flatten(batches)), offset, n)
    ensures HasKeys(|descending|, rows) && InKeyOrder(descending, rows)
  {
    hide KeysLe, ByKeys, InKeyOrder;
    var all := Flatten(batches);
    ByKeysIsOrder<T>(descending);
    SortIsStableSort(ByKeys(descending), all);
    WindowInKeyOrder(descending, all, 0, |all|);
    if offset == 0 && described.Some? && n >= described.value {
      rows := Sort(ByKeys(descending), all);
      assert rows == Slice(rows, 0, |all|);
    } else {
      rows := SortedWindow(batches, descending, offset, n);
    }
  }
}
