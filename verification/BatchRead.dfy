/** The read loops that carry batches into Stata: the skip/take window of the readstat path and
    the streaming sink, with or without a random sample. */
module BatchRead {
  import opened Wrappers
  import opened Streams
  import opened StataData
  import opened DataTypes
  import opened BatchWriter
  import opened StreamSampler
  import opened Floyd
  import opened StableSort

  /** Where and how the rows go: the first Stata row is stataOffset + 1. */
  datatype Target = Target(schema: map<string, DType>, cols: seq<ColumnInfo>, stataOffset: nat, nThreads: nat,
                           poolThreads: nat) {

    ghost predicate Valid() { poolThreads > 0 }

    ghost predicate CanWrite() { !BatchRejects(schema, cols) }

    /** The cells hold `rows` from the first Stata row of the read on, and all others are as they were. */
    ghost predicate Shows(before: Cells, after: Cells, rows: seq<Row>) {
      HoldsRows(before, after, schema, rows, 1 + stataOffset, cols)
    }

    /** `rows` were appended after the first `done` rows of this read, and nothing else changed. */
    ghost predicate Appended(before: Cells, after: Cells, done: nat, rows: seq<Row>) {
      Wrote(before, after, schema, rows, done + 1 + stataOffset, RegularColumns(cols))
    }

    lemma AppendedShows(before: Cells, after: Cells, rows: seq<Row>)
      requires Appended(before, after, 0, rows)
      ensures Shows(before, after, rows)
    {
      hide Wrote, HoldsRows;
      RegularHolds(before, after, schema, rows, 1 + stataOffset, cols);
    }

    lemma AppendedNothing(cells: Cells, done: nat)
      ensures Appended(cells, cells, done, [])
    {
    }

    lemma EmptyTarget(cells: Cells, rows: seq<Row>)
      requires cols == []
      ensures Appended(cells, cells, 0, rows)
    {
    }

    lemma AppendedMore(m0: Cells, m1: Cells, m2: Cells, a: seq<Row>, b: seq<Row>)
      requires Appended(m0, m1, 0, a) && Appended(m1, m2, |a|, b)
      ensures Appended(m0, m2, 0, a + b)
    {
      hide Wrote;
      WroteConcat(m0, m1, m2, schema, a, b, 1 + stataOffset, RegularColumns(cols));
    }
  }

  /** Existing Stata rows 1..stataOffset keep their contents. */
  ghost predicate KeepsEarlierRows(before: Cells, after: Cells, stataOffset: nat) {
    forall c: Cell :: c.row <= stataOffset ==> Get(after, c) == Get(before, c)
  }

  function Kept(filter: Option<Row -> bool>, s: seq<Row>): seq<Row> {
    if filter.None? then s else Filter(filter.value, s)
  }

  function KeepOf(filter: Option<Row -> bool>): Row -> bool {
    if filter.None? then (row: Row) => true else filter.value
  }

  /** `rows` are the rows of `source` at the positions `at`, from number `offset` on: `n` of them, or
      as many as there are. */
  ghost predicate IsWindow(rows: seq<Row>, source: seq<Row>, at: seq<nat>, offset: nat, n: nat) {
    && |rows| == (if |at| <= offset then 0 else if n <= |at| - offset then n else |at| - offset)
    && forall i :: 0 <= i < |rows| ==> at[offset + i] < |source| && rows[i] == source[at[offset + i]]
  }

  /** Stata holds the window of the rows of `source` that satisfy the filter. */
  ghost predicate ShowsWindow(target: Target, before: Cells, after: Cells, filter: Option<Row -> bool>,
                              source: seq<Row>, offset: nat, n: nat) {
    exists at, rows :: AreSelected(KeepOf(filter), source, at) && IsWindow(rows, source, at, offset, n)
      && target.Shows(before, after, rows)
  }

  lemma {:induction false} AllSelected(source: seq<Row>) returns (at: seq<nat>)
    ensures AreSelected((row: Row) => true, source, at) && PickedAt(source, source, at)
  {
    at := seq(|source|, i requires 0 <= i < |source| => i);
    forall p: nat | p < |source| ensures p in at {
      assert at[p] == p;
    }
  }

  lemma PickedWindow(rows: seq<Row>, source: seq<Row>, at: seq<nat>, offset: nat, n: nat)
    requires PickedAt(rows, source, at)
    ensures IsWindow(Slice(rows, offset, n), source, at, offset, n)
  {
  }

  lemma KeptWindow(filter: Option<Row -> bool>, source: seq<Row>, offset: nat, n: nat) returns (at: seq<nat>)
    ensures AreSelected(KeepOf(filter), source, at)
    ensures IsWindow(Slice(Kept(filter, source), offset, n), source, at, offset, n)
  {
    hide AreSelected, IsWindow, PickedAt, Filter, Slice;
    if filter.None? {
      at := AllSelected(source);
    } else {
      at := FilterSelects(filter.value, source);
    }
    PickedWindow(Kept(filter, source), source, at, offset, n);
  }

  lemma AppendedWindow(target: Target, before: Cells, after: Cells, filter: Option<Row -> bool>, source: seq<Row>,
                       offset: nat, n: nat)
    requires target.Appended(before, after, 0, Slice(Kept(filter, source), offset, n))
    ensures ShowsWindow(target, before, after, filter, source, offset, n)
  {
    hide AreSelected, IsWindow, Kept;
    var at := KeptWindow(filter, source, offset, n);
    target.AppendedShows(before, after, Slice(Kept(filter, source), offset, n));
  }

  lemma KeptConcat(filter: Option<Row -> bool>, a: seq<Row>, b: seq<Row>)
    ensures Kept(filter, a + b) == Kept(filter, a) + Kept(filter, b)
  {
    if filter.Some? {
      FilterConcat(filter.value, a, b);
    }
  }

  /** What the next batch adds to the window: skip what the offset still asks for, take what is
      still missing. */
  lemma WindowNext(s: seq<Row>, b: seq<Row>, offset: nat, n: nat, skip: nat, remaining: nat)
    requires skip == offset - Min(offset, |s|) && remaining == n - |Slice(s, offset, n)|
    ensures Slice(s + b, offset, n) == Slice(s, offset, n) + Take(remaining, b[Min(skip, |b|)..])
  {
    var l, before, added := Slice(s + b, offset, n), Slice(s, offset, n), Take(remaining, b[Min(skip, |b|)..]);
    assert |l| == |before + added|;
    forall i | 0 <= i < |l| ensures l[i] == (before + added)[i] {
      assert l[i] == (s + b)[offset + i];
      if i < |before| {
        assert before[i] == s[offset + i];
      } else {
        assert offset + i >= |s| && added[i - |before|] == b[skip + i - |before|];
      }
    }
  }

  /** A full window stays as it is, whatever follows. */
  lemma WindowFull(s: seq<Row>, longer: seq<Row>, offset: nat, n: nat)
    requires s <= longer && |Slice(s, offset, n)| == n
    ensures Slice(longer, offset, n) == Slice(s, offset, n)
  {
    if n > 0 {
      var l, r := Slice(longer, offset, n), Slice(s, offset, n);
      forall i | 0 <= i < n ensures l[i] == r[i] {
        assert l[i] == longer[offset + i] && r[i] == s[offset + i];
      }
    }
  }

  lemma KeptPrefix(filter: Option<Row -> bool>, batches: seq<seq<Row>>, i: nat)
    requires i <= |batches|
    ensures Kept(filter, Flatten(batches[..i])) <= Kept(filter, Flatten(batches))
  {
    hide Kept, Flatten;
    var a, all := Flatten(batches[..i]), Flatten(batches);
    FlattenPrefix(batches, i);
    assert all == a + all[|a|..];
    KeptConcat(filter, a, all[|a|..]);
  }

  /** Without a filter the reader itself stops after offset + n rows. */
  ghost function Delivered(source: seq<Row>, filter: Option<Row -> bool>, offset: u64, n: u64): seq<Row> {
    if filter.None? then Take(SaturatingAdd(offset, n), source) else source
  }

  lemma NoBatches(filter: Option<Row -> bool>, batches: seq<seq<Row>>)
    ensures Kept(filter, Flatten(batches[..0])) == []
  {
  }

  /** The loop ends with the whole window: all batches are read, or the window is full. */
  lemma WindowDone(target: Target, before: Cells, after: Cells, filter: Option<Row -> bool>, batches: seq<seq<Row>>,
                   i: nat, offset: nat, n: nat)
    requires i <= |batches|
    requires i < |batches| ==> |Slice(Kept(filter, Flatten(batches[..i])), offset, n)| == n
    requires target.Appended(before, after, 0, Slice(Kept(filter, Flatten(batches[..i])), offset, n))
    ensures target.Appended(before, after, 0, Slice(Kept(filter, Flatten(batches)), offset, n))
    ensures ShowsWindow(target, before, after, filter, Flatten(batches), offset, n)
  {
    hide Wrote, Kept, Flatten, Slice, ShowsWindow;
    KeptPrefix(filter, batches, i);
    if i == |batches| {
      assert batches[..i] == batches;
    } else {
      WindowFull(Kept(filter, Flatten(batches[..i])), Kept(filter, Flatten(batches)), offset, n);
    }
    AppendedWindow(target, before, after, filter, Flatten(batches), offset, n);
  }

  method WindowLoop(m: StataMatrix, target: Target, batches: seq<seq<Row>>,
                    filter: Option<Row -> bool>, offset: u64, n: u64) returns (ok: bool)
    requires target.Valid()
    modifies m
    ensures target.CanWrite() ==>
      ok && target.Appended(old(m.cells), m.cells, 0, Slice(Kept(filter, Flatten(batches)), offset, n))
    ensures target.CanWrite() ==>
      ShowsWindow(target, old(m.cells), m.cells, filter, Flatten(batches), offset, n)
    ensures KeepsEarlierRows(old(m.cells), m.cells, target.stataOffset)
  {
    hide Wrote, Filter, Flatten, ShowsWindow, BatchRejects;
    ghost var before := m.cells;
    var rowsToSkip, rowsRemaining, rowsWritten := offset, n, 0;
    var i := 0;
    ghost var seen: seq<Row> := [];
    target.AppendedNothing(before, 0);
    NoBatches(filter, batches);
    while rowsRemaining > 0 && i < |batches|
      invariant 0 <= i <= |batches| && seen == Kept(filter, Flatten(batches[..i]))
      invariant rowsToSkip == offset - Min(offset, |seen|)
      invariant 0 <= rowsWritten && 0 <= rowsRemaining
      invariant rowsWritten == |Slice(seen, offset, n)| && rowsWritten + rowsRemaining == n
      invariant target.Appended(before, m.cells, 0, Slice(seen, offset, n))
      invariant KeepsEarlierRows(before, m.cells, target.stataOffset)
      decreases |batches| - i
    {
      var batch := Kept(filter, batches[i]);
      FlattenNext(batches, i);
      KeptConcat(filter, Flatten(batches[..i]), batches[i]);
      WindowNext(seen, batch, offset, n, rowsToSkip, rowsRemaining);
      ghost var window := Slice(seen, offset, n);
      ghost var added := Take(rowsRemaining, batch[Min(rowsToSkip, |batch|)..]);
      assert window + [] == window;
      seen := seen + batch;
      i := i + 1;
      if rowsToSkip > 0 {
        var skipNow := Min(rowsToSkip, |batch|);
        rowsToSkip := rowsToSkip - skipNow;
        if skipNow > 0 {
          batch := batch[skipNow..];
        }
        if |batch| == 0 {
          assert added == [];
          continue;
        }
      }
      if |batch| > rowsRemaining {
        batch := batch[..rowsRemaining];
      }
      assert batch == added;
      if |batch| == 0 {
        continue;
      }
      ghost var mid := m.cells;
      var written := ProcessBatch(m, target.schema, batch, rowsWritten, target.cols, target.nThreads,
        target.poolThreads, target.stataOffset);
      if !written {
        return false;
      }
      assert target.Appended(mid, m.cells, rowsWritten, batch);
      target.AppendedMore(before, mid, m.cells, window, batch);
      rowsWritten := rowsWritten + |batch|;
      rowsRemaining := if rowsRemaining >= |batch| then rowsRemaining - |batch| else 0;
    }
    WindowDone(target, before, m.cells, filter, batches, i, offset, n);
    ok := true;
  }

  /** Whatever the batching, exactly the rows offset..offset + n of the filtered source are written,
      once each, to consecutive Stata rows from stataOffset + 1 on. */
  method ReadWindow(m: StataMatrix, target: Target, batches: seq<seq<Row>>, ghost source: seq<Row>,
                    filter: Option<Row -> bool>, offset: u64, n: u64) returns (ok: bool)
    requires target.Valid() && |source| < TWO64
    requires Flatten(batches) == Delivered(source, filter, offset, n)
    modifies m
    ensures target.CanWrite() ==>
      ok && target.Appended(old(m.cells), m.cells, 0, Slice(Kept(filter, source), offset, n))
    ensures target.CanWrite() ==> ShowsWindow(target, old(m.cells), m.cells, filter, source, offset, n)
    ensures KeepsEarlierRows(old(m.cells), m.cells, target.stataOffset)
  {
    hide ShowsWindow, Wrote;
    if target.cols == [] {
      target.EmptyTarget(m.cells, Slice(Kept(filter, source), offset, n));
      AppendedWindow(target, m.cells, m.cells, filter, source, offset, n);
      return true;
    }
    ok := WindowLoop(m, target, batches, filter, offset, n);
    if filter.None? {
      SliceOfTake(source, SaturatingAdd(offset, n), offset, n);
    }
    if target.CanWrite() {
      AppendedWindow(target, old(m.cells), m.cells, filter, source, offset, n);
    }
  }

  // ---------- The streaming sink ----------

  /** The rows a sink writes: all of them, or those at the sampled positions. */
  function Sunk(stream: seq<Row>, positions: Option<seq<int>>): seq<Row> {
    if positions.None? then stream else RowsAt(stream, positions.value)
  }

  ghost predicate ArePositions(positions: seq<int>) {
    StrictlyIncreasing(positions) && forall i :: 0 <= i < |positions| ==> 0 <= positions[i]
  }

  method SinkAll(m: StataMatrix, target: Target, batches: seq<seq<Row>>) returns (ok: bool)
    requires target.Valid()
    modifies m
    ensures target.CanWrite() ==> ok && target.Appended(old(m.cells), m.cells, 0, Flatten(batches))
    ensures KeepsEarlierRows(old(m.cells), m.cells, target.stataOffset)
  {
    hide Wrote;
    ghost var before := m.cells;
    var rowOffset := 0;
    target.AppendedNothing(before, 0);
    for i := 0 to |batches|
      invariant rowOffset == |Flatten(batches[..i])|
      invariant target.Appended(before, m.cells, 0, Flatten(batches[..i]))
      invariant KeepsEarlierRows(before, m.cells, target.stataOffset)
    {
      FlattenNext(batches, i);
      ghost var mid := m.cells;
      if |batches[i]| > 0 {
        ok := ProcessBatch(m, target.schema, batches[i], rowOffset, target.cols, target.nThreads, target.poolThreads,
          target.stataOffset);
        if !ok {
          return;
        }
        target.AppendedMore(before, mid, m.cells, Flatten(batches[..i]), batches[i]);
        rowOffset := rowOffset + |batches[i]|;
      } else {
        assert Flatten(batches[..i]) + batches[i] == Flatten(batches[..i]);
      }
    }
    assert batches[..|batches|] == batches;
    ok := true;
  }

  method SinkSampled(m: StataMatrix, target: Target, batches: seq<seq<Row>>, positions: seq<int>) returns (ok: bool)
    requires target.Valid() && ArePositions(positions)
    modifies m
    ensures target.CanWrite() ==> ok && target.Appended(old(m.cells), m.cells, 0, RowsAt(Flatten(batches), positions))
    ensures KeepsEarlierRows(old(m.cells), m.cells, target.stataOffset)
  {
    hide Wrote, RowsAt, AllBelow, StrictlyIncreasing;
    ghost var before := m.cells;
    var sampler := new StreamSampler<Row>(positions);
    var rowOffset, i := 0, 0;
    target.AppendedNothing(before, 0);
    while i < |batches|
      invariant 0 <= i <= |batches| && fresh(sampler) && sampler.Valid() && sampler.positions == positions
      invariant sampler.stream == Flatten(batches[..i]) && rowOffset == |sampler.picked|
      invariant target.Appended(before, m.cells, 0, sampler.picked)
      invariant KeepsEarlierRows(before, m.cells, target.stataOffset)
    {
      ghost var mid, done := m.cells, sampler.picked;
      var picked := sampler.TakeRows(batches[i]);
      FlattenNext(batches, i);
      i := i + 1;
      if |picked| > 0 {
        ok := ProcessBatch(m, target.schema, picked, rowOffset, target.cols, target.nThreads, target.poolThreads,
          target.stataOffset);
        if !ok {
          return;
        }
        target.AppendedMore(before, mid, m.cells, done, picked);
        rowOffset := rowOffset + |picked|;
      } else {
        assert done + picked == done;
      }
      if sampler.IsDone() {
        break;
      }
    }
    FlattenPrefix(batches, i);
    if i == |batches| {
      assert batches[..i] == batches;
    }
    sampler.DoneIsFinal(Flatten(batches));
    ok := true;
  }

  /** Writes each batch behind the rows written so far; with a sampler, only the sampled rows, and
      only until the last of them. */
  method SinkBatches(m: StataMatrix, target: Target, batches: seq<seq<Row>>,
                     positions: Option<seq<int>>) returns (ok: bool)
    requires target.Valid() && (positions.Some? ==> ArePositions(positions.value))
    modifies m
    ensures target.CanWrite() ==> ok && target.Appended(old(m.cells), m.cells, 0, Sunk(Flatten(batches), positions))
    ensures KeepsEarlierRows(old(m.cells), m.cells, target.stataOffset)
  {
    if positions.Some? {
      ok := SinkSampled(m, target, batches, positions.value);
    } else {
      ok := SinkAll(m, target, batches);
    }
  }

  // ---------- The sampled read ----------

  /** An in-memory frame is streamed again in batches of some size. */
  method Rebatch(rows: seq<Row>, size: nat) returns (batches: seq<seq<Row>>)
    requires size > 0
    ensures Flatten(batches) == rows
  {
    batches := [];
    var lo := 0;
    while lo < |rows|
      invariant 0 <= lo <= |rows| && Flatten(batches) == rows[..lo]
    {
      var hi := Min(lo + size, |rows|);
      FlattenPush(batches, rows[lo..hi]);
      assert rows[..hi] == rows[..lo] + rows[lo..hi];
      batches := batches + [rows[lo..hi]];
      lo := hi;
    }
    assert rows[..lo] == rows;
  }

  /** The positions of a sampled read: no more are drawn than the window can hold, and the window
      is cut from the drawn positions. */
  ghost function SampledPositions(population: u64, requested: u64, offset: u64, n: u64, seed: u64): seq<int> {
    var drawn := Min(Min(requested, population), SaturatingAdd(offset, n));
    Slice(Sample(population, drawn, seed), offset, n)
  }

  ghost function SampledRows(stream: seq<Row>, positions: seq<int>, order: Option<(Row, Row) -> bool>): seq<Row> {
    var rows := RowsAt(stream, positions);
    if order.None? then rows else Sort(order.value, rows)
  }

  lemma SliceOfPositions(q: seq<int>, n: nat, offset: nat, len: nat)
    requires AllBelow(q, n) && StrictlyIncreasing(q)
    ensures AllBelow(Slice(q, offset, len), n) && StrictlyIncreasing(Slice(q, offset, len))
    ensures ArePositions(Slice(q, offset, len))
  {
    var s := Slice(q, offset, len);
    forall i | 0 <= i < |s| ensures 0 <= s[i] < n {
      assert s[i] == q[offset + i];
    }
    forall i, j | 0 <= i < j < |s| ensures s[i] < s[j] {
      assert s[i] == q[offset + i] && s[j] == q[offset + j];
    }
  }

  /** `picked` are the rows of the stream at the drawn positions, from number `offset` on: `n` of them, or
      as many as were drawn. */
  ghost predicate IsDrawnWindow(picked: seq<Row>, stream: seq<Row>, drawn: seq<int>, offset: nat, n: nat) {
    && |picked| == (if |drawn| <= offset then 0 else if n <= |drawn| - offset then n else |drawn| - offset)
    && forall i :: 0 <= i < |picked| ==>
         0 <= drawn[offset + i] < |stream| && picked[i] == stream[drawn[offset + i]]
  }

  /** `rows` are the picked rows, in the order asked for. */
  ghost predicate IsArranged(rows: seq<Row>, picked: seq<Row>, order: Option<(Row, Row) -> bool>) {
    if order.None? then rows == picked
    else multiset(rows) == multiset(picked) && (TotalPreorder(order.value) ==> Sorted(order.value, rows))
  }

  /** Stata holds the window of the `k` rows drawn from the first `population` rows for the seed. */
  ghost predicate ShowsSample(target: Target, before: Cells, after: Cells, stream: seq<Row>, population: u64, k: nat,
                              seed: u64, offset: nat, n: nat, order: Option<(Row, Row) -> bool>)
    requires k <= population
  {
    exists drawn, picked, rows :: StrictlyIncreasing(drawn) && |drawn| == k && IsSampleOf(population, k, seed, drawn)
      && IsDrawnWindow(picked, stream, drawn, offset, n)
      && IsArranged(rows, picked, order) && target.Shows(before, after, rows)
  }

  lemma SampledPicked(population: u64, k: nat, seed: u64, stream: seq<Row>, offset: nat, n: nat)
    requires k <= population <= |stream|
    ensures IsDrawnWindow(RowsAt(stream, Slice(Sample(population, k, seed), offset, n)), stream,
                          Sample(population, k, seed), offset, n)
  {
    hide Sample, RowsAt, StrictlyIncreasing;
    var drawn := Sample(population, k, seed);
    SampleIsValid(population, k, seed);
    var window := Slice(drawn, offset, n);
    forall i | 0 <= i < |window| ensures 0 <= window[i] < |stream| {
      assert window[i] == drawn[offset + i];
    }
    RowsAtInRange(stream, window);
  }

  lemma SampledArranged(picked: seq<Row>, order: Option<(Row, Row) -> bool>)
    ensures IsArranged(if order.None? then picked else Sort(order.value, picked), picked, order)
  {
    hide Sort, Sorted;
    if order.Some? {
      SortPermutes(order.value, picked);
      if TotalPreorder(order.value) {
        SortIsStableSort(order.value, picked);
      }
    }
  }

  lemma AppendedSample(target: Target, before: Cells, after: Cells, stream: seq<Row>, population: u64, requested: u64,
                       offset: u64, n: u64, seed: u64, order: Option<(Row, Row) -> bool>)
    requires population <= |stream|
    requires target.Appended(before, after, 0,
               SampledRows(stream, SampledPositions(population, requested, offset, n, seed), order))
    ensures ShowsSample(target, before, after, stream, population, Min(Min(requested, population), offset + n), seed,
                        offset, n, order)
  {
    hide Sample, RowsAt, Sort, StrictlyIncreasing, IsSampleOf, IsDrawnWindow, IsArranged, Wrote, HoldsRows, AllBelow,
      Slice;
    var k := Min(Min(requested, population), offset + n);
    var drawn := Sample(population, k, seed);
    var picked := RowsAt(stream, Slice(drawn, offset, n));
    SampleIsValid(population, k, seed);
    SampleIsSample(population, k, seed);
    SampledPicked(population, k, seed, stream, offset, n);
    SampledArranged(picked, order);
    target.AppendedShows(before, after, if order.None? then picked else Sort(order.value, picked));
  }

  /** A sampled read writes the rows at the sampled positions, sorted if a sort is asked for, in
      consecutive Stata rows. Whether they are picked inside the sink or collected first, and
      however either stream is batched, makes no difference. */
  method ReadSample(m: StataMatrix, target: Target, batches: seq<seq<Row>>, population: u64, requested: u64,
                    offset: u64, n: u64, seed: u64, order: Option<(Row, Row) -> bool>, hasStrl: bool, size: nat)
      returns (ok: bool)
    requires target.Valid() && size > 0
    modifies m
    ensures target.CanWrite() ==> ok && target.Appended(old(m.cells), m.cells, 0,
              SampledRows(Flatten(batches), SampledPositions(population, requested, offset, n, seed), order))
    ensures target.CanWrite() && population <= |Flatten(batches)| ==>
      ShowsSample(target, old(m.cells), m.cells, Flatten(batches), population,
                  Min(Min(requested, population), offset + n), seed, offset, n, order)
    ensures KeepsEarlierRows(old(m.cells), m.cells, target.stataOffset)
  {
    hide Wrote, RowsAt, AllBelow, StrictlyIncreasing, Sample, Sort, ShowsSample, IsSampleOf, BatchRejects, Flatten;
    var drawn: u64 := Min(Min(requested, population), SaturatingAdd(offset, n));
    var positions := SampleRowIndices(population, drawn, seed);
    SliceOfPositions(positions, population, offset, n);
    var kept := SaturatingAdd(offset, n);
    var truncated := Take(kept, positions);
    SliceOfTake(positions, kept, offset, n);
    var window := truncated[Min(offset, |truncated|)..];
    assert window == Slice(positions, offset, n);
    if order.None? && !hasStrl {
      ok := SinkBatches(m, target, batches, Some(window));
    } else {
      var rows := CollectSampledRows(batches, window);
      if order.Some? {
        rows := Sort(order.value, rows);
      }
      var again := Rebatch(rows, size);
      ok := SinkBatches(m, target, again, None);
    }
    if target.CanWrite() && population <= |Flatten(batches)| {
      AppendedSample(target, old(m.cells), m.cells, Flatten(batches), population, requested, offset, n, seed, order);
    }
  }
}
