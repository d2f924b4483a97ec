/** The strategies that write one batch: a single thread, or row chunks run by a thread pool in
    any interleaving. */
module BatchWriter {
  import opened Wrappers
  import opened StataData
  import opened DataTypes

  lemma {:induction false} WrittenColumnsNext(schema: map<string, DType>, cols: seq<ColumnInfo>, k: nat)
    requires k < |cols| && WrittenColumns(schema, cols[..k]) == cols[..k]
    ensures PlanFor(schema, cols[k]) == Fails ==> WrittenColumns(schema, cols) == cols[..k] && !Writable(schema, cols)
    ensures PlanFor(schema, cols[k]) != Fails ==> WrittenColumns(schema, cols[..k + 1]) == cols[..k + 1]
  {
    if k == 0 {
    } else {
      var rest := cols[1..];
      assert rest[..k - 1] == cols[..k][1..] && rest[..k] == cols[..k + 1][1..];
      assert WrittenColumns(schema, cols[..k]) == [cols[0]] + WrittenColumns(schema, cols[..k][1..]);
      WrittenColumnsNext(schema, rest, k - 1);
      assert [cols[0]] + rest[..k - 1] == cols[..k];
      assert [cols[0]] + rest[..k] == cols[..k + 1];
    }
  }

  lemma EmptyOps(m: Cells, schema: map<string, DType>, rows: seq<Row>, first: nat)
    ensures Apply(m, RangeOps(schema, rows, first, [])) == m && WrittenColumns(schema, []) == []
  {
  }

  lemma NoOps(m: Cells, schema: map<string, DType>, rows: seq<Row>, first: nat, info: ColumnInfo)
    ensures Apply(m, ColumnOps(schema, rows, 0, first, info)) == m
    ensures PlanFor(schema, info) != Writes ==> Apply(m, ColumnOps(schema, rows, |rows|, first, info)) == m
  {
  }

  lemma ColumnOpsNext(m: Cells, schema: map<string, DType>, rows: seq<Row>, n: nat, first: nat, info: ColumnInfo)
    requires n < |rows| && PlanFor(schema, info) == Writes
    ensures Apply(m, ColumnOps(schema, rows, n + 1, first, info))
         == Stored(Apply(m, ColumnOps(schema, rows, n, first, info)), Cell(first + n, info.index + 1),
                   Lookup(rows[n], info.name))
  {
    var ops := ColumnOps(schema, rows, n, first, info);
    var op := Op(Cell(first + n, info.index + 1), Lookup(rows[n], info.name));
    assert (ops + [op])[..|ops|] == ops;
  }

  lemma RangeOpsNext(m: Cells, schema: map<string, DType>, rows: seq<Row>, first: nat, cols: seq<ColumnInfo>, k: nat)
    requires k < |cols|
    ensures Apply(m, RangeOps(schema, rows, first, cols[..k + 1]))
         == Apply(Apply(m, RangeOps(schema, rows, first, cols[..k])), ColumnOps(schema, rows, |rows|, first, cols[k]))
  {
    assert cols[..k + 1][..k] == cols[..k];
    ApplyConcat(m, RangeOps(schema, rows, first, cols[..k]), ColumnOps(schema, rows, |rows|, first, cols[k]));
  }

  /** `n` columns were written with the rows and the work ended with `ok`. */
  ghost predicate RangeDone(before: Cells, after: Cells, schema: map<string, DType>, rows: seq<Row>, first: nat,
                            cols: seq<ColumnInfo>, n: nat, ok: bool) {
    && WritesFirst(schema, cols, n)
    && (ok <==> n == |cols|)
    && HoldsRows(before, after, schema, rows, first, cols[..n])
  }

  ghost predicate RangeWritten(before: Cells, after: Cells, schema: map<string, DType>, rows: seq<Row>, first: nat,
                               cols: seq<ColumnInfo>, ok: bool) {
    exists n :: RangeDone(before, after, schema, rows, first, cols, n, ok)
  }

  lemma WroteIsDone(before: Cells, after: Cells, schema: map<string, DType>, rows: seq<Row>, first: nat,
                    cols: seq<ColumnInfo>, ok: bool)
    requires Wrote(before, after, schema, rows, first, WrittenColumns(schema, cols))
    requires ok == Writable(schema, cols)
    ensures RangeWritten(before, after, schema, rows, first, cols, ok)
  {
    hide Wrote, HoldsRows, WrittenColumns, Writable, Rejected;
    var n := WrittenColumnsAre(schema, cols);
    WroteHolds(before, after, schema, rows, first, cols[..n]);
    assert RangeDone(before, after, schema, rows, first, cols, n, ok);
  }

  /** Writes the rows start..end of a batch, column by column. A column that is missing or cannot
      be written ends the work there. */
  method ProcessRowRange(m: StataMatrix, schema: map<string, DType>, rows: seq<Row>, startIndex: nat,
                         start: nat, end: nat, cols: seq<ColumnInfo>, stataOffset: nat) returns (ok: bool)
    requires start <= end <= |rows|
    modifies m
    ensures ok == Writable(schema, cols)
    ensures Wrote(old(m.cells), m.cells, schema, rows[start..end], startIndex + start + 1 + stataOffset,
                  WrittenColumns(schema, cols))
    ensures RangeWritten(old(m.cells), m.cells, schema, rows[start..end], startIndex + start + 1 + stataOffset, cols,
                         ok)
  {
    hide Wrote, RangeWritten, Apply, RangeOps, ColumnOps, WrittenColumns;
    EmptyOps(m.cells, schema, rows[start..end], startIndex + start + 1 + stataOffset);
    ghost var block, first := rows[start..end], startIndex + start + 1 + stataOffset;
    var k := 0;
    while k < |cols|
      invariant 0 <= k <= |cols|
      invariant WrittenColumns(schema, cols[..k]) == cols[..k]
      invariant m.cells == Apply(old(m.cells), RangeOps(schema, block, first, cols[..k]))
    {
      var info := cols[k];
      var plan := PlanFor(schema, info);
      WrittenColumnsNext(schema, cols, k);
      ghost var before := m.cells;
      if plan == Fails {
        RangeOpsEffect(old(m.cells), schema, block, first, cols[..k]);
        WroteIsDone(old(m.cells), m.cells, schema, block, first, cols, false);
        return false;
      }
      NoOps(before, schema, block, first, info);
      if plan == Writes {
        for r := start to end
          invariant m.cells == Apply(before, ColumnOps(schema, block, r - start, first, info))
        {
          var v := Lookup(rows[r], info.name);
          m.Store(v, startIndex + r + 1 + stataOffset, info.index + 1);
          ColumnOpsNext(before, schema, block, r - start, first, info);
        }
      }
      RangeOpsNext(old(m.cells), schema, block, first, cols, k);
      k := k + 1;
    }
    assert cols[..k] == cols;
    RangeOpsEffect(old(m.cells), schema, block, first, cols);
    WroteIsDone(old(m.cells), m.cells, schema, block, first, cols, true);
    ok := true;
  }

  // ---------- Parallel chunks ----------

  datatype Chunk = Chunk(start: nat, end: nat)

  /** The row ranges `(lo..n).chunks(size)`. */
  function Chunks(lo: nat, n: nat, size: nat): seq<Chunk>
    requires size > 0 && lo <= n
    decreases n - lo
  {
    if lo == n then []
    else
      var hi := Min(lo + size, n);
      [Chunk(lo, hi)] + Chunks(hi, n, size)
  }

  predicate InChunk(ch: Chunk, r: int) { ch.start <= r < ch.end }

  predicate Covered(chunks: seq<Chunk>, r: int) {
    exists t :: 0 <= t < |chunks| && InChunk(chunks[t], r)
  }

  /** The chunks cut lo..n into non-empty pieces, in order: every row lies in exactly one. */
  ghost predicate Tiles(chunks: seq<Chunk>, lo: nat, n: nat) {
    && (forall t :: 0 <= t < |chunks| ==> lo <= chunks[t].start < chunks[t].end <= n)
    && (forall t, t' :: 0 <= t < t' < |chunks| ==> chunks[t].end <= chunks[t'].start)
    && (forall r :: lo <= r < n ==> Covered(chunks, r))
  }

  lemma TilesCons(ch: Chunk, rest: seq<Chunk>, n: nat)
    requires ch.start < ch.end <= n && Tiles(rest, ch.end, n)
    ensures Tiles([ch] + rest, ch.start, n)
  {
    var all := [ch] + rest;
    forall r | ch.start <= r < n ensures Covered(all, r) {
      if r < ch.end {
        assert InChunk(all[0], r);
      } else {
        assert Covered(rest, r);
        var t :| 0 <= t < |rest| && InChunk(rest[t], r);
        assert InChunk(all[t + 1], r);
      }
    }
  }

  lemma {:induction false} ChunksTile(lo: nat, n: nat, size: nat)
    requires size > 0 && lo <= n
    ensures Tiles(Chunks(lo, n, size), lo, n)
    decreases n - lo
  {
    if lo == n {
    } else {
      var hi := Min(lo + size, n);
      ChunksTile(hi, n, size);
      TilesCons(Chunk(lo, hi), Chunks(hi, n, size), n);
    }
  }

  /** A batch being written: the tasks are the chunks, `pc[t]` counts the stores task t has done. */
  datatype Job = Job(schema: map<string, DType>, rows: seq<Row>, base: nat, cols: seq<ColumnInfo>, chunks: seq<Chunk>) {

    ghost predicate Valid() {
      Tiles(chunks, 0, |rows|)
    }

    function Program(t: nat): seq<Op>
      requires t < |chunks| && chunks[t].start <= chunks[t].end <= |rows|
    {
      RangeOps(schema, rows[chunks[t].start..chunks[t].end], base + chunks[t].start, WrittenColumns(schema, cols))
    }

    ghost predicate Owns(t: nat, c: Cell)
      requires t < |chunks|
    {
      base + chunks[t].start <= c.row < base + chunks[t].end
    }

    /** What every interleaving keeps: each cell is in the state its own chunk has brought it to,
        and cells of no chunk are as they were. */
    ghost predicate Inv(before: Cells, cells: Cells, pc: seq<nat>)
      requires Valid()
    {
      && |pc| == |chunks|
      && (forall t :: 0 <= t < |chunks| ==> pc[t] <= |Program(t)|)
      && (forall t, c :: 0 <= t < |chunks| && Owns(t, c) ==>
            Get(cells, c) == Get(Apply(before, Program(t)[..pc[t]]), c))
      && (forall c :: (forall t :: 0 <= t < |chunks| ==> !Owns(t, c)) ==> Get(cells, c) == Get(before, c))
    }

    lemma StartInv(before: Cells, pc: seq<nat>)
      requires Valid() && |pc| == |chunks| && forall t :: 0 <= t < |chunks| ==> pc[t] == 0
      ensures Inv(before, before, pc)
    {
    }

    lemma StoreInOwnRows(t: nat, i: nat)
      requires Valid() && t < |chunks| && i < |Program(t)|
      ensures Owns(t, Program(t)[i].cell)
    {
      var ch := chunks[t];
      RangeOpsEffect(map[], schema, rows[ch.start..ch.end], base + ch.start, WrittenColumns(schema, cols));
      assert Program(t)[i] in Program(t);
    }

    /** One cell of one task after a store of task t. */
    lemma StepCell(before: Cells, cells: Cells, pc: seq<nat>, t: nat, t': nat, c: Cell)
      requires Valid() && Inv(before, cells, pc)
      requires t < |chunks| && pc[t] < |Program(t)| && t' < |chunks| && Owns(t', c)
      ensures var op := Program(t)[pc[t]];
        Get(Stored(cells, op.cell, op.v), c) == Get(Apply(before, Program(t')[..pc[t := pc[t] + 1][t']]), c)
    {
      StoreInOwnRows(t, pc[t]);
      ApplyNext(before, Program(t), pc[t]);
      hide Program, Apply;
      assert Get(cells, c) == Get(Apply(before, Program(t')[..pc[t']]), c);
      assert t' != t ==> Program(t)[pc[t]].cell != c;
    }

    /** Whichever task runs next, the invariant holds again. */
    lemma StepKeepsInv(before: Cells, cells: Cells, pc: seq<nat>, t: nat)
      requires Valid() && Inv(before, cells, pc)
      requires t < |chunks| && pc[t] < |Program(t)|
      ensures var op := Program(t)[pc[t]];
        Inv(before, Stored(cells, op.cell, op.v), pc[t := pc[t] + 1])
    {
      hide Program, Apply, Stored, Get;
      var op := Program(t)[pc[t]];
      var cells', pc' := Stored(cells, op.cell, op.v), pc[t := pc[t] + 1];
      forall t', c | 0 <= t' < |chunks| && Owns(t', c)
        ensures Get(cells', c) == Get(Apply(before, Program(t')[..pc'[t']]), c)
      {
        StepCell(before, cells, pc, t, t', c);
      }
      forall c | forall t' :: 0 <= t' < |chunks| ==> !Owns(t', c) ensures Get(cells', c) == Get(before, c) {
        StoreInOwnRows(t, pc[t]);
        StoredElsewhere(cells, op.cell, op.v, c);
      }
    }

    /** A finished task has written its own rows. */
    lemma TaskEffect(before: Cells, t: nat, c: Cell)
      requires Valid() && t < |chunks| && Owns(t, c)
      ensures Get(Apply(before, Program(t)), c)
           == Over(CellValue(schema, rows, base, WrittenColumns(schema, cols), c), Get(before, c))
    {
      var written, ch := WrittenColumns(schema, cols), chunks[t];
      var block := rows[ch.start..ch.end];
      RangeOpsEffect(before, schema, block, base + ch.start, written);
      hide ColumnValue, RangeOps, Apply;
      assert block[c.row - (base + ch.start)] == rows[c.row - base];
      assert CellValue(schema, block, base + ch.start, written, c) == CellValue(schema, rows, base, written, c);
    }

    /** When every task has finished, the batch has been written: the order did not matter. */
    lemma AllDone(before: Cells, cells: Cells, pc: seq<nat>)
      requires Valid() && Inv(before, cells, pc)
      requires forall t :: 0 <= t < |chunks| ==> pc[t] == |Program(t)|
      ensures Wrote(before, cells, schema, rows, base, WrittenColumns(schema, cols))
    {
      var written := WrittenColumns(schema, cols);
      forall c ensures Get(cells, c) == Over(CellValue(schema, rows, base, written, c), Get(before, c)) {
        if base <= c.row < base + |rows| {
          assert Covered(chunks, c.row - base);
          var t :| 0 <= t < |chunks| && InChunk(chunks[t], c.row - base);
          assert Owns(t, c);
          assert Program(t)[..pc[t]] == Program(t);
          TaskEffect(before, t, c);
        }
      }
    }

    /** Even before the end, no cell outside the batch has changed. */
    lemma FrameOf(before: Cells, cells: Cells, pc: seq<nat>, c: Cell)
      requires Valid() && Inv(before, cells, pc)
      requires c.row < base || base + |rows| <= c.row
      ensures Get(cells, c) == Get(before, c)
    {
    }
  }

  /** The stores the first `n` tasks still have to do. */
  ghost function TotalLeft(job: Job, pc: seq<nat>, n: nat): nat
    requires job.Valid() && n <= |job.chunks| == |pc|
    requires forall t :: 0 <= t < |pc| ==> pc[t] <= |job.Program(t)|
  {
    if n == 0 then 0 else TotalLeft(job, pc, n - 1) + (|job.Program(n - 1)| - pc[n - 1])
  }

  lemma {:induction false} LeftDrops(job: Job, pc: seq<nat>, t: nat, n: nat)
    requires job.Valid() && n <= |job.chunks| == |pc| && t < |pc|
    requires forall t' :: 0 <= t' < |pc| ==> pc[t'] <= |job.Program(t')|
    requires pc[t] < |job.Program(t)|
    ensures TotalLeft(job, pc[t := pc[t] + 1], n) == TotalLeft(job, pc, n) - (if t < n then 1 else 0)
    decreases n
  {
    if n == 0 {
    } else {
      LeftDrops(job, pc, t, n - 1);
    }
  }

  /** Runs tasks in an arbitrary interleaving of their single stores, to the end, or until the work is given
      up. */
  method RunTasks(m: StataMatrix, job: Job, toTheEnd: bool) returns (pc: seq<nat>)
    requires job.Valid()
    modifies m
    ensures job.Inv(old(m.cells), m.cells, pc)
    ensures toTheEnd ==> forall t :: 0 <= t < |job.chunks| ==> pc[t] == |job.Program(t)|
  {
    ghost var before := m.cells;
    pc := seq(|job.chunks|, _ => 0);
    job.StartInv(before, pc);
    hide Tiles, Apply, RangeOps, WrittenColumns;
    while exists t :: 0 <= t < |job.chunks| && pc[t] < |job.Program(t)|
      invariant job.Inv(before, m.cells, pc)
      decreases TotalLeft(job, pc, |job.chunks|)
    {
      var t :| 0 <= t < |job.chunks| && pc[t] < |job.Program(t)|;
      var op := job.Program(t)[pc[t]];
      job.StepKeepsInv(before, m.cells, pc, t);
      LeftDrops(job, pc, t, |job.chunks|);
      m.Store(op.v, op.cell.row, op.cell.col);
      pc := pc[t := pc[t] + 1];
      if !toTheEnd {
        var stop: bool := *;
        if stop {
          break;
        }
      }
    }
  }

  /** The chunk tasks, run in any interleaving. A column that cannot be written makes every task fail; the
      others may then be left unfinished. */
  method ProcessRegularByRow(m: StataMatrix, schema: map<string, DType>, rows: seq<Row>, startIndex: nat,
                             cols: seq<ColumnInfo>, stataOffset: nat, poolThreads: nat) returns (ok: bool)
    requires poolThreads > 0
    modifies m
    ensures ok <==> rows == [] || Writable(schema, cols)
    ensures ok ==>
      Wrote(old(m.cells), m.cells, schema, rows, startIndex + 1 + stataOffset, WrittenColumns(schema, cols))
    ensures forall c: Cell :: c.row < startIndex + 1 + stataOffset || startIndex + 1 + stataOffset + |rows| <= c.row
              ==> Get(m.cells, c) == Get(old(m.cells), c)
  {
    var size := Max(100, |rows| / (poolThreads * 4));
    var chunks := Chunks(0, |rows|, size);
    ChunksTile(0, |rows|, size);
    var job := Job(schema, rows, startIndex + 1 + stataOffset, cols, chunks);
    ok := rows == [] || Writable(schema, cols);
    ghost var before := m.cells;
    var pc := RunTasks(m, job, ok);
    ghost var after := m.cells;
    hide Tiles, Apply, RangeOps, WrittenColumns, Chunks, Wrote;
    if ok {
      job.AllDone(before, after, pc);
    }
    forall c: Cell | c.row < job.base || job.base + |rows| <= c.row ensures Get(after, c) == Get(before, c) {
      job.FrameOf(before, after, pc, c);
    }
  }

  lemma NothingWritten(cells: Cells, schema: map<string, DType>, rows: seq<Row>, first: nat)
    ensures Wrote(cells, cells, schema, rows, first, [])
  {
  }

  /** strL and binary columns are not written cell by cell. */
  function RegularColumns(cols: seq<ColumnInfo>): seq<ColumnInfo> {
    if cols == [] then []
    else
      var info := cols[|cols| - 1];
      RegularColumns(cols[..|cols| - 1]) + (if info.storage in {StrlClass, BinaryClass} then [] else [info])
  }

  /** A batch fails at a column that is neither strL nor binary and is missing or a datetime column of
      another type. */
  predicate BatchRejects(schema: map<string, DType>, cols: seq<ColumnInfo>) {
    exists k :: 0 <= k < |cols| && cols[k].storage !in {StrlClass, BinaryClass} && Rejected(schema, cols[k])
  }

  lemma AllWritten(schema: map<string, DType>, cols: seq<ColumnInfo>)
    ensures Writable(schema, cols) <==> WrittenColumns(schema, cols) == cols
    ensures Writable(schema, [])
  {
  }

  lemma {:induction false} RegularMember(cols: seq<ColumnInfo>, info: ColumnInfo)
    ensures info in RegularColumns(cols) <==> info in cols && info.storage !in {StrlClass, BinaryClass}
  {
    if cols == [] {
    } else {
      RegularMember(cols[..|cols| - 1], info);
    }
  }

  lemma BatchRejectsIs(schema: map<string, DType>, cols: seq<ColumnInfo>)
    ensures BatchRejects(schema, cols) <==> !Writable(schema, RegularColumns(cols))
  {
    hide Rejected, Writable, RegularColumns;
    var regular := RegularColumns(cols);
    var n := WrittenColumnsAre(schema, regular);
    if n < |regular| {
      RegularMember(cols, regular[n]);
      assert regular[n] in regular;
    }
    if BatchRejects(schema, cols) {
      var k :| 0 <= k < |cols| && cols[k].storage !in {StrlClass, BinaryClass} && Rejected(schema, cols[k]);
      RegularMember(cols, cols[k]);
      var j :| 0 <= j < |regular| && regular[j] == cols[k];
      assert n <= j;
    }
  }

  lemma {:induction false} RegularValue(schema: map<string, DType>, cols: seq<ColumnInfo>, row: Row, col: nat)
    ensures ColumnValue(schema, RegularColumns(cols), row, col) == ColumnValue(schema, cols, row, col)
  {
    if cols == [] {
    } else {
      var init, info := cols[..|cols| - 1], cols[|cols| - 1];
      RegularValue(schema, init, row, col);
      if info.storage in {StrlClass, BinaryClass} {
        assert RegularColumns(cols) == RegularColumns(init);
      } else {
        assert RegularColumns(cols)[..|RegularColumns(init)|] == RegularColumns(init);
      }
    }
  }

  /** Writing the regular columns fills the cells that all columns together ask for. */
  lemma RegularHolds(before: Cells, after: Cells, schema: map<string, DType>, rows: seq<Row>, first: nat,
                     cols: seq<ColumnInfo>)
    requires Wrote(before, after, schema, rows, first, RegularColumns(cols))
    ensures HoldsRows(before, after, schema, rows, first, cols)
  {
    hide ColumnValue, RegularColumns, HoldsRows;
    forall c ensures Get(after, c) == Over(CellValue(schema, rows, first, cols, c), Get(before, c)) {
      if first <= c.row < first + |rows| {
        RegularValue(schema, cols, rows[c.row - first], c.col);
      }
      assert CellValue(schema, rows, first, RegularColumns(cols), c) == CellValue(schema, rows, first, cols, c);
    }
    WroteHolds(before, after, schema, rows, first, cols);
  }

  /** One batch, whichever strategy is chosen: the same rows are written to the same cells. */
  method ProcessBatch(m: StataMatrix, schema: map<string, DType>, rows: seq<Row>, startIndex: nat,
                      cols: seq<ColumnInfo>, nThreads: nat, poolThreads: nat, stataOffset: nat) returns (ok: bool)
    requires poolThreads > 0
    modifies m
    ensures ok <==> !BatchRejects(schema, cols)
    ensures ok ==> HoldsRows(old(m.cells), m.cells, schema, rows, startIndex + 1 + stataOffset, cols)
    ensures ok ==> Wrote(old(m.cells), m.cells, schema, rows, startIndex + 1 + stataOffset, RegularColumns(cols))
    ensures forall c: Cell :: c.row < startIndex + 1 + stataOffset || startIndex + 1 + stataOffset + |rows| <= c.row
              ==> Get(m.cells, c) == Get(old(m.cells), c)
  {
    hide Wrote, HoldsRows, RegularColumns, BatchRejects, Writable;
    var regular := RegularColumns(cols);
    ghost var before, first := m.cells, startIndex + 1 + stataOffset;
    BatchRejectsIs(schema, cols);
    AllWritten(schema, regular);
    if nThreads <= 1 || |rows| < 10_000 {
      ok := ProcessRowRange(m, schema, rows, startIndex, 0, |rows|, regular, stataOffset);
      assert rows[0..|rows|] == rows;
      ghost var after := m.cells;
      forall c: Cell | c.row < first || first + |rows| <= c.row ensures Get(after, c) == Get(before, c) {
        WroteFrame(before, after, schema, rows, first, WrittenColumns(schema, regular), c);
      }
    } else if regular != [] {
      ok := ProcessRegularByRow(m, schema, rows, startIndex, regular, stataOffset, poolThreads);
    } else {
      ok := true;
      NothingWritten(m.cells, schema, rows, first);
    }
    if ok {
      RegularHolds(before, m.cells, schema, rows, first, cols);
    }
  }
}
