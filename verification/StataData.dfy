/** Writing rows into Stata's data: the cell writers of a batch, on one thread or in parallel chunks. */
module StataData {
  import opened Wrappers
  import opened DataTypes

  // ---------- Rows, columns and cells ----------

  /** A value as Stata stores it. */
  datatype Value = Num(x: real) | Str(s: string)

  /** A row maps column names to values; a null has no entry. */
  type Row = map<string, Value>

  datatype StorageClass = StrlClass | BinaryClass | StringClass | DatetimeClass | NumericClass

  datatype ColumnInfo = ColumnInfo(index: nat, name: string, dtype: DType, storage: StorageClass)

  datatype Cell = Cell(row: nat, col: nat)

  type Cells = map<Cell, Value>

  function Get(cells: Cells, c: Cell): Option<Value> {
    if c in cells then Some(cells[c]) else None
  }

  function Lookup(row: Row, name: string): Option<Value> {
    if name in row then Some(row[name]) else None
  }

  /** `replace_number` and `replace_string`: a null stores nothing. */
  function Stored(cells: Cells, c: Cell, v: Option<Value>): Cells {
    if v.Some? then cells[c := v.value] else cells
  }

  lemma StoredElsewhere(cells: Cells, at: Cell, v: Option<Value>, c: Cell)
    requires c != at
    ensures Get(Stored(cells, at, v), c) == Get(cells, c)
  {
  }

  class StataMatrix {
    var cells: Cells

    method Store(v: Option<Value>, row: nat, col: nat)
      modifies this
      ensures cells == Stored(old(cells), Cell(row, col), v)
    {
      if v.Some? {
        cells := cells[Cell(row, col) := v.value];
      }
    }
  }

  // ---------- What a batch writes ----------

  datatype Plan = Fails | Skips | Writes

  /** The column types a numeric cell can be taken from. */
  predicate HasNumbers(dt: DType) {
    IsInteger(dt) || dt in {Boolean, Float32, Float64, Date, Time}
  }

  /** How a column of the batch is written, by its Stata type and its actual type. */
  function PlanFor(schema: map<string, DType>, info: ColumnInfo): Plan {
    if info.name !in schema then Fails
    else
      match info.storage
      case StrlClass => Skips
      case BinaryClass => Fails
      case StringClass => if schema[info.name] == Utf8 then Writes else Skips
      case DatetimeClass => if schema[info.name] == Datetime then Writes else Fails
      case NumericClass =>
        if HasNumbers(info.dtype) && schema[info.name] == info.dtype then Writes else Skips
  }

  /** A column at which writing stops: the batch has no such column, it is a binary column, or a
      datetime column of another type. */
  predicate Rejected(schema: map<string, DType>, info: ColumnInfo) {
    || info.name !in schema
    || info.storage == BinaryClass
    || (info.storage == DatetimeClass && schema[info.name] != Datetime)
  }

  /** A column whose values reach the cells: text as a string, datetimes as a datetime, and Boolean,
      integer, float, date and time columns as numbers, when the batch has the recorded type. */
  predicate Stores(schema: map<string, DType>, info: ColumnInfo) {
    && info.name in schema
    && (|| (info.storage == StringClass && schema[info.name] == Utf8)
        || (info.storage == DatetimeClass && schema[info.name] == Datetime)
        || (info.storage == NumericClass && schema[info.name] == info.dtype
            && info.dtype in {Boolean, Int8, Int16, Int32, Int64, UInt8, UInt16, UInt32, UInt64,
                              Float32, Float64, Date, Time}))
  }

  lemma PlanMeans(schema: map<string, DType>, info: ColumnInfo)
    ensures PlanFor(schema, info) == Fails <==> Rejected(schema, info)
    ensures PlanFor(schema, info) == Writes <==> Stores(schema, info)
  {
  }

  /** A column that has a value for the cell in a row and number `col` of the Stata data. */
  predicate Gives(schema: map<string, DType>, info: ColumnInfo, row: Row, col: nat) {
    Stores(schema, info) && info.name in row && info.index + 1 == col
  }

  /** Column `k` has a value for the cell and no later column has. */
  predicate GivesLast(schema: map<string, DType>, cols: seq<ColumnInfo>, k: nat, row: Row, col: nat)
    requires k < |cols|
  {
    Gives(schema, cols[k], row, col) && forall j :: k < j < |cols| ==> !Gives(schema, cols[j], row, col)
  }

  /** Some column has a value for the cell. */
  predicate IsGiven(schema: map<string, DType>, rows: seq<Row>, first: nat, cols: seq<ColumnInfo>, c: Cell) {
    && first <= c.row < first + |rows|
    && exists k :: 0 <= k < |cols| && Gives(schema, cols[k], rows[c.row - first], c.col)
  }

  /** The cells after `rows` were written from Stata row `first` on: every value of a column that stores
      its values is in its cell, unless a later column with the same number has a value there too, and all
      other cells are as they were. */
  ghost predicate HoldsRows(before: Cells, after: Cells, schema: map<string, DType>, rows: seq<Row>, first: nat,
                            cols: seq<ColumnInfo>) {
    && (forall k, r, col :: 0 <= k < |cols| && 0 <= r < |rows| && GivesLast(schema, cols, k, rows[r], col) ==>
          Get(after, Cell(first + r, col)) == Some(rows[r][cols[k].name]))
    && (forall c :: !IsGiven(schema, rows, first, cols, c) ==> Get(after, c) == Get(before, c))
  }

  /** The columns before the first one that fails. */
  function WrittenColumns(schema: map<string, DType>, cols: seq<ColumnInfo>): seq<ColumnInfo> {
    if cols == [] || PlanFor(schema, cols[0]) == Fails then []
    else [cols[0]] + WrittenColumns(schema, cols[1..])
  }

  predicate Writable(schema: map<string, DType>, cols: seq<ColumnInfo>) {
    WrittenColumns(schema, cols) == cols
  }

  /** `n` columns are written: all of them, or those before the first rejected one. */
  predicate WritesFirst(schema: map<string, DType>, cols: seq<ColumnInfo>, n: nat) {
    && n <= |cols|
    && (forall k :: 0 <= k < n ==> !Rejected(schema, cols[k]))
    && (n < |cols| ==> Rejected(schema, cols[n]))
  }

  lemma {:induction false} WrittenColumnsAre(schema: map<string, DType>, cols: seq<ColumnInfo>) returns (n: nat)
    ensures WritesFirst(schema, cols, n) && WrittenColumns(schema, cols) == cols[..n]
    ensures Writable(schema, cols) <==> n == |cols|
  {
    hide PlanFor, Rejected, Stores;
    if cols == [] {
      n := 0;
    } else {
      PlanMeans(schema, cols[0]);
      if Rejected(schema, cols[0]) {
        n := 0;
      } else {
        var n' := WrittenColumnsAre(schema, cols[1..]);
        n := n' + 1;
        assert cols[..n] == [cols[0]] + cols[1..][..n'];
        assert forall k :: 0 < k < |cols| ==> cols[k] == cols[1..][k - 1];
      }
    }
  }

  /** What column number `col` of the Stata data receives from one row: the last non-null value
      among the columns written there. */
  function ColumnValue(schema: map<string, DType>, cols: seq<ColumnInfo>, row: Row, col: nat): Option<Value> {
    if cols == [] then None
    else
      var info := cols[|cols| - 1];
      if info.index + 1 == col && PlanFor(schema, info) == Writes && info.name in row
      then Some(row[info.name])
      else ColumnValue(schema, cols[..|cols| - 1], row, col)
  }

  /** What a cell receives when `rows` are written to Stata rows first, first + 1, ... */
  function CellValue(schema: map<string, DType>, rows: seq<Row>, first: nat, cols: seq<ColumnInfo>,
                     c: Cell): Option<Value> {
    if first <= c.row < first + |rows| then ColumnValue(schema, cols, rows[c.row - first], c.col) else None
  }

  function Over(v: Option<Value>, w: Option<Value>): Option<Value> { if v.Some? then v else w }

  /** `after` is `before` with `rows` written from Stata row `first` on, and nothing else changed:
      a null leaves its cell as it was. */
  ghost predicate Wrote(before: Cells, after: Cells, schema: map<string, DType>, rows: seq<Row>, first: nat,
                        cols: seq<ColumnInfo>) {
    forall c :: Get(after, c) == Over(CellValue(schema, rows, first, cols, c), Get(before, c))
  }

  lemma {:induction false} ColumnValueIs(schema: map<string, DType>, cols: seq<ColumnInfo>, row: Row, col: nat)
    ensures ColumnValue(schema, cols, row, col).Some? ==>
      exists k :: 0 <= k < |cols| && Gives(schema, cols[k], row, col)
    ensures forall k :: 0 <= k < |cols| && GivesLast(schema, cols, k, row, col) ==>
      ColumnValue(schema, cols, row, col) == Some(row[cols[k].name])
  {
    hide PlanFor, Stores;
    if cols == [] {
    } else {
      var init, n := cols[..|cols| - 1], |cols| - 1;
      PlanMeans(schema, cols[n]);
      ColumnValueIs(schema, init, row, col);
      forall k | 0 <= k < |cols| && GivesLast(schema, cols, k, row, col)
        ensures ColumnValue(schema, cols, row, col) == Some(row[cols[k].name])
      {
        if k < n {
          assert !Gives(schema, cols[n], row, col);
          assert GivesLast(schema, init, k, row, col);
        }
      }
      if ColumnValue(schema, init, row, col).Some? {
        var k :| 0 <= k < |init| && Gives(schema, init[k], row, col);
        assert Gives(schema, cols[k], row, col);
      }
    }
  }

  /** What writing means for the single cells. */
  lemma WroteHolds(before: Cells, after: Cells, schema: map<string, DType>, rows: seq<Row>, first: nat,
                   cols: seq<ColumnInfo>)
    requires Wrote(before, after, schema, rows, first, cols)
    ensures HoldsRows(before, after, schema, rows, first, cols)
  {
    hide ColumnValue, Stores;
    forall k, r, col | 0 <= k < |cols| && 0 <= r < |rows| && GivesLast(schema, cols, k, rows[r], col)
      ensures Get(after, Cell(first + r, col)) == Some(rows[r][cols[k].name])
    {
      ColumnValueIs(schema, cols, rows[r], col);
      assert CellValue(schema, rows, first, cols, Cell(first + r, col)) == ColumnValue(schema, cols, rows[r], col);
    }
    forall c | !IsGiven(schema, rows, first, cols, c) ensures Get(after, c) == Get(before, c) {
      if first <= c.row < first + |rows| {
        ColumnValueIs(schema, cols, rows[c.row - first], c.col);
      }
    }
  }

  predicate OwnIndex(cols: seq<ColumnInfo>, k: nat)
    requires k < |cols|
  {
    forall j :: 0 <= j < |cols| && j != k ==> cols[j].index != cols[k].index
  }

  /** The cells of a column with a number of its own: the value of the row, or what was there before
      when the row has none or the column does not store values (a strL column, say). */
  lemma ColumnHolds(before: Cells, after: Cells, schema: map<string, DType>, rows: seq<Row>, first: nat,
                    cols: seq<ColumnInfo>, k: nat, r: nat)
    requires HoldsRows(before, after, schema, rows, first, cols)
    requires k < |cols| && r < |rows| && OwnIndex(cols, k)
    ensures Get(after, Cell(first + r, cols[k].index + 1))
         == if Stores(schema, cols[k]) && cols[k].name in rows[r] then Some(rows[r][cols[k].name])
            else Get(before, Cell(first + r, cols[k].index + 1))
  {
    hide Stores;
    if Stores(schema, cols[k]) && cols[k].name in rows[r] {
      assert GivesLast(schema, cols, k, rows[r], cols[k].index + 1);
    } else {
      assert !IsGiven(schema, rows, first, cols, Cell(first + r, cols[k].index + 1));
    }
  }

  /** `Wrote` determines the data it leads to. */
  lemma WroteUnique(before: Cells, a: Cells, b: Cells, schema: map<string, DType>, rows: seq<Row>, first: nat,
                    cols: seq<ColumnInfo>)
    requires Wrote(before, a, schema, rows, first, cols) && Wrote(before, b, schema, rows, first, cols)
    ensures a == b
  {
    forall c ensures c in a <==> c in b
      ensures c in a ==> a[c] == b[c]
    {
      assert Get(a, c) == Get(b, c);
    }
  }

  /** Writing one block of rows after another is writing their concatenation. */
  lemma WroteConcat(m0: Cells, m1: Cells, m2: Cells, schema: map<string, DType>, a: seq<Row>, b: seq<Row>, first: nat,
                    cols: seq<ColumnInfo>)
    requires Wrote(m0, m1, schema, a, first, cols)
    requires Wrote(m1, m2, schema, b, first + |a|, cols)
    ensures Wrote(m0, m2, schema, a + b, first, cols)
  {
    hide ColumnValue;
    forall c ensures Get(m2, c) == Over(CellValue(schema, a + b, first, cols, c), Get(m0, c)) {
      assert Get(m1, c) == Over(CellValue(schema, a, first, cols, c), Get(m0, c));
      if first <= c.row < first + |a| {
        assert (a + b)[c.row - first] == a[c.row - first];
      } else if first + |a| <= c.row < first + |a| + |b| {
        assert (a + b)[c.row - first] == b[c.row - first - |a|];
      }
    }
  }

  /** No row outside the block changes. */
  lemma WroteFrame(before: Cells, after: Cells, schema: map<string, DType>, rows: seq<Row>, first: nat,
                   cols: seq<ColumnInfo>, c: Cell)
    requires Wrote(before, after, schema, rows, first, cols)
    requires c.row < first || first + |rows| <= c.row
    ensures Get(after, c) == Get(before, c)
  {
  }

  // ---------- The stores of a range of rows, in program order ----------

  datatype Op = Op(cell: Cell, v: Option<Value>)

  function Apply(cells: Cells, ops: seq<Op>): Cells {
    if ops == [] then cells
    else Stored(Apply(cells, ops[..|ops| - 1]), ops[|ops| - 1].cell, ops[|ops| - 1].v)
  }

  lemma ApplyNext(cells: Cells, ops: seq<Op>, i: nat)
    requires i < |ops|
    ensures Apply(cells, ops[..i + 1]) == Stored(Apply(cells, ops[..i]), ops[i].cell, ops[i].v)
  {
    assert ops[..i + 1][..i] == ops[..i];
  }

  lemma {:induction false} ApplyConcat(cells: Cells, a: seq<Op>, b: seq<Op>)
    ensures Apply(cells, a + b) == Apply(Apply(cells, a), b)
  {
    if b == [] {
      assert a + b == a;
    } else {
      assert (a + b)[..|a + b| - 1] == a + b[..|b| - 1];
      ApplyConcat(cells, a, b[..|b| - 1]);
    }
  }

  /** The stores of one column for the first `n` of `rows`. */
  function ColumnOps(schema: map<string, DType>, rows: seq<Row>, n: nat, first: nat, info: ColumnInfo): seq<Op>
    requires n <= |rows|
  {
    if n == 0 || PlanFor(schema, info) != Writes then []
    else ColumnOps(schema, rows, n - 1, first, info)
         + [Op(Cell(first + n - 1, info.index + 1), Lookup(rows[n - 1], info.name))]
  }

  /** The stores of all columns, column by column. */
  function RangeOps(schema: map<string, DType>, rows: seq<Row>, first: nat, cols: seq<ColumnInfo>): seq<Op> {
    if cols == [] then []
    else RangeOps(schema, rows, first, cols[..|cols| - 1]) + ColumnOps(schema, rows, |rows|, first, cols[|cols| - 1])
  }

  /** The stores of a column stay in their rows. */
  lemma {:induction false} ColumnOpsRows(schema: map<string, DType>, rows: seq<Row>, n: nat, first: nat,
                                         info: ColumnInfo)
    requires n <= |rows|
    ensures forall op :: op in ColumnOps(schema, rows, n, first, info) ==> first <= op.cell.row < first + n
  {
    if n == 0 || PlanFor(schema, info) != Writes {
    } else {
      ColumnOpsRows(schema, rows, n - 1, first, info);
    }
  }

  lemma StoredHere(cells: Cells, at: Cell, v: Option<Value>)
    ensures Get(Stored(cells, at, v), at) == Over(v, Get(cells, at))
  {
  }

  lemma ApplyMore(m: Cells, ops: seq<Op>, op: Op)
    ensures Apply(m, ops + [op]) == Stored(Apply(m, ops), op.cell, op.v)
  {
    assert (ops + [op])[..|ops|] == ops;
  }

  /** Whether row number n - 1 of a column, or an earlier one, is stored in the cell. */
  predicate HasRow(c: Cell, n: nat, first: nat, info: ColumnInfo) {
    first <= c.row < first + n && c.col == info.index + 1
  }

  lemma {:induction false} ColumnOpsEffect(m: Cells, schema: map<string, DType>, rows: seq<Row>, n: nat, first: nat,
                                           info: ColumnInfo, c: Cell)
    requires n <= |rows|
    ensures Get(Apply(m, ColumnOps(schema, rows, n, first, info)), c)
         == if HasRow(c, n, first, info) && PlanFor(schema, info) == Writes
            then Over(Lookup(rows[c.row - first], info.name), Get(m, c))
            else Get(m, c)
  {
    hide PlanFor, Lookup, Get, Stored, Over;
    if n == 0 || PlanFor(schema, info) != Writes {
    } else {
      var before := ColumnOps(schema, rows, n - 1, first, info);
      var op := Op(Cell(first + n - 1, info.index + 1), Lookup(rows[n - 1], info.name));
      ColumnOpsEffect(m, schema, rows, n - 1, first, info, c);
      ApplyMore(m, before, op);
      assert ColumnOps(schema, rows, n, first, info) == before + [op];
      hide Apply, ColumnOps;
      if c == op.cell {
        StoredHere(Apply(m, before), c, op.v);
      } else {
        StoredElsewhere(Apply(m, before), op.cell, op.v, c);
      }
    }
  }

  /** Running the stores writes the rows. */
  lemma {:induction false} RangeOpsEffect(m: Cells, schema: map<string, DType>, rows: seq<Row>, first: nat,
                                          cols: seq<ColumnInfo>)
    ensures Wrote(m, Apply(m, RangeOps(schema, rows, first, cols)), schema, rows, first, cols)
    ensures forall op :: op in RangeOps(schema, rows, first, cols) ==> first <= op.cell.row < first + |rows|
  {
    if cols == [] {
    } else {
      var init, info := cols[..|cols| - 1], cols[|cols| - 1];
      var a, b := RangeOps(schema, rows, first, init), ColumnOps(schema, rows, |rows|, first, info);
      RangeOpsEffect(m, schema, rows, first, init);
      ApplyConcat(m, a, b);
      var m1 := Apply(m, a);
      forall c ensures Get(Apply(m1, b), c) == Over(CellValue(schema, rows, first, cols, c), Get(m, c)) {
        assert Get(m1, c) == Over(CellValue(schema, rows, first, init, c), Get(m, c));
        ColumnOpsEffect(m1, schema, rows, |rows|, first, info, c);
      }
      ColumnOpsRows(schema, rows, |rows|, first, info);
    }
  }
}
