/** Projection pushdown: reading only the output columns and the columns of the row filter. */
module Projection {
  import opened Wrappers
  import opened Streams
  import opened StataData
  import opened Text

  // ---------- Names ----------

  /** A name that survives trimming. */
  predicate Clean(name: string) { Trim(name) == name && name != [] }

  // ---------- Row filters ----------

  /** The expression tree of a row filter: identifiers, compound identifiers such as df.age, and
      every other node with its operands. */
  datatype Expr =
    | Identifier(name: string)
    | Compound(parts: seq<string>)
    | Node(op: string, args: seq<Expr>)

  /** What an operator makes of its operands, and which values a filter accepts. */
  type Semantics = (string, seq<Option<Value>>) -> Option<Value>

  type Truth = Option<Value> -> bool

  /** The columns an expression mentions, in the order of a pre-order visit. */
  function Mentions(e: Expr): seq<string> {
    match e
    case Identifier(name) => [name]
    case Compound(parts) => if parts == [] then [] else [parts[|parts| - 1]]
    case Node(_, args) => MentionsAll(args)
  }

  function MentionsAll(es: seq<Expr>): seq<string> {
    if es == [] then [] else Mentions(es[0]) + MentionsAll(es[1..])
  }

  /** The value of an expression on one row; `sem` gives the meaning of the operators (a null or an
      undefined result is None). */
  function Eval(e: Expr, row: Row, sem: Semantics): Option<Value> {
    match e
    case Identifier(name) => Lookup(row, name)
    case Compound(parts) => if parts == [] then None else Lookup(row, parts[|parts| - 1])
    case Node(op, args) => sem(op, EvalAll(args, row, sem))
  }

  function EvalAll(es: seq<Expr>, row: Row, sem: Semantics): seq<Option<Value>> {
    if es == [] then [] else [Eval(es[0], row, sem)] + EvalAll(es[1..], row, sem)
  }

  function Restrict(row: Row, names: seq<string>): Row {
    map n | n in row && n in names :: row[n]
  }

  /** An expression has the same value on any part of the row that keeps the columns it mentions. */
  lemma {:induction false} EvalRestrict(e: Expr, row: Row, names: seq<string>, sem: Semantics)
    requires forall n :: n in Mentions(e) ==> n in names
    ensures Eval(e, Restrict(row, names), sem) == Eval(e, row, sem)
  {
    match e
    case Identifier(name) =>
      assert name in Mentions(e);
    case Compound(parts) =>
      if parts != [] {
        assert parts[|parts| - 1] in Mentions(e);
      }
    case Node(op, args) =>
      EvalAllRestrict(args, row, names, sem);
  }

  lemma {:induction false} EvalAllRestrict(es: seq<Expr>, row: Row, names: seq<string>, sem: Semantics)
    requires forall n :: n in MentionsAll(es) ==> n in names
    ensures EvalAll(es, Restrict(row, names), sem) == EvalAll(es, row, sem)
  {
    if es == [] {
    } else {
      EvalRestrict(es[0], row, names, sem);
      EvalAllRestrict(es[1..], row, names, sem);
    }
  }

  // ---------- Collecting the columns ----------

  /** What one push does: blank names and names already seen, ignoring case, are dropped. */
  function Pushed(columns: seq<string>, seen: set<string>, name: string): (seq<string>, set<string>) {
    var trimmed := Trim(name);
    if trimmed == [] || Lower(trimmed) in seen then (columns, seen)
    else (columns + [trimmed], seen + {Lower(trimmed)})
  }

  function PushedAll(columns: seq<string>, seen: set<string>, names: seq<string>): (seq<string>, set<string>) {
    if names == [] then (columns, seen)
    else
      var (c, s) := PushedAll(columns, seen, names[..|names| - 1]);
      Pushed(c, s, names[|names| - 1])
  }

  lemma {:induction false} PushedAllConcat(columns: seq<string>, seen: set<string>, a: seq<string>, b: seq<string>)
    ensures PushedAll(columns, seen, a + b)
         == PushedAll(PushedAll(columns, seen, a).0, PushedAll(columns, seen, a).1, b)
  {
    if b == [] {
      assert a + b == a;
    } else {
      assert (a + b)[..|a + b| - 1] == a + b[..|b| - 1];
      PushedAllConcat(columns, seen, a, b[..|b| - 1]);
    }
  }

  class SqlIfColumnCollector {
    var columns: seq<string>
    var seen: set<string>

    constructor ()
      ensures columns == [] && seen == {}
    {
      columns, seen := [], {};
    }

    method PushColumn(name: string)
      modifies this
      ensures (columns, seen) == Pushed(old(columns), old(seen), name)
    {
      var trimmed := Trim(name);
      if trimmed == [] {
        return;
      }
      var key := Lower(trimmed);
      if key !in seen {
        seen := seen + {key};
        columns := columns + [trimmed];
      }
    }

    /** The pre-order visit of an expression pushes the columns it mentions. */
    method Visit(e: Expr)
      modifies this
      ensures (columns, seen) == PushedAll(old(columns), old(seen), Mentions(e))
      decreases e, 1
    {
      match e
      case Identifier(name) =>
        PushColumn(name);
        assert [name][..0] == [];
      case Compound(parts) =>
        if parts != [] {
          PushColumn(parts[|parts| - 1]);
          assert [parts[|parts| - 1]][..0] == [];
        }
      case Node(_, args) =>
        VisitAll(args);
    }

    method VisitAll(es: seq<Expr>)
      modifies this
      ensures (columns, seen) == PushedAll(old(columns), old(seen), MentionsAll(es))
      decreases es, 0
    {
      if es != [] {
        Visit(es[0]);
        VisitAll(es[1..]);
        PushedAllConcat(old(columns), old(seen), Mentions(es[0]), MentionsAll(es[1..]));
      }
    }
  }

  /** No filter, a filter that does not parse, or its expression tree. */
  datatype SqlFilter = NoFilter | Unparsed | Parsed(e: Expr)

  function FilterColumns(filter: SqlFilter): seq<string> {
    if filter.Parsed? then PushedAll([], {}, Mentions(filter.e)).0 else []
  }

  function Projected(selected: seq<string>, filter: SqlFilter): seq<string> {
    if filter.Parsed? then PushedAll([], {}, selected + FilterColumns(filter)).0 else selected
  }

  /** The columns to read, or None for all of them. */
  method ProjectedReadstatColumns(selected: seq<string>, filter: SqlFilter) returns (r: Option<seq<string>>)
    ensures r == if filter.Unparsed? || Projected(selected, filter)
         == [] then None else Some(Projected(selected, filter))
  {
    match filter
    case NoFilter =>
      r := if selected == [] then None else Some(selected);
    case Unparsed =>
      r := None;
    case Parsed(e) =>
      var collector := new SqlIfColumnCollector();
      collector.Visit(e);
      var projected, seen := [], {};
      var names := selected + collector.columns;
      for i := 0 to |names|
        invariant (projected, seen) == PushedAll([], {}, names[..i])
      {
        assert names[..i + 1][..i] == names[..i];
        var trimmed := Trim(names[i]);
        if trimmed != [] {
          var key := Lower(trimmed);
          if key !in seen {
            seen := seen + {key};
            projected := projected + [trimmed];
          }
        }
      }
      assert names[..|names|] == names;
      r := if projected == [] then None else Some(projected);
  }

  // ---------- What the projection keeps ----------

  /** No two different names are equal when case is ignored. */
  ghost predicate CaseDistinct(names: seq<string>) {
    forall a, b :: a in names && b in names && Lower(a) == Lower(b) ==> a == b
  }

  ghost predicate AllClean(names: seq<string>) {
    forall n :: n in names ==> Clean(n)
  }

  predicate FromName(x: string, names: seq<string>) {
    exists n :: n in names && x == Trim(n)
  }

  predicate KeyOf(k: string, columns: seq<string>) {
    exists x :: x in columns && k == Lower(x)
  }

  /** The pushed columns are trimmed non-blank names, one for each name up to case, and `seen` holds
      their lower-case forms. */
  ghost predicate IsPushResult(names: seq<string>, c: seq<string>, s: set<string>) {
    && (forall x :: x in c ==> x != [] && FromName(x, names))
    && (forall k :: k in s ==> KeyOf(k, c))
    && (forall x :: x in c ==> Lower(x) in s)
    && (forall x, y :: x in c && y in c && Lower(x) == Lower(y) ==> x == y)
    && (forall n :: n in names && Trim(n) != [] ==> Lower(Trim(n)) in s)
  }

  lemma {:induction false} PushedAllResult(names: seq<string>)
    ensures IsPushResult(names, PushedAll([], {}, names).0, PushedAll([], {}, names).1)
  {
    hide Lower, Trim;
    if names == [] {
    } else {
      var init, n := names[..|names| - 1], names[|names| - 1];
      PushedAllResult(init);
      var (c, s) := PushedAll([], {}, init);
      assert IsPushResult(init + [n], Pushed(c, s, n).0, Pushed(c, s, n).1);
      assert names == init + [n];
    }
  }

  /** The name at position p is not blank, and no earlier name is the same up to blanks around it and case. */
  ghost predicate IsFirst(names: seq<string>, p: nat)
    requires p < |names|
  {
    Trim(names[p]) != [] && forall q :: 0 <= q < p ==> Lower(Trim(names[q])) != Lower(Trim(names[p]))
  }

  /** `columns` are the first names, trimmed, in the order in which they are pushed. */
  ghost predicate AreFirsts(columns: seq<string>, names: seq<string>, at: seq<nat>) {
    && |columns| == |at|
    && (forall i, j :: 0 <= i < j < |at| ==> at[i] < at[j])
    && (forall i :: 0 <= i < |at| ==> at[i] < |names| && columns[i] == Trim(names[at[i]]))
    && (forall p: nat :: p < |names| ==> (p in at <==> IsFirst(names, p)))
  }

  lemma FirstsNext(columns: seq<string>, names: seq<string>, at: seq<nat>, n: string)
    requires AreFirsts(columns, names, at)
    ensures if IsFirst(names + [n], |names|) then AreFirsts(columns + [Trim(n)], names + [n], at + [|names|])
            else AreFirsts(columns, names + [n], at)
  {
    hide Lower, Trim;
    forall p: nat | p < |names| ensures IsFirst(names + [n], p) <==> IsFirst(names, p) {
      assert forall q :: 0 <= q <= p ==> (names + [n])[q] == names[q];
    }
  }

  lemma BlankHasOwnKey(s: string, t: string)
    ensures s != [] && t == [] ==> Lower(s) != Lower(t)
  {
    assert |Lower(s)| == |s|;
  }

  lemma SeenIsPushed(names: seq<string>, c: seq<string>, s: set<string>, n: string)
    requires IsPushResult(names, c, s)
    ensures IsFirst(names + [n], |names|) <==> Trim(n) != [] && Lower(Trim(n)) !in s
  {
    hide Lower, Trim;
    var all, k := names + [n], Lower(Trim(n));
    if k in s {
      assert KeyOf(k, c);
      var x :| x in c && k == Lower(x);
      assert FromName(x, names);
      var m :| m in names && x == Trim(m);
      var q :| 0 <= q < |names| && names[q] == m;
      assert Lower(Trim(all[q])) == Lower(Trim(all[|names|]));
    } else if Trim(n) != [] {
      forall q | 0 <= q < |names| ensures Lower(Trim(all[q])) != k {
        BlankHasOwnKey(Trim(n), Trim(names[q]));
      }
    }
  }

  /** Pushing names leaves the first of each, trimmed, in their order. */
  lemma {:induction false} PushedAreFirsts(names: seq<string>) returns (at: seq<nat>)
    ensures AreFirsts(PushedAll([], {}, names).0, names, at)
  {
    if names == [] {
      at := [];
    } else {
      hide Lower, Trim, AreFirsts, IsFirst;
      var init, n := names[..|names| - 1], names[|names| - 1];
      var before := PushedAreFirsts(init);
      var (c, s) := PushedAll([], {}, init);
      PushedAllResult(init);
      SeenIsPushed(init, c, s, n);
      FirstsNext(c, init, before, n);
      assert names == init + [n];
      at := if IsFirst(names, |init|) then before + [|init|] else before;
    }
  }

  lemma KeepsCleanNames(names: seq<string>, n: string)
    requires AllClean(names) && CaseDistinct(names) && n in names
    ensures n in PushedAll([], {}, names).0
  {
    PushedAllResult(names);
    var (c, s) := PushedAll([], {}, names);
    hide Lower, Trim, PushedAll;
    assert Clean(n);
    var k := Lower(Trim(n));
    assert k in s;
    assert KeyOf(k, c);
    var x :| x in c && k == Lower(x);
    assert FromName(x, names);
    var n' :| n' in names && x == Trim(n');
    assert Clean(n');
  }

  /** Exactly when every listed column is kept under its own name: no name changes by trimming,
      and no two names differ only in case. */
  lemma KeepsAllNames(names: seq<string>)
    ensures (forall n :: n in names ==> n in PushedAll([], {}, names).0) <==> AllClean(names) && CaseDistinct(names)
  {
    hide Lower, Trim, PushedAll;
    if AllClean(names) && CaseDistinct(names) {
      forall n | n in names ensures n in PushedAll([], {}, names).0 {
        KeepsCleanNames(names, n);
      }
    }
    if forall n :: n in names ==> n in PushedAll([], {}, names).0 {
      PushedAllResult(names);
      forall n | n in names ensures Clean(n) {
        assert FromName(n, names);
        var m :| m in names && n == Trim(m);
        TrimIdempotent(m);
      }
    }
  }

  // ---------- The pushdown preserves the read ----------

  datatype Frame = Frame(columns: set<string>, rows: seq<Row>)

  function RestrictAll(rows: seq<Row>, names: seq<string>): seq<Row> {
    seq(|rows|, i requires 0 <= i < |rows| => Restrict(rows[i], names))
  }

  predicate HasColumns(f: Frame, names: seq<string>) {
    forall n :: n in names ==> n in f.columns
  }

  /** Selecting columns fails when one of them does not exist. */
  function Select(f: Frame, names: seq<string>): Option<Frame> {
    if HasColumns(f, names) then Some(Frame(set n | n in names :: n, RestrictAll(f.rows, names))) else None
  }

  /** Filtering fails when the expression mentions a column that does not exist. */
  function ApplyFilter(f: Frame, filter: SqlFilter, sem: Semantics, isTrue: Truth): Option<Frame> {
    match filter
    case NoFilter => Some(f)
    case Unparsed => None
    case Parsed(e) =>
      if HasColumns(f, Mentions(e)) then
        Some(f.(rows := Filter((row: Row) => isTrue(Eval(e, row, sem)), f.rows))) else None
  }

  /** The read as asked for: filter the whole frame, then take the output columns. */
  function Direct(f: Frame, selected: seq<string>, filter: SqlFilter, sem: Semantics, isTrue: Truth): Option<Frame> {
    var g := ApplyFilter(f, filter, sem, isTrue);
    if g.None? then None else Select(g.value, selected)
  }

  /** The columns the read needs: the output columns and those of the filter. */
  function Needed(selected: seq<string>, filter: SqlFilter): seq<string> {
    selected + if filter.Parsed? then Mentions(filter.e) else []
  }

  /** The row has the values of the other one in these columns, and no others. */
  ghost predicate HasValuesOf(row: Row, full: Row, names: seq<string>) {
    forall n :: if n in names then Lookup(row, n) == Lookup(full, n) else n !in row
  }

  /** The rows on which the filter is true. */
  function KeepOf(filter: SqlFilter, sem: Semantics, isTrue: Truth): Row -> bool {
    (row: Row) => filter.Parsed? ==> isTrue(Eval(filter.e, row, sem))
  }

  lemma FilteredRows(f: Frame, filter: SqlFilter, sem: Semantics, isTrue: Truth) returns (at: seq<nat>)
    ensures ApplyFilter(f, filter, sem, isTrue).None? <==>
      filter.Unparsed? || (filter.Parsed? && !HasColumns(f, Mentions(filter.e)))
    ensures AreSelected(KeepOf(filter, sem, isTrue), f.rows, at)
    ensures ApplyFilter(f, filter, sem, isTrue).Some? ==>
      var g := ApplyFilter(f, filter, sem, isTrue).value; g.columns == f.columns && PickedAt(g.rows, f.rows, at)
  {
    hide Eval, Mentions, Filter, AreSelected, PickedAt;
    var keep := KeepOf(filter, sem, isTrue);
    if filter.Parsed? {
      FilterSame((row: Row) => isTrue(Eval(filter.e, row, sem)), keep, f.rows);
    } else {
      FilterAll(keep, f.rows);
    }
    at := FilterSelects(keep, f.rows);
  }

  lemma SelectedRows(f: Frame, names: seq<string>)
    ensures Select(f, names).None? <==> !HasColumns(f, names)
    ensures Select(f, names).Some? ==>
      var g := Select(f, names).value;
      && |g.rows| == |f.rows| && (forall n :: n in g.columns <==> n in names)
      && forall i :: 0 <= i < |f.rows| ==> HasValuesOf(g.rows[i], f.rows[i], names)
  {
  }

  /** `rows` are the rows of `full` at these positions, each with its values in the output columns. */
  ghost predicate AreRead(rows: seq<Row>, full: seq<Row>, at: seq<nat>, selected: seq<string>) {
    |rows| == |at| && forall i :: 0 <= i < |at| ==> at[i] < |full| && HasValuesOf(rows[i], full[at[i]], selected)
  }

  lemma HasNeeded(f: Frame, selected: seq<string>, filter: SqlFilter)
    ensures HasColumns(f, Needed(selected, filter)) <==>
      HasColumns(f, selected) && (filter.Parsed? ==> HasColumns(f, Mentions(filter.e)))
  {
    hide Mentions;
    assert filter.Parsed? ==> forall n :: n in Mentions(filter.e) ==> n in Needed(selected, filter);
    assert forall n :: n in selected ==> n in Needed(selected, filter);
  }

  lemma SameColumns(f: Frame, g: Frame, names: seq<string>)
    requires g.columns == f.columns
    ensures HasColumns(g, names) <==> HasColumns(f, names)
  {
  }

  /** What a read gives: the rows on which the filter is true, in their order, each with its values in the
      output columns; it fails exactly when a needed column is missing or the filter does not parse. */
  lemma DirectReads(f: Frame, selected: seq<string>, filter: SqlFilter, sem: Semantics, isTrue: Truth)
      returns (at: seq<nat>)
    ensures Direct(f, selected, filter, sem, isTrue).None? <==>
      filter.Unparsed? || !HasColumns(f, Needed(selected, filter))
    ensures AreSelected(KeepOf(filter, sem, isTrue), f.rows, at)
    ensures Direct(f, selected, filter, sem, isTrue).Some? ==>
      var r := Direct(f, selected, filter, sem, isTrue).value;
      && (forall n :: n in r.columns <==> n in selected)
      && AreRead(r.rows, f.rows, at, selected)
  {
    hide ApplyFilter, Select, AreSelected, HasValuesOf, HasColumns, Needed, Mentions;
    at := FilteredRows(f, filter, sem, isTrue);
    HasNeeded(f, selected, filter);
    var g := ApplyFilter(f, filter, sem, isTrue);
    if g.Some? {
      SelectedRows(g.value, selected);
      SameColumns(f, g.value, selected);
    }
  }

  /** The read as done: project first, then filter and take the output columns. */
  function PushedDown(f: Frame, selected: seq<string>, filter: SqlFilter, sem: Semantics,
                      isTrue: Truth): Option<Frame> {
    var p := Projected(selected, filter);
    if filter.Unparsed? || p == [] then Direct(f, selected, filter, sem, isTrue)
    else
      var g := Select(f, p);
      if g.None? then None else Direct(g.value, selected, filter, sem, isTrue)
  }

  lemma {:induction false} SeenGrows(c: seq<string>, s: set<string>, names: seq<string>)
    ensures s <= PushedAll(c, s, names).1
    ensures PushedAll([], {}, names).1 <= PushedAll(c, s, names).1
  {
    if names == [] {
    } else {
      SeenGrows(c, s, names[..|names| - 1]);
    }
  }

  /** Collecting first and pushing the collected columns then is pushing all mentions. */
  lemma {:induction false} CollectThenPush(c: seq<string>, s: set<string>, names: seq<string>)
    ensures PushedAll(c, s, PushedAll([], {}, names).0) == PushedAll(c, s, names)
  {
    if names == [] {
    } else {
      var init, n := names[..|names| - 1], names[|names| - 1];
      CollectThenPush(c, s, init);
      SeenGrows(c, s, init);
      TrimIdempotent(n);
      hide Trim, Lower;
      var inner := PushedAll([], {}, init);
      var next := Pushed(inner.0, inner.1, n);
      if next.0 != inner.0 {
        assert next.0 == inner.0 + [Trim(n)];
        assert (inner.0 + [Trim(n)])[..|inner.0|] == inner.0;
      }
    }
  }

  lemma ProjectedIsPushedNeeded(selected: seq<string>, filter: SqlFilter)
    requires filter.Parsed?
    ensures Projected(selected, filter) == PushedAll([], {}, Needed(selected, filter)).0
  {
    var ms := Mentions(filter.e);
    var p := PushedAll([], {}, selected);
    PushedAllConcat([], {}, selected, FilterColumns(filter));
    PushedAllConcat([], {}, selected, ms);
    CollectThenPush(p.0, p.1, ms);
  }

  lemma {:induction false} FilterRestricted(e: Expr, rows: seq<Row>, p: seq<string>, sem: Semantics, isTrue: Truth)
    requires forall n :: n in Mentions(e) ==> n in p
    ensures Filter((row: Row) => isTrue(Eval(e, row, sem)), RestrictAll(rows, p))
         == RestrictAll(Filter((row: Row) => isTrue(Eval(e, row, sem)), rows), p)
  {
    if rows == [] {
    } else {
      var init, last := rows[..|rows| - 1], rows[|rows| - 1];
      FilterRestricted(e, init, p, sem, isTrue);
      EvalRestrict(e, last, p, sem);
      assert RestrictAll(rows, p)[..|rows| - 1] == RestrictAll(init, p);
    }
  }

  /** With every needed column projected under its own name, the pushed-down read gives the rows
      of the direct one. */
  lemma ProjectedReadAgrees(f: Frame, selected: seq<string>, filter: SqlFilter, p: seq<string>, sem: Semantics,
                            isTrue: Truth)
    requires !filter.Unparsed? && HasColumns(f, p)
    requires forall n :: n in Needed(selected, filter) ==> n in p
    ensures Direct(Select(f, p).value, selected, filter, sem, isTrue) == Direct(f, selected, filter, sem, isTrue)
  {
    var g := Select(f, p).value;
    hide Eval, Mentions, Filter, Restrict;
    assert forall n :: n in selected ==> n in Needed(selected, filter);
    if filter.Parsed? {
      assert forall n :: n in Mentions(filter.e) ==> n in Needed(selected, filter);
      FilterRestricted(filter.e, f.rows, p, sem, isTrue);
    }
    var fr := ApplyFilter(f, filter, sem, isTrue).value.rows;
    assert ApplyFilter(g, filter, sem, isTrue).value.rows == RestrictAll(fr, p);
    forall i | 0 <= i < |fr| ensures Restrict(RestrictAll(fr, p)[i], selected) == Restrict(fr[i], selected) {
      assert Restrict(Restrict(fr[i], p), selected) == Restrict(fr[i], selected);
    }
    assert RestrictAll(RestrictAll(fr, p), selected) == RestrictAll(fr, selected);
  }

  /** Without a filter the projection never changes the read. */
  lemma NoFilterPushdown(f: Frame, selected: seq<string>, sem: Semantics, isTrue: Truth)
    ensures PushedDown(f, selected, NoFilter, sem, isTrue) == Direct(f, selected, NoFilter, sem, isTrue)
  {
    if selected != [] && HasColumns(f, selected) {
      ProjectedReadAgrees(f, selected, NoFilter, selected, sem, isTrue);
    }
  }

  lemma MissingFails(f: Frame, selected: seq<string>, filter: SqlFilter, n: string, sem: Semantics, isTrue: Truth)
    requires n in Needed(selected, filter) && n !in f.columns
    ensures Direct(f, selected, filter, sem, isTrue).None?
  {
  }

  /** Pushing the projection below the filter preserves a successful read exactly when all needed
      names are trimmed and no two of them differ only in case (or nothing is projected at all);
      a read that fails directly also fails pushed down. */
  lemma PushdownPreserves(f: Frame, selected: seq<string>, e: Expr, sem: Semantics, isTrue: Truth)
    ensures var filter := Parsed(e);
      var direct, pushed := Direct(f, selected, filter, sem, isTrue), PushedDown(f, selected, filter, sem, isTrue);
      && (direct.None? ==> pushed.None?)
      && (direct.Some? ==>
            (pushed == direct <==>
              Projected(selected, filter) == []
              || (AllClean(Needed(selected, filter)) && CaseDistinct(Needed(selected, filter)))))
  {
    var filter := Parsed(e);
    var needed, p := Needed(selected, filter), Projected(selected, filter);
    ProjectedIsPushedNeeded(selected, filter);
    KeepsAllNames(needed);
    PushedAllResult(needed);
    hide Trim, Lower, PushedAll, Eval, Mentions, Filter, Restrict, Projected;
    if p != [] {
      if forall n :: n in needed ==> n in p {
        forall x | x in p ensures x in needed {
          assert FromName(x, needed);
          var n :| n in needed && x == Trim(n);
          assert Clean(n);
        }
        if HasColumns(f, p) {
          ProjectedReadAgrees(f, selected, filter, p, sem, isTrue);
        } else {
          var x :| x in p && x !in f.columns;
          MissingFails(f, selected, filter, x, sem, isTrue);
        }
      } else if HasColumns(f, p) {
        var n :| n in needed && n !in p;
        MissingFails(Select(f, p).value, selected, filter, n, sem, isTrue);
      }
    }
  }

  // ---------- Frames on which the pushdown fails ----------

  lemma ProjectsSomething(selected: seq<string>, filter: SqlFilter, name: string)
    requires filter.Parsed? && name in Needed(selected, filter) && Trim(name) != []
    ensures Projected(selected, filter) != []
  {
    hide Trim, Lower, PushedAll, Projected, Needed;
    ProjectedIsPushedNeeded(selected, filter);
    PushedAllResult(Needed(selected, filter));
  }

  /** Selecting column a and filtering on column b. */
  lemma TwoColumns(f: Frame, a: string, b: string, sem: Semantics, isTrue: Truth)
    requires a in f.columns && b in f.columns && Trim(a) != []
    requires !(AllClean([a, b]) && CaseDistinct([a, b]))
    ensures PushedDown(f, [a], Parsed(Identifier(b)), sem, isTrue) != Direct(f, [a], Parsed(Identifier(b)), sem, isTrue)
  {
    hide Trim, Lower, PushedAll, Projected, PushedDown, Clean, CaseDistinct;
    assert Needed([a], Parsed(Identifier(b))) == [a, b] && a in [a, b];
    ProjectsSomething([a], Parsed(Identifier(b)), a);
    PushdownPreserves(f, [a], Identifier(b), sem, isTrue);
  }

  /** A SAS name literal may start with a blank. A filter on the column " x" then fails, because the
      projection asks for "x". */
  lemma PaddedNameIsLost(rows: seq<Row>, sem: Semantics, isTrue: Truth)
    ensures var f, filter := Frame({"a", " x"}, rows), Parsed(Identifier(" x"));
      PushedDown(f, ["a"], filter, sem, isTrue) != Direct(f, ["a"], filter, sem, isTrue)
  {
    assert Trim("a") == "a" && Trim(" x") == "x" != " x";
    assert " x" in ["a", " x"];
    hide Trim, Lower;
    TwoColumns(Frame({"a", " x"}, rows), "a", " x", sem, isTrue);
  }

  /** A filter on "X" with "x" selected fails on a frame that has both columns: only "x" is read. SAS and
      SPSS do not write two such names themselves; the reader takes the names as the file stores them. */
  lemma CaseVariantIsLost(rows: seq<Row>, sem: Semantics, isTrue: Truth)
    ensures var f, filter := Frame({"x", "X"}, rows), Parsed(Identifier("X"));
      PushedDown(f, ["x"], filter, sem, isTrue) != Direct(f, ["x"], filter, sem, isTrue)
  {
    assert Lower("x") == Lower("X") && Trim("x") == "x";
    assert "x" in ["x", "X"] && "X" in ["x", "X"];
    hide Trim, Lower;
    TwoColumns(Frame({"x", "X"}, rows), "x", "X", sem, isTrue);
  }
}
