/** Sorting behind the projection: which sorts the projected columns allow. */
module SortedProjection {
  import opened Wrappers
  import opened Streams
  import opened StataData
  import opened StableSort
  import opened Text
  import opened Projection

  // ---------- Sorting rows by their key columns ----------

  type Order = (Row, Row) -> bool

  /** The order of rows given by their values in the key columns. */
  function KeyOrder(keys: seq<string>, le: Order): Order {
    (a, b) => le(Restrict(a, keys), Restrict(b, keys))
  }

  /** Sorting fails when a key column does not exist. */
  function SortFrame(f: Frame, keys: seq<string>, le: Order): Option<Frame> {
    if HasColumns(f, keys) then Some(f.(rows := Sort(KeyOrder(keys, le), f.rows))) else None
  }

  lemma KeyOrderIsOrder(keys: seq<string>, le: Order)
    requires TotalPreorder(le)
    ensures TotalPreorder(KeyOrder(keys, le))
  {
    hide Restrict;
    var order := KeyOrder(keys, le);
    forall x, y ensures order(x, y) || order(y, x) {
      assert le(Restrict(x, keys), Restrict(y, keys)) || le(Restrict(y, keys), Restrict(x, keys));
    }
    forall x, y, z | order(x, y) && order(y, z) ensures order(x, z) {
      assert le(Restrict(x, keys), Restrict(y, keys)) && le(Restrict(y, keys), Restrict(z, keys));
    }
  }

  /** A sorted frame has the rows of the frame, ordered by their values in the key columns. */
  lemma SortFrameSorts(f: Frame, keys: seq<string>, le: Order)
    requires TotalPreorder(le) && HasColumns(f, keys)
    ensures SortFrame(f, keys, le).Some?
    ensures var g := SortFrame(f, keys, le).value;
      && g.columns == f.columns && multiset(g.rows) == multiset(f.rows)
      && (forall i, j :: 0 <= i < j < |g.rows| ==> le(Restrict(g.rows[i], keys), Restrict(g.rows[j], keys)))
      && (forall x :: TiesOf(KeyOrder(keys, le), g.rows, x) == TiesOf(KeyOrder(keys, le), f.rows, x))
  {
    hide Restrict, Sort;
    var order := KeyOrder(keys, le);
    KeyOrderIsOrder(keys, le);
    SortIsStableSort(order, f.rows);
    SortPermutes(order, f.rows);
    var g := SortFrame(f, keys, le).value;
    forall i, j | 0 <= i < j < |g.rows| ensures le(Restrict(g.rows[i], keys), Restrict(g.rows[j], keys)) {
      assert order(g.rows[i], g.rows[j]);
    }
  }

  lemma RestrictTwice(row: Row, p: seq<string>, keys: seq<string>)
    requires forall n :: n in keys ==> n in p
    ensures Restrict(Restrict(row, p), keys) == Restrict(row, keys)
  {
  }

  lemma RestrictCons(x: Row, s: seq<Row>, p: seq<string>)
    ensures RestrictAll([x] + s, p) == [Restrict(x, p)] + RestrictAll(s, p)
  {
    hide Restrict;
  }

  lemma {:induction false} InsertRestricted(s: seq<Row>, x: Row, keys: seq<string>, p: seq<string>, le: Order)
    requires forall n :: n in keys ==> n in p
    ensures Insert(KeyOrder(keys, le), RestrictAll(s, p), Restrict(x, p))
         == RestrictAll(Insert(KeyOrder(keys, le), s, x), p)
  {
    var order := KeyOrder(keys, le);
    if s == [] {
    } else {
      var rs := RestrictAll(s, p);
      RestrictTwice(s[0], p, keys);
      RestrictTwice(x, p, keys);
      assert order(rs[0], Restrict(x, p)) == order(s[0], x);
      assert rs[1..] == RestrictAll(s[1..], p);
      InsertRestricted(s[1..], x, keys, p, le);
      RestrictCons(s[0], Insert(order, s[1..], x), p);
      RestrictCons(x, s, p);
    }
  }

  lemma {:induction false} InsertAllRestricted(s: seq<Row>, r: seq<Row>, keys: seq<string>, p: seq<string>, le: Order)
    requires forall n :: n in keys ==> n in p
    ensures InsertAll(KeyOrder(keys, le), RestrictAll(s, p), RestrictAll(r, p))
         == RestrictAll(InsertAll(KeyOrder(keys, le), s, r), p)
    decreases r
  {
    hide Restrict, Insert, KeyOrder;
    if r == [] {
    } else {
      InsertRestricted(s, r[0], keys, p, le);
      InsertAllRestricted(Insert(KeyOrder(keys, le), s, r[0]), r[1..], keys, p, le);
      assert RestrictAll(r, p)[0] == Restrict(r[0], p) && RestrictAll(r, p)[1..] == RestrictAll(r[1..], p);
    }
  }

  /** Sorting projected rows is projecting sorted rows, if the key columns are projected. */
  lemma SortRestricted(rows: seq<Row>, keys: seq<string>, p: seq<string>, le: Order)
    requires forall n :: n in keys ==> n in p
    ensures Sort(KeyOrder(keys, le), RestrictAll(rows, p)) == RestrictAll(Sort(KeyOrder(keys, le), rows), p)
  {
    assert RestrictAll([], p) == [];
    InsertAllRestricted([], rows, keys, p, le);
  }

  // ---------- The sorted read ----------

  /** Filter, sort, take the output columns. */
  function SortedDirect(f: Frame, selected: seq<string>, filter: SqlFilter, keys: seq<string>, le: Order,
                        sem: Semantics,
                        isTrue: Truth): Option<Frame>
  {
    var g := ApplyFilter(f, filter, sem, isTrue);
    if g.None? then None
    else
      var h := SortFrame(g.value, keys, le);
      if h.None? then None else Select(h.value, selected)
  }

  /** Project to the output columns and those of the filter first. */
  function SortedPushedDown(f: Frame, selected: seq<string>, filter: SqlFilter, keys: seq<string>, le: Order,
                            sem: Semantics, isTrue: Truth): Option<Frame>
  {
    var p := Projected(selected, filter);
    if filter.Unparsed? || p == [] then SortedDirect(f, selected, filter, keys, le, sem, isTrue)
    else
      var g := Select(f, p);
      if g.None? then None else SortedDirect(g.value, selected, filter, keys, le, sem, isTrue)
  }

  /** A missing column makes the read fail, wherever it is used. */
  lemma MissingFails(f: Frame, selected: seq<string>, filter: SqlFilter, keys: seq<string>, le: Order, sem: Semantics,
                     isTrue: Truth, n: string)
    requires n !in f.columns && (n in keys || n in Needed(selected, filter))
    ensures SortedDirect(f, selected, filter, keys, le, sem, isTrue).None?
  {
  }

  lemma FilterProjected(f: Frame, filter: SqlFilter, p: seq<string>, sem: Semantics, isTrue: Truth)
    requires !filter.Unparsed? && HasColumns(f, p)
    requires (filter.Parsed? ==> forall n :: n in Mentions(filter.e) ==> n in p)
    ensures ApplyFilter(f, filter, sem, isTrue).Some?
    ensures ApplyFilter(Select(f, p).value, filter, sem, isTrue) == Select(ApplyFilter(f, filter, sem, isTrue).value, p)
  {
    hide Eval, Mentions, Filter, Restrict;
    if filter.Parsed? {
      FilterRestricted(filter.e, f.rows, p, sem, isTrue);
    }
  }

  lemma SortProjected(f: Frame, keys: seq<string>, p: seq<string>, le: Order)
    requires HasColumns(f, p) && forall n :: n in keys ==> n in p
    ensures SortFrame(f, keys, le).Some?
    ensures SortFrame(Select(f, p).value, keys, le) == Select(SortFrame(f, keys, le).value, p)
  {
    hide Restrict, Sort, KeyOrder;
    SortRestricted(f.rows, keys, p, le);
  }

  lemma SelectTwice(f: Frame, p: seq<string>, selected: seq<string>)
    requires HasColumns(f, p) && forall n :: n in selected ==> n in p
    ensures Select(Select(f, p).value, selected) == Select(f, selected)
  {
    hide Restrict;
    forall i | 0 <= i < |f.rows| ensures Restrict(Restrict(f.rows[i], p), selected) == Restrict(f.rows[i], selected) {
      RestrictTwice(f.rows[i], p, selected);
    }
    assert RestrictAll(RestrictAll(f.rows, p), selected) == RestrictAll(f.rows, selected);
  }

  /** With every needed column and every sort column projected, the sorted read gives the same rows in the same
      order. */
  lemma SortedReadAgrees(f: Frame, selected: seq<string>, filter: SqlFilter, keys: seq<string>, p: seq<string>,
                         le: Order,
                         sem: Semantics, isTrue: Truth)
    requires !filter.Unparsed? && HasColumns(f, p)
    requires forall n :: n in Needed(selected, filter) || n in keys ==> n in p
    ensures SortedDirect(Select(f, p).value, selected, filter, keys, le, sem, isTrue)
         == SortedDirect(f, selected, filter, keys, le, sem, isTrue)
  {
    assert forall n :: n in selected ==> n in Needed(selected, filter);
    assert filter.Parsed? ==> forall n :: n in Mentions(filter.e) ==> n in Needed(selected, filter);
    hide Eval, Mentions, Filter, Restrict, Sort, KeyOrder, Needed;
    FilterProjected(f, filter, p, sem, isTrue);
    var g := ApplyFilter(f, filter, sem, isTrue).value;
    SortProjected(g, keys, p, le);
    SelectTwice(SortFrame(g, keys, le).value, p, selected);
  }

  lemma DirectHasColumns(f: Frame, selected: seq<string>, filter: SqlFilter, keys: seq<string>, le: Order,
                         sem: Semantics,
                         isTrue: Truth)
    requires SortedDirect(f, selected, filter, keys, le, sem, isTrue).Some?
    ensures forall n :: n in Needed(selected, filter) || n in keys ==> n in f.columns
  {
    hide Restrict, Filter, Eval, Sort, KeyOrder;
  }

  lemma ProjectedMisses(f: Frame, p: seq<string>, selected: seq<string>, filter: SqlFilter, keys: seq<string>,
                        le: Order,
                        sem: Semantics, isTrue: Truth, n: string)
    requires n !in p && (n in keys || n in Needed(selected, filter))
    ensures Select(f, p).Some? ==> SortedDirect(Select(f, p).value, selected, filter, keys, le, sem, isTrue).None?
  {
    hide SortedDirect, Needed;
    if HasColumns(f, p) {
      MissingFails(Select(f, p).value, selected, filter, keys, le, sem, isTrue, n);
    }
  }

  /** The needed names survive the projection, and the sort columns are among them. */
  ghost predicate SortableAfter(selected: seq<string>, filter: SqlFilter, keys: seq<string>) {
    var needed := Needed(selected, filter);
    AllClean(needed) && CaseDistinct(needed) && forall k :: k in keys ==> k in needed
  }

  /** A successful sorted read stays what it was under the projection exactly when nothing is projected, or all needed
      names are trimmed and distinct up to case and every sort column is an output column or one of the filter's. A read
      sorted by another column fails. */
  lemma SortedPushdownPreserves(f: Frame, selected: seq<string>, e: Expr, keys: seq<string>, le: Order, sem: Semantics,
                                isTrue: Truth)
    requires SortedDirect(f, selected, Parsed(e), keys, le, sem, isTrue).Some?
    ensures var filter := Parsed(e);
      (SortedPushedDown(f, selected, filter, keys, le, sem, isTrue)
        == SortedDirect(f, selected, filter, keys, le, sem, isTrue)) <==>
      (Projected(selected, filter) == [] || SortableAfter(selected, filter, keys))
  {
    var filter := Parsed(e);
    var needed, p := Needed(selected, filter), Projected(selected, filter);
    ProjectedIsPushedNeeded(selected, filter);
    KeepsAllNames(needed);
    PushedAllResult(needed);
    hide Trim, Lower, PushedAll, Eval, Mentions, Filter, Restrict, Projected, SortedDirect;
    if p != [] {
      if forall n :: n in needed ==> n in p {
        forall x | x in p ensures x in needed {
          assert FromName(x, needed);
          var n :| n in needed && x == Trim(n);
          assert Clean(n);
        }
        if forall k :: k in keys ==> k in needed {
          DirectHasColumns(f, selected, filter, keys, le, sem, isTrue);
          SortedReadAgrees(f, selected, filter, keys, p, le, sem, isTrue);
        } else {
          var k :| k in keys && k !in needed;
          ProjectedMisses(f, p, selected, filter, keys, le, sem, isTrue, k);
        }
      } else {
        var n :| n in needed && n !in p;
        ProjectedMisses(f, p, selected, filter, keys, le, sem, isTrue, n);
      }
    }
  }

  /** Without a filter the output columns must contain every sort column. */
  lemma SortedWithoutFilter(f: Frame, selected: seq<string>, keys: seq<string>, le: Order, sem: Semantics,
                            isTrue: Truth)
    requires SortedDirect(f, selected, NoFilter, keys, le, sem, isTrue).Some?
    ensures
      (SortedPushedDown(f, selected, NoFilter, keys, le, sem, isTrue)
        == SortedDirect(f, selected, NoFilter, keys, le, sem, isTrue)) <==>
      (selected == [] || forall k :: k in keys ==> k in selected)
  {
    hide SortedDirect;
    if selected != [] {
      DirectHasColumns(f, selected, NoFilter, keys, le, sem, isTrue);
      if forall k :: k in keys ==> k in selected {
        SortedReadAgrees(f, selected, NoFilter, keys, selected, le, sem, isTrue);
      } else {
        var k :| k in keys && k !in selected;
        ProjectedMisses(f, selected, selected, NoFilter, keys, le, sem, isTrue, k);
      }
    }
  }
}
