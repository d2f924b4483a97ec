/** Shrinking integer columns by their actual minimum and maximum. */
module ShrinkIntegers {
  import opened Wrappers
  import opened DataTypes
  import opened StataTypes

  datatype IntColumn = IntColumn(dtype: DType, values: seq<Option<int>>)

  /** Columns by name; a null is None. Only integer and Boolean columns carry their values here. */
  type Table = map<string, IntColumn>

  predicate WellTyped(c: IntColumn) {
    IsInteger(c.dtype) || c.dtype == Boolean ==>
      forall i :: 0 <= i < |c.values| && c.values[i].Some? ==> Holds(c.dtype, c.values[i].value)
  }

  predicate WellTypedTable(t: Table) { forall name :: name in t ==> WellTyped(t[name]) }

  // ---------- Polars' statistics and casts ----------

  /** The column minimum; nulls are skipped. */
  function MinOf(vs: seq<Option<int>>): Option<int> {
    if vs == [] then None
    else
      var m := MinOf(vs[..|vs| - 1]);
      var v := vs[|vs| - 1];
      if v.None? then m else if m.None? then v else Some(Min(m.value, v.value))
  }

  function MaxOf(vs: seq<Option<int>>): Option<int> {
    if vs == [] then None
    else
      var m := MaxOf(vs[..|vs| - 1]);
      var v := vs[|vs| - 1];
      if v.None? then m else if m.None? then v else Some(Max(m.value, v.value))
  }

  /** A lenient cast: a value the target cannot hold becomes null, and a Boolean is `v != 0`. */
  function CastValue(v: Option<int>, dt: DType): Option<int> {
    if v.None? then None
    else if dt == Boolean then Some(if v.value != 0 then 1 else 0)
    else if Holds(dt, v.value) then v
    else None
  }

  function CastColumn(c: IntColumn, dt: DType): IntColumn {
    IntColumn(dt, seq(|c.values|, i requires 0 <= i < |c.values| => CastValue(c.values[i], dt)))
  }

  function TypeSize(dt: DType): int {
    match dt
    case Boolean => 1
    case Int8 | UInt8 => 8
    case Int16 | UInt16 => 16
    case Int32 | UInt32 => 32
    case _ => 64
  }

  predicate IsBetterType(new_: DType, current: DType) { TypeSize(new_) < TypeSize(current) }

  // ---------- One column ----------

  /** The type the column is cast to, if any. */
  function ShrinkTarget(c: IntColumn, notBoolean: bool): Option<DType> {
    var mn, mx := CastValue(MinOf(c.values), Int64), CastValue(MaxOf(c.values), Int64);
    if !IsInteger(c.dtype) || mn.None? || mx.None? then None
    else
      var optimal := FindOptimalIntegerType(mn.value, mx.value, notBoolean);
      if optimal != c.dtype && IsBetterType(optimal, c.dtype) then Some(optimal) else None
  }

  function ShrinkColumn(c: IntColumn, notBoolean: bool): IntColumn {
    var target := ShrinkTarget(c, notBoolean);
    if target.None? then c else CastColumn(c, target.value)
  }

  lemma {:induction false} MinMaxBound(vs: seq<Option<int>>)
    ensures MinOf(vs).Some? <==> MaxOf(vs).Some?
    ensures forall i :: 0 <= i < |vs| && vs[i].Some? ==>
              MinOf(vs).Some? && MinOf(vs).value <= vs[i].value <= MaxOf(vs).value
    ensures MinOf(vs).Some? ==> MinOf(vs) in vs && MaxOf(vs) in vs
  {
    if vs == [] {
    } else {
      MinMaxBound(vs[..|vs| - 1]);
    }
  }

  /** The optimal type holds the whole range. */
  lemma OptimalHolds(mn: int, mx: int, notBoolean: bool, v: int)
    requires mn <= v <= mx && Holds(Int64, mn) && Holds(Int64, mx)
    ensures Holds(FindOptimalIntegerType(mn, mx, notBoolean), v)
    ensures CastValue(Some(v), FindOptimalIntegerType(mn, mx, notBoolean)) == Some(v)
  {
  }

  /** Shrinking keeps every value (a Boolean is read as 0/1), never grows the column, and leaves a
      well-typed column. */
  lemma ShrinkColumnKeepsValues(c: IntColumn, notBoolean: bool)
    requires WellTyped(c)
    ensures ShrinkColumn(c, notBoolean).values == c.values
    ensures TypeSize(ShrinkColumn(c, notBoolean).dtype) <= TypeSize(c.dtype)
    ensures WellTyped(ShrinkColumn(c, notBoolean))
  {
    var target := ShrinkTarget(c, notBoolean);
    if target.Some? {
      MinMaxBound(c.values);
      var mn, mx := MinOf(c.values).value, MaxOf(c.values).value;
      forall i | 0 <= i < |c.values| ensures CastValue(c.values[i], target.value) == c.values[i]
        ensures c.values[i].Some? ==> Holds(target.value, c.values[i].value)
      {
        if c.values[i].Some? {
          OptimalHolds(mn, mx, notBoolean, c.values[i].value);
        }
      }
    }
  }

  /** A type a column may be cast to: Boolean only where it is not excluded. */
  predicate Allowed(dt: DType, notBoolean: bool) {
    dt in {Int8, Int16, Int32, Int64} || (dt == Boolean && !notBoolean)
  }

  /** The values a target type may carry: those outside the missing range of the Stata type it becomes. */
  predicate Carries(dt: DType, v: int) {
    match dt
    case Boolean => v == 0 || v == 1
    case Int8 => NonMissing(SByte, v)
    case Int16 => NonMissing(SInt, v)
    case Int32 => NonMissing(SLong, v)
    case _ => Holds(Int64, v)
  }

  predicate CarriesAll(dt: DType, vs: seq<Option<int>>) {
    forall i :: 0 <= i < |vs| && vs[i].Some? ==> Carries(dt, vs[i].value)
  }

  lemma OptimalIsNarrowest(mn: int, mx: int, notBoolean: bool, dt: DType)
    requires mn <= mx && Holds(Int64, mn) && Holds(Int64, mx)
    ensures Allowed(FindOptimalIntegerType(mn, mx, notBoolean), notBoolean)
    ensures forall v :: mn <= v <= mx ==> Carries(FindOptimalIntegerType(mn, mx, notBoolean), v)
    ensures Allowed(dt, notBoolean) && Carries(dt, mn) && Carries(dt, mx) ==>
      TypeSize(FindOptimalIntegerType(mn, mx, notBoolean)) <= TypeSize(dt)
  {
  }

  lemma CarriedRange(c: IntColumn, dt: DType, notBoolean: bool)
    requires Allowed(dt, notBoolean) && CarriesAll(dt, c.values)
    ensures MinOf(c.values).Some? ==>
      && MaxOf(c.values).Some?
      && Holds(Int64, MinOf(c.values).value) && Holds(Int64, MaxOf(c.values).value)
      && Carries(dt, MinOf(c.values).value) && Carries(dt, MaxOf(c.values).value)
  {
    MinMaxBound(c.values);
    hide MinOf, MaxOf;
  }

  /** An integer column with a value becomes the narrowest allowed type that carries its values, if that is
      narrower than the type it has, and otherwise stays as it is. */
  lemma ShrinkIsNarrowest(c: IntColumn, notBoolean: bool, dt: DType)
    requires IsInteger(c.dtype) && exists i :: 0 <= i < |c.values| && c.values[i].Some?
    ensures var narrow := ShrinkColumn(c, notBoolean).dtype;
      && (narrow == c.dtype
          || (Allowed(narrow, notBoolean) && CarriesAll(narrow, c.values) && TypeSize(narrow) < TypeSize(c.dtype)))
      && (Allowed(dt, notBoolean) && CarriesAll(dt, c.values) ==> TypeSize(narrow) <= TypeSize(dt))
  {
    hide MinOf, MaxOf, Holds, FindOptimalIntegerType, Carries, Allowed, TypeSize;
    MinMaxBound(c.values);
    var mn, mx := MinOf(c.values).value, MaxOf(c.values).value;
    var at :| 0 <= at < |c.values| && c.values[at].Some?;
    assert mn <= c.values[at].value <= mx;
    if Holds(Int64, mn) && Holds(Int64, mx) {
      OptimalIsNarrowest(mn, mx, notBoolean, dt);
    }
    if Allowed(dt, notBoolean) && CarriesAll(dt, c.values) {
      CarriedRange(c, dt, notBoolean);
    }
  }

  /** Other columns, and columns of nulls, are not touched. */
  lemma OthersNotShrunk(c: IntColumn, notBoolean: bool)
    requires !IsInteger(c.dtype) || forall i :: 0 <= i < |c.values| ==> c.values[i].None?
    ensures ShrinkColumn(c, notBoolean) == c
  {
    MinMaxBound(c.values);
  }

  /** A second shrink changes nothing. */
  lemma ShrinkColumnIdempotent(c: IntColumn, notBoolean: bool)
    requires WellTyped(c)
    ensures ShrinkColumn(ShrinkColumn(c, notBoolean), notBoolean) == ShrinkColumn(c, notBoolean)
  {
    ShrinkColumnKeepsValues(c, notBoolean);
  }

  // ---------- The whole table ----------

  /** All listed integer columns shrunk, everything else untouched. */
  ghost predicate IsShrunk(before: Table, after: Table, columns: seq<string>, notBoolean: seq<string>) {
    && after.Keys == before.Keys
    && forall name :: name in before ==>
         after[name] == if name in columns then ShrinkColumn(before[name], name in notBoolean) else before[name]
  }

  /** The cast of one column, from its smallest and its largest value. */
  method CastOf(c: IntColumn, notBoolean: bool) returns (cast: Option<DType>)
    ensures cast == ShrinkTarget(c, notBoolean)
  {
    cast := None;
    if IsInteger(c.dtype) {
      var mn, mx := CastValue(MinOf(c.values), Int64), CastValue(MaxOf(c.values), Int64);
      if mn.Some? && mx.Some? {
        var optimal := FindOptimalIntegerType(mn.value, mx.value, notBoolean);
        if optimal != c.dtype && IsBetterType(optimal, c.dtype) {
          cast := Some(optimal);
        }
      }
    }
  }

  /** Shrinks the listed columns in one pass: statistics first, then all casts at once. */
  method SafeShrinkIntegers(t: Table, columns: seq<string>, notBoolean: seq<string>) returns (result: Table)
    ensures IsShrunk(t, result, columns, notBoolean)
  {
    hide ShrinkTarget;
    var casts: map<string, DType> := map[];
    for i := 0 to |columns|
      invariant forall name :: name in casts <==>
                  name in columns[..i] && name in t && ShrinkTarget(t[name], name in notBoolean).Some?
      invariant forall name :: name in casts ==> Some(casts[name]) == ShrinkTarget(t[name], name in notBoolean)
    {
      var name := columns[i];
      if name in t {
        var cast := CastOf(t[name], name in notBoolean);
        if cast.Some? {
          casts := casts[name := cast.value];
        }
      }
    }
    assert columns[..|columns|] == columns;
    result := map name | name in t :: if name in casts then CastColumn(t[name], casts[name]) else t[name];
  }

  /** Shrinking a table keeps every row's value, widens no column, and is idempotent. */
  lemma ShrinkIsLossless(t: Table, once: Table, twice: Table, columns: seq<string>, notBoolean: seq<string>)
    requires WellTypedTable(t)
    requires IsShrunk(t, once, columns, notBoolean) && IsShrunk(once, twice, columns, notBoolean)
    ensures forall name :: name in t ==>
              once[name].values == t[name].values && TypeSize(once[name].dtype) <= TypeSize(t[name].dtype)
    ensures WellTypedTable(once)
    ensures twice == once
  {
    hide ShrinkColumn, WellTyped;
    forall name | name in t
      ensures once[name].values == t[name].values && TypeSize(once[name].dtype) <= TypeSize(t[name].dtype)
      ensures WellTyped(once[name]) && twice[name] == once[name]
    {
      ShrinkColumnKeepsValues(t[name], name in notBoolean);
      ShrinkColumnIdempotent(t[name], name in notBoolean);
    }
  }
}
