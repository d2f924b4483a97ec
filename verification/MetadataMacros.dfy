/** Stata metadata staged in indexed macros, and read back from them. */
module MetadataMacros {
  import opened Wrappers
  import opened Decimal
  import opened MacroNames

  // ---------- The envelope ----------

  datatype VariableMetadata = VariableMetadata(
    varLabel: Option<string>, valueLabel: Option<string>, notes: seq<string>, format: Option<string>,
    stataType: Option<string>)

  type Definition = map<string, string>

  datatype Envelope = Envelope(
    version: nat, datasetLabel: Option<string>, datasetNotes: seq<string>,
    variables: map<string, VariableMetadata>, valueLabels: map<string, Definition>)

  function OrEmpty(s: Option<string>): string { if s.Some? then s.value else "" }

  function NonEmpty(s: string): Option<string> { if s == "" then None else Some(s) }

  // ---------- Macros ----------

  type Store = map<string, string>

  function Cut(s: string): string { if |s| <= 1023 then s else s[..1023] }

  /** What a read returns: missing macros are empty, and the buffer holds 1023 characters. */
  function Get(store: Store, key: MacroKey): string {
    if MacroName(key) in store then Cut(store[MacroName(key)]) else ""
  }

  class Macros {
    var store: Store

    method Set(key: MacroKey, value: string)
      modifies this
      ensures store == old(store)[MacroName(key) := value]
    {
      store := store[MacroName(key) := value];
    }
  }

  // ---------- What an envelope puts into the macros ----------

  /** The order in which the entries of the three kinds of maps are numbered. */
  datatype Order = Order(vars: seq<string>, labels: seq<string>, codes: seq<seq<string>>)

  ghost predicate Enumerates<T>(q: seq<string>, m: map<string, T>) {
    && (forall x :: x in q <==> x in m)
    && (forall i, j :: 0 <= i < j < |q| ==> q[i] != q[j])
  }

  ghost predicate IsOrder(env: Envelope, o: Order) {
    && Enumerates(o.vars, env.variables)
    && Enumerates(o.labels, env.valueLabels)
    && |o.codes| == |o.labels|
    && forall m :: 0 <= m < |o.labels| ==>
      o.labels[m] in env.valueLabels && Enumerates(o.codes[m], env.valueLabels[o.labels[m]])
  }

  ghost function ListOf(env: Envelope, o: Order, list: ListId): Option<seq<string>>
    requires IsOrder(env, o)
  {
    match list
    case DatasetNotes => Some(env.datasetNotes)
    case VariableNotes(i) =>
      if 1 <= i <= |o.vars| then
        assert o.vars[i - 1] in o.vars;
        Some(env.variables[o.vars[i - 1]].notes)
      else None
  }

  ghost function VariableAt(env: Envelope, o: Order, i: nat): Option<VariableMetadata>
    requires IsOrder(env, o)
  {
    if 1 <= i <= |o.vars| then
      assert o.vars[i - 1] in o.vars;
      Some(env.variables[o.vars[i - 1]])
    else None
  }

  /** The value the envelope gives a macro, for the macros it sets. */
  ghost function Expected(env: Envelope, o: Order, key: MacroKey): Option<string>
    requires IsOrder(env, o)
  {
    match key
    case Present => Some("1")
    case DatasetLabel => Some(OrEmpty(env.datasetLabel))
    case Count => Some(ToString(|o.vars|))
    case LabelCount => Some(ToString(|o.labels|))
    case ListCount(list) =>
      var q := ListOf(env, o, list);
      if q.Some? then Some(ToString(|q.value|)) else None
    case ListItem(list, k) =>
      var q := ListOf(env, o, list);
      if q.Some? && 1 <= k <= |q.value| then Some(q.value[k - 1]) else None
    case Name(i) => if 1 <= i <= |o.vars| then Some(o.vars[i - 1]) else None
    case Label(i) => var v := VariableAt(env, o, i); if v.Some? then Some(OrEmpty(v.value.varLabel)) else None
    case ValueLabel(i) => var v := VariableAt(env, o, i); if v.Some? then Some(OrEmpty(v.value.valueLabel)) else None
    case Format(i) => var v := VariableAt(env, o, i); if v.Some? then Some(OrEmpty(v.value.format)) else None
    case LabelName(m) => if 1 <= m <= |o.labels| then Some(o.labels[m - 1]) else None
    case DefnCount(m) => if 1 <= m <= |o.labels| then Some(ToString(|o.codes[m - 1]|)) else None
    case DefnCode(m, k) =>
      if 1 <= m <= |o.labels| && 1 <= k <= |o.codes[m - 1]| then Some(o.codes[m - 1][k - 1]) else None
    case DefnText(m, k) =>
      if 1 <= m <= |o.labels| && 1 <= k <= |o.codes[m - 1]| then
        assert o.codes[m - 1][k - 1] in o.codes[m - 1];
        Some(env.valueLabels[o.labels[m - 1]][o.codes[m - 1][k - 1]])
      else None
  }

  /** The macro holds what the envelope gives it. */
  ghost predicate Holds(store: Store, env: Envelope, o: Order, key: MacroKey)
  {
    IsOrder(env, o) && MacroName(key) in store && Some(store[MacroName(key)]) == Expected(env, o, key)
  }

  ghost predicate Staged(store: Store, env: Envelope, o: Order)
  {
    IsOrder(env, o) && forall key :: Expected(env, o, key).Some? ==> Holds(store, env, o, key)
  }

  /** Setting a macro to its value keeps every other macro that already holds its own. */
  lemma SetKeeps(store: Store, env: Envelope, o: Order, key: MacroKey, value: string)
    requires IsOrder(env, o) && Expected(env, o, key) == Some(value)
    ensures Holds(store[MacroName(key) := value], env, o, key)
    ensures forall other :: Holds(store, env, o, other) ==> Holds(store[MacroName(key) := value], env, o, other)
  {
    hide Expected, MacroName;
    forall other | Holds(store, env, o, other) ensures Holds(store[MacroName(key) := value], env, o, other) {
      if MacroName(other) == MacroName(key) {
        MacroNameInjective(other, key);
      }
    }
  }

  // ---------- Writing ----------

  method Enumerate<T>(m: map<string, T>) returns (q: seq<string>)
    ensures Enumerates(q, m)
  {
    q := [];
    var todo := m.Keys;
    while todo != {}
      invariant todo <= m.Keys
      invariant forall x :: x in q <==> x in m && x !in todo
      invariant forall i, j :: 0 <= i < j < |q| ==> q[i] != q[j]
      decreases todo
    {
      var x :| x in todo;
      todo := todo - {x};
      q := q + [x];
    }
  }

  /** The envelope sets the macro of this name. */
  ghost predicate IsEnvelopeMacro(env: Envelope, o: Order, name: string)
  {
    IsOrder(env, o) && exists key :: Expected(env, o, key).Some? && MacroName(key) == name
  }

  predicate SameMacro(before: Store, after: Store, name: string) {
    (name in before <==> name in after) && (name in before ==> before[name] == after[name])
  }

  /** Everything that held still holds, and no macro that is not the envelope's has changed. */
  ghost predicate KeepsHeld(before: Store, after: Store, env: Envelope, o: Order)
  {
    && IsOrder(env, o)
    && (forall key :: Holds(before, env, o, key) ==> Holds(after, env, o, key))
    && forall name :: !IsEnvelopeMacro(env, o, name) ==> SameMacro(before, after, name)
  }

  lemma KeepsTrans(a: Store, b: Store, c: Store, env: Envelope, o: Order)
    requires IsOrder(env, o) && KeepsHeld(a, b, env, o) && KeepsHeld(b, c, env, o)
    ensures KeepsHeld(a, c, env, o)
  {
    hide Holds, IsOrder;
  }

  lemma HeldStays(before: Store, after: Store, env: Envelope, o: Order, key: MacroKey)
    requires IsOrder(env, o) && KeepsHeld(before, after, env, o) && Holds(before, env, o, key)
    ensures Holds(after, env, o, key)
  {
    hide Holds, IsOrder;
  }

  lemma KeepsSelf(store: Store, env: Envelope, o: Order)
    requires IsOrder(env, o)
    ensures KeepsHeld(store, store, env, o)
  {
    hide Holds, IsOrder;
  }

  method SetExpected(macros: Macros, key: MacroKey, value: string, ghost env: Envelope, ghost o: Order)
    requires IsOrder(env, o) && Expected(env, o, key) == Some(value)
    modifies macros
    ensures Holds(macros.store, env, o, key) && KeepsHeld(old(macros.store), macros.store, env, o)
  {
    SetKeeps(macros.store, env, o, key, value);
    assert IsEnvelopeMacro(env, o, MacroName(key));
    macros.Set(key, value);
  }

  method WriteIndexedList(macros: Macros, list: ListId, values: seq<string>, ghost env: Envelope, ghost o: Order)
    requires IsOrder(env, o) && ListOf(env, o, list) == Some(values)
    modifies macros
    ensures KeepsHeld(old(macros.store), macros.store, env, o)
    ensures Holds(macros.store, env, o, ListCount(list))
    ensures forall k :: 1 <= k <= |values| ==> Holds(macros.store, env, o, ListItem(list, k))
  {
    SetExpected(macros, ListCount(list), ToString(|values|), env, o);
    hide Holds;
    for i := 0 to |values|
      invariant KeepsHeld(old(macros.store), macros.store, env, o)
      invariant Holds(macros.store, env, o, ListCount(list))
      invariant forall k :: 1 <= k <= i ==> Holds(macros.store, env, o, ListItem(list, k))
    {
      SetExpected(macros, ListItem(list, i + 1), values[i], env, o);
    }
  }

  /** Every macro of variable number i. */
  ghost predicate VariableHeld(store: Store, env: Envelope, o: Order, i: nat)
  {
    && IsOrder(env, o)
    && Holds(store, env, o, Name(i)) && Holds(store, env, o, Label(i))
    && Holds(store, env, o, ValueLabel(i)) && Holds(store, env, o, Format(i))
    && Holds(store, env, o, ListCount(VariableNotes(i)))
    && forall k :: Expected(env, o, ListItem(VariableNotes(i), k)).Some? ==>
      Holds(store, env, o, ListItem(VariableNotes(i), k))
  }

  ghost predicate EntryHeld(store: Store, env: Envelope, o: Order, m: nat, k: nat)
  {
    IsOrder(env, o) && Holds(store, env, o, DefnCode(m, k)) && Holds(store, env, o, DefnText(m, k))
  }

  ghost predicate LabelHeld(store: Store, env: Envelope, o: Order, m: nat)
  {
    && IsOrder(env, o)
    && Holds(store, env, o, LabelName(m)) && Holds(store, env, o, DefnCount(m))
    && (forall k: nat :: Expected(env, o, DefnCode(m, k)).Some? || Expected(env, o, DefnText(m, k)).Some? ==>
          EntryHeld(store, env, o, m, k))
  }

  lemma VariableExpected(env: Envelope, o: Order, i: nat, v: VariableMetadata)
    requires IsOrder(env, o) && VariableAt(env, o, i) == Some(v)
    ensures Expected(env, o, Name(i)) == Some(o.vars[i - 1])
    ensures Expected(env, o, Label(i)) == Some(OrEmpty(v.varLabel))
    ensures Expected(env, o, ValueLabel(i)) == Some(OrEmpty(v.valueLabel))
    ensures Expected(env, o, Format(i)) == Some(OrEmpty(v.format))
    ensures ListOf(env, o, VariableNotes(i)) == Some(v.notes)
    ensures forall k: nat :: Expected(env, o, ListItem(VariableNotes(i), k)).Some? ==> 1 <= k <= |v.notes|
  {
  }

  method PushVariable(macros: Macros, i: nat, name: string, v: VariableMetadata, ghost env: Envelope, ghost o: Order)
    requires IsOrder(env, o) && 1 <= i <= |o.vars| && o.vars[i - 1] == name && VariableAt(env, o, i) == Some(v)
    modifies macros
    ensures KeepsHeld(old(macros.store), macros.store, env, o)
    ensures VariableHeld(macros.store, env, o, i)
  {
    VariableExpected(env, o, i, v);
    hide Holds, Expected, IsOrder;
    SetExpected(macros, Name(i), name, env, o);
    SetExpected(macros, Label(i), OrEmpty(v.varLabel), env, o);
    SetExpected(macros, ValueLabel(i), OrEmpty(v.valueLabel), env, o);
    SetExpected(macros, Format(i), OrEmpty(v.format), env, o);
    WriteIndexedList(macros, VariableNotes(i), v.notes, env, o);
  }

  method PushEntry(macros: Macros, m: nat, k: nat, code: string, text: string, ghost env: Envelope, ghost o: Order)
    requires IsOrder(env, o)
    requires Expected(env, o, DefnCode(m, k)) == Some(code) && Expected(env, o, DefnText(m, k)) == Some(text)
    modifies macros
    ensures KeepsHeld(old(macros.store), macros.store, env, o)
    ensures EntryHeld(macros.store, env, o, m, k)
  {
    hide Expected, IsOrder, Holds;
    SetExpected(macros, DefnCode(m, k), code, env, o);
    SetExpected(macros, DefnText(m, k), text, env, o);
  }

  lemma LabelEntries(env: Envelope, o: Order, m: nat)
    requires IsOrder(env, o) && 1 <= m <= |o.labels|
    ensures Expected(env, o, LabelName(m)) == Some(o.labels[m - 1])
    ensures Expected(env, o, DefnCount(m)) == Some(ToString(|o.codes[m - 1]|))
    ensures forall k: nat :: Expected(env, o, DefnCode(m, k)).Some? || Expected(env, o, DefnText(m, k)).Some? ==>
      1 <= k <= |o.codes[m - 1]|
  {
  }

  lemma EntryExpected(env: Envelope, o: Order, m: nat, k: nat)
    requires IsOrder(env, o) && 1 <= m <= |o.labels| && 1 <= k <= |o.codes[m - 1]|
    ensures var name, code := o.labels[m - 1], o.codes[m - 1][k - 1];
      && name in env.valueLabels && code in env.valueLabels[name]
      && Expected(env, o, DefnCode(m, k)) == Some(code)
      && Expected(env, o, DefnText(m, k)) == Some(env.valueLabels[name][code])
  {
    assert o.codes[m - 1][k - 1] in o.codes[m - 1];
  }

  lemma EntryStays(before: Store, after: Store, env: Envelope, o: Order, m: nat, k: nat)
    requires IsOrder(env, o) && KeepsHeld(before, after, env, o) && EntryHeld(before, env, o, m, k)
    ensures EntryHeld(after, env, o, m, k)
  {
    hide Holds, IsOrder;
  }

  method PushEntries(macros: Macros, m: nat, defn: Definition, codes: seq<string>, ghost env: Envelope, ghost o: Order)
    requires IsOrder(env, o) && 1 <= m <= |o.labels| && o.codes[m - 1] == codes
    requires o.labels[m - 1] in env.valueLabels && env.valueLabels[o.labels[m - 1]] == defn
    modifies macros
    ensures KeepsHeld(old(macros.store), macros.store, env, o)
    ensures forall k: nat :: 1 <= k <= |codes| ==> EntryHeld(macros.store, env, o, m, k)
  {
    hide Holds, Expected, IsOrder, KeepsHeld, EntryHeld;
    KeepsSelf(macros.store, env, o);
    for i := 0 to |codes|
      invariant KeepsHeld(old(macros.store), macros.store, env, o)
      invariant forall k: nat :: 1 <= k <= i ==> EntryHeld(macros.store, env, o, m, k)
    {
      ghost var before := macros.store;
      EntryExpected(env, o, m, i + 1);
      PushEntry(macros, m, i + 1, codes[i], defn[codes[i]], env, o);
      KeepsTrans(old(macros.store), before, macros.store, env, o);
      forall k: nat | 1 <= k <= i ensures EntryHeld(macros.store, env, o, m, k) {
        EntryStays(before, macros.store, env, o, m, k);
      }
    }
  }

  method PushLabel(macros: Macros, m: nat, name: string, defn: Definition, codes: seq<string>, ghost env: Envelope,
                   ghost o: Order)
    requires IsOrder(env, o) && 1 <= m <= |o.labels| && o.labels[m - 1] == name && o.codes[m - 1] == codes
    requires name in env.valueLabels && env.valueLabels[name] == defn
    modifies macros
    ensures KeepsHeld(old(macros.store), macros.store, env, o)
    ensures LabelHeld(macros.store, env, o, m)
  {
    LabelEntries(env, o, m);
    hide Holds, Expected, IsOrder;
    SetExpected(macros, LabelName(m), name, env, o);
    SetExpected(macros, DefnCount(m), ToString(|codes|), env, o);
    ghost var before := macros.store;
    PushEntries(macros, m, defn, codes, env, o);
    HeldStays(before, macros.store, env, o, LabelName(m));
    HeldStays(before, macros.store, env, o, DefnCount(m));
  }

  /** The macros of the dataset itself, and the number of variables. */
  ghost predicate HeaderHeld(store: Store, env: Envelope, o: Order)
  {
    && IsOrder(env, o)
    && Holds(store, env, o, Present) && Holds(store, env, o, DatasetLabel) && Holds(store, env, o, Count)
    && Holds(store, env, o, ListCount(DatasetNotes))
    && forall k: nat :: 1 <= k <= |env.datasetNotes| ==> Holds(store, env, o, ListItem(DatasetNotes, k))
  }

  lemma HeaderKept(before: Store, after: Store, env: Envelope, o: Order)
    requires IsOrder(env, o) && KeepsHeld(before, after, env, o)
    ensures HeaderHeld(before, env, o) ==> HeaderHeld(after, env, o)
  {
    hide Holds, Expected, IsOrder;
  }

  lemma {:induction false} DistinctSize(q: seq<string>)
    requires forall i, j :: 0 <= i < j < |q| ==> q[i] != q[j]
    ensures |set x | x in q| == |q|
  {
    if q == [] {
    } else {
      var init, last := q[..|q| - 1], q[|q| - 1];
      DistinctSize(init);
      assert last !in init;
      assert (set x | x in q) == (set x | x in init) + {last};
    }
  }

  lemma {:induction false} EnumerationSize<T>(q: seq<string>, m: map<string, T>)
    requires Enumerates(q, m)
    ensures |q| == |m|
  {
    DistinctSize(q);
    assert m.Keys == set x | x in q;
    assert |m| == |m.Keys|;
  }

  lemma OrderSizes(env: Envelope, o: Order)
    requires IsOrder(env, o)
    ensures |o.vars| == |env.variables| && |o.labels| == |env.valueLabels| == |o.codes|
  {
    EnumerationSize(o.vars, env.variables);
    EnumerationSize(o.labels, env.valueLabels);
  }

  lemma HeaderExpected(env: Envelope, o: Order)
    requires IsOrder(env, o)
    ensures Expected(env, o, Present) == Some("1")
    ensures Expected(env, o, DatasetLabel) == Some(OrEmpty(env.datasetLabel))
    ensures Expected(env, o, Count) == Some(ToString(|o.vars|))
    ensures Expected(env, o, LabelCount) == Some(ToString(|o.labels|))
    ensures |o.vars| == |env.variables| && |o.labels| == |env.valueLabels|
    ensures ListOf(env, o, DatasetNotes) == Some(env.datasetNotes)
  {
    OrderSizes(env, o);
  }

  method PushHeader(macros: Macros, env: Envelope, ghost o: Order)
    requires IsOrder(env, o)
    modifies macros
    ensures HeaderHeld(macros.store, env, o) && KeepsHeld(old(macros.store), macros.store, env, o)
  {
    HeaderExpected(env, o);
    hide Holds, Expected, IsOrder;
    SetExpected(macros, Present, "1", env, o);
    SetExpected(macros, DatasetLabel, OrEmpty(env.datasetLabel), env, o);
    WriteIndexedList(macros, DatasetNotes, env.datasetNotes, env, o);
    SetExpected(macros, Count, ToString(|env.variables|), env, o);
  }

  lemma VariableMember(env: Envelope, o: Order, i: nat)
    requires IsOrder(env, o) && i < |o.vars|
    ensures o.vars[i] in env.variables && VariableAt(env, o, i + 1) == Some(env.variables[o.vars[i]])
  {
  }

  lemma HeldKept(before: Store, after: Store, env: Envelope, o: Order, j: nat)
    requires IsOrder(env, o) && KeepsHeld(before, after, env, o)
    ensures VariableHeld(before, env, o, j) ==> VariableHeld(after, env, o, j)
    ensures LabelHeld(before, env, o, j) ==> LabelHeld(after, env, o, j)
  {
    hide Holds, Expected;
  }

  method PushVariables(macros: Macros, env: Envelope, vars: seq<string>, ghost o: Order)
    requires IsOrder(env, o) && o.vars == vars
    modifies macros
    ensures KeepsHeld(old(macros.store), macros.store, env, o)
    ensures forall j: nat :: 1 <= j <= |vars| ==> VariableHeld(macros.store, env, o, j)
  {
    hide Holds, Expected, IsOrder, VariableHeld, KeepsHeld, VariableAt;
    KeepsSelf(macros.store, env, o);
    for i := 0 to |vars|
      invariant KeepsHeld(old(macros.store), macros.store, env, o)
      invariant forall j: nat :: 1 <= j <= i ==> VariableHeld(macros.store, env, o, j)
    {
      ghost var before := macros.store;
      VariableMember(env, o, i);
      PushVariable(macros, i + 1, vars[i], env.variables[vars[i]], env, o);
      KeepsTrans(old(macros.store), before, macros.store, env, o);
      forall j: nat | 1 <= j <= i ensures VariableHeld(macros.store, env, o, j) {
        HeldKept(before, macros.store, env, o, j);
      }
    }
  }

  method PushLabelAt(macros: Macros, env: Envelope, m: nat, labels: seq<string>, codes: seq<seq<string>>,
                     ghost o: Order)
    requires IsOrder(env, o) && o.labels == labels && o.codes == codes && m < |labels|
    modifies macros
    ensures KeepsHeld(old(macros.store), macros.store, env, o)
    ensures LabelHeld(macros.store, env, o, m + 1)
  {
    OrderSizes(env, o);
    assert o.labels[m] in env.valueLabels;
    hide Holds, Expected, IsOrder, LabelHeld, KeepsHeld;
    PushLabel(macros, m + 1, labels[m], env.valueLabels[labels[m]], codes[m], env, o);
  }

  method PushLabelTexts(macros: Macros, env: Envelope, labels: seq<string>, codes: seq<seq<string>>, ghost o: Order)
    requires IsOrder(env, o) && o.labels == labels && o.codes == codes
    modifies macros
    ensures KeepsHeld(old(macros.store), macros.store, env, o)
    ensures forall j: nat :: 1 <= j <= |labels| ==> LabelHeld(macros.store, env, o, j)
  {
    hide Holds, Expected, IsOrder, LabelHeld, KeepsHeld;
    KeepsSelf(macros.store, env, o);
    for m := 0 to |labels|
      invariant KeepsHeld(old(macros.store), macros.store, env, o)
      invariant forall j: nat :: 1 <= j <= m ==> LabelHeld(macros.store, env, o, j)
    {
      ghost var before := macros.store;
      PushLabelAt(macros, env, m, labels, codes, o);
      KeepsTrans(old(macros.store), before, macros.store, env, o);
      forall j: nat | 1 <= j <= m ensures LabelHeld(macros.store, env, o, j) {
        HeldKept(before, macros.store, env, o, j);
      }
    }
  }

  method PushLabels(macros: Macros, env: Envelope, labels: seq<string>, codes: seq<seq<string>>, ghost o: Order)
    requires IsOrder(env, o) && o.labels == labels && o.codes == codes
    modifies macros
    ensures KeepsHeld(old(macros.store), macros.store, env, o)
    ensures Holds(macros.store, env, o, LabelCount)
    ensures forall j: nat :: 1 <= j <= |labels| ==> LabelHeld(macros.store, env, o, j)
  {
    hide Holds, Expected, IsOrder, LabelHeld, KeepsHeld;
    HeaderExpected(env, o);
    SetExpected(macros, LabelCount, ToString(|env.valueLabels|), env, o);
    ghost var counted := macros.store;
    PushLabelTexts(macros, env, labels, codes, o);
    KeepsTrans(old(macros.store), counted, macros.store, env, o);
    HeldStays(counted, macros.store, env, o, LabelCount);
  }

  /** The macros that were set are all the macros of the envelope. */
  lemma KeyHeld(store: Store, env: Envelope, o: Order, key: MacroKey)
    requires IsOrder(env, o) && Expected(env, o, key).Some?
    requires HeaderHeld(store, env, o) && Holds(store, env, o, LabelCount)
    requires forall i: nat :: 1 <= i <= |o.vars| ==> VariableHeld(store, env, o, i)
    requires forall m: nat :: 1 <= m <= |o.labels| ==> LabelHeld(store, env, o, m)
    ensures Holds(store, env, o, key)
  {
    hide Holds;
    if key.Name? || key.Label? || key.ValueLabel? || key.Format? {
      assert VariableHeld(store, env, o, key.i);
    }
    if (key.ListCount? || key.ListItem?) && key.list.VariableNotes? {
      assert VariableHeld(store, env, o, key.list.i);
    }
    if key.LabelName? || key.DefnCount? || key.DefnCode? || key.DefnText? {
      assert LabelHeld(store, env, o, key.m);
    }
  }

  method PushAll(macros: Macros, env: Envelope, vars: seq<string>, labels: seq<string>, codes: seq<seq<string>>,
                 ghost o: Order)
    requires o == Order(vars, labels, codes) && IsOrder(env, o)
    modifies macros
    ensures Staged(macros.store, env, o) && KeepsHeld(old(macros.store), macros.store, env, o)
  {
    hide Expected, IsOrder, HeaderHeld, VariableHeld, LabelHeld, KeepsHeld, Holds;
    PushHeader(macros, env, o);
    ghost var s1 := macros.store;
    PushVariables(macros, env, vars, o);
    ghost var s2 := macros.store;
    PushLabels(macros, env, labels, codes, o);
    ghost var s3 := macros.store;
    KeepsTrans(old(macros.store), s1, s2, env, o);
    KeepsTrans(old(macros.store), s2, s3, env, o);
    HeaderKept(s1, s2, env, o);
    HeaderKept(s2, s3, env, o);
    forall j: nat | 1 <= j <= |vars| ensures VariableHeld(s3, env, o, j) {
      HeldKept(s2, s3, env, o, j);
    }
    forall key | Expected(env, o, key).Some? ensures Holds(s3, env, o, key) {
      KeyHeld(s3, env, o, key);
    }
  }

  /** Stages an envelope; macros of other names keep whatever they held. */
  method PushMetadataToMacros(macros: Macros, env: Envelope) returns (ghost o: Order)
    modifies macros
    ensures IsOrder(env, o) && Staged(macros.store, env, o)
    ensures forall name :: !IsEnvelopeMacro(env, o, name) ==> SameMacro(old(macros.store), macros.store, name)
  {
    var vars := Enumerate(env.variables);
    var labels := Enumerate(env.valueLabels);
    var codes: seq<seq<string>> := [];
    for m := 0 to |labels|
      invariant |codes| == m && macros.store == old(macros.store)
      invariant forall j :: 0 <= j < m ==>
        labels[j] in env.valueLabels && Enumerates(codes[j], env.valueLabels[labels[j]])
    {
      assert labels[m] in labels;
      var c := Enumerate(env.valueLabels[labels[m]]);
      codes := codes + [c];
    }
    o := Order(vars, labels, codes);
    PushAll(macros, env, vars, labels, codes, o);
  }
}
