/** Reading staged metadata back, and the round trip. */
module MetadataRead {
  import opened Wrappers
  import opened Decimal
  import opened MacroNames
  import opened MetadataMacros

  // ---------- Reading ----------

  /** `get_macro(..).parse().unwrap_or(0)`. */
  function CountIn(store: Store, key: MacroKey): nat {
    var n := ParseUsize(Get(store, key));
    if n.Some? then n.value else 0
  }

  function ReadList(store: Store, list: ListId, n: nat): seq<string> {
    if n == 0 then [] else ReadList(store, list, n - 1) + [Get(store, ListItem(list, n))]
  }

  function ReadDefinition(store: Store, m: nat, n: nat): Definition {
    if n == 0 then map[]
    else
      var before := ReadDefinition(store, m, n - 1);
      var code := Get(store, DefnCode(m, n));
      if code == "" then before else before[code := Get(store, DefnText(m, n))]
  }

  /** Label name to label number; the last one wins. */
  function LabelIndex(store: Store, n: nat): map<string, nat> {
    if n == 0 then map[] else LabelIndex(store, n - 1)[Get(store, LabelName(n)) := n]
  }

  datatype Gathered = Gathered(variables: map<string, VariableMetadata>, valueLabels: map<string, Definition>)

  function WithLabel(store: Store, index: map<string, nat>, labels: map<string, Definition>, name: string): map<string,
                     Definition> {
    if name == "" || name in labels || name !in index then labels
    else
      var defn := ReadDefinition(store, index[name], CountIn(store, DefnCount(index[name])));
      if defn == map[] then labels else labels[name := defn]
  }

  /** The metadata of variable number i as staged. */
  function StagedVariable(store: Store, types: map<string, string>, name: string, i: nat): VariableMetadata {
    VariableMetadata(
      NonEmpty(Get(store, Label(i))), NonEmpty(Get(store, ValueLabel(i))),
      ReadList(store, VariableNotes(i), CountIn(store, ListCount(VariableNotes(i)))),
      NonEmpty(Get(store, Format(i))),
      if name in types then Some(types[name]) else None)
  }

  predicate IsBlank(v: VariableMetadata) {
    v.varLabel.None? && v.valueLabel.None? && v.notes == [] && v.format.None? && v.stataType.None?
  }

  function ReadVariable(store: Store, renames: map<string, string>, types: map<string, string>, index: map<string, nat>,
                        g: Gathered, i: nat): Gathered {
    var staged := Get(store, Name(i));
    if staged == "" then g
    else
      var name := if staged in renames then renames[staged] else staged;
      var v := StagedVariable(store, types, name, i);
      if IsBlank(v) then g
      else Gathered(g.variables[name := v], WithLabel(store, index, g.valueLabels, OrEmpty(v.valueLabel)))
  }

  function ReadVariables(store: Store, renames: map<string, string>, types: map<string, string>,
                         index: map<string, nat>, n: nat): Gathered {
    if n == 0 then Gathered(map[], map[])
    else ReadVariable(store, renames, types, index, ReadVariables(store, renames, types, index, n - 1), n)
  }

  function ReadEnvelope(store: Store, renames: map<string, string>, types: map<string, string>): Option<Envelope> {
    var n := CountIn(store, Count);
    if n == 0 then None
    else
      var dsLabel := NonEmpty(Get(store, DatasetLabel));
      var notes := ReadList(store, DatasetNotes, CountIn(store, ListCount(DatasetNotes)));
      var index := LabelIndex(store, CountIn(store, LabelCount));
      var g := ReadVariables(store, renames, types, index, n);
      if g.variables == map[] && dsLabel.None? && notes == [] then None
      else Some(Envelope(1, dsLabel, notes, g.variables, g.valueLabels))
  }

  method ReadIndexedList(macros: Macros, list: ListId) returns (values: seq<string>)
    ensures values == ReadList(macros.store, list, CountIn(macros.store, ListCount(list)))
  {
    hide Get;
    var count := CountIn(macros.store, ListCount(list));
    values := [];
    for i := 0 to count
      invariant values == ReadList(macros.store, list, i)
    {
      values := values + [Get(macros.store, ListItem(list, i + 1))];
    }
  }

  method ReadValueLabelDefinition(macros: Macros, m: nat) returns (defn: Definition)
    ensures defn == ReadDefinition(macros.store, m, CountIn(macros.store, DefnCount(m)))
  {
    hide Get;
    var count := CountIn(macros.store, DefnCount(m));
    defn := map[];
    for i := 0 to count
      invariant defn == ReadDefinition(macros.store, m, i)
    {
      var code := Get(macros.store, DefnCode(m, i + 1));
      var text := Get(macros.store, DefnText(m, i + 1));
      if code != "" {
        defn := defn[code := text];
      }
    }
  }

  method GatherLabel(macros: Macros, index: map<string, nat>, valueLabels: map<string, Definition>, name: string)
      returns (valueLabels': map<string, Definition>)
    ensures valueLabels' == WithLabel(macros.store, index, valueLabels, name)
  {
    hide ReadDefinition, CountIn;
    valueLabels' := valueLabels;
    if name != "" && name !in valueLabels && name in index {
      var defn := ReadValueLabelDefinition(macros, index[name]);
      if defn != map[] {
        valueLabels' := valueLabels[name := defn];
      }
    }
  }

  method GatherVariable(macros: Macros, renames: map<string, string>, types: map<string, string>,
                        index: map<string, nat>,
                        variables: map<string, VariableMetadata>, valueLabels: map<string, Definition>, i: nat)
      returns (variables': map<string, VariableMetadata>, valueLabels': map<string, Definition>)
    ensures Gathered(variables', valueLabels')
         == ReadVariable(macros.store, renames, types, index, Gathered(variables, valueLabels), i)
  {
    hide Get, ReadDefinition, ReadList, CountIn, MacroName, WithLabel;
    variables', valueLabels' := variables, valueLabels;
    var staged := Get(macros.store, Name(i));
    if staged == "" {
      return;
    }
    var name := if staged in renames then renames[staged] else staged;
    var varLabel := Get(macros.store, Label(i));
    var valueLabel := Get(macros.store, ValueLabel(i));
    var notes := ReadIndexedList(macros, VariableNotes(i));
    var format := Get(macros.store, Format(i));
    var stataType := if name in types then Some(types[name]) else None;
    if varLabel == "" && valueLabel == "" && notes == [] && format == "" && stataType.None? {
      return;
    }
    valueLabels' := GatherLabel(macros, index, valueLabels, valueLabel);
    variables' := variables[name :=
      VariableMetadata(NonEmpty(varLabel), NonEmpty(valueLabel), notes, NonEmpty(format), stataType)];
  }

  /** Gathers the staged metadata; None when nothing is staged. */
  method MetadataFromMacros(macros: Macros, renames: map<string, string>,
                            types: map<string, string>) returns (r: Option<Envelope>)
    ensures r == ReadEnvelope(macros.store, renames, types)
  {
    hide Get, ReadDefinition, ReadList;
    var n := CountIn(macros.store, Count);
    if n == 0 {
      return None;
    }
    var datasetLabel := NonEmpty(Get(macros.store, DatasetLabel));
    var datasetNotes := ReadIndexedList(macros, DatasetNotes);
    var nLabels := CountIn(macros.store, LabelCount);
    var index: map<string, nat> := map[];
    for m := 0 to nLabels
      invariant index == LabelIndex(macros.store, m)
    {
      index := index[Get(macros.store, LabelName(m + 1)) := m + 1];
    }
    var variables: map<string, VariableMetadata> := map[];
    var valueLabels: map<string, Definition> := map[];
    for i := 0 to n
      invariant Gathered(variables, valueLabels) == ReadVariables(macros.store, renames, types, index, i)
    {
      variables, valueLabels := GatherVariable(macros, renames, types, index, variables, valueLabels, i + 1);
    }
    if variables == map[] && datasetLabel.None? && datasetNotes == [] {
      return None;
    }
    r := Some(Envelope(1, datasetLabel, datasetNotes, variables, valueLabels));
  }

  // ---------- What a read takes up ----------

  lemma {:induction false} ReadListLength(store: Store, list: ListId, n: nat)
    ensures |ReadList(store, list, n)| == n
  {
    if n == 0 {
    } else {
      ReadListLength(store, list, n - 1);
    }
  }

  /** A variable is taken up exactly when it is named and anything at all is known of it. */
  lemma VariableTakenUp(store: Store, renames: map<string, string>, types: map<string, string>,
                        index: map<string, nat>, g: Gathered, i: nat)
    ensures var staged := Get(store, Name(i));
      var name := if staged in renames then renames[staged] else staged;
      name !in g.variables ==>
        (name in ReadVariable(store, renames, types, index, g, i).variables <==>
          staged != ""
          && (|| Get(store, Label(i)) != "" || Get(store, ValueLabel(i)) != "" || Get(store, Format(i)) != ""
              || CountIn(store, ListCount(VariableNotes(i))) > 0 || name in types))
  {
    hide Get, CountIn, WithLabel;
    ReadListLength(store, VariableNotes(i), CountIn(store, ListCount(VariableNotes(i))));
  }

  /** An envelope is read exactly when variables are announced and a variable, a data set label or a data set note
      is found. */
  lemma EnvelopeTakenUp(store: Store, renames: map<string, string>, types: map<string, string>)
    ensures var n := CountIn(store, Count);
      var g := ReadVariables(store, renames, types, LabelIndex(store, CountIn(store, LabelCount)), n);
      ReadEnvelope(store, renames, types).Some? <==>
        n > 0 && (|| g.variables != map[] || Get(store, DatasetLabel) != ""
                  || CountIn(store, ListCount(DatasetNotes)) > 0)
  {
    hide Get, CountIn, ReadVariables, LabelIndex;
    ReadListLength(store, DatasetNotes, CountIn(store, ListCount(DatasetNotes)));
  }

  /** Of several labels of one name the last one counts. */
  lemma {:induction false} LabelIndexIsLast(store: Store, n: nat, name: string)
    ensures name in LabelIndex(store, n) <==> exists m: nat :: 1 <= m <= n && Get(store, LabelName(m)) == name
    ensures name in LabelIndex(store, n) ==>
      var m := LabelIndex(store, n)[name];
      && 1 <= m <= n && Get(store, LabelName(m)) == name
      && forall k: nat :: m < k <= n ==> Get(store, LabelName(k)) != name
  {
    hide Get;
    if n == 0 {
    } else {
      LabelIndexIsLast(store, n - 1, name);
    }
  }

  // ---------- Which envelopes survive ----------

  predicate Short(s: string) { |s| <= 1023 }

  predicate ShortList(q: seq<string>) { forall i :: 0 <= i < |q| ==> Short(q[i]) }

  /** An optional text that is not the empty text. */
  predicate Proper(s: Option<string>) { s.Some? ==> s.value != "" && Short(s.value) }

  predicate FaithfulVariable(name: string, v: VariableMetadata) {
    && name != "" && Short(name)
    && Proper(v.varLabel) && Proper(v.valueLabel) && Proper(v.format) && ShortList(v.notes)
    && v.stataType.None? && !IsBlank(v)
  }

  predicate AllFaithful(variables: map<string, VariableMetadata>) {
    forall x :: x in variables ==> FaithfulVariable(x, variables[x])
  }

  predicate FaithfulDefinition(d: Definition) {
    && d != map[]
    && forall code :: code in d ==> code != "" && Short(code) && Short(d[code])
  }

  /** Some variable carries the value label. */
  predicate Referenced(env: Envelope, name: string) {
    exists x :: x in env.variables && env.variables[x].valueLabel == Some(name)
  }

  /** The envelopes the macros can carry. */
  predicate Faithful(env: Envelope) {
    && env.version == 1
    && Proper(env.datasetLabel) && ShortList(env.datasetNotes)
    && env.variables != map[]
    && AllFaithful(env.variables)
    && (forall l :: l in env.valueLabels ==> Referenced(env, l) && FaithfulDefinition(env.valueLabels[l]))
  }

  /** Every list has fewer than 2^64 entries, as any list in memory. */
  predicate Sized(env: Envelope) {
    && |env.variables| < TWO64 && |env.valueLabels| < TWO64 && |env.datasetNotes| < TWO64
    && (forall name :: name in env.variables ==> |env.variables[name].notes| < TWO64)
    && (forall l :: l in env.valueLabels ==> |env.valueLabels[l]| < TWO64)
  }

  // ---------- Reading what was staged ----------

  /** The orders list every variable and every value label once. */
  lemma OrderFacts(env: Envelope, o: Order)
    requires IsOrder(env, o)
    ensures forall x :: x in env.variables <==> x in o.vars
    ensures forall x :: x in env.valueLabels <==> x in o.labels
    ensures forall i, j :: 0 <= i < j < |o.vars| ==> o.vars[i] != o.vars[j]
    ensures forall i, j :: 0 <= i < j < |o.labels| ==> o.labels[i] != o.labels[j]
    ensures |o.codes| == |o.labels|
  {
  }

  lemma GetHeld(store: Store, env: Envelope, o: Order, key: MacroKey, value: string)
    requires IsOrder(env, o) && Staged(store, env, o) && Expected(env, o, key) == Some(value)
    ensures Get(store, key) == Cut(value)
  {
    assert Holds(store, env, o, key);
    hide Expected, IsOrder, MacroName;
  }

  lemma CountHeld(store: Store, env: Envelope, o: Order, key: MacroKey, n: u64)
    requires IsOrder(env, o) && Staged(store, env, o) && Expected(env, o, key) == Some(ToString(n))
    ensures CountIn(store, key) == n
  {
    hide Expected, IsOrder, Staged;
    GetHeld(store, env, o, key, ToString(n));
    WordLength(n);
    ParseOfToString(n);
  }

  lemma {:induction false} ListHeld(store: Store, env: Envelope, o: Order, list: ListId, q: seq<string>, n: nat)
    requires IsOrder(env, o) && Staged(store, env, o) && ListOf(env, o, list) == Some(q) && n <= |q|
    ensures |ReadList(store, list, n)| == n
    ensures forall k :: 0 <= k < n ==> ReadList(store, list, n)[k] == Cut(q[k])
  {
    if n == 0 {
    } else {
      ListHeld(store, env, o, list, q, n - 1);
      GetHeld(store, env, o, ListItem(list, n), q[n - 1]);
      hide Expected, IsOrder, Staged, ListOf, Get;
    }
  }

  lemma ListRead(store: Store, env: Envelope, o: Order, list: ListId, q: seq<string>)
    requires IsOrder(env, o) && Staged(store, env, o) && ListOf(env, o, list) == Some(q) && |q| < TWO64
    ensures var r := ReadList(store, list, CountIn(store, ListCount(list)));
      && |r| == |q| && (forall k :: 0 <= k < |q| ==> r[k] == Cut(q[k])) && (ShortList(q) ==> r == q)
  {
    CountHeld(store, env, o, ListCount(list), |q|);
    ListHeld(store, env, o, list, q, |q|);
  }

  // ---------- The parts read so far ----------

  /** The entries of m whose keys occur in q. */
  function Part<T>(m: map<string, T>, q: seq<string>): map<string, T> {
    map x | x in m && x in q :: m[x]
  }

  lemma PartGrows<T>(m: map<string, T>, q: seq<string>, x: string)
    ensures Part(m, q + [x]) == if x in m then Part(m, q)[x := m[x]] else Part(m, q)
  {
  }

  predicate Covers<T>(q: seq<string>, m: map<string, T>) { forall x :: x in m ==> x in q }

  lemma PartAll<T>(m: map<string, T>, q: seq<string>)
    requires Covers(q, m)
    ensures Part(m, q) == m
  {
  }

  lemma PrefixGrows(q: seq<string>, i: nat)
    requires i < |q|
    ensures q[..i + 1] == q[..i] + [q[i]]
  {
  }

  lemma FaithfulEntry(d: Definition, code: string)
    requires FaithfulDefinition(d) && code in d
    ensures code != "" && Short(code) && Short(d[code])
  {
  }

  /** Codes and texts come back as the definition's entries. */
  lemma {:induction false} DefinitionHeld(store: Store, env: Envelope, o: Order, m: nat, n: nat)
    requires IsOrder(env, o) && Staged(store, env, o) && 1 <= m <= |o.labels| && n <= |o.codes[m - 1]|
    requires o.labels[m - 1] in env.valueLabels && FaithfulDefinition(env.valueLabels[o.labels[m - 1]])
    ensures ReadDefinition(store, m, n) == Part(env.valueLabels[o.labels[m - 1]], o.codes[m - 1][..n])
  {
    hide Staged, IsOrder, Expected, Get, FaithfulDefinition;
    OrderFacts(env, o);
    if n == 0 {
    } else {
      hide Part;
      DefinitionHeld(store, env, o, m, n - 1);
      EntryExpected(env, o, m, n);
      var d, code := env.valueLabels[o.labels[m - 1]], o.codes[m - 1][n - 1];
      FaithfulEntry(d, code);
      GetHeld(store, env, o, DefnCode(m, n), code);
      GetHeld(store, env, o, DefnText(m, n), d[code]);
      PrefixGrows(o.codes[m - 1], n - 1);
      PartGrows(d, o.codes[m - 1][..n - 1], code);
    }
  }

  lemma CodesCover(env: Envelope, o: Order, m: nat)
    requires IsOrder(env, o) && 1 <= m <= |o.labels| && o.labels[m - 1] in env.valueLabels
    ensures |o.codes| == |o.labels| && |o.codes[m - 1]| == |env.valueLabels[o.labels[m - 1]]|
    ensures Covers(o.codes[m - 1], env.valueLabels[o.labels[m - 1]])
  {
    assert Enumerates(o.codes[m - 1], env.valueLabels[o.labels[m - 1]]);
    EnumerationSize(o.codes[m - 1], env.valueLabels[o.labels[m - 1]]);
  }

  lemma DefinitionRead(store: Store, env: Envelope, o: Order, m: nat)
    requires IsOrder(env, o) && Staged(store, env, o) && 1 <= m <= |o.labels| && Sized(env)
    requires o.labels[m - 1] in env.valueLabels && FaithfulDefinition(env.valueLabels[o.labels[m - 1]])
    ensures ReadDefinition(store, m, CountIn(store, DefnCount(m))) == env.valueLabels[o.labels[m - 1]]
  {
    hide Staged, IsOrder, Expected, Get, Enumerates, Part, FaithfulDefinition, ReadDefinition, CountIn;
    CodesCover(env, o, m);
    var d, codes := env.valueLabels[o.labels[m - 1]], o.codes[m - 1];
    LabelEntries(env, o, m);
    CountHeld(store, env, o, DefnCount(m), |codes|);
    DefinitionHeld(store, env, o, m, |codes|);
    assert codes[..|codes|] == codes;
    PartAll(d, codes);
  }

  /** Every label name is found under its own number. */
  ghost predicate Indexes(index: map<string, nat>, labels: seq<string>) {
    && (forall x :: x in index ==> x in labels)
    && forall j :: 0 <= j < |labels| ==> labels[j] in index && index[labels[j]] == j + 1
  }

  lemma IndexesGrow(index: map<string, nat>, labels: seq<string>, x: string)
    requires Indexes(index, labels) && x !in labels
    ensures Indexes(index[x := |labels| + 1], labels + [x])
  {
  }

  lemma {:induction false} LabelsHeld(store: Store, env: Envelope, o: Order, n: nat)
    requires IsOrder(env, o) && Staged(store, env, o) && n <= |o.labels|
    requires forall j :: 0 <= j < |o.labels| ==> Short(o.labels[j])
    ensures Indexes(LabelIndex(store, n), o.labels[..n])
  {
    hide Staged, IsOrder, Expected, Get;
    if n == 0 {
    } else {
      hide Indexes;
      LabelsHeld(store, env, o, n - 1);
      LabelEntries(env, o, n);
      GetHeld(store, env, o, LabelName(n), o.labels[n - 1]);
      OrderFacts(env, o);
      assert o.labels[n - 1] !in o.labels[..n - 1];
      PrefixGrows(o.labels, n - 1);
      IndexesGrow(LabelIndex(store, n - 1), o.labels[..n - 1], o.labels[n - 1]);
    }
  }

  /** The value labels of the first n variables. */
  function Used(env: Envelope, vars: seq<string>, n: nat): (u: seq<string>)
    requires n <= |vars|
    requires forall i :: 0 <= i < |vars| ==> vars[i] in env.variables
    ensures |u| == n && forall i :: 0 <= i < n ==> u[i] == OrEmpty(env.variables[vars[i]].valueLabel)
  {
    if n == 0 then [] else Used(env, vars, n - 1) + [OrEmpty(env.variables[vars[n - 1]].valueLabel)]
  }

  /** The name a staged variable is read under. */
  function NewName(renames: map<string, string>, name: string): string {
    if name in renames then renames[name] else name
  }

  /** `v` with the type recorded for the new name. */
  function Retyped(v: VariableMetadata, types: map<string, string>, name: string): VariableMetadata {
    v.(stataType := if name in types then Some(types[name]) else None)
  }

  /** `after` holds the variables of `before` under their new names, with the types recorded for these. */
  ghost predicate IsRenamed(before: map<string, VariableMetadata>, after: map<string, VariableMetadata>,
                            renames: map<string, string>, types: map<string, string>) {
    && (forall x :: x in before ==>
          && NewName(renames, x) in after
          && after[NewName(renames, x)] == Retyped(before[x], types, NewName(renames, x)))
    && (forall y :: y in after ==> exists x :: x in before && NewName(renames, x) == y)
  }

  /** No two variables get the same new name. */
  ghost predicate RenamesApart(variables: map<string, VariableMetadata>, renames: map<string, string>) {
    forall x, y :: x in variables && y in variables && NewName(renames, x) == NewName(renames, y) ==> x == y
  }

  lemma RenamedGrows(before: map<string, VariableMetadata>, after: map<string, VariableMetadata>,
                     renames: map<string, string>, types: map<string, string>, x: string, v: VariableMetadata)
    requires IsRenamed(before, after, renames, types)
    requires RenamesApart(before[x := v], renames)
    ensures var y := NewName(renames, x);
      IsRenamed(before[x := v], after[y := Retyped(v, types, y)], renames, types)
  {
    hide NewName, Retyped;
    var y := NewName(renames, x);
    var before', after' := before[x := v], after[y := Retyped(v, types, y)];
    forall z | z in after' ensures exists w :: w in before' && NewName(renames, w) == z {
      if z == y {
        assert x in before';
      } else {
        var w :| w in before && NewName(renames, w) == z;
        assert w in before';
      }
    }
  }

  lemma NotRenamed(before: map<string, VariableMetadata>, after: map<string, VariableMetadata>)
    requires IsRenamed(before, after, map[], map[]) && AllFaithful(before)
    ensures after == before
  {
    forall x | x in before ensures x in after && after[x] == before[x] {
      assert NewName(map[], x) == x && FaithfulVariable(x, before[x]);
    }
    forall y | y in after ensures y in before {
      var x :| x in before && NewName(map[], x) == y;
    }
  }

  lemma StagedVariableRead(store: Store, env: Envelope, o: Order, types: map<string, string>, name: string, i: nat)
    requires IsOrder(env, o) && Staged(store, env, o) && Sized(env) && 1 <= i <= |o.vars|
    requires o.vars[i - 1] in env.variables && FaithfulVariable(o.vars[i - 1], env.variables[o.vars[i - 1]])
    ensures Get(store, Name(i)) == o.vars[i - 1]
    ensures StagedVariable(store, types, name, i) == Retyped(env.variables[o.vars[i - 1]], types, name)
  {
    var v := env.variables[o.vars[i - 1]];
    VariableMember(env, o, i - 1);
    VariableExpected(env, o, i, v);
    hide Staged, IsOrder, Expected, Get;
    GetHeld(store, env, o, Name(i), o.vars[i - 1]);
    GetHeld(store, env, o, Label(i), OrEmpty(v.varLabel));
    GetHeld(store, env, o, ValueLabel(i), OrEmpty(v.valueLabel));
    GetHeld(store, env, o, Format(i), OrEmpty(v.format));
    ListRead(store, env, o, VariableNotes(i), v.notes);
  }

  lemma WithLabelGrows(store: Store, index: map<string, nat>, labels: map<string, Definition>, seen: seq<string>,
                       name: string)
    requires name in index <==> name in labels
    requires name in labels ==> name != "" && labels[name] != map[]
    requires name in labels ==>
      ReadDefinition(store, index[name], CountIn(store, DefnCount(index[name]))) == labels[name]
    ensures WithLabel(store, index, Part(labels, seen), name) == Part(labels, seen + [name])
  {
    hide ReadDefinition, CountIn;
    PartGrows(labels, seen, name);
    if name in labels && name in seen {
      assert Part(labels, seen)[name := labels[name]] == Part(labels, seen);
    }
  }

  /** The index knows exactly the envelope's value labels. */
  lemma LabelNumber(env: Envelope, o: Order, index: map<string, nat>, name: string)
    requires IsOrder(env, o) && Faithful(env) && Indexes(index, o.labels)
    ensures name in index <==> name in env.valueLabels
    ensures name in env.valueLabels ==>
      name != "" && env.valueLabels[name] != map[] && FaithfulDefinition(env.valueLabels[name])
    ensures name in env.valueLabels ==> 1 <= index[name] <= |o.labels| && o.labels[index[name] - 1] == name
  {
    OrderFacts(env, o);
    hide IsOrder;
    if name in env.valueLabels {
      assert Referenced(env, name);
      assert name in o.labels;
    }
  }

  lemma LabelRead(store: Store, env: Envelope, o: Order, index: map<string, nat>, seen: seq<string>, name: string)
    requires IsOrder(env, o) && Staged(store, env, o) && Sized(env) && Faithful(env) && Indexes(index, o.labels)
    ensures WithLabel(store, index, Part(env.valueLabels, seen), name) == Part(env.valueLabels, seen + [name])
  {
    hide Staged, IsOrder, Expected, Sized, Faithful, FaithfulDefinition, Indexes, FaithfulVariable, Referenced,
      WithLabel, Part, Get, CountIn, ReadDefinition, Enumerates;
    LabelNumber(env, o, index, name);
    if name in env.valueLabels {
      DefinitionRead(store, env, o, index[name]);
    }
    WithLabelGrows(store, index, env.valueLabels, seen, name);
  }

  lemma PartNone<T>(m: map<string, T>)
    ensures Part(m, []) == map[]
  {
  }

  lemma VariableRead(store: Store, env: Envelope, o: Order, renames: map<string, string>, types: map<string, string>,
                     index: map<string, nat>, g: Gathered, i: nat)
    requires IsOrder(env, o) && Staged(store, env, o) && Sized(env) && Faithful(env) && 1 <= i <= |o.vars|
    requires o.vars[i - 1] in env.variables
    ensures var name, v := NewName(renames, o.vars[i - 1]), env.variables[o.vars[i - 1]];
      ReadVariable(store, renames, types, index, g, i)
      == Gathered(g.variables[name := Retyped(v, types, name)],
                  WithLabel(store, index, g.valueLabels, OrEmpty(v.valueLabel)))
  {
    hide Staged, IsOrder, Get, StagedVariable, WithLabel, Sized, Proper, ShortList, Short, FaithfulDefinition,
      Referenced;
    assert FaithfulVariable(o.vars[i - 1], env.variables[o.vars[i - 1]]);
    StagedVariableRead(store, env, o, types, NewName(renames, o.vars[i - 1]), i);
  }

  /** What has been gathered after the variables `vars`, whose value labels are `used`. */
  ghost predicate GatheredAre(env: Envelope, renames: map<string, string>, types: map<string, string>,
                              vars: seq<string>, used: seq<string>, g: Gathered) {
    IsRenamed(Part(env.variables, vars), g.variables, renames, types) && g.valueLabels == Part(env.valueLabels, used)
  }

  lemma GatheredNone(env: Envelope, renames: map<string, string>, types: map<string, string>)
    ensures GatheredAre(env, renames, types, [], [], Gathered(map[], map[]))
  {
    PartNone(env.variables);
    PartNone(env.valueLabels);
  }

  lemma PartRenamesApart(variables: map<string, VariableMetadata>, renames: map<string, string>, vars: seq<string>)
    requires RenamesApart(variables, renames)
    ensures RenamesApart(Part(variables, vars), renames)
  {
    hide NewName;
  }

  lemma GatheredMore(env: Envelope, renames: map<string, string>, types: map<string, string>, vars: seq<string>,
                     used: seq<string>, g: Gathered, x: string, labels: map<string, Definition>, used': seq<string>)
    requires GatheredAre(env, renames, types, vars, used, g) && RenamesApart(env.variables, renames)
    requires x in env.variables && labels == Part(env.valueLabels, used')
    ensures var y := NewName(renames, x);
      GatheredAre(env, renames, types, vars + [x], used',
                  Gathered(g.variables[y := Retyped(env.variables[x], types, y)], labels))
  {
    hide Part, IsRenamed, RenamesApart, NewName, Retyped;
    PartGrows(env.variables, vars, x);
    PartRenamesApart(env.variables, renames, vars + [x]);
    RenamedGrows(Part(env.variables, vars), g.variables, renames, types, x, env.variables[x]);
  }

  lemma VariablesHeldNext(store: Store, env: Envelope, o: Order, renames: map<string, string>,
                          types: map<string, string>, index: map<string, nat>, n: nat, g: Gathered)
    requires IsOrder(env, o) && Staged(store, env, o) && Sized(env) && Faithful(env) && Indexes(index, o.labels)
    requires n < |o.vars| && RenamesApart(env.variables, renames)
    requires forall i :: 0 <= i < |o.vars| ==> o.vars[i] in env.variables
    requires GatheredAre(env, renames, types, o.vars[..n], Used(env, o.vars, n), g)
    ensures GatheredAre(env, renames, types, o.vars[..n + 1], Used(env, o.vars, n + 1),
                        ReadVariable(store, renames, types, index, g, n + 1))
  {
    hide Staged, IsOrder, Indexes, WithLabel, Sized, Faithful, RenamesApart, NewName, Retyped, ReadVariable, IsRenamed,
      Part;
    var name, used := o.vars[n], Used(env, o.vars, n);
    var carried := OrEmpty(env.variables[name].valueLabel);
    assert Used(env, o.vars, n + 1) == used + [carried];
    hide Used, OrEmpty;
    VariableRead(store, env, o, renames, types, index, g, n + 1);
    LabelRead(store, env, o, index, used, carried);
    PrefixGrows(o.vars, n);
    GatheredMore(env, renames, types, o.vars[..n], used, g, name, WithLabel(store, index, g.valueLabels, carried),
      used + [carried]);
  }

  /** After n variables exactly these and their value labels are gathered, under their new names and with the
      types recorded for them. */
  lemma {:induction false} VariablesHeld(store: Store, env: Envelope, o: Order, renames: map<string, string>,
                                         types: map<string, string>, index: map<string, nat>, n: nat)
    requires IsOrder(env, o) && Staged(store, env, o) && Sized(env) && Faithful(env) && Indexes(index, o.labels)
    requires n <= |o.vars| && RenamesApart(env.variables, renames)
    requires forall i :: 0 <= i < |o.vars| ==> o.vars[i] in env.variables
    ensures GatheredAre(env, renames, types, o.vars[..n], Used(env, o.vars, n),
                        ReadVariables(store, renames, types, index, n))
  {
    hide Staged, IsOrder, Indexes, Sized, Faithful, RenamesApart, ReadVariable, GatheredAre;
    if n == 0 {
      GatheredNone(env, renames, types);
      assert o.vars[..0] == [];
    } else {
      VariablesHeld(store, env, o, renames, types, index, n - 1);
      var before := ReadVariables(store, renames, types, index, n - 1);
      VariablesHeldNext(store, env, o, renames, types, index, n - 1, before);
    }
  }

  lemma CountsRead(store: Store, env: Envelope, o: Order)
    requires IsOrder(env, o) && Staged(store, env, o) && Sized(env) && Faithful(env)
    ensures CountIn(store, Count) == |o.vars| > 0 && CountIn(store, LabelCount) == |o.labels|
  {
    OrderSizes(env, o);
    HeaderExpected(env, o);
    hide Staged, IsOrder, Expected;
    assert |o.vars| > 0 && |o.vars| < TWO64 && |o.labels| < TWO64;
    hide Faithful, Sized;
    CountHeld(store, env, o, Count, |o.vars|);
    CountHeld(store, env, o, LabelCount, |o.labels|);
  }

  lemma DatasetRead(store: Store, env: Envelope, o: Order)
    requires IsOrder(env, o) && Staged(store, env, o) && Sized(env)
    ensures Proper(env.datasetLabel) ==> NonEmpty(Get(store, DatasetLabel)) == env.datasetLabel
    ensures ShortList(env.datasetNotes) ==>
      ReadList(store, DatasetNotes, CountIn(store, ListCount(DatasetNotes))) == env.datasetNotes
  {
    HeaderExpected(env, o);
    hide Staged, IsOrder, Expected, ListOf, Get, CountIn;
    GetHeld(store, env, o, DatasetLabel, OrEmpty(env.datasetLabel));
    ListRead(store, env, o, DatasetNotes, env.datasetNotes);
  }

  lemma AllLabelsUsed(env: Envelope, o: Order)
    requires IsOrder(env, o) && Faithful(env)
    requires forall i :: 0 <= i < |o.vars| ==> o.vars[i] in env.variables
    ensures forall l :: l in env.valueLabels ==> l in Used(env, o.vars, |o.vars|)
  {
    forall l | l in env.valueLabels ensures l in Used(env, o.vars, |o.vars|) {
      assert Referenced(env, l);
      var x :| x in env.variables && env.variables[x].valueLabel == Some(l);
      assert x in o.vars;
      var i :| 0 <= i < |o.vars| && o.vars[i] == x;
      assert Used(env, o.vars, |o.vars|)[i] == l;
    }
  }

  lemma LabelsShort(env: Envelope, o: Order)
    requires IsOrder(env, o) && Faithful(env)
    ensures forall j :: 0 <= j < |o.labels| ==> Short(o.labels[j])
  {
    OrderFacts(env, o);
    forall j | 0 <= j < |o.labels| ensures Short(o.labels[j]) {
      assert Referenced(env, o.labels[j]);
    }
  }

  lemma VariablesRead(store: Store, env: Envelope, o: Order, renames: map<string, string>, types: map<string, string>)
    requires IsOrder(env, o) && Staged(store, env, o) && Sized(env) && Faithful(env)
    requires RenamesApart(env.variables, renames)
    ensures var g := ReadVariables(store, renames, types, LabelIndex(store, |o.labels|), |o.vars|);
      IsRenamed(env.variables, g.variables, renames, types) && g.valueLabels == env.valueLabels
  {
    hide Staged, IsOrder, ReadVariables, Faithful, Sized, Get, Indexes, LabelIndex, IsRenamed, RenamesApart, Part, Used;
    OrderFacts(env, o);
    LabelsShort(env, o);
    AllLabelsUsed(env, o);
    LabelsHeld(store, env, o, |o.labels|);
    assert o.labels[..|o.labels|] == o.labels && o.vars[..|o.vars|] == o.vars;
    VariablesHeld(store, env, o, renames, types, LabelIndex(store, |o.labels|), |o.vars|);
    PartAll(env.variables, o.vars);
    PartAll(env.valueLabels, Used(env, o.vars, |o.vars|));
  }

  /** A staged faithful envelope is read back with its variables under their new names and with the types
      recorded for these, and otherwise unchanged, unless two variables are renamed alike. */
  lemma ReadRenamed(store: Store, env: Envelope, o: Order, renames: map<string, string>, types: map<string, string>)
      returns (variables: map<string, VariableMetadata>)
    requires IsOrder(env, o) && Staged(store, env, o) && Sized(env) && Faithful(env)
    requires RenamesApart(env.variables, renames)
    ensures IsRenamed(env.variables, variables, renames, types)
    ensures ReadEnvelope(store, renames, types) == Some(env.(variables := variables))
  {
    hide Staged, IsOrder, Get, ReadVariables, LabelIndex, CountIn, FaithfulVariable, FaithfulDefinition, Sized,
      RenamesApart, NewName, Retyped;
    CountsRead(store, env, o);
    DatasetRead(store, env, o);
    VariablesRead(store, env, o, renames, types);
    variables := ReadVariables(store, renames, types, LabelIndex(store, |o.labels|), |o.vars|).variables;
    assert variables != map[] by {
      var x :| x in env.variables;
      assert NewName(renames, x) in variables;
    }
  }

  lemma ReadBack(store: Store, env: Envelope, o: Order)
    requires IsOrder(env, o) && Staged(store, env, o) && Sized(env) && Faithful(env)
    ensures ReadEnvelope(store, map[], map[]) == Some(env)
  {
    hide Staged, IsOrder, Sized, IsRenamed, ReadEnvelope;
    var variables := ReadRenamed(store, env, o, map[], map[]);
    NotRenamed(env.variables, variables);
  }

  // ---------- Nothing else survives ----------

  lemma {:induction false} ReadListShort(store: Store, list: ListId, n: nat)
    ensures ShortList(ReadList(store, list, n))
  {
    if n == 0 {
    } else {
      ReadListShort(store, list, n - 1);
    }
  }

  lemma GetShort(store: Store, key: MacroKey)
    ensures Short(Get(store, key))
  {
    hide MacroName;
  }

  lemma StagedVariableFaithful(store: Store, i: nat)
    ensures var name, v := Get(store, Name(i)), StagedVariable(store, map[], Get(store, Name(i)), i);
      name == "" || IsBlank(v) || FaithfulVariable(name, v)
  {
    hide Get, ReadList, CountIn;
    ReadListShort(store, VariableNotes(i), CountIn(store, ListCount(VariableNotes(i))));
    GetShort(store, Name(i));
    GetShort(store, Label(i));
    GetShort(store, ValueLabel(i));
    GetShort(store, Format(i));
  }

  lemma {:induction false} ReadVariablesFaithful(store: Store, index: map<string, nat>, n: nat)
    ensures AllFaithful(ReadVariables(store, map[], map[], index, n).variables)
  {
    hide StagedVariable, IsBlank, WithLabel, Get, FaithfulVariable;
    if n == 0 {
    } else {
      ReadVariablesFaithful(store, index, n - 1);
      StagedVariableFaithful(store, n);
    }
  }

  ghost predicate CarriedBy(variables: map<string, VariableMetadata>, name: string) {
    exists x :: x in variables && variables[x].valueLabel == Some(name)
  }

  /** The labels gathered so far are faithful and carried by variables gathered so far. */
  ghost predicate LabelsCarried(g: Gathered, vars: seq<string>) {
    && (forall x :: x in g.variables ==> x in vars)
    && forall l :: l in g.valueLabels ==> FaithfulDefinition(g.valueLabels[l]) && CarriedBy(g.variables, l)
  }

  lemma {:induction false} ReadDefinitionCodes(store: Store, m: nat, n: nat)
    ensures forall code :: code in ReadDefinition(store, m, n) ==>
      code != "" && Short(code) && Short(ReadDefinition(store, m, n)[code])
  {
    if n == 0 {
    } else {
      ReadDefinitionCodes(store, m, n - 1);
    }
  }

  lemma LabelsCarriedStep(store: Store, index: map<string, nat>, vars: seq<string>, g: Gathered, i: nat)
    requires LabelsCarried(g, vars) && Get(store, Name(i)) !in vars
    ensures LabelsCarried(ReadVariable(store, map[], map[], index, g, i), vars + [Get(store, Name(i))])
  {
    hide ReadList, CountIn, Get, ReadDefinition;
    var name := Get(store, Name(i));
    var g' := ReadVariable(store, map[], map[], index, g, i);
    if g' != g {
      var v := StagedVariable(store, map[], name, i);
      var carried := OrEmpty(v.valueLabel);
      if carried in index {
        ReadDefinitionCodes(store, index[carried], CountIn(store, DefnCount(index[carried])));
      }
      assert g'.variables == g.variables[name := v];
      forall l | l in g'.valueLabels ensures CarriedBy(g'.variables, l) {
        if l in g.valueLabels {
          assert CarriedBy(g.variables, l);
          var x :| x in g.variables && g.variables[x].valueLabel == Some(l);
          assert g'.variables[x].valueLabel == Some(l);
        } else {
          assert g'.variables[name].valueLabel == Some(l);
        }
      }
    }
  }

  lemma LabelsCarriedNone()
    ensures LabelsCarried(Gathered(map[], map[]), [])
  {
  }

  lemma {:induction false} ReadLabelsFaithful(store: Store, vars: seq<string>, index: map<string, nat>, n: nat)
    requires n <= |vars|
    requires forall i :: 0 <= i < n ==> Get(store, Name(i + 1)) == vars[i]
    requires forall i, j :: 0 <= i < j < |vars| ==> vars[i] != vars[j]
    ensures LabelsCarried(ReadVariables(store, map[], map[], index, n), vars[..n])
  {
    hide LabelsCarried, ReadVariable, Get;
    if n == 0 {
      LabelsCarriedNone();
      assert vars[..0] == [];
    } else {
      ReadLabelsFaithful(store, vars, index, n - 1);
      PrefixGrows(vars, n - 1);
      LabelsCarriedStep(store, index, vars[..n - 1], ReadVariables(store, map[], map[], index, n - 1), n);
    }
  }

  /** What a read that yields an envelope found. */
  lemma EnvelopeParts(store: Store, env: Envelope)
    requires ReadEnvelope(store, map[], map[]) == Some(env)
    ensures CountIn(store, Count) > 0 && env.version == 1
    ensures env.datasetLabel == NonEmpty(Get(store, DatasetLabel)) && ShortList(env.datasetNotes)
    ensures Gathered(env.variables, env.valueLabels)
         == ReadVariables(store, map[], map[], LabelIndex(store, CountIn(store, LabelCount)), CountIn(store, Count))
  {
    hide Get, CountIn, ReadVariables, LabelIndex, ReadList;
    ReadListShort(store, DatasetNotes, CountIn(store, ListCount(DatasetNotes)));
  }

  lemma CountIsSize(store: Store, env: Envelope, o: Order)
    requires IsOrder(env, o) && Staged(store, env, o) && Sized(env)
    ensures CountIn(store, Count) == |o.vars| == |env.variables|
  {
    hide IsOrder, Staged, Expected, CountIn;
    OrderSizes(env, o);
    HeaderExpected(env, o);
    CountHeld(store, env, o, Count, |o.vars|);
  }

  lemma NamesRead(store: Store, env: Envelope, o: Order)
    requires IsOrder(env, o) && Staged(store, env, o)
    requires AllFaithful(env.variables)
    ensures forall i :: 0 <= i < |o.vars| ==> Get(store, Name(i + 1)) == o.vars[i]
  {
    OrderFacts(env, o);
    hide Staged, IsOrder, Get;
    forall i | 0 <= i < |o.vars| ensures Get(store, Name(i + 1)) == o.vars[i] {
      VariableMember(env, o, i);
      VariableExpected(env, o, i + 1, env.variables[o.vars[i]]);
      GetHeld(store, env, o, Name(i + 1), o.vars[i]);
    }
  }

  lemma OnlyFaithful(store: Store, env: Envelope, o: Order)
    requires IsOrder(env, o) && Staged(store, env, o) && Sized(env)
    requires ReadEnvelope(store, map[], map[]) == Some(env)
    ensures Faithful(env)
  {
    hide Staged, IsOrder, Sized, ReadEnvelope, LabelIndex, Get, CountIn, ReadVariables, FaithfulVariable,
      FaithfulDefinition, Short;
    OrderFacts(env, o);
    CountIsSize(store, env, o);
    EnvelopeParts(store, env);
    GetShort(store, DatasetLabel);
    var index := LabelIndex(store, CountIn(store, LabelCount));
    ReadVariablesFaithful(store, index, |o.vars|);
    NamesRead(store, env, o);
    ReadLabelsFaithful(store, o.vars, index, |o.vars|);
    forall l | l in env.valueLabels ensures Referenced(env, l) {
      assert CarriedBy(env.variables, l);
    }
  }

  // ---------- The round trip ----------

  /** Staging an envelope over any macros and reading it back gives the same envelope, exactly when it is faithful. */
  lemma RoundTrip(store: Store, env: Envelope, o: Order)
    requires IsOrder(env, o) && Staged(store, env, o) && Sized(env)
    ensures ReadEnvelope(store, map[], map[]) == Some(env) <==> Faithful(env)
  {
    hide Staged, IsOrder, ReadEnvelope, Faithful, Sized;
    if Faithful(env) {
      ReadBack(store, env, o);
    }
    if ReadEnvelope(store, map[], map[]) == Some(env) {
      OnlyFaithful(store, env, o);
    }
  }
}
