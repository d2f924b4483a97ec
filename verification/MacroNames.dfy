/** The names of the indexed macros that carry Stata metadata. */
module MacroNames {
  import opened Decimal

  /** The note lists: of the dataset, and of each variable. */
  datatype ListId = DatasetNotes | VariableNotes(i: nat)

  datatype MacroKey =
    | Present | DatasetLabel | Count | LabelCount
    | ListCount(list: ListId) | ListItem(list: ListId, k: nat)
    | Name(i: nat) | Label(i: nat) | ValueLabel(i: nat) | Format(i: nat)
    | LabelName(m: nat) | DefnCount(m: nat) | DefnCode(m: nat, k: nat) | DefnText(m: nat, k: nat)

  /** The parts of a name behind `pq_meta`, which underscores separate. */
  function Parts(key: MacroKey): seq<string> {
    match key
    case Present => ["present"]
    case DatasetLabel => ["dataset", "label"]
    case Count => ["count"]
    case LabelCount => ["vallabel", "count"]
    case ListCount(DatasetNotes) => ["dataset", "note", "count"]
    case ListItem(DatasetNotes, k) => ["dataset", "note", ToString(k)]
    case ListCount(VariableNotes(i)) => ["note", ToString(i), "count"]
    case ListItem(VariableNotes(i), k) => ["note", ToString(i), ToString(k)]
    case Name(i) => ["name", ToString(i)]
    case Label(i) => ["label", ToString(i)]
    case ValueLabel(i) => ["vallabel", ToString(i)]
    case Format(i) => ["format", ToString(i)]
    case LabelName(m) => ["vallabel", "name", ToString(m)]
    case DefnCount(m) => ["vallabel", "defn", "count", ToString(m)]
    case DefnCode(m, k) => ["vallabel", "defn", "code", ToString(m), ToString(k)]
    case DefnText(m, k) => ["vallabel", "defn", "text", ToString(m), ToString(k)]
  }

  function Join(parts: seq<string>): string {
    if parts == [] then "" else "_" + parts[0] + Join(parts[1..])
  }

  /** The macro name, such as `pq_meta_note_3_count`. */
  function MacroName(key: MacroKey): string { "pq_meta" + Join(Parts(key)) }

  lemma OnePart(key: MacroKey, a: string)
    requires Parts(key) == [a]
    ensures MacroName(key) == "pq_meta_" + a
  {
    assert Join([a]) == "_" + a + "";
  }

  lemma JoinNothing()
    ensures Join([]) == ""
  {
  }

  lemma JoinMore(a: string, rest: seq<string>)
    ensures Join([a] + rest) == "_" + a + Join(rest)
  {
    assert ([a] + rest)[1..] == rest;
  }

  lemma TwoParts(key: MacroKey, a: string, b: string)
    requires Parts(key) == [a, b]
    ensures MacroName(key) == "pq_meta_" + a + "_" + b
  {
    hide Join, Parts;
    JoinMore(a, [b]);
    JoinMore(b, []);
    assert [a, b] == [a] + [b] && [b] == [b] + [];
    JoinNothing();
  }

  lemma ThreeParts(key: MacroKey, a: string, b: string, c: string)
    requires Parts(key) == [a, b, c]
    ensures MacroName(key) == "pq_meta_" + a + "_" + b + "_" + c
  {
    hide Join, Parts;
    JoinMore(a, [b, c]);
    JoinMore(b, [c]);
    JoinMore(c, []);
    assert [a, b, c] == [a] + [b, c] && [b, c] == [b] + [c] && [c] == [c] + [];
    JoinNothing();
  }

  lemma LabelParts(key: MacroKey, a: string, rest: seq<string>)
    requires Parts(key) == ["vallabel", "defn", a] + rest
    ensures MacroName(key) == "pq_meta_vallabel_defn_" + a + Join(rest)
  {
    hide Join, Parts;
    JoinMore("vallabel", ["defn", a] + rest);
    JoinMore("defn", [a] + rest);
    JoinMore(a, rest);
    assert ["vallabel", "defn", a] + rest == ["vallabel"] + (["defn", a] + rest);
    assert ["defn", a] + rest == ["defn"] + ([a] + rest);
  }

  /** The names as they are spelt, with their numbers in this order. */
  lemma DatasetNames(k: nat)
    ensures MacroName(Present) == "pq_meta_present" && MacroName(Count) == "pq_meta_count"
    ensures MacroName(DatasetLabel) == "pq_meta_dataset_label" && MacroName(LabelCount) == "pq_meta_vallabel_count"
    ensures MacroName(ListCount(DatasetNotes)) == "pq_meta_dataset_note_count"
    ensures MacroName(ListItem(DatasetNotes, k)) == "pq_meta_dataset_note_" + ToString(k)
  {
    hide MacroName, ToString;
    OnePart(Present, "present");
    OnePart(Count, "count");
    TwoParts(DatasetLabel, "dataset", "label");
    TwoParts(LabelCount, "vallabel", "count");
    ThreeParts(ListCount(DatasetNotes), "dataset", "note", "count");
    ThreeParts(ListItem(DatasetNotes, k), "dataset", "note", ToString(k));
  }

  lemma VariableNames(i: nat, k: nat)
    ensures MacroName(Name(i)) == "pq_meta_name_" + ToString(i)
    ensures MacroName(Label(i)) == "pq_meta_label_" + ToString(i)
    ensures MacroName(ValueLabel(i)) == "pq_meta_vallabel_" + ToString(i)
    ensures MacroName(Format(i)) == "pq_meta_format_" + ToString(i)
    ensures MacroName(ListCount(VariableNotes(i))) == "pq_meta_note_" + ToString(i) + "_count"
    ensures MacroName(ListItem(VariableNotes(i), k)) == "pq_meta_note_" + ToString(i) + "_" + ToString(k)
  {
    hide MacroName, ToString;
    var n := ToString(i);
    TwoParts(Name(i), "name", n);
    TwoParts(Label(i), "label", n);
    TwoParts(ValueLabel(i), "vallabel", n);
    TwoParts(Format(i), "format", n);
    ThreeParts(ListCount(VariableNotes(i)), "note", n, "count");
    ThreeParts(ListItem(VariableNotes(i), k), "note", n, ToString(k));
  }

  lemma FourParts(key: MacroKey, a: string, m: string)
    requires Parts(key) == ["vallabel", "defn", a, m]
    ensures MacroName(key) == "pq_meta_vallabel_defn_" + a + "_" + m
  {
    hide MacroName, Parts;
    LabelParts(key, a, [m]);
    assert Join([m]) == "_" + m;
  }

  lemma FiveParts(key: MacroKey, a: string, m: string, k: string)
    requires Parts(key) == ["vallabel", "defn", a, m, k]
    ensures MacroName(key) == "pq_meta_vallabel_defn_" + a + "_" + m + "_" + k
  {
    hide MacroName, Parts, Join;
    LabelParts(key, a, [m, k]);
    JoinMore(m, [k]);
    JoinMore(k, []);
    JoinNothing();
    assert [m, k] == [m] + [k] && [k] == [k] + [];
  }

  lemma LabelNames(m: nat, k: nat)
    ensures MacroName(LabelName(m)) == "pq_meta_vallabel_name_" + ToString(m)
    ensures MacroName(DefnCount(m)) == "pq_meta_vallabel_defn_count_" + ToString(m)
    ensures MacroName(DefnCode(m, k)) == "pq_meta_vallabel_defn_code_" + ToString(m) + "_" + ToString(k)
    ensures MacroName(DefnText(m, k)) == "pq_meta_vallabel_defn_text_" + ToString(m) + "_" + ToString(k)
  {
    hide MacroName, ToString, Join;
    ThreeParts(LabelName(m), "vallabel", "name", ToString(m));
    FourParts(DefnCount(m), "count", ToString(m));
    FiveParts(DefnCode(m, k), "code", ToString(m), ToString(k));
    FiveParts(DefnText(m, k), "text", ToString(m), ToString(k));
  }

  predicate NoUnderscore(s: string) { '_' !in s }

  /** Text up to the next underscore. */
  function UpTo(s: string): string {
    if s == [] || s[0] == '_' then [] else [s[0]] + UpTo(s[1..])
  }

  lemma {:induction false} UpToPart(p: string, rest: string)
    requires NoUnderscore(p) && (rest == [] || rest[0] == '_')
    ensures UpTo(p + rest) == p
  {
    if p == [] {
      assert p + rest == rest;
    } else {
      assert (p + rest)[0] == p[0] && (p + rest)[1..] == p[1..] + rest;
      assert forall c :: c in p[1..] ==> c in p;
      UpToPart(p[1..], rest);
    }
  }

  /** Parts without underscores can be read off the joined text. */
  lemma {:induction false} JoinInjective(a: seq<string>, b: seq<string>)
    requires forall i :: 0 <= i < |a| ==> NoUnderscore(a[i])
    requires forall i :: 0 <= i < |b| ==> NoUnderscore(b[i])
    requires Join(a) == Join(b)
    ensures a == b
  {
    if a == [] || b == [] {
    } else {
      var x, y := Join(a), Join(b);
      assert x[1..] == a[0] + Join(a[1..]) && y[1..] == b[0] + Join(b[1..]);
      UpToPart(a[0], Join(a[1..]));
      UpToPart(b[0], Join(b[1..]));
      assert a[0] == b[0];
      assert x[1..][|a[0]|..] == Join(a[1..]) && y[1..][|b[0]|..] == Join(b[1..]);
      JoinInjective(a[1..], b[1..]);
      assert a == [a[0]] + a[1..] && b == [b[0]] + b[1..];
    }
  }

  lemma DigitsHaveNoUnderscore(n: nat)
    ensures NoUnderscore(ToString(n)) && ToString(n) != "count"
  {
    assert IsDigit(ToString(n)[0]);
  }

  lemma PartsHaveNoUnderscore(key: MacroKey)
    ensures forall i :: 0 <= i < |Parts(key)| ==> NoUnderscore(Parts(key)[i])
  {
    hide ToString;
    if key.ListCount? || key.ListItem? {
      if key.list.VariableNotes? { DigitsHaveNoUnderscore(key.list.i); }
    }
    if key.ListItem? || key.DefnCode? || key.DefnText? { DigitsHaveNoUnderscore(key.k); }
    if key.Name? || key.Label? || key.ValueLabel? || key.Format? { DigitsHaveNoUnderscore(key.i); }
    if key.LabelName? || key.DefnCount? || key.DefnCode? || key.DefnText? { DigitsHaveNoUnderscore(key.m); }
  }

  /** Which of the macros it is, numbers aside. */
  function Kind(key: MacroKey): nat {
    match key
    case Present => 0
    case DatasetLabel => 1
    case Count => 2
    case LabelCount => 3
    case ListCount(DatasetNotes) => 4
    case ListCount(_) => 5
    case ListItem(DatasetNotes, _) => 6
    case ListItem(_, _) => 7
    case Name(_) => 8
    case Label(_) => 9
    case ValueLabel(_) => 10
    case Format(_) => 11
    case LabelName(_) => 12
    case DefnCount(_) => 13
    case DefnCode(_, _) => 14
    case DefnText(_, _) => 15
  }

  /** No number reads `count`. */
  predicate NumbersAreNumbers(key: MacroKey) {
    && (key.ValueLabel? ==> ToString(key.i) != "count")
    && (key.ListItem? ==> ToString(key.k) != "count")
  }

  lemma SameKind(a: MacroKey, b: MacroKey)
    requires Parts(a) == Parts(b) && NumbersAreNumbers(a) && NumbersAreNumbers(b)
    ensures Kind(a) == Kind(b)
  {
    hide ToString;
    var p, q := Parts(a), Parts(b);
    assert p[0] == q[0] && p[|p| - 1] == q[|q| - 1];
    if |p| == 3 { assert p[1] == q[1]; }
    if |p| == 5 { assert p[2] == q[2]; }
  }

  lemma PartsInjective(a: MacroKey, b: MacroKey)
    requires Parts(a) == Parts(b) && NumbersAreNumbers(a) && NumbersAreNumbers(b)
    ensures a == b
  {
    SameKind(a, b);
    forall m: nat, n: nat | ToString(m) == ToString(n) ensures m == n { ToStringInjective(m, n); }
    hide ToString, NumbersAreNumbers;
    var p, q := Parts(a), Parts(b);
    assert p[|p| - 1] == q[|q| - 1];
    if |p| == 3 { assert p[1] == q[1]; }
    if |p| == 5 { assert p[3] == q[3]; }
  }

  /** No two of the macros share a name. */
  lemma MacroNameInjective(a: MacroKey, b: MacroKey)
    requires MacroName(a) == MacroName(b)
    ensures a == b
  {
    var p := "pq_meta";
    assert (p + Join(Parts(a)))[|p|..] == Join(Parts(a)) && (p + Join(Parts(b)))[|p|..] == Join(Parts(b));
    PartsHaveNoUnderscore(a);
    PartsHaveNoUnderscore(b);
    hide Join;
    JoinInjective(Parts(a), Parts(b));
    if a.ValueLabel? { DigitsHaveNoUnderscore(a.i); }
    if b.ValueLabel? { DigitsHaveNoUnderscore(b.i); }
    if a.ListItem? { DigitsHaveNoUnderscore(a.k); }
    if b.ListItem? { DigitsHaveNoUnderscore(b.k); }
    hide Parts;
    PartsInjective(a, b);
  }
}
