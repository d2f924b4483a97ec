/** Partition keys, and the directories they are saved to. */
module PartitionPaths {
  import opened Wrappers
  import opened Decimal

  // ---------- Keys ----------

  /** A value of a partition column. Dates and datetimes are integers: they are written as their numbers. */
  datatype KeyValue = Null | Unsupported | Text(s: string) | Bool(b: bool) | Integer(n: int) | Float(x: real)

  type Key = seq<KeyValue>

  /** A row: its values in the partition columns, and the rest of it. */
  datatype Record = Record(key: Key, rest: int)

  function SignedString(n: int): string { if n < 0 then "-" + ToString(-n) else ToString(n) }

  function Abs(x: real): (a: real)
    ensures a >= 0.0 && (a == x || a == -x)
  {
    if x < 0.0 then -x else x
  }

  /** Rounds to the nearest integer, ties to even. */
  function RoundEven(x: real): (n: nat)
    requires x >= 0.0
    ensures -0.5 <= x - n as real <= 0.5
  {
    var f := x.Floor;
    var d := x - f as real;
    if d < 0.5 then f else if d > 0.5 then f + 1 else if f % 2 == 0 then f else f + 1
  }

  function Zeros(n: nat): (z: string)
    ensures |z| == n && forall i :: 0 <= i < n ==> z[i] == '0'
  {
    seq(n, _ => '0')
  }

  function PadLeft(s: string, width: nat): string { if |s| >= width then s else Zeros(width - |s|) + s }

  function Quotient(n: nat, m: nat): nat
    requires m > 0
  {
    n / m
  }

  function FixedNat(n: nat, scale: nat, digits: nat): string
    requires scale > 0
  {
    ToString(Quotient(n, scale)) + "." + PadLeft(ToString(n % scale), digits)
  }

  function DropZeros(s: string): string {
    if s != [] && s[|s| - 1] == '0' && '.' in s then DropZeros(s[..|s| - 1]) else s
  }

  function DropPoint(s: string): string {
    if s != [] && s[|s| - 1] == '.' then s[..|s| - 1] else s
  }

  /** `value.fract().abs()`. */
  function AbsFraction(x: real): real { Abs(x) - Abs(x).Floor as real }

  const TENTHS: nat := 10
  const UNITS: nat := 1_000_000_000_000

  /** How many tenths, or units of 1e-12, are printed. */
  function Tenths(x: real): nat { RoundEven(Abs(x) * TENTHS as real) }

  function Units(x: real): nat { RoundEven(Abs(x) * UNITS as real) }

  predicate IsWhole(x: real) { AbsFraction(x) < 0.000000001 }

  function Signed(negative: bool, s: string): string { if negative then "-" + s else s }

  /** The text of a float behind its sign: whole numbers up to 1e-9 with one decimal, others with at most
      twelve. */
  function Unsigned(x: real): string {
    if IsWhole(x) then FixedNat(Tenths(x), TENTHS, 1) else DropPoint(DropZeros(FixedNat(Units(x), UNITS, 12)))
  }

  /** `format_partition_float` for finite values. The sign is that of the value, even where it rounds to
      zero. */
  function FormatPartitionFloat(x: real): string { Signed(x < 0.0, Unsigned(x)) }

  // ---------- Which floats print alike ----------

  predicate SlashFree(s: string) { '/' !in s }

  /** The two print alike: same sign, and the same whole number, or the same number of units of 1e-12. */
  predicate PrintAlike(x: real, y: real) {
    && (x < 0.0 <==> y < 0.0)
    && (IsWhole(x) <==> IsWhole(y))
    && (if IsWhole(x) then Abs(x).Floor == Abs(y).Floor else Units(x) == Units(y))
  }

  /** A whole number prints its digits, a point and a zero. */
  lemma WholeText(x: real)
    requires IsWhole(x)
    ensures FixedNat(Tenths(x), TENTHS, 1) == ToString(Abs(x).Floor) + ".0"
  {
    var n := Abs(x).Floor;
    assert Tenths(x) == 10 * n;
    assert ToString(0) == "0";
  }

  /** What is left of the decimals `f` once the zeros at their end are dropped. */
  predicate IsTrimmed(f: string, k: nat) {
    k <= |f| && (k > 0 ==> f[k - 1] != '0') && forall i :: k <= i < |f| ==> f[i] == '0'
  }

  lemma {:induction false} DropZerosText(a: string, f: string) returns (k: nat)
    ensures IsTrimmed(f, k) && DropZeros(a + "." + f) == a + "." + f[..k]
  {
    var s := a + "." + f;
    assert s[|a|] == '.';
    if f == "" {
      k := 0;
    } else if f[|f| - 1] == '0' {
      assert s[..|s| - 1] == a + "." + f[..|f| - 1];
      k := DropZerosText(a, f[..|f| - 1]);
      assert f[..|f| - 1][..k] == f[..k];
    } else {
      k := |f|;
    }
  }

  /** Number `a` with the decimals `f` up to the last one that is not zero, and no point without decimals. */
  function Shortened(a: string, f: string, k: nat): string
    requires k <= |f|
  {
    if k == 0 then a else a + "." + f[..k]
  }

  lemma ShortText(a: string, f: string) returns (k: nat)
    requires AllDigits(f)
    ensures IsTrimmed(f, k) && DropPoint(DropZeros(a + "." + f)) == Shortened(a, f, k)
  {
    k := DropZerosText(a, f);
    hide DropZeros;
    var s := a + "." + f[..k];
    assert k == 0 ==> s[..|s| - 1] == a && s[|s| - 1] == '.';
    assert k > 0 ==> s[|s| - 1] == f[k - 1];
    hide IsTrimmed;
  }

  lemma SameShortened(a: string, f: string, k: nat, b: string, g: string, l: nat)
    requires AllDigits(a) && AllDigits(b) && |f| == |g| && IsTrimmed(f, k) && IsTrimmed(g, l)
    requires Shortened(a, f, k) == Shortened(b, g, l)
    ensures a == b && f == g
  {
    var s := Shortened(a, f, k);
    assert k > 0 ==> s[|a|] == '.';
    assert l > 0 ==> s[|b|] == '.';
    assert !IsDigit('.');
    if k > 0 && l > 0 {
      assert a + ['.'] <= s && b + ['.'] <= s;
      NumeralPrefix(a, b, '.', s);
      assert f[..k] == s[|a| + 1..] == g[..l];
    }
  }

  lemma {:induction false} ValueOfZeros(n: nat, s: string)
    requires AllDigits(s)
    ensures AllDigits(Zeros(n) + s) && Value(Zeros(n) + s) == Value(s)
  {
    if n == 0 {
      assert Zeros(0) + s == s;
    } else {
      ValueOfZeros(n - 1, s);
      LeadingZero(Zeros(n - 1) + s);
      assert Zeros(n) + s == "0" + (Zeros(n - 1) + s);
    }
  }

  lemma ValueOfPadded(n: nat, width: nat)
    ensures AllDigits(PadLeft(ToString(n), width)) && Value(PadLeft(ToString(n), width)) == n
  {
    ValueOfToString(n);
    ValueOfZeros(if |ToString(n)| >= width then 0 else width - |ToString(n)|, ToString(n));
  }

  lemma ToStringOfUnits(n: nat)
    requires n < UNITS
    ensures |ToString(n)| <= 12
  {
    assert Pow10(4) == 10_000;
    assert Pow10(8) == 10_000 * Pow10(4);
    assert Pow10(12) == 10_000 * Pow10(8);
    ToStringLength(n, 12);
  }

  /** The twelve decimals of a number of units. */
  function Decimals(n: nat): (f: string)
    ensures |f| == 12 && AllDigits(f)
  {
    ToStringOfUnits(n % UNITS);
    ValueOfPadded(n % UNITS, 12);
    PadLeft(ToString(n % UNITS), 12)
  }

  lemma SameUnits(m: nat, n: nat)
    requires ToString(Quotient(m, UNITS)) == ToString(Quotient(n, UNITS)) && Decimals(m) == Decimals(n)
    ensures m == n
  {
    ToStringInjective(Quotient(m, UNITS), Quotient(n, UNITS));
    ValueOfPadded(m % UNITS, 12);
    ValueOfPadded(n % UNITS, 12);
  }

  lemma UnitsText(x: real) returns (k: nat)
    requires !IsWhole(x)
    ensures IsTrimmed(Decimals(Units(x)), k)
    ensures Unsigned(x) == Shortened(ToString(Quotient(Units(x), UNITS)), Decimals(Units(x)), k)
  {
    hide IsWhole, Units, DropZeros, DropPoint, IsTrimmed;
    k := ShortText(ToString(Quotient(Units(x), UNITS)), Decimals(Units(x)));
  }

  lemma WholeIsNotShort(a: string, b: string, f: string, k: nat)
    requires AllDigits(b) && IsTrimmed(f, k)
    ensures a + ".0" != Shortened(b, f, k)
  {
    var s, t := a + ".0", Shortened(b, f, k);
    assert s[|a|] == '.' && !IsDigit('.') && s[|s| - 1] == '0';
    assert k > 0 ==> t[|t| - 1] == f[k - 1];
  }

  lemma UnsignedAlike(x: real, y: real)
    ensures Unsigned(x) == Unsigned(y) <==>
      (IsWhole(x) <==> IsWhole(y)) && (if IsWhole(x) then Abs(x).Floor == Abs(y).Floor else Units(x) == Units(y))
  {
    hide IsWhole, Units, Tenths, ToString, DropZeros, DropPoint, Shortened, IsTrimmed, Decimals;
    if IsWhole(x) && IsWhole(y) {
      WholeText(x);
      WholeText(y);
      var a, b := ToString(Abs(x).Floor), ToString(Abs(y).Floor);
      if a + ".0" == b + ".0" {
        assert a == (a + ".0")[..|a|] && b == (b + ".0")[..|b|];
        ToStringInjective(Abs(x).Floor, Abs(y).Floor);
      }
    } else if !IsWhole(x) && !IsWhole(y) {
      var k := UnitsText(x);
      var l := UnitsText(y);
      if Unsigned(x) == Unsigned(y) {
        SameShortened(ToString(Quotient(Units(x), UNITS)), Decimals(Units(x)), k,
                      ToString(Quotient(Units(y), UNITS)), Decimals(Units(y)), l);
        SameUnits(Units(x), Units(y));
      }
    } else {
      var w, v := if IsWhole(x) then x else y, if IsWhole(x) then y else x;
      WholeText(w);
      var k := UnitsText(v);
      WholeIsNotShort(ToString(Abs(w).Floor), ToString(Quotient(Units(v), UNITS)), Decimals(Units(v)), k);
    }
  }

  lemma UnsignedStart(x: real)
    ensures Unsigned(x) != "" && IsDigit(Unsigned(x)[0])
    ensures SlashFree(Unsigned(x))
  {
    hide IsWhole, Units, Tenths, ToString, DropZeros, DropPoint, Decimals;
    if IsWhole(x) {
      WholeText(x);
    } else {
      var k := UnitsText(x);
      var f := Decimals(Units(x));
      assert forall i :: 0 <= i < k ==> f[..k][i] == f[i];
    }
  }

  lemma SignedAlike(m: bool, s: string, n: bool, t: string)
    requires s != "" && IsDigit(s[0]) && t != "" && IsDigit(t[0])
    ensures Signed(m, s) == Signed(n, t) <==> (m <==> n) && s == t
    ensures SlashFree(s) ==> SlashFree(Signed(m, s))
  {
    assert !IsDigit('-') && ("-" + s)[0] == '-' && ("-" + t)[0] == '-';
    assert ("-" + s)[1..] == s && ("-" + t)[1..] == t;
  }

  /** Exactly when two floats print the same text. */
  lemma FloatsPrintAlike(x: real, y: real)
    ensures FormatPartitionFloat(x) == FormatPartitionFloat(y) <==> PrintAlike(x, y)
    ensures SlashFree(FormatPartitionFloat(x))
  {
    hide IsWhole, Units, Tenths, Unsigned, Signed, SlashFree;
    UnsignedStart(x);
    UnsignedStart(y);
    UnsignedAlike(x, y);
    SignedAlike(x < 0.0, Unsigned(x), y < 0.0, Unsigned(y));
  }

  function Render(v: KeyValue): string {
    match v
    case Text(s) => s
    case Bool(b) => if b then "true" else "false"
    case Integer(n) => SignedString(n)
    case Float(x) => FormatPartitionFloat(x)
    case _ => ""
  }

  predicate Supported(key: Key) { forall i :: 0 <= i < |key| ==> !key[i].Null? && !key[i].Unsupported? }

  // ---------- Paths ----------

  type Path = seq<string>

  /** Where the first slash of a text is. */
  function FirstSlash(s: string): (k: nat)
    requires '/' in s
    ensures k < |s| && s[k] == '/' && '/' !in s[..k]
  {
    if s[0] == '/' then 0
    else
      var k := FirstSlash(s[1..]);
      assert s[..k + 1] == [s[0]] + s[1..][..k];
      k + 1
  }

  /** A component of a path, unless the text is empty or stands for the directory itself. */
  function Named(part: string): Path { if part == "" || part == "." then [] else [part] }

  /** The components `PathBuf` finds in a relative path. */
  function Components(s: string): Path {
    if '/' in s then
      var k := FirstSlash(s);
      Named(s[..k]) + Components(s[k + 1..])
    else Named(s)
  }

  lemma ComponentsAt(s: string, k: nat)
    requires k < |s| && s[k] == '/' && '/' !in s[..k]
    ensures Components(s) == Named(s[..k]) + Components(s[k + 1..])
  {
    assert '/' in s;
    var f := FirstSlash(s);
    forall x | 0 <= x < k ensures s[x] != '/' {
      assert s[..k][x] == s[x];
    }
    forall x | 0 <= x < f ensures s[x] != '/' {
      assert s[..f][x] == s[x];
    }
    assert f == k;
  }

  /** Appending a text leaves what stands around a slash. */
  lemma CutAt(a: string, t: string, k: nat)
    requires k < |a|
    ensures (a + t)[k] == a[k] && (a + t)[..k] == a[..k] && (a + t)[k + 1..] == a[k + 1..] + t
  {
  }

  lemma JoinOne(a: string, b: string)
    requires '/' !in a
    ensures Components(a + "/" + b) == Components(a) + Components(b)
  {
    var s := a + "/" + b;
    assert s[..|a|] == a && s[|a| + 1..] == b && s[|a|] == '/';
    assert Components(a) == Named(a);
    hide Components, Named;
    ComponentsAt(s, |a|);
  }

  /** The components of a joined path are those of its parts. */
  lemma {:induction false} ComponentsJoin(a: string, b: string)
    ensures Components(a + "/" + b) == Components(a) + Components(b)
    decreases |a|
  {
    hide Components, Named;
    if '/' !in a {
      JoinOne(a, b);
    } else {
      var k, t := FirstSlash(a), "/" + b;
      var front, rest := a[..k], a[k + 1..];
      CutAt(a, t, k);
      ComponentsAt(a, k);
      ComponentsAt(a + t, k);
      ComponentsJoin(rest, b);
      assert a + "/" + b == a + t && rest + "/" + b == rest + t;
      calc {
        Components(a + t);
        Named(front) + Components(rest + t);
        Named(front) + (Components(rest) + Components(b));
        Components(a) + Components(b);
      }
    }
  }

  lemma NoComponents()
    ensures Components("") == []
  {
  }

  function PartText(col: string, v: KeyValue): string { col + "=" + Render(v) }

  /** The directory of the first n partition columns: the components of col=value, column by column. A
      value with slashes gives several. */
  function DirUpTo(cols: seq<string>, key: Key, n: nat): Path
    requires n <= |cols| && n <= |key|
  {
    if n == 0 then [] else DirUpTo(cols, key, n - 1) + Components(PartText(cols[n - 1], key[n - 1]))
  }

  /** The directory of a key below the target. */
  function DirOf(cols: seq<string>, key: Key): Path { DirUpTo(cols, key, Min(|cols|, |key|)) }

  /** Joins the col=value texts with slashes and takes the path of the result. */
  method PartitionDir(cols: seq<string>, key: Key) returns (dir: Path)
    requires |key| == |cols|
    ensures dir == DirOf(cols, key)
  {
    hide PartText, Components;
    var text := "";
    NoComponents();
    for i := 0 to |cols|
      invariant Components(text) == DirUpTo(cols, key, i) && (i == 0 ==> text == "")
    {
      var part := PartText(cols[i], key[i]);
      ComponentsJoin(text, part);
      text := if i == 0 then part else text + "/" + part;
    }
    dir := Components(text);
  }

  // ---------- Which keys share a directory ----------

  /** Where the text behind the last slash starts. */
  function TailStart(s: string): (k: nat)
    ensures k <= |s| && '/' !in s[k..] && (k > 0 ==> s[k - 1] == '/')
  {
    if s == "" || s[|s| - 1] == '/' then |s|
    else
      var k := TailStart(s[..|s| - 1]);
      assert s[k..] == s[..|s| - 1][k..] + [s[|s| - 1]];
      k
  }

  /** The components of a column name before its last slash, and the text behind it. */
  function Heads(col: string): Path {
    var k := TailStart(col);
    if k == 0 then [] else Components(col[..k - 1])
  }

  function Tail(col: string): string { col[TailStart(col)..] }

  lemma SlashFreeOne(col: string, text: string)
    requires SlashFree(text) && '/' !in col
    ensures Components(col + "=" + text) == [col + "=" + text]
  {
    var s := col + "=" + text;
    assert s[|col|] == '=';
    assert s != "." && '/' !in s;
  }

  /** A value without slashes ends in the last component. */
  lemma SlashFreeComponents(col: string, text: string)
    requires SlashFree(text)
    ensures Components(col + "=" + text) == Heads(col) + [Tail(col) + "=" + text]
  {
    hide Components, TailStart;
    var k := TailStart(col);
    var tail := col[k..];
    SlashFreeOne(tail, text);
    if k == 0 {
      assert tail == col;
    } else {
      ComponentsJoin(col[..k - 1], tail + "=" + text);
      assert col + "=" + text == col[..k - 1] + "/" + (tail + "=" + text);
    }
  }

  ghost predicate SlashFreeKey(key: Key) { forall c :: 0 <= c < |key| ==> SlashFree(Render(key[c])) }

  lemma LastDiffers(a: Path, b: Path, heads: Path, tail: string, v: string, w: string)
    requires |a| == |b|
    ensures a + (heads + [tail + "=" + v]) == b + (heads + [tail + "=" + w]) ==> a == b && v == w
  {
    var x, y := a + (heads + [tail + "=" + v]), b + (heads + [tail + "=" + w]);
    if x == y {
      assert x[..|a|] == a && y[..|b|] == b;
      assert x[|x| - 1] == tail + "=" + v && y[|y| - 1] == tail + "=" + w;
      assert (tail + "=" + v)[|tail| + 1..] == v && (tail + "=" + w)[|tail| + 1..] == w;
    }
  }

  /** Directories of keys without slashes are equally deep, and equal only if all values print alike. */
  lemma {:induction false} SlashFreeDirs(cols: seq<string>, a: Key, b: Key, n: nat)
    requires n <= |cols| && n <= |a| && n <= |b| && SlashFreeKey(a) && SlashFreeKey(b)
    ensures |DirUpTo(cols, a, n)| == |DirUpTo(cols, b, n)|
    ensures DirUpTo(cols, a, n) == DirUpTo(cols, b, n) ==> forall c :: 0 <= c < n ==> Render(a[c]) == Render(b[c])
  {
    hide Render, Heads, Tail, Components;
    if n == 0 {
    } else {
      SlashFreeDirs(cols, a, b, n - 1);
      var col, v, w := cols[n - 1], Render(a[n - 1]), Render(b[n - 1]);
      SlashFreeComponents(col, v);
      SlashFreeComponents(col, w);
      LastDiffers(DirUpTo(cols, a, n - 1), DirUpTo(cols, b, n - 1), Heads(col), Tail(col), v, w);
    }
  }

  /** Directories of keys that print alike are the same. */
  lemma {:induction false} SameTextDirs(cols: seq<string>, a: Key, b: Key, n: nat)
    requires n <= |cols| && n <= |a| && n <= |b| && forall c :: 0 <= c < n ==> Render(a[c]) == Render(b[c])
    ensures DirUpTo(cols, a, n) == DirUpTo(cols, b, n)
  {
    hide Render, Components;
    if n == 0 {
    } else {
      SameTextDirs(cols, a, b, n - 1);
    }
  }

  /** Column names and values without slashes give one component each, `column=value`. */
  lemma {:induction false} PlainDir(cols: seq<string>, key: Key, n: nat)
    requires n <= |cols| && n <= |key| && SlashFreeKey(key) && forall c :: 0 <= c < |cols| ==> SlashFree(cols[c])
    ensures |DirUpTo(cols, key, n)| == n
    ensures forall c :: 0 <= c < n ==> DirUpTo(cols, key, n)[c] == cols[c] + "=" + Render(key[c])
  {
    hide Render, Components;
    if n == 0 {
    } else {
      PlainDir(cols, key, n - 1);
      SlashFreeOne(cols[n - 1], Render(key[n - 1]));
    }
  }

  lemma OneComponent(s: string)
    requires SlashFree(s)
    ensures Components(s) == Named(s)
  {
  }

  /** Empty components and single dots of a value vanish, every other component is a directory. */
  lemma SlashedDir()
    ensures DirOf(["g"], [Text("a//./b")]) == ["g=a", "b"]
  {
    hide Components;
    ComponentsJoin("g=a", "/./b");
    ComponentsJoin("", "./b");
    ComponentsJoin(".", "b");
    OneComponent("g=a");
    OneComponent("");
    OneComponent(".");
    OneComponent("b");
    assert "" + "/" + "./b" == "/./b" && "." + "/" + "b" == "./b";
    assert Components("/./b") == ["b"];
    assert PartText("g", Text("a//./b")) == "g=a" + "/" + "/./b";
    assert DirUpTo(["g"], [Text("a//./b")], 1) == [] + Components("g=a" + "/" + "/./b");
  }

  /** Both texts, both Booleans, both integers or both floats: what a partition column of such a type holds. */
  predicate SameKind(v: KeyValue, w: KeyValue) {
    (v.Text? && w.Text?) || (v.Bool? && w.Bool?) || (v.Integer? && w.Integer?) || (v.Float? && w.Float?)
  }

  /** The same value, or two floats that print alike. */
  predicate SameOnPaper(v: KeyValue, w: KeyValue) { if v.Float? && w.Float? then PrintAlike(v.x, w.x) else v == w }

  lemma SignedStringInjective(m: int, n: int)
    requires SignedString(m) == SignedString(n)
    ensures m == n
  {
    assert SignedString(m) != "" && (SignedString(m)[0] == '-' <==> m < 0);
    assert SignedString(n) != "" && (SignedString(n)[0] == '-' <==> n < 0);
    assert m < 0 <==> n < 0;
    assert m < 0 ==> SignedString(m)[1..] == ToString(-m) && SignedString(n)[1..] == ToString(-n);
    ToStringInjective(if m < 0 then -m else m, if n < 0 then -n else n);
  }

  /** Values of one kind print the same text only if they are the same, or floats that print alike. */
  lemma RenderAlike(v: KeyValue, w: KeyValue)
    requires SameKind(v, w)
    ensures Render(v) == Render(w) <==> SameOnPaper(v, w)
  {
    hide FormatPartitionFloat, PrintAlike;
    if v.Integer? && Render(v) == Render(w) {
      SignedStringInjective(v.n, w.n);
    }
    if v.Float? {
      FloatsPrintAlike(v.x, w.x);
    }
  }

  lemma {:induction false} DigitsSlashFree(s: string)
    requires AllDigits(s)
    ensures SlashFree(s)
  {
  }

  /** Numbers and Booleans print without slashes. */
  lemma ExactSlashFree(v: KeyValue)
    requires v.Bool? || v.Integer? || v.Float?
    ensures SlashFree(Render(v))
  {
    hide FormatPartitionFloat;
    if v.Integer? {
      DigitsSlashFree(ToString(if v.n < 0 then -v.n else v.n));
    } else if v.Float? {
      FloatsPrintAlike(v.x, v.x);
    }
  }

  /** How values of each kind are written. */
  lemma RenderedValues()
    ensures Render(Bool(true)) == "true" && Render(Bool(false)) == "false"
    ensures Render(Integer(2024)) == "2024" && Render(Integer(-7)) == "-7" && Render(Text("x y")) == "x y"
    ensures Render(Float(2.0)) == "2.0" && Render(Float(-0.0000000001)) == "-0.0"
  {
    assert ToString(20) == "20" && ToString(202) == "202" && ToString(2024) == "2024";
    assert ToString(7) == "7" && ToString(2) == "2" && ToString(0) == "0";
    assert Abs(2.0).Floor == 2 && Abs(-0.0000000001).Floor == 0;
    assert IsWhole(2.0) && IsWhole(-0.0000000001);
    hide ToString, IsWhole, Tenths, Units, FixedNat;
    WholeText(2.0);
    WholeText(-0.0000000001);
  }

  /** Two float keys that differ by less than the printed precision share a directory. */
  lemma FloatKeysCollide()
    ensures DirOf(["x"], [Float(1.0)]) == DirOf(["x"], [Float(1.0000000001)])
  {
    assert Abs(1.0).Floor == 1 && Abs(1.0000000001).Floor == 1;
    assert PrintAlike(1.0, 1.0000000001);
    hide PrintAlike;
    RenderAlike(Float(1.0), Float(1.0000000001));
    SameTextDirs(["x"], [Float(1.0)], [Float(1.0000000001)], 1);
  }
}
