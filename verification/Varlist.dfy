/** Resolving a varlist with wildcards against the columns of a file. */
module Varlist {
  import opened Wrappers
  import opened Streams

  // ---------- What a pattern means ----------

  /** What one pattern character may stand for. */
  predicate StandsFor(c: char, piece: string) {
    match c
    case '*' => true
    case '?' => |piece| == 1
    case _ => piece == [c]
  }

  function Concat(pieces: seq<string>): string {
    if pieces == [] then "" else pieces[0] + Concat(pieces[1..])
  }

  /** The name can be cut into pieces, one for each pattern character. */
  ghost predicate CutsInto(pattern: string, name: string, pieces: seq<string>) {
    && |pieces| == |pattern|
    && (forall i :: 0 <= i < |pattern| ==> StandsFor(pattern[i], pieces[i]))
    && Concat(pieces) == name
  }

  ghost predicate Matches(pattern: string, name: string) {
    exists pieces: seq<string> :: CutsInto(pattern, name, pieces)
  }

  lemma MatchesNothing(name: string)
    ensures Matches("", name) <==> name == ""
  {
    assert CutsInto("", "", []);
  }

  lemma MatchesFirst(pattern: string, name: string, k: nat)
    requires pattern != "" && k <= |name| && StandsFor(pattern[0], name[..k]) && Matches(pattern[1..], name[k..])
    ensures Matches(pattern, name)
  {
    var pieces: seq<string> :| CutsInto(pattern[1..], name[k..], pieces);
    var all := [name[..k]] + pieces;
    assert all[1..] == pieces;
    assert name[..k] + name[k..] == name;
    assert CutsInto(pattern, name, all);
  }

  lemma FirstPiece(pattern: string, name: string) returns (k: nat)
    requires pattern != "" && Matches(pattern, name)
    ensures k <= |name| && StandsFor(pattern[0], name[..k]) && Matches(pattern[1..], name[k..])
  {
    var pieces: seq<string> :| CutsInto(pattern, name, pieces);
    k := |pieces[0]|;
    assert name == pieces[0] + Concat(pieces[1..]);
    assert name[..k] == pieces[0] && name[k..] == Concat(pieces[1..]);
    assert CutsInto(pattern[1..], name[k..], pieces[1..]);
  }

  predicate IsWildcard(pattern: string) { '*' in pattern || '?' in pattern }

  /** Without wildcards a pattern matches itself alone. */
  lemma {:induction false} LiteralMatchesItself(pattern: string, name: string)
    requires !IsWildcard(pattern)
    ensures Matches(pattern, name) <==> name == pattern
  {
    if pattern == "" {
      MatchesNothing(name);
    } else {
      if Matches(pattern, name) {
        var k := FirstPiece(pattern, name);
        LiteralMatchesItself(pattern[1..], name[k..]);
        assert name == name[..k] + name[k..];
      }
      if name == pattern {
        LiteralMatchesItself(pattern[1..], pattern[1..]);
        assert name[..1] == [pattern[0]];
        MatchesFirst(pattern, name, 1);
      }
    }
  }

  lemma StarMatchesAll(name: string)
    ensures Matches("*", name)
  {
    assert name[|name|..] == "" && "*"[1..] == "";
    MatchesNothing("");
    MatchesFirst("*", name, |name|);
  }

  method StataGlobMatch(pattern: string, name: string) returns (hit: bool)
    ensures hit <==> Matches(pattern, name)
    decreases |pattern|
  {
    hide Matches;
    if pattern == "" {
      MatchesNothing(name);
      return name == "";
    }
    var rest := pattern[1..];
    ghost var k: nat := 0;
    if Matches(pattern, name) {
      k := FirstPiece(pattern, name);
    }
    if pattern[0] == '*' {
      hit := StataGlobMatch(rest, name);
      assert name[0..] == name;
      if hit {
        MatchesFirst(pattern, name, 0);
        return;
      }
      var from := 0;
      while from < |name|
        invariant 0 <= from <= |name|
        invariant forall j :: 0 <= j <= from ==> !Matches(rest, name[j..])
      {
        from := from + 1;
        hit := StataGlobMatch(rest, name[from..]);
        if hit {
          MatchesFirst(pattern, name, from);
          return;
        }
      }
      return false;
    } else if pattern[0] == '?' {
      if name == "" {
        return false;
      }
      hit := StataGlobMatch(rest, name[1..]);
    } else {
      if name == "" || name[0] != pattern[0] {
        return false;
      }
      hit := StataGlobMatch(rest, name[1..]);
    }
    assert |name[..1]| == 1 && name[..1][0] == name[0];
    if hit {
      assert name[..1] == [name[0]];
      MatchesFirst(pattern, name, 1);
    }
  }

  // ---------- The selection ----------

  ghost predicate AnyMatch(patterns: seq<string>, col: string) {
    exists k :: 0 <= k < |patterns| && Matches(patterns[k], col)
  }

  /** The first pattern that matches a column, or the number of patterns. */
  ghost function First(patterns: seq<string>, col: string): (k: nat)
    ensures k <= |patterns|
    ensures forall j :: 0 <= j < k ==> !Matches(patterns[j], col)
    ensures k < |patterns| ==> Matches(patterns[k], col)
  {
    if patterns == [] then 0
    else if Matches(patterns[0], col) then 0
    else
      var k := First(patterns[1..], col);
      assert forall j :: 1 <= j <= k ==> patterns[j] == patterns[1..][j - 1];
      k + 1
  }

  /** Where a column stands in the file. */
  function Position(schema: seq<string>, col: string): (i: nat)
    requires col in schema
    ensures i < |schema| && schema[i] == col
  {
    if schema[0] == col then 0 else 1 + Position(schema[1..], col)
  }

  /** Order of the result: first matching pattern, then file position. */
  ghost predicate Before(patterns: seq<string>, schema: seq<string>, a: string, b: string) {
    && a in schema && b in schema
    && var fa, fb := First(patterns, a), First(patterns, b);
       fa < fb || (fa == fb && Position(schema, a) < Position(schema, b))
  }

  ghost predicate InOrder(cols: seq<string>, patterns: seq<string>, schema: seq<string>) {
    forall i, j :: 0 <= i < j < |cols| ==> Before(patterns, schema, cols[i], cols[j])
  }

  ghost predicate IsSelection(cols: seq<string>, patterns: seq<string>, drops: seq<string>, schema: seq<string>) {
    && (forall c :: c in cols <==> c in schema && AnyMatch(patterns, c) && !AnyMatch(drops, c))
    && InOrder(cols, patterns, schema)
  }

  lemma SelectionIsDistinct(cols: seq<string>, patterns: seq<string>, drops: seq<string>, schema: seq<string>)
    requires IsSelection(cols, patterns, drops, schema)
    ensures Distinct(cols)
  {
    forall i, j | 0 <= i < j < |cols| ensures cols[i] != cols[j] {
      assert Before(patterns, schema, cols[i], cols[j]);
    }
  }

  lemma BothLast(a: seq<string>, b: seq<string>, patterns: seq<string>, schema: seq<string>, k: nat, l: nat)
    requires a != [] && b != [] && InOrder(a, patterns, schema) && InOrder(b, patterns, schema)
    requires k < |b| && b[k] == a[|a| - 1] && l < |a| && a[l] == b[|b| - 1]
    ensures a[|a| - 1] == b[|b| - 1]
  {
    hide First, Position;
    assert k == |b| - 1 || Before(patterns, schema, b[k], b[|b| - 1]);
    assert l == |a| - 1 || Before(patterns, schema, a[l], a[|a| - 1]);
  }

  lemma LastOnce(a: seq<string>, patterns: seq<string>, schema: seq<string>)
    requires a != [] && InOrder(a, patterns, schema)
    ensures InOrder(a[..|a| - 1], patterns, schema)
    ensures forall c :: c in a[..|a| - 1] <==> c in a && c != a[|a| - 1]
  {
    hide First, Position;
    var init := a[..|a| - 1];
    forall c | c in init ensures c != a[|a| - 1] {
      var k :| 0 <= k < |init| && init[k] == c;
      assert Before(patterns, schema, a[k], a[|a| - 1]);
    }
    assert a == init + [a[|a| - 1]];
  }

  /** There is only one selection. */
  lemma {:induction false} InOrderUnique(a: seq<string>, b: seq<string>, patterns: seq<string>, schema: seq<string>)
    requires InOrder(a, patterns, schema) && InOrder(b, patterns, schema)
    requires forall c :: c in a <==> c in b
    ensures a == b
  {
    hide Before, InOrder;
    assert a != [] ==> a[0] in b;
    assert b != [] ==> b[0] in a;
    if a == [] {
    } else {
      var i, j := |a| - 1, |b| - 1;
      assert a[i] in b && b[j] in a;
      var k :| 0 <= k < |b| && b[k] == a[i];
      var l :| 0 <= l < |a| && a[l] == b[j];
      BothLast(a, b, patterns, schema, k, l);
      LastOnce(a, patterns, schema);
      LastOnce(b, patterns, schema);
      forall c ensures c in a[..i] <==> c in b[..j] {
        assert c in a[..i] <==> c in a && c != a[i];
        assert c in b[..j] <==> c in b && c != b[j];
      }
      InOrderUnique(a[..i], b[..j], patterns, schema);
      assert a == a[..i] + [a[i]] && b == b[..j] + [b[j]];
    }
  }

  lemma SelectionUnique(a: seq<string>, b: seq<string>, patterns: seq<string>, drops: seq<string>, schema: seq<string>)
    requires IsSelection(a, patterns, drops, schema) && IsSelection(b, patterns, drops, schema)
    ensures a == b
  {
    InOrderUnique(a, b, patterns, schema);
  }

  // ---------- Names reported as not found ----------

  /** An exact name is reported when it is no column or an earlier pattern already took its column. */
  ghost predicate Reported(patterns: seq<string>, schema: seq<string>, i: nat)
    requires i < |patterns|
  {
    && !IsWildcard(patterns[i])
    && (patterns[i] !in schema || AnyMatch(patterns[..i], patterns[i]))
  }

  ghost function ReportedNames(patterns: seq<string>, schema: seq<string>, n: nat): seq<string>
    requires n <= |patterns|
  {
    if n == 0 then []
    else ReportedNames(patterns, schema, n - 1) + if Reported(patterns, schema, n - 1) then [patterns[n - 1]] else []
  }

  lemma ReportedByFirst(patterns: seq<string>, schema: seq<string>, i: nat)
    requires i < |patterns| && !IsWildcard(patterns[i])
    ensures Reported(patterns, schema, i) <==> patterns[i] !in schema || First(patterns, patterns[i]) < i
  {
    LiteralMatchesItself(patterns[i], patterns[i]);
    var f := First(patterns, patterns[i]);
    if f < i {
      assert patterns[..i][f] == patterns[f];
    }
  }

  lemma {:induction false} NoneReported(patterns: seq<string>, schema: seq<string>, n: nat)
    requires n <= |patterns|
    ensures ReportedNames(patterns, schema, n) == [] <==> forall i: nat :: i < n ==> !Reported(patterns, schema, i)
  {
    hide Reported;
    if n == 0 {
    } else {
      NoneReported(patterns, schema, n - 1);
    }
  }

  // ---------- Resolution ----------

  /** Patterns in force: an empty namelist means all columns. */
  function InForce(namelist: seq<string>): seq<string> { if namelist == [] then ["*"] else namelist }

  /** The list of all columns before (pattern i, position j) in the order of the result. */
  ghost predicate Reached(cols: seq<string>, patterns: seq<string>, schema: seq<string>, i: nat, j: nat) {
    && (forall c :: c in cols <==>
          c in schema && (First(patterns, c) < i || (First(patterns, c) == i && Position(schema, c) < j)))
    && InOrder(cols, patterns, schema)
  }

  lemma PositionOf(schema: seq<string>, i: nat)
    requires Distinct(schema) && i < |schema|
    ensures Position(schema, schema[i]) == i
  {
    assert schema[Position(schema, schema[i])] == schema[i];
  }

  /** A hit that is not yet in the list is a column whose first match is this pattern. */
  lemma FreshHit(cols: seq<string>, patterns: seq<string>, schema: seq<string>, i: nat, j: nat)
    requires Distinct(schema) && Reached(cols, patterns, schema, i, j) && j < |schema| && i < |patterns|
    ensures Matches(patterns[i], schema[j]) && schema[j] !in cols <==> First(patterns, schema[j]) == i
  {
    PositionOf(schema, j);
    assert Matches(patterns[i], schema[j]) ==> First(patterns, schema[j]) <= i;
    hide First, Position, Matches, InOrder;
  }

  lemma ReachedStep(cols: seq<string>, patterns: seq<string>, schema: seq<string>, i: nat, j: nat)
    requires Distinct(schema) && Reached(cols, patterns, schema, i, j) && j < |schema|
    ensures Reached(if First(patterns, schema[j]) == i then cols + [schema[j]] else cols, patterns, schema, i, j + 1)
  {
    hide First, Position, Matches;
    PositionOf(schema, j);
    var col := schema[j];
    forall c | c in schema && Position(schema, c) == j ensures c == col {
      assert schema[Position(schema, c)] == c;
    }
    forall c | c in cols ensures Before(patterns, schema, c, col) || First(patterns, col) != i {
    }
  }

  lemma ReachedNext(cols: seq<string>, patterns: seq<string>, schema: seq<string>, i: nat)
    requires Reached(cols, patterns, schema, i, |schema|)
    ensures Reached(cols, patterns, schema, i + 1, 0)
  {
    hide First, Position, Matches;
  }

  lemma ReachedAll(cols: seq<string>, patterns: seq<string>, schema: seq<string>)
    requires Reached(cols, patterns, schema, |patterns|, 0)
    ensures IsSelection(cols, patterns, [], schema)
  {
    hide Position, Matches;
    forall c ensures c in cols <==> c in schema && AnyMatch(patterns, c) {
      if AnyMatch(patterns, c) {
        var k :| 0 <= k < |patterns| && Matches(patterns[k], c);
        assert First(patterns, c) <= k;
      }
    }
  }

  lemma ReachedNothing(patterns: seq<string>, schema: seq<string>)
    ensures Reached([], patterns, schema, 0, 0)
  {
    hide First, Position, Matches;
  }

  /** An exact name is found as a new column exactly when it is not reported. */
  lemma FoundExact(patterns: seq<string>, schema: seq<string>, i: nat)
    requires i < |patterns|
    ensures !IsWildcard(patterns[i]) && !(exists k :: 0 <= k < |schema| && First(patterns, schema[k]) == i)
       <==> Reported(patterns, schema, i)
  {
    if IsWildcard(patterns[i]) {
      return;
    }
    ReportedByFirst(patterns, schema, i);
    LiteralMatchesItself(patterns[i], patterns[i]);
    var f := First(patterns, patterns[i]);
    assert f <= i;
    forall k | 0 <= k < |schema| && First(patterns, schema[k]) == i ensures schema[k] == patterns[i] {
      LiteralMatchesItself(patterns[i], schema[k]);
    }
  }

  /** Adds the columns a pattern matches and that are not in the list yet. */
  method MatchPattern(patterns: seq<string>, schema: seq<string>, i: nat,
                      before: seq<string>) returns (result: seq<string>, found: bool)
    requires Distinct(schema) && i < |patterns| && Reached(before, patterns, schema, i, 0)
    ensures Reached(result, patterns, schema, i + 1, 0)
    ensures !IsWildcard(patterns[i]) && !found <==> Reported(patterns, schema, i)
  {
    hide First, Position, Matches, Reached, Reported;
    var pattern := patterns[i];
    result, found := before, false;
    for j := 0 to |schema|
      invariant Reached(result, patterns, schema, i, j)
      invariant found <==> exists k :: 0 <= k < j && First(patterns, schema[k]) == i
    {
      var col := schema[j];
      var hit;
      if IsWildcard(pattern) {
        hit := StataGlobMatch(pattern, col);
      } else {
        LiteralMatchesItself(pattern, col);
        hit := col == pattern;
      }
      FreshHit(result, patterns, schema, i, j);
      ReachedStep(result, patterns, schema, i, j);
      if hit && col !in result {
        result := result + [col];
        found := true;
      }
    }
    ReachedNext(result, patterns, schema, i);
    FoundExact(patterns, schema, i);
  }

  /** Columns in file order for the patterns of one namelist, and the exact names not found. */
  method MatchPatterns(patterns: seq<string>, schema: seq<string>) returns (result: seq<string>, unmatched: seq<string>)
    requires Distinct(schema)
    ensures IsSelection(result, patterns, [], schema)
    ensures unmatched == ReportedNames(patterns, schema, |patterns|)
  {
    hide First, Position, Matches, Reached, Reported, IsSelection;
    result, unmatched := [], [];
    ReachedNothing(patterns, schema);
    for i := 0 to |patterns|
      invariant Reached(result, patterns, schema, i, 0)
      invariant unmatched == ReportedNames(patterns, schema, i)
    {
      var found;
      result, found := MatchPattern(patterns, schema, i, result);
      if !found && !IsWildcard(patterns[i]) {
        unmatched := unmatched + [patterns[i]];
      }
    }
    ReachedAll(result, patterns, schema);
  }

  method MatchesAny(patterns: seq<string>, col: string) returns (any: bool)
    ensures any <==> AnyMatch(patterns, col)
  {
    hide Matches;
    for i := 0 to |patterns|
      invariant forall j :: 0 <= j < i ==> !Matches(patterns[j], col)
    {
      var hit;
      if IsWildcard(patterns[i]) {
        hit := StataGlobMatch(patterns[i], col);
      } else {
        LiteralMatchesItself(patterns[i], col);
        hit := col == patterns[i];
      }
      if hit {
        return true;
      }
    }
    return false;
  }

  /** The drop list removes the columns it matches and keeps the order of the others. */
  method ApplyDropList(cols: seq<string>, drops: seq<string>, ghost patterns: seq<string>,
                       ghost schema: seq<string>) returns (kept: seq<string>)
    requires IsSelection(cols, patterns, [], schema)
    ensures IsSelection(kept, patterns, drops, schema)
  {
    hide First, Position, Matches, Before;
    kept := [];
    for i := 0 to |cols|
      invariant forall c :: c in kept <==> c in cols[..i] && !AnyMatch(drops, c)
      invariant InOrder(kept, patterns, schema)
      invariant forall k, j :: 0 <= k < |kept| && i <= j < |cols| ==> Before(patterns, schema, kept[k], cols[j])
    {
      var dropped := MatchesAny(drops, cols[i]);
      assert cols[..i + 1] == cols[..i] + [cols[i]];
      if !dropped {
        kept := kept + [cols[i]];
      }
    }
    assert cols[..|cols|] == cols;
  }

  lemma AllColumns(schema: seq<string>)
    requires Distinct(schema)
    ensures IsSelection(schema, ["*"], [], schema)
  {
    hide Matches, Position;
    forall c ensures First(["*"], c) == 0 && AnyMatch(["*"], c) {
      StarMatchesAll(c);
      assert Matches(["*"][0], c);
    }
    forall i, j | 0 <= i < j < |schema| ensures Before(["*"], schema, schema[i], schema[j]) {
      PositionOf(schema, i);
      PositionOf(schema, j);
    }
  }

  /** The columns of the file that are not dropped, in file order. */
  ghost predicate IsRest(cols: seq<string>, drops: seq<string>, schema: seq<string>) {
    && (forall c :: c in cols <==> c in schema && !AnyMatch(drops, c))
    && forall i, j :: 0 <= i < j < |cols| ==>
         cols[i] in schema && cols[j] in schema && Position(schema, cols[i]) < Position(schema, cols[j])
  }

  lemma SelectionOfAll(cols: seq<string>, drops: seq<string>, schema: seq<string>)
    requires IsSelection(cols, ["*"], drops, schema)
    ensures IsRest(cols, drops, schema)
  {
    hide Matches, Position;
    forall c ensures First(["*"], c) == 0 && AnyMatch(["*"], c) {
      StarMatchesAll(c);
      assert Matches(["*"][0], c);
    }
    forall i, j | 0 <= i < j < |cols|
      ensures cols[i] in schema && cols[j] in schema && Position(schema, cols[i]) < Position(schema, cols[j])
    {
      assert Before(["*"], schema, cols[i], cols[j]);
    }
  }

  /** Resolves a namelist, then applies the drop list; an error names the exact names not found. */
  method ResolveVarlist(namelist: seq<string>, schema: seq<string>,
                        drops: seq<string>) returns (r: Result<seq<string>, seq<string>>)
    requires Distinct(schema)
    ensures r.Ok? ==> IsSelection(r.value, InForce(namelist), drops, schema)
    ensures r.Ok? && namelist == [] ==> IsRest(r.value, drops, schema)
    ensures r.Ok? <==> forall i: nat :: i < |namelist| ==> !Reported(namelist, schema, i)
    ensures r.Err? ==> r.error == ReportedNames(namelist, schema, |namelist|)
  {
    hide IsSelection, IsRest;
    var matched;
    if namelist == [] || namelist == ["*"] {
      matched := schema;
      AllColumns(schema);
      assert IsWildcard("*");
    } else {
      var unmatched;
      matched, unmatched := MatchPatterns(namelist, schema);
      NoneReported(namelist, schema, |namelist|);
      if unmatched != [] {
        return Err(unmatched);
      }
    }
    if drops != [] {
      matched := ApplyDropList(matched, drops, InForce(namelist), schema);
    }
    if namelist == [] {
      SelectionOfAll(matched, drops, schema);
    }
    r := Ok(matched);
  }

  /** A resolved varlist never repeats a column, and has every exact name the drop list leaves. */
  lemma ExactNamesSelected(cols: seq<string>, namelist: seq<string>, drops: seq<string>, schema: seq<string>, i: nat)
    requires IsSelection(cols, InForce(namelist), drops, schema) && i < |namelist| && !IsWildcard(namelist[i])
    requires !Reported(namelist, schema, i)
    ensures Distinct(cols) && namelist[i] in schema && (namelist[i] in cols <==> !AnyMatch(drops, namelist[i]))
  {
    SelectionIsDistinct(cols, InForce(namelist), drops, schema);
    LiteralMatchesItself(namelist[i], namelist[i]);
  }

  /** The price of the order: naming a column that an earlier pattern took is an error, though the column exists. */
  lemma RepeatedNameIsReported()
    ensures Reported(["x*", "x1"], ["x1"], 1)
  {
    MatchesNothing("");
    assert "*"[1..] == "" && "x1"[..1] == ['x'] && "1"[1..] == "" && "x*"[1..] == "*" && "x1"[1..] == "1";
    StarMatchesAll("1");
    MatchesFirst("x*", "x1", 1);
    assert ["x*", "x1"][..1][0] == "x*";
  }
}
