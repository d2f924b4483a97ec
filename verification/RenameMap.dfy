/** Renaming the columns of a file to Stata names without collisions (ASCII names). */
module RenameMap {
  import opened Decimal
  import opened StataNames
  import opened Counting
  import opened Streams

  // ---------- Suffixes ----------

  /** `{:03}` */
  function Pad3(n: nat): (s: string)
    ensures AllDigits(s) && s != "" && |s| >= |ToString(n)|
  {
    var s := ToString(n);
    if |s| == 1 then "00" + s else if |s| == 2 then "0" + s else s
  }

  function Suffixed(base: string, k: nat): string { base + "_" + Pad3(k) }

  function Base(processed: string): string { Truncate(processed, 28) }

  lemma ValueOfPad3(n: nat)
    ensures Value(Pad3(n)) == n
  {
    ValueOfToString(n);
    LeadingZero(ToString(n));
    LeadingZero("0" + ToString(n));
    assert "0" + ("0" + ToString(n)) == "00" + ToString(n);
  }

  /** A suffixed name tells its base and its number. */
  lemma SuffixedInjective(a: string, j: nat, b: string, k: nat)
    requires Suffixed(a, j) == Suffixed(b, k)
    ensures a == b && j == k
  {
    var s, d, e := Suffixed(a, j), Pad3(j), Pad3(k);
    assert s[|s| - 1 - |d|] == '_' && s[|s| - 1 - |e|] == '_';
    assert forall p :: |s| - |d| <= p < |s| ==> IsDigit(s[p]);
    assert forall p :: |s| - |e| <= p < |s| ==> IsDigit(s[p]);
    assert d == s[|s| - |d|..] == e;
    assert a == s[..|s| - 1 - |d|] == b;
    ValueOfPad3(j);
    ValueOfPad3(k);
  }

  /** The first n suffixed names of a base. */
  function FirstSuffixes(base: string, n: nat): set<string> {
    if n == 0 then {} else FirstSuffixes(base, n - 1) + {Suffixed(base, n)}
  }

  lemma {:induction false} FirstSuffixesMember(base: string, n: nat, name: string)
    ensures name in FirstSuffixes(base, n) <==> exists j: nat :: 1 <= j <= n && name == Suffixed(base, j)
  {
    hide Suffixed;
    if n == 0 {
    } else {
      FirstSuffixesMember(base, n - 1, name);
    }
  }

  lemma {:induction false} FirstSuffixesSize(base: string, n: nat)
    ensures |FirstSuffixes(base, n)| == n
  {
    hide Suffixed;
    if n == 0 {
    } else {
      FirstSuffixesSize(base, n - 1);
      FirstSuffixesMember(base, n - 1, Suffixed(base, n));
      forall j: nat | 1 <= j <= n - 1 ensures Suffixed(base, j) != Suffixed(base, n) {
        if Suffixed(base, j) == Suffixed(base, n) {
          SuffixedInjective(base, n, base, j);
        }
      }
    }
  }

  /** Among the suffixes up to one more than the used names, one is free. */
  lemma SuffixesFit(base: string, used: set<string>, k: nat)
    requires forall j: nat :: 1 <= j <= k ==> Suffixed(base, j) in used
    ensures k <= |used|
  {
    FirstSuffixesSize(base, k);
    forall name | name in FirstSuffixes(base, k) ensures name in used {
      FirstSuffixesMember(base, k, name);
    }
    SubsetSize(FirstSuffixes(base, k), used);
  }

  /** k is the first suffix number that gives an unused name. */
  ghost predicate FirstFree(base: string, used: set<string>, k: nat) {
    && k >= 1 && Suffixed(base, k) !in used
    && forall j: nat :: 1 <= j < k ==> Suffixed(base, j) in used
  }

  lemma FirstFreeUnique(base: string, used: set<string>, j: nat, k: nat)
    requires FirstFree(base, used, j) && FirstFree(base, used, k)
    ensures j == k
  {
    assert !(1 <= j < k) && !(1 <= k < j);
  }

  /** The suffix search: it stops within one try more than there are used names. */
  method FreeSuffix(base: string, used: set<string>) returns (counter: nat)
    ensures FirstFree(base, used, counter) && counter <= |used| + 1
  {
    counter := 1;
    SuffixesFit(base, used, 0);
    while Suffixed(base, counter) in used
      invariant counter >= 1
      invariant forall j: nat :: 1 <= j < counter ==> Suffixed(base, j) in used
      decreases |used| + 1 - counter
    {
      SuffixesFit(base, used, counter);
      counter := counter + 1;
    }
    SuffixesFit(base, used, counter - 1);
  }

  // ---------- The columns ----------

  /** A column's name in the file, and the name the first pass makes of it. */
  datatype Column = Column(original: string, processed: string)

  /** What the first pass makes of the names of a file. */
  function Columns(names: seq<string>): (schema: seq<Column>)
    ensures |schema| == |names| && forall i: nat :: i < |names| ==> schema[i].original == names[i]
  {
    seq(|names|, i requires 0 <= i < |names| => Column(names[i], Process(names[i])))
  }

  ghost predicate DistinctNames(schema: seq<Column>) {
    forall i, j :: 0 <= i < j < |schema| ==> schema[i].original != schema[j].original
  }

  ghost predicate NameBefore(schema: seq<Column>, name: string, n: nat)
  {
    n <= |schema| && exists i: nat :: i < n && schema[i].original == name
  }

  // ---------- What the map says ----------

  ghost predicate Renamed(schema: seq<Column>, i: nat)
  {
    i < |schema| && schema[i].processed != schema[i].original
  }

  /** Another column has the same processed name. */
  ghost predicate Crowded(schema: seq<Column>, i: nat)
  {
    i < |schema| && exists j: nat :: j < |schema| && j != i && schema[j].processed == schema[i].processed
  }

  /** The new names of the columns before column n. */
  ghost function Taken(schema: seq<Column>, renames: map<string, string>, n: nat): set<string>
    requires n <= |schema|
  {
    if n == 0 then {}
    else Taken(schema, renames, n - 1)
         + if schema[n - 1].original in renames then {renames[schema[n - 1].original]} else {}
  }

  ghost predicate PlacedAs(schema: seq<Column>, renames: map<string, string>, i: nat, name: string)
  {
    i < |schema| && (
      var base := Base(schema[i].processed);
      if Crowded(schema, i) then
        exists k: nat :: FirstFree(base, Taken(schema, renames, i), k) && name == Suffixed(base, k)
      else name == schema[i].processed)
  }

  /** A renamed column has its processed name if it is alone with it, else the first suffixed name
      that no earlier column took. */
  ghost predicate Placed(schema: seq<Column>, renames: map<string, string>, i: nat)
  {
    && i < |schema|
    && (Renamed(schema, i) <==> schema[i].original in renames)
    && (Renamed(schema, i) ==> PlacedAs(schema, renames, i, renames[schema[i].original]))
  }

  ghost predicate IsRenaming(schema: seq<Column>, renames: map<string, string>) {
    && (forall x :: x in renames ==> NameBefore(schema, x, |schema|))
    && forall i: nat :: i < |schema| ==> Placed(schema, renames, i)
  }

  /** The name a column ends up with. */
  function FinalName(schema: seq<Column>, renames: map<string, string>, i: nat): string
    requires i < |schema|
  {
    if schema[i].original in renames then renames[schema[i].original] else schema[i].original
  }

  ghost predicate DistinctFinals(schema: seq<Column>, renames: map<string, string>) {
    forall i: nat, j: nat :: i < j < |schema| ==> FinalName(schema, renames, i) != FinalName(schema, renames, j)
  }

  // ---------- The map is determined ----------

  lemma {:induction false} SameUpTo(schema: seq<Column>, a: map<string, string>, b: map<string, string>, n: nat)
    requires IsRenaming(schema, a) && IsRenaming(schema, b) && n <= |schema|
    ensures Taken(schema, a, n) == Taken(schema, b, n)
    ensures forall i: nat :: i < n && schema[i].original in a ==>
      schema[i].original in b && a[schema[i].original] == b[schema[i].original]
  {
    hide Base, Suffixed, FirstFree;
    if n == 0 {
    } else {
      SameUpTo(schema, a, b, n - 1);
      assert Placed(schema, a, n - 1) && Placed(schema, b, n - 1);
      if Renamed(schema, n - 1) && Crowded(schema, n - 1) {
        var base, used := Base(schema[n - 1].processed), Taken(schema, a, n - 1);
        var j: nat :| FirstFree(base, used, j) && a[schema[n - 1].original] == Suffixed(base, j);
        var k: nat :| FirstFree(base, used, k) && b[schema[n - 1].original] == Suffixed(base, k);
        FirstFreeUnique(base, used, j, k);
      }
    }
  }

  lemma {:induction false} RenamingUnique(schema: seq<Column>, a: map<string, string>, b: map<string, string>)
    requires IsRenaming(schema, a) && IsRenaming(schema, b)
    ensures a == b
  {
    hide Base, Suffixed, FirstFree;
    SameUpTo(schema, a, b, |schema|);
    forall x | NameBefore(schema, x, |schema|) ensures x in a <==> x in b {
      var i: nat :| i < |schema| && schema[i].original == x;
      assert Placed(schema, a, i) && Placed(schema, b, i);
    }
    forall x | x in a ensures a[x] == b[x] {
      var i: nat :| i < |schema| && schema[i].original == x;
      assert Placed(schema, a, i) && Placed(schema, b, i);
    }
  }

  // ---------- When the final names are distinct ----------

  ghost predicate IsSuffixed(schema: seq<Column>, i: nat)
  {
    i < |schema| && Renamed(schema, i) && Crowded(schema, i)
  }

  /** Column i's suffixed name is also the name of column j, which is kept, or renamed without suffix later on. */
  ghost predicate Clash(schema: seq<Column>, renames: map<string, string>, i: nat, j: nat)
  {
    && i < |schema| && j < |schema|
    && IsSuffixed(schema, i) && !IsSuffixed(schema, j)
    && (Renamed(schema, j) ==> i < j)
    && schema[j].processed == FinalName(schema, renames, i)
  }

  lemma {:induction false} TakenHas(schema: seq<Column>, renames: map<string, string>, i: nat, n: nat)
    requires i < n <= |schema| && schema[i].original in renames
    ensures renames[schema[i].original] in Taken(schema, renames, n)
  {
    if i == n - 1 {
    } else {
      TakenHas(schema, renames, i, n - 1);
    }
  }

  /** A suffixed name differs from every new name given earlier. */
  lemma SuffixedIsFresh(schema: seq<Column>, renames: map<string, string>, i: nat, j: nat)
    requires IsRenaming(schema, renames) && j < i < |schema| && IsSuffixed(schema, i) && schema[j].original in renames
    ensures FinalName(schema, renames, i) != FinalName(schema, renames, j)
  {
    hide Base, Suffixed;
    assert Placed(schema, renames, i);
    TakenHas(schema, renames, j, i);
  }

  /** The name of a column without suffix is its processed name. */
  lemma PlainName(schema: seq<Column>, renames: map<string, string>, i: nat)
    requires IsRenaming(schema, renames) && i < |schema| && !IsSuffixed(schema, i)
    ensures FinalName(schema, renames, i) == schema[i].processed
  {
    hide Base, Suffixed;
    assert Placed(schema, renames, i);
  }

  lemma TwoPlain(schema: seq<Column>, renames: map<string, string>, i: nat, j: nat)
    requires IsRenaming(schema, renames) && DistinctNames(schema) && i < j < |schema|
    requires !IsSuffixed(schema, i) && !IsSuffixed(schema, j)
    ensures FinalName(schema, renames, i) != FinalName(schema, renames, j)
  {
    PlainName(schema, renames, i);
    PlainName(schema, renames, j);
    assert schema[i].processed == schema[j].processed ==> Crowded(schema, i) && Crowded(schema, j);
  }

  lemma OnePlain(schema: seq<Column>, renames: map<string, string>, i: nat, j: nat)
    requires IsRenaming(schema, renames) && i < |schema| && j < |schema| && IsSuffixed(schema, i)
    requires !IsSuffixed(schema, j)
    ensures FinalName(schema, renames, i) == FinalName(schema, renames, j) <==> Clash(schema, renames, i, j)
  {
    PlainName(schema, renames, j);
    assert Placed(schema, renames, j) && i != j;
    if Renamed(schema, j) && j < i {
      SuffixedIsFresh(schema, renames, i, j);
    }
  }

  lemma ClashIsCollision(schema: seq<Column>, renames: map<string, string>, i: nat, j: nat)
    requires IsRenaming(schema, renames) && i < |schema| && j < |schema|
    ensures Clash(schema, renames, i, j) ==> i != j && FinalName(schema, renames, i) == FinalName(schema, renames, j)
  {
    hide FinalName, IsRenaming;
    if Clash(schema, renames, i, j) {
      OnePlain(schema, renames, i, j);
    }
  }

  lemma TwoSuffixed(schema: seq<Column>, renames: map<string, string>, i: nat, j: nat)
    requires IsRenaming(schema, renames) && i < j < |schema| && IsSuffixed(schema, i) && IsSuffixed(schema, j)
    ensures FinalName(schema, renames, i) != FinalName(schema, renames, j)
  {
    assert Placed(schema, renames, i);
    SuffixedIsFresh(schema, renames, j, i);
  }

  /** All names are distinct in the end exactly when no suffixed name is the name of a column that keeps
      its name or is renamed without suffix later. */
  lemma DistinctIffNoClash(schema: seq<Column>, renames: map<string, string>)
    requires DistinctNames(schema) && IsRenaming(schema, renames)
    ensures DistinctFinals(schema, renames)
       <==> forall i: nat, j: nat :: i < |schema| && j < |schema| ==> !Clash(schema, renames, i, j)
  {
    hide IsRenaming, IsSuffixed, Clash, FinalName;
    if DistinctFinals(schema, renames) {
      forall i: nat, j: nat | i < |schema| && j < |schema| ensures !Clash(schema, renames, i, j) {
        ClashIsCollision(schema, renames, i, j);
      }
    }
    if forall i: nat, j: nat :: i < |schema| && j < |schema| ==> !Clash(schema, renames, i, j) {
      forall i: nat, j: nat | i < j < |schema| ensures FinalName(schema, renames, i) != FinalName(schema, renames, j) {
        if IsSuffixed(schema, i) && IsSuffixed(schema, j) {
          TwoSuffixed(schema, renames, i, j);
        } else if IsSuffixed(schema, i) {
          OnePlain(schema, renames, i, j);
        } else if IsSuffixed(schema, j) {
          OnePlain(schema, renames, j, i);
        } else {
          TwoPlain(schema, renames, i, j);
        }
      }
    }
  }

  // ---------- The suffix numbers ----------

  /** How many of the first n columns get a suffix on this base. */
  ghost function Rank(schema: seq<Column>, base: string, n: nat): nat
    requires n <= |schema|
  {
    if n == 0 then 0
    else Rank(schema, base, n - 1) + if IsSuffixed(schema, n - 1) && Base(schema[n - 1].processed) == base then 1 else 0
  }

  /** Column j is renamed without suffix, to a name that looks like the base with suffix number k. */
  ghost predicate Lookalike(schema: seq<Column>, base: string, j: nat, k: nat)
  {
    j < |schema| && Renamed(schema, j) && !Crowded(schema, j) && k >= 1 && schema[j].processed == Suffixed(base, k)
  }

  /** How many of the numbers 1..m are not in `taken`. */
  ghost function Free(taken: set<nat>, m: nat): nat {
    if m == 0 then 0 else Free(taken, m - 1) + if m in taken then 0 else 1
  }

  lemma {:induction false} FreeGrows(taken: set<nat>, a: nat, b: nat)
    requires a < b
    ensures Free(taken, a) <= Free(taken, b)
    ensures b !in taken ==> Free(taken, a) < Free(taken, b)
  {
    if a == b - 1 {
    } else {
      FreeGrows(taken, a, b - 1);
    }
  }

  lemma {:induction false} FreeWithout(taken: set<nat>, k: nat, m: nat)
    requires k !in taken && k >= 1
    ensures Free(taken + {k}, m) == Free(taken, m) - if k <= m then 1 else 0
  {
    if m == 0 {
    } else {
      FreeWithout(taken, k, m - 1);
    }
  }

  /** The r-th of the positive numbers that are not in `taken`. */
  ghost predicate IsNthFree(taken: set<nat>, r: nat, k: nat) {
    k >= 1 && k !in taken && Free(taken, k) == r
  }

  /** The number of a name on a base, 0 if it has none. */
  ghost function NumberOn(base: string, name: string): nat {
    if j: nat :| j >= 1 && name == Suffixed(base, j) then j else 0
  }

  /** The numbers on a base that columns before n, renamed without suffix, take away from the suffixed ones. */
  ghost function Skipped(schema: seq<Column>, base: string, n: nat): set<nat>
    requires n <= |schema|
  {
    if n == 0 then {}
    else
      var before, k := Skipped(schema, base, n - 1), NumberOn(base, schema[n - 1].processed);
      if Lookalike(schema, base, n - 1, k) && Free(before, k) > Rank(schema, base, n - 1) then before + {k} else before
  }

  /** A number is given away already: skipped, or among the first `rank` numbers that are not skipped. */
  ghost predicate InUse(skipped: set<nat>, rank: nat, m: nat) {
    m in skipped || Free(skipped, m) <= rank
  }

  lemma UseSkip(skipped: set<nat>, rank: nat, k: nat, m: nat)
    requires k >= 1 && m >= 1 && Free(skipped, k) > rank
    ensures InUse(skipped + {k}, rank, m) <==> m == k || InUse(skipped, rank, m)
  {
    if k in skipped {
      assert skipped + {k} == skipped;
    } else {
      FreeWithout(skipped, k, m);
      if m > k && m !in skipped {
        FreeGrows(skipped, k, m);
      }
    }
  }

  lemma {:induction false} UsedPrefix(skipped: set<nat>, rank: nat, n: nat)
    requires forall j: nat :: 1 <= j <= n ==> InUse(skipped, rank, j)
    ensures Free(skipped, n) <= rank
  {
    if n == 0 {
    } else {
      UsedPrefix(skipped, rank, n - 1);
      assert InUse(skipped, rank, n);
    }
  }

  /** The first number that is not in use is the next one not skipped. */
  lemma FirstUnused(skipped: set<nat>, rank: nat, k: nat)
    requires k >= 1 && !InUse(skipped, rank, k) && forall j: nat :: 1 <= j < k ==> InUse(skipped, rank, j)
    ensures IsNthFree(skipped, rank + 1, k)
  {
    UsedPrefix(skipped, rank, k - 1);
  }

  lemma UseNext(skipped: set<nat>, rank: nat, k: nat, m: nat)
    requires IsNthFree(skipped, rank + 1, k)
    ensures InUse(skipped, rank + 1, m) <==> m == k || InUse(skipped, rank, m)
  {
    if m < k {
      FreeGrows(skipped, m, k);
    } else if m > k && m !in skipped {
      FreeGrows(skipped, k, m);
    }
  }

  lemma NumberOnSuffixed(base: string, k: nat, name: string)
    requires k >= 1 && name == Suffixed(base, k)
    ensures NumberOn(base, name) == k
  {
    SuffixedInjective(base, k, base, NumberOn(base, name));
  }

  /** The suffix number of a suffixed column is the first one that gives an unused name. */
  lemma PlacedNumber(schema: seq<Column>, renames: map<string, string>, i: nat) returns (k: nat)
    requires IsRenaming(schema, renames) && i < |schema| && IsSuffixed(schema, i)
    ensures schema[i].original in renames && renames[schema[i].original] == Suffixed(Base(schema[i].processed), k)
    ensures FirstFree(Base(schema[i].processed), Taken(schema, renames, i), k)
  {
    hide Base, Suffixed, FirstFree, Crowded, Taken;
    assert Placed(schema, renames, i);
    k :| FirstFree(Base(schema[i].processed), Taken(schema, renames, i), k)
      && renames[schema[i].original] == Suffixed(Base(schema[i].processed), k);
  }

  lemma NothingInUse()
    ensures forall m: nat :: m >= 1 ==> !InUse({}, 0, m)
  {
    forall m: nat | m >= 1 ensures Free({}, m) > 0 {
      FreeGrows({}, 0, m);
    }
  }

  /** The taken numbers before column n are those in use. */
  ghost predicate NumbersKnown(schema: seq<Column>, renames: map<string, string>, base: string, n: nat)
  {
    n <= |schema| && forall m: nat :: m >= 1 ==>
      (Suffixed(base, m) in Taken(schema, renames, n) <==> InUse(Skipped(schema, base, n), Rank(schema, base, n), m))
  }

  lemma TakenKept(schema: seq<Column>, renames: map<string, string>, base: string, n: nat)
    requires IsRenaming(schema, renames) && 1 <= n <= |schema| && !Renamed(schema, n - 1)
    requires NumbersKnown(schema, renames, base, n - 1)
    ensures NumbersKnown(schema, renames, base, n)
  {
    hide Base, Suffixed, InUse, NumberOn, Free;
    assert Placed(schema, renames, n - 1);
  }

  lemma TakenSuffixed(schema: seq<Column>, renames: map<string, string>, base: string, n: nat)
    requires IsRenaming(schema, renames) && 1 <= n <= |schema| && IsSuffixed(schema, n - 1)
    requires NumbersKnown(schema, renames, base, n - 1)
    ensures NumbersKnown(schema, renames, base, n)
  {
    hide Base, Suffixed, InUse, NumberOn, Free, IsRenaming;
    var k := PlacedNumber(schema, renames, n - 1);
    var own := Base(schema[n - 1].processed);
    var skipped, rank := Skipped(schema, base, n - 1), Rank(schema, base, n - 1);
    if own == base {
      FirstUnused(skipped, rank, k);
    }
    forall m: nat | m >= 1
      ensures Suffixed(base, m) in Taken(schema, renames, n)
         <==> InUse(Skipped(schema, base, n), Rank(schema, base, n), m)
    {
      if Suffixed(base, m) == Suffixed(own, k) {
        SuffixedInjective(base, m, own, k);
      }
      if own == base {
        UseNext(skipped, rank, k, m);
      }
    }
  }

  lemma TakenPlain(schema: seq<Column>, renames: map<string, string>, base: string, n: nat)
    requires IsRenaming(schema, renames) && 1 <= n <= |schema| && Renamed(schema, n - 1) && !Crowded(schema, n - 1)
    requires NumbersKnown(schema, renames, base, n - 1)
    ensures NumbersKnown(schema, renames, base, n)
  {
    hide Base, Suffixed, Free, NumberOn;
    assert Placed(schema, renames, n - 1);
    var name := schema[n - 1].processed;
    var k := NumberOn(base, name);
    var skipped, rank := Skipped(schema, base, n - 1), Rank(schema, base, n - 1);
    forall m: nat | m >= 1
      ensures Suffixed(base, m) in Taken(schema, renames, n)
         <==> InUse(Skipped(schema, base, n), Rank(schema, base, n), m)
    {
      if Suffixed(base, m) == name {
        NumberOnSuffixed(base, m, name);
      }
      if k >= 1 && Free(skipped, k) > rank {
        UseSkip(skipped, rank, k, m);
      }
    }
  }

  /** Which suffixed names of a base are taken is known from the column names alone. */
  lemma {:induction false} TakenNumbers(schema: seq<Column>, renames: map<string, string>, base: string, n: nat)
    requires IsRenaming(schema, renames) && n <= |schema|
    ensures NumbersKnown(schema, renames, base, n)
  {
    hide Base, Suffixed, InUse, IsRenaming, Crowded, FirstFree, NumberOn;
    if n == 0 {
      NothingInUse();
    } else {
      TakenNumbers(schema, renames, base, n - 1);
      if !Renamed(schema, n - 1) {
        TakenKept(schema, renames, base, n);
      } else if IsSuffixed(schema, n - 1) {
        TakenSuffixed(schema, renames, base, n);
      } else {
        TakenPlain(schema, renames, base, n);
      }
    }
  }

  /** The suffix number of a column, for all files: with r earlier columns on the same base, the (r + 1)-th
      positive number that is not skipped. */
  lemma SuffixIsNthFree(schema: seq<Column>, renames: map<string, string>, i: nat) returns (k: nat)
    requires IsRenaming(schema, renames) && i < |schema| && IsSuffixed(schema, i)
    ensures var base := Base(schema[i].processed);
      && FinalName(schema, renames, i) == Suffixed(base, k)
      && IsNthFree(Skipped(schema, base, i), Rank(schema, base, i) + 1, k)
  {
    hide Base, Suffixed, InUse, Free, Skipped, Rank, Taken, IsRenaming, Crowded;
    var base := Base(schema[i].processed);
    k := PlacedNumber(schema, renames, i);
    TakenNumbers(schema, renames, base, i);
    FirstUnused(Skipped(schema, base, i), Rank(schema, base, i), k);
  }

  // ---------- Collisions, read off the column names ----------

  /** The numbers on a base of the lookalikes before column n. */
  ghost function Lookalikes(schema: seq<Column>, base: string, n: nat): set<nat>
    requires n <= |schema|
  {
    if n == 0 then {}
    else
      var k := NumberOn(base, schema[n - 1].processed);
      Lookalikes(schema, base, n - 1) + if Lookalike(schema, base, n - 1, k) then {k} else {}
  }

  /** Column j is a lookalike whose number has been given to a suffixed column before it. */
  ghost predicate LookalikeReused(schema: seq<Column>, base: string, j: nat, k: nat)
  {
    j < |schema| && Lookalike(schema, base, j, k) && Free(Lookalikes(schema, base, j), k) <= Rank(schema, base, j)
  }

  /** Column j keeps its name, and its number is given to a suffixed column. */
  ghost predicate KeptReused(schema: seq<Column>, base: string, j: nat, k: nat)
  {
    && j < |schema|
    && !Renamed(schema, j) && k >= 1 && schema[j].original == Suffixed(base, k)
    && Free(Lookalikes(schema, base, |schema|), k) <= Rank(schema, base, |schema|)
  }

  ghost predicate NoLookalikeReused(schema: seq<Column>, base: string, n: nat)
  {
    n <= |schema| && forall j: nat, k: nat :: j < n ==> !LookalikeReused(schema, base, j, k)
  }

  /** Until a lookalike's number has been given away, all lookalikes are skipped. */
  lemma {:induction false} SkippedIsLookalikes(schema: seq<Column>, base: string, n: nat)
    requires n <= |schema| && NoLookalikeReused(schema, base, n)
    ensures Skipped(schema, base, n) == Lookalikes(schema, base, n)
  {
    hide Lookalike, Free, NumberOn, Rank, Suffixed;
    if n == 0 {
    } else {
      SkippedIsLookalikes(schema, base, n - 1);
      var k := NumberOn(base, schema[n - 1].processed);
      assert !LookalikeReused(schema, base, n - 1, k);
      assert Lookalike(schema, base, n - 1, k) ==> Free(Lookalikes(schema, base, n - 1), k) > Rank(schema, base, n - 1);
      hide NoLookalikeReused, LookalikeReused;
    }
  }

  lemma {:induction false} LookalikesOrigin(schema: seq<Column>, base: string, n: nat, k: nat)
    requires n <= |schema| && k in Lookalikes(schema, base, n)
    ensures exists j: nat :: j < n && Lookalike(schema, base, j, k)
  {
    hide Lookalike, NumberOn, Suffixed;
    if n == 0 {
    } else {
      var last := NumberOn(base, schema[n - 1].processed);
      if Lookalike(schema, base, n - 1, last) && last == k {
      } else {
        LookalikesOrigin(schema, base, n - 1, k);
      }
    }
  }

  /** A name not shared with a lookalike has a number of its own. */
  lemma OwnNumber(schema: seq<Column>, base: string, n: nat, j: nat, k: nat)
    requires n <= |schema| && j < |schema| && schema[j].processed == Suffixed(base, k)
    requires j >= n || !Renamed(schema, j)
    ensures k !in Lookalikes(schema, base, n)
  {
    hide Suffixed, NumberOn;
    forall i: nat | i < n ensures !Lookalike(schema, base, i, k) {
      assert i != j && schema[i].processed == schema[j].processed ==> Crowded(schema, i);
    }
    if k in Lookalikes(schema, base, n) {
      LookalikesOrigin(schema, base, n, k);
    }
  }

  lemma {:induction false} TakenOrigin(schema: seq<Column>, renames: map<string, string>, n: nat,
                                       name: string) returns (i: nat)
    requires n <= |schema| && name in Taken(schema, renames, n)
    ensures i < n && schema[i].original in renames && renames[schema[i].original] == name
  {
    if n > 0 && schema[n - 1].original in renames && renames[schema[n - 1].original] == name {
      i := n - 1;
    } else {
      i := TakenOrigin(schema, renames, n - 1, name);
    }
  }

  /** A lookalike whose number has been given away shares its name with an earlier column. */
  lemma {:induction false} ReusedLookalikeCollides(schema: seq<Column>, renames: map<string, string>, base: string,
                                                   j: nat, k: nat)
    requires IsRenaming(schema, renames) && j < |schema| && LookalikeReused(schema, base, j, k)
    ensures !DistinctFinals(schema, renames)
  {
    hide Base, Suffixed, Free, Rank, IsRenaming, Lookalikes, Taken, Skipped;
    if i: nat, l: nat :| i < j && LookalikeReused(schema, base, i, l) {
      ReusedLookalikeCollides(schema, renames, base, i, l);
    } else {
      SkippedIsLookalikes(schema, base, j);
      TakenNumbers(schema, renames, base, j);
      assert Suffixed(base, k) in Taken(schema, renames, j);
      var i := TakenOrigin(schema, renames, j, Suffixed(base, k));
      PlainName(schema, renames, j);
      assert FinalName(schema, renames, i) == FinalName(schema, renames, j);
    }
  }

  lemma KeptName(schema: seq<Column>, renames: map<string, string>, j: nat)
    requires IsRenaming(schema, renames) && j < |schema| && !Renamed(schema, j)
    ensures schema[j].original !in renames && FinalName(schema, renames, j) == schema[j].original
  {
    assert Placed(schema, renames, j);
  }

  lemma ReusedKeptCollides(schema: seq<Column>, renames: map<string, string>, base: string, j: nat, k: nat)
    requires IsRenaming(schema, renames) && j < |schema| && KeptReused(schema, base, j, k)
    requires NoLookalikeReused(schema, base, |schema|)
    ensures !DistinctFinals(schema, renames)
  {
    hide Base, Suffixed, Free, Rank, IsRenaming, Lookalikes, Taken, Skipped;
    SkippedIsLookalikes(schema, base, |schema|);
    TakenNumbers(schema, renames, base, |schema|);
    assert Suffixed(base, k) in Taken(schema, renames, |schema|);
    var i := TakenOrigin(schema, renames, |schema|, Suffixed(base, k));
    KeptName(schema, renames, j);
    assert i != j && FinalName(schema, renames, i) == FinalName(schema, renames, j);
  }

  lemma FirstFreePositive(base: string, used: set<string>, k: nat)
    requires FirstFree(base, used, k)
    ensures k >= 1
  {
  }

  /** A clash is a reused number. */
  lemma ClashIsReuse(schema: seq<Column>, renames: map<string, string>, i: nat, j: nat)
    requires IsRenaming(schema, renames) && i < |schema| && j < |schema| && Clash(schema, renames, i, j)
    requires NoLookalikeReused(schema, Base(schema[i].processed), |schema|)
    ensures exists k: nat ::
      LookalikeReused(schema, Base(schema[i].processed), j, k) || KeptReused(schema, Base(schema[i].processed), j, k)
  {
    hide Base, Suffixed, Free, Rank, IsRenaming, Lookalikes, Taken, Skipped, FirstFree;
    var base := Base(schema[i].processed);
    var k := PlacedNumber(schema, renames, i);
    assert k >= 1 by { FirstFreePositive(base, Taken(schema, renames, i), k); }
    var n := if Renamed(schema, j) then j else |schema|;
    TakenHas(schema, renames, i, n);
    SkippedIsLookalikes(schema, base, n);
    TakenNumbers(schema, renames, base, n);
    OwnNumber(schema, base, n, j, k);
    assert LookalikeReused(schema, base, j, k) || KeptReused(schema, base, j, k);
  }

  lemma KeptReusedCollides(schema: seq<Column>, renames: map<string, string>, base: string, j: nat, k: nat)
    requires IsRenaming(schema, renames) && j < |schema| && KeptReused(schema, base, j, k)
    ensures !DistinctFinals(schema, renames)
  {
    hide Base, IsRenaming, DistinctFinals, LookalikeReused, KeptReused;
    if i: nat, l: nat :| i < |schema| && LookalikeReused(schema, base, i, l) {
      ReusedLookalikeCollides(schema, renames, base, i, l);
    } else {
      ReusedKeptCollides(schema, renames, base, j, k);
    }
  }

  /** All names are distinct in the end exactly when no lookalike's number was given to a suffixed column
      before it, and no kept name's number to a suffixed column at all. */
  lemma DistinctIffNothingReused(schema: seq<Column>, renames: map<string, string>)
    requires DistinctNames(schema) && IsRenaming(schema, renames)
    ensures DistinctFinals(schema, renames) <==>
      forall base, j: nat, k: nat :: j < |schema| ==>
        !LookalikeReused(schema, base, j, k) && !KeptReused(schema, base, j, k)
  {
    hide Base, IsRenaming, Clash, DistinctFinals, LookalikeReused, KeptReused;
    DistinctIffNoClash(schema, renames);
    if DistinctFinals(schema, renames) {
      forall base, j: nat, k: nat | j < |schema|
        ensures !LookalikeReused(schema, base, j, k) && !KeptReused(schema, base, j, k)
      {
        if LookalikeReused(schema, base, j, k) {
          ReusedLookalikeCollides(schema, renames, base, j, k);
        }
        if KeptReused(schema, base, j, k) {
          KeptReusedCollides(schema, renames, base, j, k);
        }
      }
    } else {
      var i: nat, j: nat :| i < |schema| && j < |schema| && Clash(schema, renames, i, j);
      if NoLookalikeReused(schema, Base(schema[i].processed), |schema|) {
        ClashIsReuse(schema, renames, i, j);
      }
    }
  }

  // ---------- Files without lookalikes ----------

  ghost predicate NoLookalike(schema: seq<Column>, base: string) {
    forall j: nat, k: nat :: j < |schema| ==> !Lookalike(schema, base, j, k)
  }

  lemma {:induction false} FreeOfNone(m: nat)
    ensures Free({}, m) == m
  {
    if m == 0 {
    } else {
      FreeOfNone(m - 1);
    }
  }

  lemma NoneToSkip(schema: seq<Column>, base: string, n: nat)
    requires n <= |schema| && NoLookalike(schema, base)
    ensures Lookalikes(schema, base, n) == Skipped(schema, base, n) == {}
  {
    hide Lookalike, Rank, Free, Lookalikes, Skipped;
    forall k | k in Lookalikes(schema, base, n) ensures false {
      LookalikesOrigin(schema, base, n, k);
    }
    SkippedIsLookalikes(schema, base, n);
  }

  /** Without lookalikes suffixes count up in file order: the suffix of a column is its rank. */
  lemma SuffixIsRank(schema: seq<Column>, renames: map<string, string>, i: nat)
    requires IsRenaming(schema, renames) && i < |schema| && IsSuffixed(schema, i)
    requires NoLookalike(schema, Base(schema[i].processed))
    ensures FinalName(schema, renames, i)
         == Suffixed(Base(schema[i].processed), Rank(schema, Base(schema[i].processed), i) + 1)
  {
    hide Base, Suffixed, Rank, Free, NoLookalike, Crowded;
    var k := SuffixIsNthFree(schema, renames, i);
    NoneToSkip(schema, Base(schema[i].processed), i);
    FreeOfNone(k);
  }

  ghost predicate KeptClash(schema: seq<Column>, base: string, j: nat, k: nat)
  {
    j < |schema| && !Renamed(schema, j) && 1 <= k <= Rank(schema, base, |schema|)
    && schema[j].original == Suffixed(base, k)
  }

  /** Without lookalikes the final names are distinct exactly when no kept name has a base with one of the
      numbers up to the base's rank. */
  lemma DistinctIffNoKeptClash(schema: seq<Column>, renames: map<string, string>)
    requires DistinctNames(schema) && IsRenaming(schema, renames) && forall base :: NoLookalike(schema, base)
    ensures DistinctFinals(schema, renames) <==>
      forall base, j: nat, k: nat :: j < |schema| ==> !KeptClash(schema, base, j, k)
  {
    hide IsRenaming, DistinctFinals, Lookalike, Rank, Free, Lookalikes, Suffixed;
    DistinctIffNothingReused(schema, renames);
    assert forall base :: NoLookalike(schema, base);
    forall base, j: nat, k: nat | j < |schema|
      ensures !LookalikeReused(schema, base, j, k)
      ensures (KeptReused(schema, base, j, k) <==> KeptClash(schema, base, j, k))
    {
      NoneToSkip(schema, base, |schema|);
      FreeOfNone(k);
      assert !Lookalike(schema, base, j, k);
    }
  }

  // ---------- Files whose names collide ----------

  lemma NotReserved()
    ensures !IsReserved("a_b") && !IsReserved("a_b_001")
  {
  }

  lemma ExampleNames()
    ensures Process("a b") == Process("a-b") == "a_b" && Process("a_b_001") == Process("a b_001") == "a_b_001"
    ensures Suffixed("a_b", 1) == "a_b_001"
  {
    NotReserved();
    hide IsReserved;
    assert Sanitize("a b") == Sanitize("a-b") == "a_b";
    assert Sanitize("a b_001") == "a_b_001";
    KeptIffStataName("a_b_001");
  }

  /** Names do collide: the first of two crowded columns is given the name a third column keeps. */
  lemma KeptNameIsReused(renames: map<string, string>)
    requires IsRenaming(Columns(["a b", "a-b", "a_b_001"]), renames)
    ensures !DistinctFinals(Columns(["a b", "a-b", "a_b_001"]), renames)
  {
    var schema := Columns(["a b", "a-b", "a_b_001"]);
    ExampleNames();
    hide Suffixed, Process;
    assert schema[0].processed == schema[1].processed;
    assert IsSuffixed(schema, 0) && !Renamed(schema, 2);
    assert Placed(schema, renames, 0) && Placed(schema, renames, 2);
    var k: nat :| FirstFree("a_b", {}, k) && renames[schema[0].original] == Suffixed("a_b", k);
    assert k == 1;
    assert FinalName(schema, renames, 0) == FinalName(schema, renames, 2);
  }

  /** So does a column that is renamed later: the third column, alone with its new name, takes the name the
      first was given. */
  lemma LaterNameIsReused(renames: map<string, string>)
    requires IsRenaming(Columns(["a b", "a-b", "a b_001"]), renames)
    ensures !DistinctFinals(Columns(["a b", "a-b", "a b_001"]), renames)
  {
    var schema := Columns(["a b", "a-b", "a b_001"]);
    ExampleNames();
    hide Suffixed, Process;
    assert schema[0].processed == schema[1].processed;
    assert IsSuffixed(schema, 0) && Renamed(schema, 2) && !Crowded(schema, 2);
    assert Placed(schema, renames, 0) && Placed(schema, renames, 2);
    var k: nat :| FirstFree("a_b", {}, k) && renames[schema[0].original] == Suffixed("a_b", k);
    assert k == 1;
    assert FinalName(schema, renames, 0) == FinalName(schema, renames, 2);
  }

  // ---------- The new names are Stata names ----------

  lemma {:induction false} TakenSize(schema: seq<Column>, renames: map<string, string>, n: nat)
    requires n <= |schema|
    ensures |Taken(schema, renames, n)| <= n
  {
    if n == 0 {
    } else {
      TakenSize(schema, renames, n - 1);
    }
  }

  /** Adding a short suffix to the base of a Stata name gives a Stata name. */
  lemma SuffixedIsStataName(name: string, k: nat)
    requires IsStataName(name) && k < 1000
    ensures IsStataName(Suffixed(Base(name), k))
  {
    hide IsReserved;
    ToStringShort(k);
    var base, s := Base(name), Suffixed(Base(name), k);
    assert IsDigit(s[|s| - 1]);
    forall i | 0 <= i < |s| ensures IsNameChar(s[i]) {
      if i >= |base| + 1 {
        assert s[i] == Pad3(k)[i - |base| - 1];
      }
    }
    assert s[0] == name[0];
    if IsReserved(s) {
      ReservedIsShort(s);
    }
  }

  lemma Pad3Length(n: nat)
    ensures |Pad3(n)| == if n < 1000 then 3 else |ToString(n)|
  {
    if n < 1000 {
      ToStringShort(n);
    } else {
      assert n / 10 >= 10 && n / 10 / 10 >= 10;
      assert ToString(n) == ToString(n / 10) + [DigitChar(n % 10)];
      assert ToString(n / 10) == ToString(n / 10 / 10) + [DigitChar(n / 10 % 10)];
      assert ToString(n / 10 / 10) == ToString(n / 10 / 10 / 10) + [DigitChar(n / 10 / 10 % 10)];
    }
  }

  /** `s` is the first 28 characters of `name`, an underscore, and the number k with at least three digits. */
  predicate IsNumbered(s: string, name: string, k: nat) {
    var n := if |name| < 28 then |name| else 28;
    && |s| == n + 1 + (if k < 1000 then 3 else |ToString(k)|)
    && s[..n] == name[..n] && s[n] == '_'
    && AllDigits(s[n + 1..]) && Value(s[n + 1..]) == k
  }

  lemma SuffixedIsNumbered(name: string, k: nat)
    ensures IsNumbered(Suffixed(Base(name), k), name, k)
  {
    hide ToString;
    var s, n := Suffixed(Base(name), k), |Base(name)|;
    Pad3Length(k);
    ValueOfPad3(k);
    hide Pad3;
    assert s[n + 1..] == Pad3(k);
  }

  /** Another column of the file has the same processed name. */
  ghost predicate SharesName(names: seq<string>, i: nat)
    requires i < |names|
  {
    exists j :: 0 <= j < |names| && j != i && Process(names[j]) == Process(names[i])
  }

  lemma SharesIsCrowded(names: seq<string>, i: nat)
    requires i < |names|
    ensures Crowded(Columns(names), i) <==> SharesName(names, i)
  {
    hide Process;
    var schema := Columns(names);
    assert forall j: nat :: j < |names| ==> schema[j].processed == Process(names[j]);
    hide Columns;
  }

  lemma NumberedName(schema: seq<Column>, renames: map<string, string>, i: nat) returns (k: nat)
    requires IsRenaming(schema, renames) && i < |schema| && IsSuffixed(schema, i)
    ensures k >= 1 && IsNumbered(FinalName(schema, renames, i), schema[i].processed, k)
  {
    hide Base, Suffixed, IsNumbered;
    assert Placed(schema, renames, i);
    var base, used := Base(schema[i].processed), Taken(schema, renames, i);
    k :| FirstFree(base, used, k) && renames[schema[i].original] == Suffixed(base, k);
    SuffixedIsNumbered(schema[i].processed, k);
  }

  /** What a column is called in the end: its name if it is kept, the processed name if that is the only one,
      else a numbered one. */
  lemma FinalNameShape(names: seq<string>, renames: map<string, string>, i: nat)
    requires IsRenaming(Columns(names), renames) && i < |names|
    ensures var name := FinalName(Columns(names), renames, i);
      if Process(names[i]) == names[i] then name == names[i]
      else if !SharesName(names, i) then name == Process(names[i])
      else exists k :: k >= 1 && IsNumbered(name, Process(names[i]), k)
  {
    hide Process, IsNumbered, IsRenaming, FinalName, SharesName, Crowded;
    var schema := Columns(names);
    assert schema[i].processed == Process(names[i]);
    hide Columns;
    SharesIsCrowded(names, i);
    if IsSuffixed(schema, i) {
      var k := NumberedName(schema, renames, i);
    } else {
      PlainName(schema, renames, i);
    }
  }

  /** Every column up to the 999th ends up with a name Stata accepts. */
  lemma FinalIsStataName(names: seq<string>, renames: map<string, string>, i: nat)
    requires IsRenaming(Columns(names), renames) && i < |names| && i < 999 && names[i] != ""
    ensures IsStataName(FinalName(Columns(names), renames, i))
  {
    var schema := Columns(names);
    assert schema[i].processed == Process(names[i]);
    ProcessGivesStataName(names[i]);
    hide Columns, Process, IsStataName, Base, Suffixed;
    assert Placed(schema, renames, i);
    if IsSuffixed(schema, i) {
      var base, used := Base(schema[i].processed), Taken(schema, renames, i);
      var k: nat :| FirstFree(base, used, k) && renames[schema[i].original] == Suffixed(base, k);
      SuffixesFit(base, used, k - 1);
      TakenSize(schema, renames, i);
      SuffixedIsStataName(schema[i].processed, k);
    }
  }

  // ---------- The method ----------

  ghost function CountOf(schema: seq<Column>, name: string, n: nat): nat
    requires n <= |schema|
  {
    if n == 0 then 0 else CountOf(schema, name, n - 1) + if schema[n - 1].processed == name then 1 else 0
  }

  lemma {:induction false} CountNone(schema: seq<Column>, name: string, n: nat)
    requires n <= |schema|
    ensures CountOf(schema, name, n) == 0 <==> forall j: nat :: j < n ==> schema[j].processed != name
  {
    if n == 0 {
    } else {
      CountNone(schema, name, n - 1);
    }
  }

  lemma {:induction false} CountOne(schema: seq<Column>, i: nat, n: nat)
    requires i < n <= |schema|
    ensures CountOf(schema, schema[i].processed, n) == 1
       <==> forall j: nat :: j < n && j != i ==> schema[j].processed != schema[i].processed
  {
    CountNone(schema, schema[i].processed, n - 1);
    if i == n - 1 {
    } else {
      CountOne(schema, i, n - 1);
    }
  }

  /** How many columns have each processed name. */
  method CountNames(schema: seq<Column>) returns (counts: map<string, nat>)
    ensures forall i: nat :: i < |schema| ==>
      schema[i].processed in counts && (counts[schema[i].processed] == 1 <==> !Crowded(schema, i))
  {
    counts := map[];
    for n := 0 to |schema|
      invariant forall i: nat :: i < n ==> schema[i].processed in counts
      invariant forall name :: (if name in counts then counts[name] else 0) == CountOf(schema, name, n)
    {
      var name := schema[n].processed;
      counts := counts[name := (if name in counts then counts[name] else 0) + 1];
    }
    forall i: nat | i < |schema| ensures counts[schema[i].processed] == 1 <==> !Crowded(schema, i) {
      CountOne(schema, i, |schema|);
    }
  }

  predicate SameAt(x: string, a: map<string, string>, b: map<string, string>) {
    (x in a <==> x in b) && (x in a ==> a[x] == b[x])
  }

  lemma {:induction false} TakenFrame(schema: seq<Column>, a: map<string, string>, b: map<string, string>, n: nat)
    requires n <= |schema|
    requires forall i: nat :: i < n ==> SameAt(schema[i].original, a, b)
    ensures Taken(schema, a, n) == Taken(schema, b, n)
  {
    if n == 0 {
    } else {
      TakenFrame(schema, a, b, n - 1);
    }
  }

  lemma PlacedFrame(schema: seq<Column>, a: map<string, string>, b: map<string, string>, i: nat)
    requires i < |schema| && Placed(schema, a, i)
    requires forall j: nat :: j <= i ==> SameAt(schema[j].original, a, b)
    ensures Placed(schema, b, i)
  {
    hide Base, Suffixed, FirstFree, Crowded;
    TakenFrame(schema, a, b, i);
  }

  /** The columns before n are placed, and nothing else is in the map. */
  ghost predicate PlacedUpTo(schema: seq<Column>, renames: map<string, string>, n: nat)
  {
    && n <= |schema|
    && (forall x :: x in renames ==> NameBefore(schema, x, n))
    && forall i: nat :: i < n ==> Placed(schema, renames, i)
  }

  lemma PlacedAsFrame(schema: seq<Column>, a: map<string, string>, b: map<string, string>, n: nat, name: string)
    requires n < |schema| && Taken(schema, a, n) == Taken(schema, b, n) && PlacedAs(schema, a, n, name)
    ensures PlacedAs(schema, b, n, name)
  {
    hide Base, Suffixed, FirstFree, Crowded, Taken;
  }

  lemma PlaceNext(schema: seq<Column>, renames: map<string, string>, n: nat, name: string)
    requires DistinctNames(schema) && n < |schema| && PlacedUpTo(schema, renames, n)
    requires Renamed(schema, n) && PlacedAs(schema, renames, n, name)
    ensures PlacedUpTo(schema, renames[schema[n].original := name], n + 1)
    ensures Taken(schema, renames[schema[n].original := name], n + 1) == Taken(schema, renames, n) + {name}
  {
    hide PlacedAs;
    var next := renames[schema[n].original := name];
    forall i: nat | i < n ensures Placed(schema, next, i) {
      PlacedFrame(schema, renames, next, i);
    }
    TakenFrame(schema, renames, next, n);
    PlacedAsFrame(schema, renames, next, n, name);
  }

  lemma PlaceKept(schema: seq<Column>, renames: map<string, string>, n: nat)
    requires DistinctNames(schema) && n < |schema| && PlacedUpTo(schema, renames, n) && !Renamed(schema, n)
    ensures PlacedUpTo(schema, renames, n + 1) && Taken(schema, renames, n + 1) == Taken(schema, renames, n)
  {
    hide PlacedAs;
    assert !NameBefore(schema, schema[n].original, n);
  }

  /** The new name of a column that needs one. */
  method NewName(schema: seq<Column>, counts: map<string, nat>, used: set<string>, n: nat,
                 ghost renames: map<string, string>)
      returns (name: string)
    requires n < |schema| && used == Taken(schema, renames, n)
    requires schema[n].processed in counts && (counts[schema[n].processed] == 1 <==> !Crowded(schema, n))
    ensures PlacedAs(schema, renames, n, name)
  {
    hide Base, Suffixed, Crowded, FirstFree, Taken;
    name := schema[n].processed;
    if counts[name] != 1 {
      var counter := FreeSuffix(Base(name), used);
      name := Suffixed(Base(name), counter);
    }
  }

  lemma PlacedNothing(schema: seq<Column>)
    ensures PlacedUpTo(schema, map[], 0) && Taken(schema, map[], 0) == {}
  {
  }

  lemma PlacedAll(schema: seq<Column>, renames: map<string, string>)
    requires PlacedUpTo(schema, renames, |schema|)
    ensures IsRenaming(schema, renames)
  {
    hide Placed;
  }

  /** The processed name of every column. */
  method FirstPass(names: seq<string>) returns (schema: seq<Column>)
    ensures schema == Columns(names)
  {
    hide Process;
    schema := [];
    for n := 0 to |names|
      invariant schema == Columns(names)[..n]
    {
      schema := schema + [Column(names[n], Process(names[n]))];
    }
  }

  /** The new names of the columns that need one, in file order. */
  method Rename(schema: seq<Column>) returns (renames: map<string, string>)
    requires DistinctNames(schema)
    ensures IsRenaming(schema, renames)
  {
    hide PlacedUpTo, PlacedAs, Crowded, Taken;
    var counts := CountNames(schema);
    renames := map[];
    var used: set<string> := {};
    PlacedNothing(schema);
    for n := 0 to |schema|
      invariant PlacedUpTo(schema, renames, n) && used == Taken(schema, renames, n)
    {
      if schema[n].original == schema[n].processed {
        PlaceKept(schema, renames, n);
      } else {
        var name := NewName(schema, counts, used, n, renames);
        PlaceNext(schema, renames, n, name);
        renames := renames[schema[n].original := name];
        used := used + {name};
      }
    }
    PlacedAll(schema, renames);
  }

  /** The rename map of a file's columns. */
  method GenerateRenameMap(names: seq<string>) returns (renames: map<string, string>)
    requires Distinct(names)
    ensures IsRenaming(Columns(names), renames)
  {
    hide Columns;
    var schema := FirstPass(names);
    renames := Rename(schema);
  }
}
