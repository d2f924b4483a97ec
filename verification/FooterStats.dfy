/** Integer ranges of Parquet columns, read from row-group footer statistics only. */
module FooterStats {
  import opened Wrappers

  /** The statistics of one column chunk, as signed integers whatever the column type. Absent and unreadable
      statistics are told apart from
      statistics of another physical type. */
  datatype Statistics =
    | Missing
    | Unreadable
    | Int32Stats(min32: Option<i32>, max32: Option<i32>)
    | Int64Stats(min64: Option<i64>, max64: Option<i64>)
    | OtherStats

  /** Root column name to the chunks stored under it; a flat column has exactly one. */
  type RowGroup = map<string, seq<Statistics>>

  datatype File = Broken | Readable(rowGroups: seq<RowGroup>)

  type Bounds = (i64, i64)

  // ---------- What the result means ----------

  /** The chunk has an integer minimum and an integer maximum. */
  predicate HasBounds(s: Statistics) {
    (s.Int32Stats? && s.min32.Some? && s.max32.Some?) || (s.Int64Stats? && s.min64.Some? && s.max64.Some?)
  }

  /** The integer minimum and maximum stored for the chunk. */
  predicate AreBounds(s: Statistics, b: Bounds) {
    || (s.Int32Stats? && s.min32.Some? && s.max32.Some? && s.min32.value == b.0 && s.max32.value == b.1)
    || (s.Int64Stats? && s.min64.Some? && s.max64.Some? && s.min64.value == b.0 && s.max64.value == b.1)
  }

  /** The row group has exactly one chunk for the column, with an integer minimum and maximum. */
  predicate GroupTrusted(g: RowGroup, name: string) {
    name in g && |g[name]| == 1 && HasBounds(g[name][0])
  }

  /** The row group has exactly one chunk for the column, and it stores these bounds. */
  predicate GroupStores(g: RowGroup, name: string, b: Bounds) {
    name in g && |g[name]| == 1 && AreBounds(g[name][0], b)
  }

  predicate FileTrusted(f: File, name: string) {
    f.Readable? && forall i :: 0 <= i < |f.rowGroups| ==> GroupTrusted(f.rowGroups[i], name)
  }

  predicate AllTrusted(files: seq<File>, name: string) {
    forall f :: 0 <= f < |files| ==> FileTrusted(files[f], name)
  }

  /** Row group `g` of file `f` exists and bounds the column by `b`. */
  predicate Says(files: seq<File>, name: string, f: int, g: int, b: Bounds) {
    0 <= f < |files| && files[f].Readable? && 0 <= g < |files[f].rowGroups|
    && GroupStores(files[f].rowGroups[g], name, b)
  }

  /** No row group says anything about the column. */
  ghost predicate Silent(files: seq<File>, name: string) {
    forall f, g, b: Bounds :: !Says(files, name, f, g, b)
  }

  ghost predicate IsMin(files: seq<File>, name: string, lo: int) {
    && (exists f, g, b: Bounds :: Says(files, name, f, g, b) && b.0 == lo)
    && (forall f, g, b: Bounds :: Says(files, name, f, g, b) ==> lo <= b.0)
  }

  ghost predicate IsMax(files: seq<File>, name: string, hi: int) {
    && (exists f, g, b: Bounds :: Says(files, name, f, g, b) && b.1 == hi)
    && (forall f, g, b: Bounds :: Says(files, name, f, g, b) ==> b.1 <= hi)
  }

  /** The range is the least minimum and the greatest maximum over all row groups of all files. */
  ghost predicate IsRange(files: seq<File>, name: string, r: Bounds) {
    IsMin(files, name, r.0) && IsMax(files, name, r.1)
  }

  ghost predicate HasRowGroup(files: seq<File>) {
    exists f :: 0 <= f < |files| && files[f].Readable? && files[f].rowGroups != []
  }

  // ---------- Merging ranges ----------

  function IntegerBounds(s: Statistics): (r: Option<Bounds>)
    ensures r.Some? <==> HasBounds(s)
    ensures r.Some? ==> AreBounds(s, r.value)
  {
    match s
    case Int32Stats(Some(mn), Some(mx)) => Some((mn, mx))
    case Int64Stats(Some(mn), Some(mx)) => Some((mn, mx))
    case _ => None
  }

  /** What a row group says about a column: bounds when it has one chunk with an integer minimum
      and maximum. */
  function GroupBounds(g: RowGroup, name: string): (r: Option<Bounds>)
    ensures r.Some? <==> GroupTrusted(g, name)
    ensures forall b: Bounds :: r == Some(b) <==> GroupStores(g, name, b)
  {
    if name in g && |g[name]| == 1 then IntegerBounds(g[name][0]) else None
  }

  function Merge(a: Option<Bounds>, b: Option<Bounds>): Option<Bounds> {
    if a.None? then b
    else if b.None? then a
    else Some((Min(a.value.0, b.value.0), Max(a.value.1, b.value.1)))
  }

  /** The merged bounds of the first row groups of a file. */
  function GroupsRange(gs: seq<RowGroup>, name: string): Option<Bounds> {
    if gs == [] then None else Merge(GroupsRange(gs[..|gs| - 1], name), GroupBounds(gs[|gs| - 1], name))
  }

  function FileRange(f: File, name: string): Option<Bounds> {
    if f.Broken? then None else GroupsRange(f.rowGroups, name)
  }

  function FilesRange(files: seq<File>, name: string): Option<Bounds> {
    if files == [] then None else Merge(FilesRange(files[..|files| - 1], name), FileRange(files[|files| - 1], name))
  }

  /** The merged range of a file bounds its row groups, and both ends are attained. */
  lemma {:induction false} GroupsRangeTight(gs: seq<RowGroup>, name: string)
    ensures var r := GroupsRange(gs, name);
      && (r.None? ==> forall i :: 0 <= i < |gs| ==> GroupBounds(gs[i], name).None?)
      && (r.Some? ==>
            && (forall i :: 0 <= i < |gs| && GroupBounds(gs[i], name).Some? ==>
                  r.value.0 <= GroupBounds(gs[i], name).value.0 && GroupBounds(gs[i], name).value.1 <= r.value.1)
            && (exists i :: 0 <= i < |gs| && GroupBounds(gs[i], name).Some?
                  && GroupBounds(gs[i], name).value.0 == r.value.0)
            && (exists i :: 0 <= i < |gs| && GroupBounds(gs[i], name).Some?
                  && GroupBounds(gs[i], name).value.1 == r.value.1))
  {
    hide GroupBounds;
    if gs == [] {
    } else {
      var init, n := gs[..|gs| - 1], |gs| - 1;
      GroupsRangeTight(init, name);
      forall i | 0 <= i < n ensures init[i] == gs[i] {}
      var r, r0, b := GroupsRange(gs, name), GroupsRange(init, name), GroupBounds(gs[n], name);
      if r.Some? {
        if b.Some? && b.value.0 == r.value.0 {
          assert GroupBounds(gs[n], name).value.0 == r.value.0;
        } else {
          var i :| 0 <= i < |init| && GroupBounds(init[i], name).Some?
            && GroupBounds(init[i], name).value.0 == r0.value.0;
          assert GroupBounds(gs[i], name).value.0 == r.value.0;
        }
        if b.Some? && b.value.1 == r.value.1 {
          assert GroupBounds(gs[n], name).value.1 == r.value.1;
        } else {
          var i :| 0 <= i < |init| && GroupBounds(init[i], name).Some?
            && GroupBounds(init[i], name).value.1 == r0.value.1;
          assert GroupBounds(gs[i], name).value.1 == r.value.1;
        }
      }
    }
  }

  lemma {:induction false} FilesRangeNone(files: seq<File>, name: string)
    requires AllTrusted(files, name)
    ensures FilesRange(files, name).None? <==> !HasRowGroup(files)
  {
    if files == [] {
    } else {
      var init, last := files[..|files| - 1], files[|files| - 1];
      assert FileTrusted(files[|files| - 1], name);
      forall i | 0 <= i < |init| ensures FileTrusted(init[i], name) {
        assert FileTrusted(files[i], name);
      }
      FilesRangeNone(init, name);
      assert GroupsRange(last.rowGroups, name).None? <==> last.rowGroups == [];
      if HasRowGroup(init) {
        var f :| 0 <= f < |init| && init[f].Readable? && init[f].rowGroups != [];
        assert files[f].rowGroups != [];
      }
      if HasRowGroup(files) {
        var f :| 0 <= f < |files| && files[f].Readable? && files[f].rowGroups != [];
        if f < |init| {
          assert init[f].rowGroups != [];
        }
      }
    }
  }

  lemma SaysEarlier(files: seq<File>, name: string, f: int, g: int, b: Bounds)
    requires files != []
    ensures Says(files, name, f, g, b) <==>
      Says(files[..|files| - 1], name, f, g, b)
      || (f == |files| - 1 && files[f].Readable? && 0 <= g < |files[f].rowGroups|
          && GroupStores(files[f].rowGroups[g], name, b))
  {
  }

  lemma AttainingGroups(gs: seq<RowGroup>, name: string, r: Option<Bounds>) returns (i: int, j: int)
    requires r == GroupsRange(gs, name)
    ensures r.Some? ==> 0 <= i < |gs| && GroupBounds(gs[i], name).Some? && GroupBounds(gs[i], name).value.0 == r.value.0
    ensures r.Some? ==> 0 <= j < |gs| && GroupBounds(gs[j], name).Some? && GroupBounds(gs[j], name).value.1 == r.value.1
  {
    i, j := 0, 0;
    GroupsRangeTight(gs, name);
    hide GroupBounds;
    if r.Some? {
      i :| 0 <= i < |gs| && GroupBounds(gs[i], name).Some? && GroupBounds(gs[i], name).value.0 == r.value.0;
      j :| 0 <= j < |gs| && GroupBounds(gs[j], name).Some? && GroupBounds(gs[j], name).value.1 == r.value.1;
    }
  }

  /** The range is the least minimum and the greatest maximum stored in the row groups. */
  ghost predicate IsGroupsRange(gs: seq<RowGroup>, name: string, r: Bounds) {
    && (forall i, b: Bounds :: 0 <= i < |gs| && GroupStores(gs[i], name, b) ==> r.0 <= b.0 && b.1 <= r.1)
    && (exists i, b: Bounds :: 0 <= i < |gs| && GroupStores(gs[i], name, b) && b.0 == r.0)
    && (exists i, b: Bounds :: 0 <= i < |gs| && GroupStores(gs[i], name, b) && b.1 == r.1)
  }

  lemma GroupSays(g: RowGroup, name: string, b: Bounds)
    ensures GroupStores(g, name, b) <==> GroupBounds(g, name) == Some(b)
  {
    hide GroupStores, GroupTrusted;
  }

  lemma GroupsRangeIs(gs: seq<RowGroup>, name: string)
    ensures GroupsRange(gs, name).Some? ==> IsGroupsRange(gs, name, GroupsRange(gs, name).value)
    ensures GroupsRange(gs, name).None? ==> forall i :: 0 <= i < |gs| ==> !GroupTrusted(gs[i], name)
  {
    var r := GroupsRange(gs, name);
    GroupsRangeTight(gs, name);
    if r.None? {
      hide GroupStores, GroupTrusted, GroupsRange;
    } else {
      var i, j := AttainingGroups(gs, name, r);
      hide GroupStores, GroupTrusted, GroupsRange, GroupBounds;
      GroupSays(gs[i], name, GroupBounds(gs[i], name).value);
      GroupSays(gs[j], name, GroupBounds(gs[j], name).value);
      forall i, b: Bounds | 0 <= i < |gs| && GroupStores(gs[i], name, b)
        ensures r.value.0 <= b.0 && b.1 <= r.value.1
      {
        GroupSays(gs[i], name, b);
      }
    }
  }

  lemma AttainingRows(files: seq<File>, name: string, r: Option<Bounds>)
      returns (f0: int, g0: int, b0: Bounds, f1: int, g1: int, b1: Bounds)
    requires r.Some? ==> IsRange(files, name, r.value)
    ensures r.Some? ==> Says(files, name, f0, g0, b0) && b0.0 == r.value.0
    ensures r.Some? ==> Says(files, name, f1, g1, b1) && b1.1 == r.value.1
  {
    f0, g0, b0, f1, g1, b1 := 0, 0, (0, 0), 0, 0, (0, 0);
    hide Says;
    if r.Some? {
      f0, g0, b0 :| Says(files, name, f0, g0, b0) && b0.0 == r.value.0;
      f1, g1, b1 :| Says(files, name, f1, g1, b1) && b1.1 == r.value.1;
    }
  }

  lemma MergeBounds(files: seq<File>, name: string, r0: Option<Bounds>, r1: Option<Bounds>, f: int, g: int, b: Bounds)
    requires files != []
    requires r0.Some? ==> IsRange(files[..|files| - 1], name, r0.value)
    requires r0.None? ==> Silent(files[..|files| - 1], name)
    requires r1 == FileRange(files[|files| - 1], name)
    requires Says(files, name, f, g, b)
    ensures var r := Merge(r0, r1); r.Some? && r.value.0 <= b.0 && b.1 <= r.value.1
  {
    var last := files[|files| - 1];
    SaysEarlier(files, name, f, g, b);
    if last.Readable? {
      GroupsRangeTight(last.rowGroups, name);
    }
    hide GroupBounds, Says, GroupsRange;
  }

  lemma MergeAttains(files: seq<File>, name: string, r0: Option<Bounds>, r1: Option<Bounds>)
    requires files != []
    requires r0.Some? ==> IsRange(files[..|files| - 1], name, r0.value)
    requires r1 == FileRange(files[|files| - 1], name) && Merge(r0, r1).Some?
    ensures exists f, g, b: Bounds :: Says(files, name, f, g, b) && b.0 == Merge(r0, r1).value.0
    ensures exists f, g, b: Bounds :: Says(files, name, f, g, b) && b.1 == Merge(r0, r1).value.1
  {
    hide GroupBounds, Says, GroupsRange, IsRange;
    var n, r := |files| - 1, Merge(r0, r1).value;
    var gs := if files[n].Readable? then files[n].rowGroups else [];
    if r1.Some? {
      var i, j := AttainingGroups(gs, name, r1);
      SaysEarlier(files, name, n, i, GroupBounds(gs[i], name).value);
      SaysEarlier(files, name, n, j, GroupBounds(gs[j], name).value);
    }
    if r0.Some? {
      var f0, g0, b0, f1, g1, b1 := AttainingRows(files[..n], name, r0);
      SaysEarlier(files, name, f0, g0, b0);
      SaysEarlier(files, name, f1, g1, b1);
    }
  }

  lemma MergeFile(files: seq<File>, name: string, r0: Option<Bounds>, r1: Option<Bounds>)
    requires files != []
    requires r0.Some? ==> IsRange(files[..|files| - 1], name, r0.value)
    requires r0.None? ==> Silent(files[..|files| - 1], name)
    requires r1 == FileRange(files[|files| - 1], name)
    ensures Merge(r0, r1).Some? ==> IsRange(files, name, Merge(r0, r1).value)
    ensures Merge(r0, r1).None? ==> Silent(files, name)
  {
    hide Says, FileRange, Merge;
    forall f, g, b: Bounds | Says(files, name, f, g, b)
      ensures var r := Merge(r0, r1); r.Some? && r.value.0 <= b.0 && b.1 <= r.value.1
    {
      MergeBounds(files, name, r0, r1, f, g, b);
    }
    if Merge(r0, r1).Some? {
      MergeAttains(files, name, r0, r1);
    }
  }

  /** The merged range over all files is the range of the column. */
  lemma {:induction false} FilesRangeTight(files: seq<File>, name: string)
    ensures FilesRange(files, name).Some? ==> IsRange(files, name, FilesRange(files, name).value)
    ensures FilesRange(files, name).None? ==> Silent(files, name)
  {
    if files == [] {
    } else {
      var init, n := files[..|files| - 1], |files| - 1;
      FilesRangeTight(init, name);
      var last := files[n];
      var gs := if last.Readable? then last.rowGroups else [];
      GroupsRangeTight(gs, name);
      MergeFile(files, name, FilesRange(init, name), GroupsRange(gs, name));
    }
  }

  // ---------- The nested loops ----------

  /** Scans the row groups of one file for one column, stopping at the first one without a usable
      integer range. */
  method ScanRowGroups(gs: seq<RowGroup>, name: string) returns (trusted: bool, fileMin: Option<i64>,
                       fileMax: Option<i64>)
    ensures trusted <==> forall i :: 0 <= i < |gs| ==> GroupTrusted(gs[i], name)
    ensures trusted && gs != [] ==>
      fileMin.Some? && fileMax.Some? && IsGroupsRange(gs, name, (fileMin.value, fileMax.value))
    ensures trusted && gs != [] ==>
      fileMin.Some? && fileMax.Some? && GroupsRange(gs, name) == Some((fileMin.value, fileMax.value))
  {
    trusted, fileMin, fileMax := true, None, None;
    for i := 0 to |gs|
      invariant trusted
      invariant forall j :: 0 <= j < i ==> GroupBounds(gs[j], name).Some?
      invariant fileMin.Some? <==> i > 0
      invariant fileMax.Some? <==> i > 0
      invariant GroupsRange(gs[..i], name) == if i > 0 then Some((fileMin.value, fileMax.value)) else None
    {
      assert gs[..i + 1][..i] == gs[..i];
      if name !in gs[i] || |gs[i][name]| != 1 {
        return false, fileMin, fileMax;
      }
      var bounds: Bounds;
      match gs[i][name][0] {
        case Int32Stats(Some(mn), Some(mx)) =>
          bounds := (mn, mx);
        case Int64Stats(Some(mn), Some(mx)) =>
          bounds := (mn, mx);
        case _ =>
          return false, fileMin, fileMax;
      }
      fileMin := Some(if fileMin.None? then bounds.0 else Min(fileMin.value, bounds.0));
      fileMax := Some(if fileMax.None? then bounds.1 else Max(fileMax.value, bounds.1));
    }
    assert gs[..|gs|] == gs;
    GroupsRangeIs(gs, name);
  }

  /** What the scan knows about one column after some files: whether it is untrusted, and
      otherwise its merged range. */
  ghost predicate Knows(files: seq<File>, name: string, ranges: map<string, Bounds>, untrusted: set<string>) {
    && (name in untrusted <==> !AllTrusted(files, name))
    && (name !in untrusted ==> (if name in ranges then Some(ranges[name]) else None) == FilesRange(files, name))
  }

  ghost predicate Scanned(files: seq<File>, columns: seq<string>, ranges: map<string, Bounds>, untrusted: set<string>) {
    && (forall name :: name in columns ==> Knows(files, name, ranges, untrusted))
    && (forall name :: name in ranges || name in untrusted ==> name in columns)
  }

  ghost predicate SameAt(name: string, r: map<string, Bounds>, u: set<string>, r': map<string, Bounds>,
                         u': set<string>) {
    (name in u <==> name in u') && (name in r <==> name in r') && (name in r ==> r[name] == r'[name])
  }

  lemma KnowsLocal(files: seq<File>, name: string, r: map<string, Bounds>, u: set<string>, r': map<string, Bounds>,
                   u': set<string>)
    requires SameAt(name, r, u, r', u')
    ensures Knows(files, name, r, u) ==> Knows(files, name, r', u')
  {
  }

  lemma TrustNext(files: seq<File>, f: nat, name: string)
    requires f < |files|
    ensures AllTrusted(files[..f + 1], name) <==> AllTrusted(files[..f], name) && FileTrusted(files[f], name)
    ensures FilesRange(files[..f + 1], name) == Merge(FilesRange(files[..f], name), FileRange(files[f], name))
  {
    hide FileTrusted, FileRange;
    assert files[..f + 1][..f] == files[..f];
    assert files[..f + 1][f] == files[f];
    if AllTrusted(files[..f + 1], name) {
      forall i | 0 <= i < f ensures FileTrusted(files[..f][i], name) {
        assert FileTrusted(files[..f + 1][i], name);
      }
    }
  }

  lemma EmptyFile(files: seq<File>, f: nat, name: string)
    requires f < |files| && files[f].Readable?
    ensures files[f].rowGroups == [] ==> FileRange(files[f], name) == None
  {
  }

  /** One column of one readable file. */
  method ScanColumn(files: seq<File>, f: nat, name: string, ranges: map<string, Bounds>, untrusted: set<string>)
      returns (ranges': map<string, Bounds>, untrusted': set<string>)
    requires f < |files| && files[f].Readable?
    requires Knows(files[..f], name, ranges, untrusted) || Knows(files[..f + 1], name, ranges, untrusted)
    ensures Knows(files[..f + 1], name, ranges', untrusted')
    ensures forall n :: n != name ==> SameAt(n, ranges, untrusted, ranges', untrusted')
  {
    hide GroupsRange, GroupBounds, AllTrusted, FilesRange;
    ranges', untrusted' := ranges, untrusted;
    TrustNext(files, f, name);
    if name !in untrusted {
      var trusted, fileMin, fileMax := ScanRowGroups(files[f].rowGroups, name);
      EmptyFile(files, f, name);
      if !trusted {
        untrusted' := untrusted + {name};
      } else if files[f].rowGroups != [] {
        var mn, mx := fileMin.value, fileMax.value;
        ranges' := ranges[name :=
          if name in ranges then (Min(ranges[name].0, mn), Max(ranges[name].1, mx)) else (mn, mx)];
      }
    }
  }

  /** One more file, column by column; a column listed twice is merged twice, to no effect. */
  method ScanFile(files: seq<File>, f: nat, columns: seq<string>, ranges: map<string, Bounds>, untrusted: set<string>)
      returns (ranges': map<string, Bounds>, untrusted': set<string>)
    requires f < |files| && Scanned(files[..f], columns, ranges, untrusted)
    ensures Scanned(files[..f + 1], columns, ranges', untrusted')
  {
    ranges', untrusted' := ranges, untrusted;
    ghost var before, now := files[..f], files[..f + 1];
    assert now[..f] == before;
    hide GroupsRange, GroupBounds;
    if files[f].Broken? {
      for c := 0 to |columns|
        invariant forall name :: name in untrusted' <==> name in untrusted || name in columns[..c]
      {
        untrusted' := untrusted' + {columns[c]};
      }
      assert columns[..|columns|] == columns;
      forall name | name in columns ensures Knows(now, name, ranges', untrusted') {
        assert !FileTrusted(now[f], name);
      }
      return;
    }
    for c := 0 to |columns|
      invariant forall name :: name in columns[..c] ==> Knows(now, name, ranges', untrusted')
      invariant forall name :: name in columns && name !in columns[..c] ==> Knows(before, name, ranges', untrusted')
      invariant forall name :: name in ranges' || name in untrusted' ==> name in columns
    {
      hide Knows;
      assert columns[c] in columns && columns[..c + 1] == columns[..c] + [columns[c]];
      ghost var r, u := ranges', untrusted';
      ranges', untrusted' := ScanColumn(files, f, columns[c], ranges', untrusted');
      forall n | n in columns && n != columns[c]
        ensures Knows(before, n, r, u) ==> Knows(before, n, ranges', untrusted')
        ensures Knows(now, n, r, u) ==> Knows(now, n, ranges', untrusted')
      {
        KnowsLocal(before, n, r, u, ranges', untrusted');
        KnowsLocal(now, n, r, u, ranges', untrusted');
      }
      forall n | n in ranges' || n in untrusted' ensures n in columns {
        assert n == columns[c] || SameAt(n, r, u, ranges', untrusted');
      }
    }
    assert columns[..|columns|] == columns;
  }

  /** A column is in the result exactly when every file opens, every row group of every file has
      one chunk with an integer minimum and maximum for it, and there is a row group at all; its
      range is then the least minimum and the greatest maximum. */
  method IntegerRangesFromFooterStats(files: seq<File>, columns: seq<string>) returns (ranges: map<string, Bounds>)
    ensures forall name :: name in ranges <==> name in columns && AllTrusted(files, name) && HasRowGroup(files)
    ensures forall name :: name in ranges ==> IsRange(files, name, ranges[name])
  {
    ranges := map[];
    var untrusted: set<string> := {};
    for f := 0 to |files|
      invariant Scanned(files[..f], columns, ranges, untrusted)
    {
      ranges, untrusted := ScanFile(files, f, columns, ranges, untrusted);
    }
    assert files[..|files|] == files;
    ranges := ranges - untrusted;
    forall name | name in columns && name !in untrusted
      ensures name in ranges <==> HasRowGroup(files)
      ensures name in ranges ==> IsRange(files, name, ranges[name])
    {
      FilesRangeNone(files, name);
      FilesRangeTight(files, name);
    }
  }
}
