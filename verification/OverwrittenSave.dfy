/** Overwriting partitions in a directory tree: what survives, and exactly when everything does. */
module OverwrittenSave {
  import opened Streams
  import opened PartitionPaths
  import opened PartitionedSave

  // ---------- What one save does ----------

  /** What saving one partition does to the files of any directory. */
  lemma SaveOneFiles(dirs: Dirs, d: Path, part: seq<Record>, append: bool, q: Path)
    ensures FilesIn(SaveOne(dirs, d, part, append), q) ==
      if q == d then
        (if append then FilesIn(dirs, d)[FileName(NextIndex(FilesIn(dirs, d))) := part] else map[FileName(0) := part])
      else if !append && d in dirs && d <= q then map[]
      else FilesIn(dirs, q)
    ensures q in dirs && (append || !(d <= q)) ==> q in SaveOne(dirs, d, part, append)
  {
    hide FileName, NextIndex;
    var r := Prepared(dirs, d, append);
    assert d[..|d|] == d;
    assert q != d ==> FilesIn(r, q) == if !append && d in dirs && d <= q then map[] else FilesIn(dirs, q);
    assert FilesIn(r, d) == r[d] == if append then FilesIn(dirs, d) else map[];
  }

  lemma SamePrefix(base: Path, a: Path, b: Path)
    ensures base + a <= base + b <==> a <= b
    ensures base + a == base + b <==> a == b
  {
    assert (base + a)[|base|..] == a && (base + b)[|base|..] == b;
    if base + a <= base + b {
      assert (base + b)[..|base + a|][|base|..] == b[..|a|];
    }
    if a <= b {
      assert (base + b)[..|base + a|] == base + b[..|a|];
    }
  }

  // ---------- A partition that no later one touches ----------

  /** The files of partition i after the first saves: one file with its rows, unless a later partition is saved
      to its directory or to an ancestor of it. */
  lemma {:induction false} OverwriteFiles(dirs: Dirs, base: Path, cols: seq<string>, rows: seq<Record>, keys: seq<Key>,
                                          i: nat)
    requires WellShaped(cols, rows, keys) && i < |keys|
    requires forall j :: i < j < |keys| ==> !(DirOf(cols, keys[j]) <= DirOf(cols, keys[i]))
    ensures FilesIn(SaveAll(dirs, base, cols, rows, keys, false), base + DirOf(cols, keys[i]))
         == map[FileName(0) := Part(rows, keys[i])]
  {
    hide DirOf, Part, FileName, SaveOne, Addressable;
    var n := |keys| - 1;
    var init := keys[..n];
    var before := SaveAll(dirs, base, cols, rows, init, false);
    var d, q := base + DirOf(cols, keys[n]), base + DirOf(cols, keys[i]);
    SaveOneFiles(before, d, Part(rows, keys[n]), false, q);
    if i == n {
    } else {
      SamePrefix(base, DirOf(cols, keys[n]), DirOf(cols, keys[i]));
      OverwriteFiles(dirs, base, cols, rows, init, i);
    }
  }

  // ---------- A partition that a later one removes ----------

  /** Where the directory exists, its ancestors do. */
  ghost predicate AncestorsIn(dirs: Dirs, p: Path) {
    p in dirs ==> forall n: nat :: n <= |p| ==> p[..n] in dirs
  }

  lemma AncestorsAfterSave(dirs: Dirs, d: Path, part: seq<Record>, p: Path)
    requires p == d || AncestorsIn(dirs, p)
    ensures AncestorsIn(SaveOne(dirs, d, part, false), p)
  {
    hide FileName, NextIndex;
    var r := SaveOne(dirs, d, part, false);
    if p in r {
      forall n: nat | n <= |p| ensures p[..n] in r {
        if p <= d {
          assert d[..n] == p[..n];
        } else {
          assert p in dirs && p[..n] in dirs;
          assert d in dirs ==> !(d <= p);
        }
      }
    }
  }

  lemma {:induction false} AncestorsKept(dirs: Dirs, base: Path, cols: seq<string>, rows: seq<Record>, keys: seq<Key>,
                                         i: nat)
    requires i < |keys|
    ensures AncestorsIn(SaveAll(dirs, base, cols, rows, keys, false), base + DirOf(cols, keys[i]))
  {
    hide DirOf, Part, SaveOne, AncestorsIn;
    var n := |keys| - 1;
    var before := SaveAll(dirs, base, cols, rows, keys[..n], false);
    if i == n {
    } else {
      AncestorsKept(dirs, base, cols, rows, keys[..n], i);
    }
    AncestorsAfterSave(before, base + DirOf(cols, keys[n]), Part(rows, keys[n]), base + DirOf(cols, keys[i]));
  }

  /** No partition is empty. */
  ghost predicate NonEmptyParts(rows: seq<Record>, keys: seq<Key>) {
    forall k :: k in keys ==> Part(rows, k) != []
  }

  lemma {:induction false} PartKeys(rows: seq<Record>, key: Key)
    ensures forall i :: 0 <= i < |Part(rows, key)| ==> Part(rows, key)[i].key == key
  {
    if rows == [] {
    } else {
      PartKeys(rows[..|rows| - 1], key);
    }
  }

  lemma PartTellsKey(rows: seq<Record>, j: Key, k: Key)
    requires Part(rows, j) == Part(rows, k) != []
    ensures j == k
  {
    PartKeys(rows, j);
    PartKeys(rows, k);
    assert Part(rows, j)[0].key == j && Part(rows, k)[0].key == k;
  }

  /** No file holds these rows. */
  ghost predicate NoFileHolds(files: Files, part: seq<Record>) {
    forall f :: f in files ==> files[f] != part
  }

  lemma OtherPart(rows: seq<Record>, keys: seq<Key>, i: nat, m: nat)
    requires Distinct(keys) && NonEmptyParts(rows, keys) && i < |keys| && m < |keys| && i != m
    ensures NoFileHolds(map[FileName(0) := Part(rows, keys[m])], Part(rows, keys[i]))
  {
    hide Part;
    assert keys[i] in keys && keys[m] in keys;
    if Part(rows, keys[i]) == Part(rows, keys[m]) {
      PartTellsKey(rows, keys[i], keys[m]);
    }
  }

  /** Saving partition j to the directory of partition i or to an ancestor of it loses partition i for good. */
  lemma {:induction false} RemovedForGood(dirs: Dirs, base: Path, cols: seq<string>, rows: seq<Record>, keys: seq<Key>,
                                          i: nat, j: nat)
    requires Distinct(keys) && NonEmptyParts(rows, keys) && i < j < |keys|
    requires DirOf(cols, keys[j]) <= DirOf(cols, keys[i])
    ensures NoFileHolds(FilesIn(SaveAll(dirs, base, cols, rows, keys, false), base + DirOf(cols, keys[i])),
                        Part(rows, keys[i]))
  {
    hide DirOf, Part, SaveOne, FileName;
    var n := |keys| - 1;
    var init := keys[..n];
    var before := SaveAll(dirs, base, cols, rows, init, false);
    var d, q := base + DirOf(cols, keys[n]), base + DirOf(cols, keys[i]);
    SaveOneFiles(before, d, Part(rows, keys[n]), false, q);
    OtherPart(rows, keys, i, n);
    if j == n {
      AncestorsKept(dirs, base, cols, rows, init, i);
      SamePrefix(base, DirOf(cols, keys[j]), DirOf(cols, keys[i]));
      assert q[..|d|] == d;
    } else {
      assert forall k :: k in init ==> k in keys;
      RemovedForGood(dirs, base, cols, rows, init, i, j);
    }
  }

  // ---------- When every partition survives ----------

  /** The keys are the distinct keys of the rows. */
  ghost predicate KeysOf(rows: seq<Record>, keys: seq<Key>) {
    Distinct(keys) && (forall i :: 0 <= i < |rows| ==> rows[i].key in keys) && NonEmptyParts(rows, keys)
  }

  /** No partition is saved to the directory of an earlier one, or to an ancestor of it. */
  ghost predicate NoneRemoved(cols: seq<string>, keys: seq<Key>) {
    forall i, j :: 0 <= i < j < |keys| ==> !(DirOf(cols, keys[j]) <= DirOf(cols, keys[i]))
  }

  /** Every partition directory holds exactly the rows of its key. */
  ghost predicate EachPartitionSaved(after: Dirs, base: Path, cols: seq<string>, rows: seq<Record>, keys: seq<Key>) {
    forall i :: 0 <= i < |keys| ==>
      FilesIn(after, base + DirOf(cols, keys[i])) == map[FileName(0) := Part(rows, keys[i])]
  }

  /** An overwriting save keeps every partition exactly when none is saved to the directory of an earlier one or to
      an ancestor of it, in the order in which the keys come. */
  lemma OverwriteSavesAll(dirs: Dirs, base: Path, cols: seq<string>, rows: seq<Record>, keys: seq<Key>)
    requires WellShaped(cols, rows, keys) && KeysOf(rows, keys)
    ensures EachPartitionSaved(SaveAll(dirs, base, cols, rows, keys, false), base, cols, rows, keys)
       <==> NoneRemoved(cols, keys)
  {
    hide DirOf, Part, FileName, SaveAll, WellShaped;
    var after := SaveAll(dirs, base, cols, rows, keys, false);
    if NoneRemoved(cols, keys) {
      forall i | 0 <= i < |keys|
        ensures FilesIn(after, base + DirOf(cols, keys[i])) == map[FileName(0) := Part(rows, keys[i])]
      {
        OverwriteFiles(dirs, base, cols, rows, keys, i);
      }
    } else {
      var i, j :| 0 <= i < j < |keys| && DirOf(cols, keys[j]) <= DirOf(cols, keys[i]);
      RemovedForGood(dirs, base, cols, rows, keys, i, j);
      assert FileName(0) in map[FileName(0) := Part(rows, keys[i])];
    }
  }

  /** Directories that no partition is saved to - nor an ancestor of them, when overwriting - keep their files. */
  lemma {:induction false} OtherDirectoriesKept(dirs: Dirs, base: Path, cols: seq<string>, rows: seq<Record>,
                                                keys: seq<Key>, append: bool, q: Path)
    requires forall k :: k in keys ==> base + DirOf(cols, k) != q && (append || !(base + DirOf(cols, k) <= q))
    ensures FilesIn(SaveAll(dirs, base, cols, rows, keys, append), q) == FilesIn(dirs, q)
    ensures q in dirs ==> q in SaveAll(dirs, base, cols, rows, keys, append)
  {
    hide DirOf, Part, FileName, SaveOne, NextIndex;
    if keys == [] {
    } else {
      var init, key := keys[..|keys| - 1], keys[|keys| - 1];
      assert key in keys && forall k :: k in init ==> k in keys;
      OtherDirectoriesKept(dirs, base, cols, rows, init, append, q);
      SaveOneFiles(SaveAll(dirs, base, cols, rows, init, append), base + DirOf(cols, key), Part(rows, key), append, q);
    }
  }

  // ---------- In every order ----------

  /** No directory of a key is that of another one, or an ancestor of it. */
  ghost predicate NoNesting(cols: seq<string>, keys: seq<Key>) {
    forall a, b :: a in keys && b in keys && a != b ==> !(DirOf(cols, a) <= DirOf(cols, b))
  }

  /** The keys come in this order, and every partition survives. */
  ghost predicate SafeOrder(cols: seq<string>, keys: seq<Key>, order: seq<Key>) {
    multiset(order) == multiset(keys) ==> NoneRemoved(cols, order)
  }

  lemma SameMembers(keys: seq<Key>, order: seq<Key>)
    requires multiset(order) == multiset(keys)
    ensures forall k :: k in order <==> k in keys
  {
    forall k ensures k in order <==> k in keys {
      assert k in order <==> k in multiset(order);
      assert k in keys <==> k in multiset(keys);
    }
  }

  lemma {:induction false} DistinctCount(keys: seq<Key>)
    ensures Distinct(keys) <==> forall k :: multiset(keys)[k] <= 1
  {
    if keys == [] {
    } else {
      var init, last := keys[..|keys| - 1], keys[|keys| - 1];
      DistinctCount(init);
      assert keys == init + [last];
      if Distinct(keys) {
        assert last !in init;
      }
      if forall k :: multiset(keys)[k] <= 1 {
        assert forall k :: multiset(init)[k] <= multiset(keys)[k];
        assert multiset(keys)[last] == multiset(init)[last] + 1;
        assert last !in init;
      }
    }
  }

  lemma OrderIsDistinct(keys: seq<Key>, order: seq<Key>)
    requires Distinct(keys) && multiset(order) == multiset(keys)
    ensures Distinct(order) && forall k :: k in order <==> k in keys
  {
    SameMembers(keys, order);
    hide Distinct;
    DistinctCount(keys);
    DistinctCount(order);
  }

  lemma NoNestingIsSafe(cols: seq<string>, keys: seq<Key>, order: seq<Key>)
    requires Distinct(keys) && NoNesting(cols, keys)
    ensures SafeOrder(cols, keys, order)
  {
    hide DirOf;
    if multiset(order) == multiset(keys) {
      OrderIsDistinct(keys, order);
      forall i, j | 0 <= i < j < |order| ensures !(DirOf(cols, order[j]) <= DirOf(cols, order[i])) {
        assert order[i] in order && order[j] in order && order[i] != order[j];
      }
    }
  }

  lemma Swapped<T>(q: seq<T>, i: nat, j: nat)
    requires i < |q| && j < |q|
    ensures multiset(q[i := q[j]][j := q[i]]) == multiset(q)
  {
  }

  /** Two nested directories are unsafe in one of the two orders of their keys. */
  lemma UnsafeOrder(cols: seq<string>, keys: seq<Key>, a: Key, b: Key) returns (order: seq<Key>)
    requires a in keys && b in keys && a != b && DirOf(cols, a) <= DirOf(cols, b)
    ensures !SafeOrder(cols, keys, order)
  {
    hide DirOf;
    var i :| 0 <= i < |keys| && keys[i] == b;
    var j :| 0 <= j < |keys| && keys[j] == a;
    if i < j {
      order := keys;
      assert DirOf(cols, order[j]) <= DirOf(cols, order[i]);
    } else {
      order := keys[i := a][j := b];
      Swapped(keys, i, j);
      assert order[j] == b && order[i] == a;
      assert DirOf(cols, order[i]) <= DirOf(cols, order[j]);
    }
  }

  /** The order of the distinct keys is not fixed: every order is safe exactly when no directory is another one's
      ancestor. */
  lemma SafeInEveryOrder(cols: seq<string>, keys: seq<Key>)
    requires Distinct(keys)
    ensures (forall order :: SafeOrder(cols, keys, order)) <==> NoNesting(cols, keys)
  {
    hide DirOf, SafeOrder, Distinct;
    if NoNesting(cols, keys) {
      forall order ensures SafeOrder(cols, keys, order) {
        NoNestingIsSafe(cols, keys, order);
      }
    } else {
      var a, b :| a in keys && b in keys && a != b && DirOf(cols, a) <= DirOf(cols, b);
      var order := UnsafeOrder(cols, keys, a, b);
    }
  }

  // ---------- Keys that print without slashes ----------

  /** Different keys get different directories. */
  ghost predicate SeparateDirectories(cols: seq<string>, keys: seq<Key>) {
    forall i, j :: 0 <= i < j < |keys| ==> DirOf(cols, keys[i]) != DirOf(cols, keys[j])
  }

  /** Without slashes only keys that print alike get in each other's way. */
  lemma SlashFreeSeparate(cols: seq<string>, keys: seq<Key>)
    requires forall i :: 0 <= i < |keys| ==> |keys[i]| == |cols| && SlashFreeKey(keys[i])
    ensures NoneRemoved(cols, keys) <==> SeparateDirectories(cols, keys)
  {
    forall i, j | 0 <= i < j < |keys|
      ensures DirOf(cols, keys[j]) <= DirOf(cols, keys[i]) <==> DirOf(cols, keys[i]) == DirOf(cols, keys[j])
    {
      SlashFreeDirs(cols, keys[i], keys[j], |cols|);
    }
    hide DirOf;
  }

  /** The keys agree, up to floats that print alike. */
  ghost predicate SameKeyOnPaper(a: Key, b: Key) {
    |a| == |b| && forall c :: 0 <= c < |a| ==> SameOnPaper(a[c], b[c])
  }

  lemma SameDirectory(cols: seq<string>, a: Key, b: Key)
    requires |a| == |b| == |cols| && SlashFreeKey(a) && SlashFreeKey(b)
    requires forall c :: 0 <= c < |cols| ==> SameKind(a[c], b[c])
    ensures DirOf(cols, a) == DirOf(cols, b) <==> SameKeyOnPaper(a, b)
  {
    hide Render, SameOnPaper;
    forall c | 0 <= c < |cols| ensures Render(a[c]) == Render(b[c]) <==> SameOnPaper(a[c], b[c]) {
      RenderAlike(a[c], b[c]);
    }
    SlashFreeDirs(cols, a, b, |cols|);
    if SameKeyOnPaper(a, b) {
      SameTextDirs(cols, a, b, |cols|);
    }
  }

  /** Boolean, integer and float columns, and text columns without slashes. */
  ghost predicate PlainKeys(cols: seq<string>, keys: seq<Key>) {
    && (forall i :: 0 <= i < |keys| ==> |keys[i]| == |cols|)
    && (forall i, j, c :: 0 <= i <= j < |keys| && 0 <= c < |cols| ==> SameKind(keys[i][c], keys[j][c]))
    && (forall i, c :: 0 <= i < |keys| && 0 <= c < |cols| && keys[i][c].Text? ==> SlashFree(keys[i][c].s))
  }

  lemma RenderedText(v: KeyValue)
    requires v.Text?
    ensures Render(v) == v.s
  {
  }

  lemma PlainKeyIsSlashFree(cols: seq<string>, keys: seq<Key>, i: nat)
    requires PlainKeys(cols, keys) && i < |keys|
    ensures SlashFreeKey(keys[i])
  {
    hide Render;
    forall c | 0 <= c < |cols| ensures SlashFree(Render(keys[i][c])) {
      assert SameKind(keys[i][c], keys[i][c]);
      if keys[i][c].Text? {
        RenderedText(keys[i][c]);
      } else {
        ExactSlashFree(keys[i][c]);
      }
    }
  }

  lemma PlainKeysSeparate(cols: seq<string>, keys: seq<Key>)
    requires PlainKeys(cols, keys)
    ensures forall i :: 0 <= i < |keys| ==> SlashFreeKey(keys[i])
    ensures SeparateDirectories(cols, keys) <==>
      forall i, j :: 0 <= i < j < |keys| ==> !SameKeyOnPaper(keys[i], keys[j])
  {
    hide SlashFreeKey, SameKeyOnPaper, DirOf;
    forall i | 0 <= i < |keys| ensures SlashFreeKey(keys[i]) {
      PlainKeyIsSlashFree(cols, keys, i);
    }
    forall i, j | 0 <= i < j < |keys|
      ensures DirOf(cols, keys[i]) == DirOf(cols, keys[j]) <==> SameKeyOnPaper(keys[i], keys[j])
    {
      SameDirectory(cols, keys[i], keys[j]);
    }
  }

  /** Without floats, keys that are the same on paper are the same. */
  lemma SameWithoutFloats(a: Key, b: Key)
    requires SameKeyOnPaper(a, b) && forall c :: 0 <= c < |a| ==> !a[c].Float?
    ensures a == b
  {
  }

  /** With Boolean, integer and float columns, and text columns without slashes, an overwriting save keeps all
      partitions exactly when no two keys agree up to floats that print alike; without float columns, always. */
  lemma ExactKeysSaved(dirs: Dirs, base: Path, cols: seq<string>, rows: seq<Record>, keys: seq<Key>)
    requires WellShaped(cols, rows, keys) && KeysOf(rows, keys) && PlainKeys(cols, keys)
    ensures EachPartitionSaved(SaveAll(dirs, base, cols, rows, keys, false), base, cols, rows, keys)
       <==> forall i, j :: 0 <= i < j < |keys| ==> !SameKeyOnPaper(keys[i], keys[j])
    ensures (forall i, c :: 0 <= i < |keys| && 0 <= c < |cols| ==> !keys[i][c].Float?) ==>
      EachPartitionSaved(SaveAll(dirs, base, cols, rows, keys, false), base, cols, rows, keys)
  {
    hide SaveAll, EachPartitionSaved, Part, Addressable, SlashFreeKey, SameKeyOnPaper, SameKind;
    PlainKeysSeparate(cols, keys);
    SlashFreeSeparate(cols, keys);
    OverwriteSavesAll(dirs, base, cols, rows, keys);
    if forall i, c :: 0 <= i < |keys| && 0 <= c < |cols| ==> !keys[i][c].Float? {
      forall i, j | 0 <= i < j < |keys| ensures !SameKeyOnPaper(keys[i], keys[j]) {
        if SameKeyOnPaper(keys[i], keys[j]) {
          SameWithoutFloats(keys[i], keys[j]);
        }
      }
    }
  }

  // ---------- Nested directories ----------

  lemma OneColumn(col: string, v: KeyValue)
    ensures DirOf([col], [v]) == Components(PartText(col, v))
  {
    hide Components, PartText;
    assert DirUpTo([col], [v], 0) == [];
    assert DirUpTo([col], [v], 1) == [] + Components(PartText(col, v));
  }

  lemma PlainComponent(s: string)
    requires s != "" && s != "." && SlashFree(s)
    ensures Components(s) == [s]
  {
  }

  lemma NestedDirs()
    ensures DirOf(["x"], [Text("a/b")]) == ["x=a", "b"] && DirOf(["x"], [Text("a")]) == ["x=a"]
  {
    hide DirOf, Components;
    OneColumn("x", Text("a/b"));
    OneColumn("x", Text("a"));
    assert PartText("x", Text("a/b")) == "x=a" + "/" + "b" && PartText("x", Text("a")) == "x=a";
    ComponentsJoin("x=a", "b");
    PlainComponent("x=a");
    PlainComponent("b");
  }

  /** A text column with the values "a/b" and "a": saved in this order, the partition of "a/b" is removed with the
      directory of "a"; in the other order both survive. */
  lemma NestedKeysDependOnOrder()
    ensures !NoneRemoved(["x"], [[Text("a/b")], [Text("a")]])
    ensures NoneRemoved(["x"], [[Text("a")], [Text("a/b")]])
  {
    NestedDirs();
    hide DirOf;
    var lost := [[Text("a/b")], [Text("a")]];
    assert lost[0] == [Text("a/b")] && lost[1] == [Text("a")];
    assert ["x=a", "b"][..1] == ["x=a"];
    assert DirOf(["x"], lost[1]) <= DirOf(["x"], lost[0]);
    var kept := [[Text("a")], [Text("a/b")]];
    assert kept[0] == [Text("a")] && kept[1] == [Text("a/b")];
  }

  /** The values "a" and "a/" share a directory. */
  lemma TrailingSlashShares()
    ensures DirOf(["x"], [Text("a/")]) == DirOf(["x"], [Text("a")])
  {
    hide DirOf, Components;
    OneColumn("x", Text("a/"));
    OneColumn("x", Text("a"));
    assert PartText("x", Text("a/")) == "x=a" + "/" + "" && PartText("x", Text("a")) == "x=a";
    ComponentsJoin("x=a", "");
    NoComponents();
  }

  lemma NestedShape(rows: seq<Record>, keys: seq<Key>)
    requires rows == [Record([Text("a/b")], 1), Record([Text("a")], 2)] && keys == [[Text("a/b")], [Text("a")]]
    ensures WellShaped(["x"], rows, keys) && KeysOf(rows, keys)
  {
    NestedDirs();
    hide DirOf;
    assert rows[..1] == [rows[0]] && rows[..1][..0] == [] && rows[0].key == keys[0] && rows[1].key == keys[1];
    assert Part([], keys[0]) == [] && Part([], keys[1]) == [];
    assert Part(rows[..1], keys[0]) == [rows[0]] && Part(rows, keys[0]) == [rows[0]]
      && Part(rows, keys[1]) == [rows[1]];
    assert FileIndex("x=a").None? && FileIndex("b").None?;
    assert Addressable(["x"], keys[0]) && Addressable(["x"], keys[1]);
  }

  /** The rows of "a/b" are lost when "a" is saved after them. */
  lemma NestedKeysLoseRows(dirs: Dirs, base: Path, rows: seq<Record>, keys: seq<Key>)
    requires rows == [Record([Text("a/b")], 1), Record([Text("a")], 2)] && keys == [[Text("a/b")], [Text("a")]]
    ensures WellShaped(["x"], rows, keys) && KeysOf(rows, keys)
    ensures !EachPartitionSaved(SaveAll(dirs, base, ["x"], rows, keys, false), base, ["x"], rows, keys)
  {
    NestedDirs();
    NestedKeysDependOnOrder();
    NestedShape(rows, keys);
    hide DirOf, Part, SaveAll, EachPartitionSaved, WellShaped, KeysOf, NoneRemoved;
    OverwriteSavesAll(dirs, base, ["x"], rows, keys);
  }
}
