/** Conservation of rows: what the files of the partition directories hold after a save. */
module SavedRows {
  import opened Streams
  import opened Counting
  import opened PartitionPaths
  import opened PartitionedSave
  import opened OverwrittenSave
  import opened AppendedSave

  // ---------- Rows of files and directories ----------

  ghost function Contents(files: Files, f: string): multiset<Record> {
    if f in files then multiset(files[f]) else multiset{}
  }

  /** The rows in some files of a directory. */
  ghost function FileRows(files: Files, names: set<string>): multiset<Record> {
    Sum(names, f => Contents(files, f))
  }

  /** The rows in the files of some directories. */
  ghost function TreeRows(dirs: Dirs, qs: set<Path>): multiset<Record> {
    Sum(qs, q => FileRows(FilesIn(dirs, q), FilesIn(dirs, q).Keys))
  }

  ghost function NewFileRows(before: Files, after: Files): multiset<Record> {
    FileRows(after, after.Keys - before.Keys)
  }

  /** The rows in the files of some directories that were not there before. */
  ghost function NewTreeRows(before: Dirs, after: Dirs, qs: set<Path>): multiset<Record> {
    Sum(qs, q => NewFileRows(FilesIn(before, q), FilesIn(after, q)))
  }

  ghost function PartitionDirs(base: Path, cols: seq<string>, keys: seq<Key>): set<Path> {
    set k | k in keys :: base + DirOf(cols, k)
  }

  // ---------- The rows of the parts, directory by directory ----------

  function PartRows(parts: seq<seq<Record>>): multiset<Record> {
    if parts == [] then multiset{} else PartRows(parts[..|parts| - 1]) + multiset(parts[|parts| - 1])
  }

  lemma PartRowsNext(parts: seq<seq<Record>>, p: seq<Record>)
    ensures PartRows(parts + [p]) == PartRows(parts) + multiset(p)
  {
    assert (parts + [p])[..|parts|] == parts;
  }

  lemma PartRowsGrow(base: Path, cols: seq<string>, rows: seq<Record>, keys: seq<Key>, q: Path)
    requires keys != []
    ensures var init, k := keys[..|keys| - 1], keys[|keys| - 1];
      PartRows(PartsIn(base, cols, rows, keys, q))
        == PartRows(PartsIn(base, cols, rows, init, q))
           + if base + DirOf(cols, k) == q then multiset(Part(rows, k)) else multiset{}
  {
    hide DirOf, Part;
    var init, k := keys[..|keys| - 1], keys[|keys| - 1];
    PartRowsNext(PartsIn(base, cols, rows, init, q), Part(rows, k));
    assert PartsIn(base, cols, rows, init, q) + [] == PartsIn(base, cols, rows, init, q);
  }

  lemma NoPartRows(base: Path, cols: seq<string>, rows: seq<Record>, f: Path -> multiset<Record>)
    requires forall q :: f(q) == PartRows(PartsIn(base, cols, rows, [], q))
    ensures forall q :: f(q) == multiset{}
  {
  }

  /** The parts of all directories together are the parts of all keys. */
  lemma {:induction false} PartsOfDirectories(base: Path, cols: seq<string>, rows: seq<Record>, keys: seq<Key>,
                                              qs: set<Path>)
    requires PartitionDirs(base, cols, keys) <= qs
    ensures Sum(qs, q => PartRows(PartsIn(base, cols, rows, keys, q))) == multiset(AllParts(rows, keys))
  {
    hide DirOf, Part, PartsIn, PartRows;
    var f := q => PartRows(PartsIn(base, cols, rows, keys, q));
    if keys == [] {
      NoPartRows(base, cols, rows, f);
      SumOfNothing(qs, f);
    } else {
      var init, k := keys[..|keys| - 1], keys[|keys| - 1];
      var g := q => PartRows(PartsIn(base, cols, rows, init, q));
      var d := base + DirOf(cols, k);
      assert k in keys && d in PartitionDirs(base, cols, keys);
      assert forall x :: x in init ==> x in keys;
      PartsOfDirectories(base, cols, rows, init, qs);
      forall q ensures f(q) == g(q) + if d == q then multiset(Part(rows, k)) else multiset{} {
        PartRowsGrow(base, cols, rows, keys, q);
      }
      SumGrows(qs, g, f, d, multiset(Part(rows, k)));
    }
  }

  // ---------- Appending ----------

  lemma NewFileAdds(files: Files, mid: Files, name: string, part: seq<Record>)
    requires name !in mid && forall f :: f in files ==> f in mid
    ensures NewFileRows(files, mid[name := part]) == NewFileRows(files, mid) + multiset(part)
  {
    var after := mid[name := part];
    var names := mid.Keys - files.Keys;
    assert after.Keys - files.Keys == names + {name};
    var f, g := x => Contents(after, x), x => Contents(mid, x);
    SumSplit(names + {name}, f, name);
    assert names + {name} - {name} == names;
    SumSame(names, f, g);
  }

  /** With room, the new files of a directory hold exactly the added parts. */
  lemma {:induction false} AddedRows(files: Files, parts: seq<seq<Record>>)
    requires RoomFor(files, |parts|)
    ensures NewFileRows(files, AddFiles(files, parts)) == PartRows(parts)
  {
    hide FileName, NextIndex, LargestIndex;
    if parts == [] {
      assert files.Keys - files.Keys == {};
    } else {
      var init, last := parts[..|parts| - 1], parts[|parts| - 1];
      AddedRows(files, init);
      LastIsFresh(files, parts);
      FilesOrigin(files, init);
      NewFileAdds(files, AddFiles(files, init), FileName(NextIndex(AddFiles(files, init))), last);
    }
  }

  /** What new files hold, comes from the parts of their directory. */
  lemma NewRowOrigin(before: Files, after: Files, r: Record) returns (f: string)
    requires r in NewFileRows(before, after)
    ensures f in after && f !in before && r in after[f]
  {
    f := SumMember(after.Keys - before.Keys, x => Contents(after, x), r);
  }

  lemma RoomConserves(dirs: Dirs, base: Path, cols: seq<string>, rows: seq<Record>, keys: seq<Key>)
    requires KeysOf(rows, keys) && EnoughRoom(dirs, base, cols, keys)
    ensures NewTreeRows(dirs, SaveAll(dirs, base, cols, rows, keys, true), PartitionDirs(base, cols, keys))
         == multiset(rows)
  {
    hide EnoughRoom, RoomFor, DirOf, Part, SaveAll, NewFileRows;
    var after, qs := SaveAll(dirs, base, cols, rows, keys, true), PartitionDirs(base, cols, keys);
    var f := q => NewFileRows(FilesIn(dirs, q), FilesIn(after, q));
    var g := q => PartRows(PartsIn(base, cols, rows, keys, q));
    forall q ensures f(q) == g(q) {
      AppendFiles(dirs, base, cols, rows, keys, q);
      RoomEverywhere(dirs, base, cols, keys, q);
      PartsInSize(base, cols, rows, keys, q);
      AddedRows(FilesIn(dirs, q), PartsIn(base, cols, rows, keys, q));
    }
    SumSame(qs, f, g);
    PartsOfDirectories(base, cols, rows, keys, qs);
    PartitionsConserveRows(rows, keys);
  }

  /** A row of a lost partition is in no new file. */
  lemma LostRow(before: Dirs, after: Dirs, base: Path, cols: seq<string>, rows: seq<Record>, keys: seq<Key>, lost: Key,
                r: Record, qs: set<Path>)
    requires lost in keys && r.key == lost
    requires forall q :: FilesIn(after, q) == AddFiles(FilesIn(before, q), PartsIn(base, cols, rows, keys, q))
    requires var d := base + DirOf(cols, lost); !InNewFile(FilesIn(before, d), FilesIn(after, d), Part(rows, lost))
    ensures r !in NewTreeRows(before, after, qs)
  {
    hide DirOf, Part, NewFileRows, AddFiles, PartsIn;
    if r in NewTreeRows(before, after, qs) {
      var q := SumMember(qs, x => NewFileRows(FilesIn(before, x), FilesIn(after, x)), r);
      var f := NewRowOrigin(FilesIn(before, q), FilesIn(after, q), r);
      FilesOrigin(FilesIn(before, q), PartsIn(base, cols, rows, keys, q));
      PartsInMember(base, cols, rows, keys, q, FilesIn(after, q)[f]);
      var k :| k in keys && base + DirOf(cols, k) == q && Part(rows, k) == FilesIn(after, q)[f];
      PartKeys(rows, k);
    }
  }

  lemma {:induction false} PartIsFromRows(rows: seq<Record>, key: Key)
    ensures forall r :: r in Part(rows, key) ==> r in rows && r.key == key
  {
    if rows == [] {
    } else {
      PartIsFromRows(rows[..|rows| - 1], key);
    }
  }

  /** The new files of an appending save hold every row, as often as it occurs, exactly when every partition
      directory has room. */
  lemma AppendConservesRows(dirs: Dirs, base: Path, cols: seq<string>, rows: seq<Record>, keys: seq<Key>)
    requires WellShaped(cols, rows, keys) && KeysOf(rows, keys)
    ensures NewTreeRows(dirs, SaveAll(dirs, base, cols, rows, keys, true), PartitionDirs(base, cols, keys))
         == multiset(rows)
       <==> EnoughRoom(dirs, base, cols, keys)
  {
    hide RoomFor, DirOf, Part, SaveAll, InNewFile, NewTreeRows, AddFiles, PartsIn, WellShaped;
    if EnoughRoom(dirs, base, cols, keys) {
      RoomConserves(dirs, base, cols, rows, keys);
    } else {
      var after := SaveAll(dirs, base, cols, rows, keys, true);
      var k :| k in keys
        && !RoomFor(FilesIn(dirs, base + DirOf(cols, k)), Sharing(base, cols, keys, base + DirOf(cols, k)));
      var lost := NoRoomLosesKey(dirs, base, cols, rows, keys, k);
      forall q ensures FilesIn(after, q) == AddFiles(FilesIn(dirs, q), PartsIn(base, cols, rows, keys, q)) {
        AppendFiles(dirs, base, cols, rows, keys, q);
      }
      var r := Part(rows, lost)[0];
      PartIsFromRows(rows, lost);
      assert r in Part(rows, lost);
      LostRow(dirs, after, base, cols, rows, keys, lost, r, PartitionDirs(base, cols, keys));
      assert r in multiset(rows);
    }
  }

  // ---------- Overwriting ----------

  lemma OneFileRows(name: string, part: seq<Record>)
    ensures FileRows(map[name := part], map[name := part].Keys) == multiset(part)
  {
    var files := map[name := part];
    assert files.Keys == {name};
    SumSplit(files.Keys, f => Contents(files, f), name);
    assert files.Keys - {name} == {};
  }

  lemma {:induction false} OnlyPart(base: Path, cols: seq<string>, rows: seq<Record>, keys: seq<Key>, i: nat)
    requires SeparateDirectories(cols, keys) && i < |keys|
    ensures PartsIn(base, cols, rows, keys, base + DirOf(cols, keys[i])) == [Part(rows, keys[i])]
  {
    hide DirOf, Part;
    var n := |keys| - 1;
    var init, d := keys[..n], base + DirOf(cols, keys[i]);
    assert d[|base|..] == DirOf(cols, keys[i]) && (base + DirOf(cols, keys[n]))[|base|..] == DirOf(cols, keys[n]);
    if i == n {
      forall k | k in init ensures base + DirOf(cols, k) != d {
        var j :| 0 <= j < n && keys[j] == k;
        assert (base + DirOf(cols, k))[|base|..] == DirOf(cols, keys[j]);
      }
      NotShared(base, cols, init, d);
      PartsInSize(base, cols, rows, init, d);
    } else {
      OnlyPart(base, cols, rows, init, i);
    }
  }

  lemma SeparateConserves(dirs: Dirs, base: Path, cols: seq<string>, rows: seq<Record>, keys: seq<Key>)
    requires WellShaped(cols, rows, keys) && KeysOf(rows, keys) && NoneRemoved(cols, keys)
    ensures TreeRows(SaveAll(dirs, base, cols, rows, keys, false), PartitionDirs(base, cols, keys)) == multiset(rows)
  {
    hide DirOf, Part, SaveAll, FileRows, WellShaped, FileName, PartsIn;
    var after, qs := SaveAll(dirs, base, cols, rows, keys, false), PartitionDirs(base, cols, keys);
    var f := q => FileRows(FilesIn(after, q), FilesIn(after, q).Keys);
    var g := q => PartRows(PartsIn(base, cols, rows, keys, q));
    OverwriteSavesAll(dirs, base, cols, rows, keys);
    assert SeparateDirectories(cols, keys);
    forall q | q in qs ensures f(q) == g(q) {
      var k :| k in keys && base + DirOf(cols, k) == q;
      var i :| 0 <= i < |keys| && keys[i] == k;
      assert FilesIn(after, base + DirOf(cols, keys[i])) == map[FileName(0) := Part(rows, keys[i])];
      OneFileRows(FileName(0), Part(rows, k));
      OnlyPart(base, cols, rows, keys, i);
      assert [Part(rows, k)] == [] + [Part(rows, k)];
      PartRowsNext([], Part(rows, k));
    }
    SumSame(qs, f, g);
    PartsOfDirectories(base, cols, rows, keys, qs);
    PartitionsConserveRows(rows, keys);
  }

  /** A file in a partition directory holds the rows of a key with that directory. */
  lemma {:induction false} OwnFiles(dirs: Dirs, base: Path, cols: seq<string>, rows: seq<Record>, keys: seq<Key>,
                                    i: nat,
                                    f: string) returns (m: nat)
    requires i < |keys| && f in FilesIn(SaveAll(dirs, base, cols, rows, keys, false), base + DirOf(cols, keys[i]))
    ensures m < |keys| && DirOf(cols, keys[m]) == DirOf(cols, keys[i])
    ensures FilesIn(SaveAll(dirs, base, cols, rows, keys, false), base + DirOf(cols, keys[i]))[f] == Part(rows, keys[m])
  {
    hide DirOf, Part, SaveOne, FileName;
    var n := |keys| - 1;
    var init := keys[..n];
    var d, q := base + DirOf(cols, keys[n]), base + DirOf(cols, keys[i]);
    SaveOneFiles(SaveAll(dirs, base, cols, rows, init, false), d, Part(rows, keys[n]), false, q);
    SamePrefix(base, DirOf(cols, keys[n]), DirOf(cols, keys[i]));
    if d == q {
      m := n;
    } else {
      m := OwnFiles(dirs, base, cols, rows, init, i, f);
    }
  }

  lemma FileRow(files: Files, r: Record) returns (f: string)
    requires r in FileRows(files, files.Keys)
    ensures f in files && r in files[f]
  {
    f := SumMember(files.Keys, x => Contents(files, x), r);
  }

  /** A row found after an overwriting save is in a file with the rows of its key, in the directory of that key. */
  lemma OverwrittenOrigin(dirs: Dirs, base: Path, cols: seq<string>, rows: seq<Record>, keys: seq<Key>, r: Record)
      returns (m: nat)
    requires r in TreeRows(SaveAll(dirs, base, cols, rows, keys, false), PartitionDirs(base, cols, keys))
    ensures m < |keys| && r.key == keys[m]
    ensures !NoFileHolds(FilesIn(SaveAll(dirs, base, cols, rows, keys, false), base + DirOf(cols, keys[m])),
                         Part(rows, keys[m]))
  {
    hide DirOf, Part, SaveAll, FileRows, FileName;
    var after := SaveAll(dirs, base, cols, rows, keys, false);
    var q := SumMember(PartitionDirs(base, cols, keys), x => FileRows(FilesIn(after, x), FilesIn(after, x).Keys), r);
    var k :| k in keys && base + DirOf(cols, k) == q;
    var i :| 0 <= i < |keys| && keys[i] == k;
    var f := FileRow(FilesIn(after, q), r);
    m := OwnFiles(dirs, base, cols, rows, keys, i, f);
    PartIsFromRows(rows, keys[m]);
  }

  /** After an overwriting save the partition directories hold every row, as often as it occurs, exactly
      when no partition is saved to the directory of an earlier one or to an ancestor of it. */
  lemma OverwriteConservesRows(dirs: Dirs, base: Path, cols: seq<string>, rows: seq<Record>, keys: seq<Key>)
    requires WellShaped(cols, rows, keys) && KeysOf(rows, keys)
    ensures TreeRows(SaveAll(dirs, base, cols, rows, keys, false), PartitionDirs(base, cols, keys)) == multiset(rows)
       <==> NoneRemoved(cols, keys)
  {
    hide DirOf, Part, SaveAll, TreeRows, WellShaped, NoFileHolds;
    if NoneRemoved(cols, keys) {
      SeparateConserves(dirs, base, cols, rows, keys);
    } else {
      var i, j :| 0 <= i < j < |keys| && DirOf(cols, keys[j]) <= DirOf(cols, keys[i]);
      assert keys[i] in keys;
      var r := Part(rows, keys[i])[0];
      PartIsFromRows(rows, keys[i]);
      assert r in Part(rows, keys[i]) && r in multiset(rows);
      RemovedForGood(dirs, base, cols, rows, keys, i, j);
      if r in TreeRows(SaveAll(dirs, base, cols, rows, keys, false), PartitionDirs(base, cols, keys)) {
        var m := OverwrittenOrigin(dirs, base, cols, rows, keys, r);
      }
    }
  }
}
