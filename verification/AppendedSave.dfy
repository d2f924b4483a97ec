/** Appending partitions to a directory tree: what survives, and exactly when everything does. */
module AppendedSave {
  import opened Wrappers
  import opened Streams
  import opened PartitionPaths
  import opened PartitionedSave
  import opened OverwrittenSave

  // ---------- One directory ----------

  /** The directory with one more file, under the next number. */
  ghost function AddFile(files: Files, part: seq<Record>): Files {
    files[FileName(NextIndex(files)) := part]
  }

  ghost function AddFiles(files: Files, parts: seq<seq<Record>>): Files {
    if parts == [] then files else AddFile(AddFiles(files, parts[..|parts| - 1]), parts[|parts| - 1])
  }

  /** The largest number after c more files: it stays at the largest `usize` once it is there. */
  function LargestAfter(m: Option<u64>, c: nat): Option<u64> {
    if c == 0 then m else Some(Min(if m.None? then c - 1 else m.value + c, TWO64 - 1))
  }

  /** The directory has names for c more files: numbers behind the largest one, then 0 if it is free. */
  ghost predicate RoomFor(files: Files, c: nat) {
    var m := LargestIndex(files.Keys);
    if m.None? then c <= TWO64 else m.value + c < TWO64 || (m.value + c == TWO64 && FileName(0) !in files)
  }

  lemma LargestAfterAdding(files: Files, part: seq<Record>)
    ensures LargestIndex(AddFile(files, part).Keys) == LargestAfter(LargestIndex(files.Keys), 1)
  {
    hide FileIndex, FileName, IsLargest;
    var m, idx := LargestIndex(files.Keys), NextIndex(files);
    FileIndexOfName(idx);
    LargestNext(files.Keys, m, FileName(idx));
    assert AddFile(files, part).Keys == files.Keys + {FileName(idx)};
    LargestUnique(AddFile(files, part).Keys, LargestIndex(AddFile(files, part).Keys), Larger(m, Some(idx)));
  }

  lemma OneAfter(m: Option<u64>, c: nat)
    ensures LargestAfter(LargestAfter(m, c), 1) == LargestAfter(m, c + 1)
  {
  }

  lemma {:induction false} LargestAfterAll(files: Files, parts: seq<seq<Record>>)
    ensures LargestIndex(AddFiles(files, parts).Keys) == LargestAfter(LargestIndex(files.Keys), |parts|)
  {
    hide AddFile, LargestIndex;
    if parts == [] {
    } else {
      hide LargestAfter;
      var init, last := parts[..|parts| - 1], parts[|parts| - 1];
      LargestAfterAll(files, init);
      LargestAfterAdding(AddFiles(files, init), last);
      OneAfter(LargestIndex(files.Keys), |init|);
    }
  }

  lemma SameFileName(i: u64, j: u64)
    requires FileName(i) == FileName(j)
    ensures i == j
  {
    FileIndexOfName(i);
    FileIndexOfName(j);
  }

  lemma NextIndexIsZero(files: Files)
    ensures NextIndex(files) == 0 <==> LargestIndex(files.Keys) in {None, Some(TWO64 - 1)}
  {
    hide LargestIndex;
    var m: Option<u64> := LargestIndex(files.Keys);
  }

  lemma NextIsZero(files: Files, parts: seq<seq<Record>>)
    ensures var m, c := LargestIndex(files.Keys), |parts|;
      NextIndex(AddFiles(files, parts)) == 0 <==> if m.None? then c == 0 || c >= TWO64 else m.value + c >= TWO64 - 1
  {
    hide LargestIndex, AddFiles, NextIndex;
    var m: Option<u64> := LargestIndex(files.Keys);
    LargestAfterAll(files, parts);
    NextIndexIsZero(AddFiles(files, parts));
  }

  /** Number 0 is used by the first file of a directory without numbers, and after a wrap. */
  lemma {:induction false} ZeroUsed(files: Files, parts: seq<seq<Record>>)
    ensures var m, c := LargestIndex(files.Keys), |parts|;
      FileName(0) in AddFiles(files, parts) <==>
        FileName(0) in files || (if m.None? then c >= 1 else m.value + c >= TWO64)
  {
    hide LargestIndex, FileName, NextIndex;
    var m: Option<u64> := LargestIndex(files.Keys);
    if parts == [] {
    } else {
      var init, last := parts[..|parts| - 1], parts[|parts| - 1];
      var before := AddFiles(files, init);
      ZeroUsed(files, init);
      NextIsZero(files, init);
      assert AddFiles(files, parts) == before[FileName(NextIndex(before)) := last];
      hide AddFiles;
      if FileName(0) == FileName(NextIndex(before)) {
        SameFileName(0, NextIndex(before));
      }
    }
  }

  lemma LargestBounds(files: Files, n: string)
    requires n in files && FileIndex(n) == Some(TWO64 - 1)
    ensures LargestIndex(files.Keys) == Some(TWO64 - 1)
  {
    hide FileIndex;
    var m := LargestIndex(files.Keys);
    assert IsLargest(files.Keys, m) && n in files.Keys;
  }

  /** The next name is stale exactly when the largest number is used up and number 0 is used. */
  lemma NextIsStale(files: Files)
    ensures FileName(NextIndex(files)) in files <==> LargestIndex(files.Keys) == Some(TWO64 - 1) && FileName(0) in files
  {
    NextIndexFresh(files);
    hide FileIndex, FileName, NextIndex, LargestIndex;
    if LargestIndex(files.Keys) == Some(TWO64 - 1) {
      assert exists n :: n in files && FileIndex(n) == Some(TWO64 - 1);
    }
    if n :| n in files && FileIndex(n) == Some(TWO64 - 1) {
      LargestBounds(files, n);
    }
  }

  /** The last of several added files gets a new name exactly when there is room for all of them. */
  lemma LastIsFresh(files: Files, parts: seq<seq<Record>>)
    requires parts != []
    ensures var before := AddFiles(files, parts[..|parts| - 1]);
      FileName(NextIndex(before)) !in before <==> RoomFor(files, |parts|)
  {
    hide LargestIndex, FileName, NextIndex, AddFiles;
    var init := parts[..|parts| - 1];
    NextIsStale(AddFiles(files, init));
    LargestAfterAll(files, init);
    ZeroUsed(files, init);
  }

  /** Every file is an old one, or holds one of the parts; no file disappears. */
  lemma {:induction false} FilesOrigin(files: Files, parts: seq<seq<Record>>)
    ensures forall f :: f in files ==> f in AddFiles(files, parts)
    ensures forall f :: f in AddFiles(files, parts) && f !in files ==> AddFiles(files, parts)[f] in parts
  {
    hide FileName, NextIndex;
    if parts == [] {
    } else {
      FilesOrigin(files, parts[..|parts| - 1]);
      assert parts == parts[..|parts| - 1] + [parts[|parts| - 1]];
    }
  }

  ghost predicate InNewFile(before: Files, after: Files, part: seq<Record>) {
    exists f :: f in after && f !in before && after[f] == part
  }

  /** Old files are unchanged, every part is in a new file, and every new file holds a part. */
  ghost predicate Survives(before: Files, after: Files, parts: seq<seq<Record>>) {
    && (forall f :: f in before ==> f in after && after[f] == before[f])
    && (forall p :: p in parts ==> InNewFile(before, after, p))
    && (forall f :: f in after && f !in before ==> after[f] in parts)
  }

  lemma OneMoreSurvives(files: Files, mid: Files, init: seq<seq<Record>>, last: seq<Record>)
    requires Survives(files, mid, init) && FileName(NextIndex(mid)) !in mid
    ensures Survives(files, AddFile(mid, last), init + [last])
  {
    hide FileName, NextIndex;
    var after, name := AddFile(mid, last), FileName(NextIndex(mid));
    assert forall f :: f in files ==> f in mid;
    forall p | p in init + [last] ensures InNewFile(files, after, p) {
      if p in init {
        assert InNewFile(files, mid, p);
        var f :| f in mid && f !in files && mid[f] == p;
        assert f in after && after[f] == p;
      } else {
        assert name in after && after[name] == last;
      }
    }
  }

  lemma {:induction false} RoomSurvives(files: Files, parts: seq<seq<Record>>)
    requires RoomFor(files, |parts|)
    ensures Survives(files, AddFiles(files, parts), parts)
  {
    hide FileName, NextIndex, LargestIndex;
    if parts == [] {
    } else {
      var init, last := parts[..|parts| - 1], parts[|parts| - 1];
      RoomSurvives(files, init);
      LastIsFresh(files, parts);
      OneMoreSurvives(files, AddFiles(files, init), init, last);
      assert parts == init + [last];
    }
  }

  /** Different new files hold different parts. */
  lemma {:induction false} NewFilesDiffer(files: Files, parts: seq<seq<Record>>, f: string, g: string)
    requires Distinct(parts) && f != g && f !in files && g !in files
    requires f in AddFiles(files, parts) && g in AddFiles(files, parts)
    ensures AddFiles(files, parts)[f] != AddFiles(files, parts)[g]
  {
    hide FileName, NextIndex;
    if parts == [] {
    } else {
      var init, last := parts[..|parts| - 1], parts[|parts| - 1];
      var name := FileName(NextIndex(AddFiles(files, init)));
      FilesOrigin(files, init);
      assert last !in init;
      if f != name && g != name {
        NewFilesDiffer(files, init, f, g);
      }
    }
  }

  lemma WrapsToZero(files: Files, parts: seq<seq<Record>>)
    requires parts != [] && !RoomFor(files, |parts|)
    ensures var before := AddFiles(files, parts[..|parts| - 1]);
      NextIndex(before) == 0 && FileName(0) in before
  {
    hide AddFiles, FileName, LargestIndex;
    LastIsFresh(files, parts);
    NextIsStale(AddFiles(files, parts[..|parts| - 1]));
  }

  /** Without room for all of them a part is lost: the last one, if it replaces an old file, else the one it
      replaces. */
  lemma NoRoomLoses(files: Files, parts: seq<seq<Record>>) returns (p: seq<Record>)
    requires Distinct(parts) && !RoomFor(files, |parts|)
    ensures p in parts && !InNewFile(files, AddFiles(files, parts), p)
  {
    assert parts != [];
    hide FileName, NextIndex, LargestIndex, RoomFor;
    var init, last := parts[..|parts| - 1], parts[|parts| - 1];
    var before, after := AddFiles(files, init), AddFiles(files, parts);
    WrapsToZero(files, parts);
    FilesOrigin(files, init);
    assert last !in init;
    assert after == before[FileName(0) := last];
    if FileName(0) in files {
      p := last;
    } else {
      p := before[FileName(0)];
      forall f | f in after && f !in files ensures after[f] != p {
        if f != FileName(0) {
          NewFilesDiffer(files, init, f, FileName(0));
        }
      }
    }
  }

  /** A directory that fails: with the largest number and number 0 in use, the next append replaces the rows
      of data_0.parquet. */
  lemma LastNumberOverwrites(a: seq<Record>, b: seq<Record>, part: seq<Record>)
    ensures var files := map[FileName(TWO64 - 1) := a, FileName(0) := b];
      AddFile(files, part) == map[FileName(TWO64 - 1) := a, FileName(0) := part] && !RoomFor(files, 1)
  {
    hide FileName, FileIndex, NextIndex, LargestIndex;
    var files := map[FileName(TWO64 - 1) := a, FileName(0) := b];
    FileIndexOfName(TWO64 - 1);
    FileIndexOfName(0);
    LargestBounds(files, FileName(TWO64 - 1));
    NextIndexIsZero(files);
  }

  // ---------- The whole tree ----------

  /** One appended partition: a file with its rows under the next number of its directory, a new one
      exactly when the directory has room; nothing else changes. */
  lemma AppendOne(dirs: Dirs, d: Path, part: seq<Record>)
    ensures var after, name := SaveOne(dirs, d, part, true), FileName(NextIndex(FilesIn(dirs, d)));
      && FilesIn(after, d) == FilesIn(dirs, d)[name := part]
      && (forall q :: q != d ==> FilesIn(after, q) == FilesIn(dirs, q))
      && (name !in FilesIn(dirs, d) <==> RoomFor(FilesIn(dirs, d), 1))
  {
    hide SaveOne, FileName, NextIndex, RoomFor;
    SaveOneFiles(dirs, d, part, true, d);
    forall q ensures q != d ==> FilesIn(SaveOne(dirs, d, part, true), q) == FilesIn(dirs, q) {
      SaveOneFiles(dirs, d, part, true, q);
    }
    assert [part][..0] == [];
    LastIsFresh(FilesIn(dirs, d), [part]);
  }

  /** The parts saved to a directory, in order. */
  function PartsIn(base: Path, cols: seq<string>, rows: seq<Record>, keys: seq<Key>, q: Path): seq<seq<Record>> {
    if keys == [] then []
    else
      var init, k := keys[..|keys| - 1], keys[|keys| - 1];
      PartsIn(base, cols, rows, init, q) + if base + DirOf(cols, k) == q then [Part(rows, k)] else []
  }

  /** How many keys share a directory. */
  function Sharing(base: Path, cols: seq<string>, keys: seq<Key>, q: Path): nat {
    if keys == [] then 0
    else Sharing(base, cols, keys[..|keys| - 1], q) + if base + DirOf(cols, keys[|keys| - 1]) == q then 1 else 0
  }

  lemma {:induction false} PartsInSize(base: Path, cols: seq<string>, rows: seq<Record>, keys: seq<Key>, q: Path)
    ensures |PartsIn(base, cols, rows, keys, q)| == Sharing(base, cols, keys, q)
  {
    hide DirOf, Part;
    if keys == [] {
    } else {
      PartsInSize(base, cols, rows, keys[..|keys| - 1], q);
    }
  }

  lemma {:induction false} PartsInMember(base: Path, cols: seq<string>, rows: seq<Record>, keys: seq<Key>, q: Path,
                                         p: seq<Record>)
    ensures p in PartsIn(base, cols, rows, keys, q)
       <==> exists k :: k in keys && base + DirOf(cols, k) == q && Part(rows, k) == p
  {
    hide DirOf, Part;
    if keys == [] {
    } else {
      var init, k := keys[..|keys| - 1], keys[|keys| - 1];
      PartsInMember(base, cols, rows, init, q, p);
      assert keys == init + [k];
    }
  }

  lemma {:induction false} PartsInDistinct(base: Path, cols: seq<string>, rows: seq<Record>, keys: seq<Key>, q: Path)
    requires Distinct(keys) && NonEmptyParts(rows, keys)
    ensures Distinct(PartsIn(base, cols, rows, keys, q))
  {
    hide DirOf, Part;
    if keys == [] {
    } else {
      var init, k := keys[..|keys| - 1], keys[|keys| - 1];
      assert forall x :: x in init ==> x in keys;
      PartsInDistinct(base, cols, rows, init, q);
      PartsInMember(base, cols, rows, init, q, Part(rows, k));
      forall x | x in init ensures Part(rows, x) != Part(rows, k) {
        assert k in keys && k !in init;
        if Part(rows, x) == Part(rows, k) {
          PartTellsKey(rows, x, k);
        }
      }
    }
  }

  /** An appending save adds to each directory the parts of its keys, in order. */
  lemma {:induction false} AppendFiles(dirs: Dirs, base: Path, cols: seq<string>, rows: seq<Record>, keys: seq<Key>,
                                       q: Path)
    ensures FilesIn(SaveAll(dirs, base, cols, rows, keys, true), q)
         == AddFiles(FilesIn(dirs, q), PartsIn(base, cols, rows, keys, q))
  {
    hide DirOf, Part, FileName, NextIndex, SaveOne;
    if keys == [] {
    } else {
      var init, k := keys[..|keys| - 1], keys[|keys| - 1];
      var parts, d := PartsIn(base, cols, rows, init, q), base + DirOf(cols, k);
      AppendFiles(dirs, base, cols, rows, init, q);
      AppendOne(SaveAll(dirs, base, cols, rows, init, true), d, Part(rows, k));
      assert AddFiles(FilesIn(dirs, q), parts + [Part(rows, k)])
        == AddFile(AddFiles(FilesIn(dirs, q), parts), Part(rows, k));
      assert PartsIn(base, cols, rows, keys, q) == if d == q then parts + [Part(rows, k)] else parts;
    }
  }

  ghost predicate IsPartFile(q: Path, contents: seq<Record>, base: Path, cols: seq<string>, rows: seq<Record>,
                             keys: seq<Key>) {
    exists k :: k in keys && q == base + DirOf(cols, k) && contents == Part(rows, k)
  }

  /** What an appending save should leave: every old file unchanged, for every key a new file with exactly
      its rows, and no other new file. */
  ghost predicate Appended(before: Dirs, after: Dirs, base: Path, cols: seq<string>, rows: seq<Record>,
                           keys: seq<Key>) {
    && (forall q, f :: f in FilesIn(before, q) ==>
          f in FilesIn(after, q) && FilesIn(after, q)[f] == FilesIn(before, q)[f])
    && (forall k :: k in keys ==>
          InNewFile(FilesIn(before, base + DirOf(cols, k)), FilesIn(after, base + DirOf(cols, k)), Part(rows, k)))
    && (forall q, f :: f in FilesIn(after, q) && f !in FilesIn(before, q) ==>
          IsPartFile(q, FilesIn(after, q)[f], base, cols, rows, keys))
  }

  /** Every partition directory has room for the files of the keys that share it. */
  ghost predicate EnoughRoom(dirs: Dirs, base: Path, cols: seq<string>, keys: seq<Key>) {
    forall k :: k in keys ==>
      RoomFor(FilesIn(dirs, base + DirOf(cols, k)), Sharing(base, cols, keys, base + DirOf(cols, k)))
  }

  lemma {:induction false} NotShared(base: Path, cols: seq<string>, keys: seq<Key>, q: Path)
    requires forall k :: k in keys ==> base + DirOf(cols, k) != q
    ensures Sharing(base, cols, keys, q) == 0
  {
    hide DirOf;
    if keys == [] {
    } else {
      assert keys[|keys| - 1] in keys;
      NotShared(base, cols, keys[..|keys| - 1], q);
    }
  }

  lemma RoomForNone(files: Files)
    ensures RoomFor(files, 0)
  {
    hide FileName;
    var m: Option<u64> := LargestIndex(files.Keys);
  }

  lemma RoomEverywhere(dirs: Dirs, base: Path, cols: seq<string>, keys: seq<Key>, q: Path)
    requires EnoughRoom(dirs, base, cols, keys)
    ensures RoomFor(FilesIn(dirs, q), Sharing(base, cols, keys, q))
  {
    hide DirOf, RoomFor;
    RoomForNone(FilesIn(dirs, q));
    if forall k :: k in keys ==> base + DirOf(cols, k) != q {
      NotShared(base, cols, keys, q);
    }
  }

  lemma DirectorySurvives(dirs: Dirs, base: Path, cols: seq<string>, rows: seq<Record>, keys: seq<Key>, q: Path)
    requires EnoughRoom(dirs, base, cols, keys)
    ensures Survives(FilesIn(dirs, q), FilesIn(SaveAll(dirs, base, cols, rows, keys, true), q),
                     PartsIn(base, cols, rows, keys, q))
  {
    hide EnoughRoom, RoomFor, Survives, DirOf, Part, SaveAll;
    RoomEverywhere(dirs, base, cols, keys, q);
    PartsInSize(base, cols, rows, keys, q);
    RoomSurvives(FilesIn(dirs, q), PartsIn(base, cols, rows, keys, q));
    AppendFiles(dirs, base, cols, rows, keys, q);
  }

  lemma RoomAppends(dirs: Dirs, base: Path, cols: seq<string>, rows: seq<Record>, keys: seq<Key>)
    requires EnoughRoom(dirs, base, cols, keys)
    ensures Appended(dirs, SaveAll(dirs, base, cols, rows, keys, true), base, cols, rows, keys)
  {
    hide EnoughRoom, DirOf, Part, SaveAll, PartsIn;
    var after := SaveAll(dirs, base, cols, rows, keys, true);
    forall q ensures Survives(FilesIn(dirs, q), FilesIn(after, q), PartsIn(base, cols, rows, keys, q)) {
      DirectorySurvives(dirs, base, cols, rows, keys, q);
    }
    forall k | k in keys
      ensures InNewFile(FilesIn(dirs, base + DirOf(cols, k)), FilesIn(after, base + DirOf(cols, k)), Part(rows, k))
    {
      PartsInMember(base, cols, rows, keys, base + DirOf(cols, k), Part(rows, k));
    }
    forall q, f | f in FilesIn(after, q) && f !in FilesIn(dirs, q)
      ensures IsPartFile(q, FilesIn(after, q)[f], base, cols, rows, keys)
    {
      PartsInMember(base, cols, rows, keys, q, FilesIn(after, q)[f]);
    }
  }

  /** Without room in some directory the partition of one of its keys is in no new file. */
  lemma NoRoomLosesKey(dirs: Dirs, base: Path, cols: seq<string>, rows: seq<Record>, keys: seq<Key>,
                       k: Key) returns (lost: Key)
    requires Distinct(keys) && NonEmptyParts(rows, keys) && k in keys
    requires var d := base + DirOf(cols, k); !RoomFor(FilesIn(dirs, d), Sharing(base, cols, keys, d))
    ensures lost in keys
    ensures var d := base + DirOf(cols, lost);
      !InNewFile(FilesIn(dirs, d), FilesIn(SaveAll(dirs, base, cols, rows, keys, true), d), Part(rows, lost))
  {
    hide RoomFor, InNewFile, DirOf, Part, SaveAll, NonEmptyParts;
    var d := base + DirOf(cols, k);
    var parts := PartsIn(base, cols, rows, keys, d);
    PartsInSize(base, cols, rows, keys, d);
    PartsInDistinct(base, cols, rows, keys, d);
    var p := NoRoomLoses(FilesIn(dirs, d), parts);
    AppendFiles(dirs, base, cols, rows, keys, d);
    PartsInMember(base, cols, rows, keys, d, p);
    lost :| lost in keys && base + DirOf(cols, lost) == d && Part(rows, lost) == p;
  }

  /** An appending save keeps every existing file and adds every partition in a file of its own exactly when
      every partition directory has room, even where keys share a directory. */
  lemma AppendSavesAll(dirs: Dirs, base: Path, cols: seq<string>, rows: seq<Record>, keys: seq<Key>)
    requires WellShaped(cols, rows, keys) && Distinct(keys) && NonEmptyParts(rows, keys)
    ensures Appended(dirs, SaveAll(dirs, base, cols, rows, keys, true), base, cols, rows, keys)
       <==> EnoughRoom(dirs, base, cols, keys)
  {
    hide RoomFor, DirOf, Part, SaveAll, NonEmptyParts, InNewFile, IsPartFile, WellShaped;
    if EnoughRoom(dirs, base, cols, keys) {
      RoomAppends(dirs, base, cols, rows, keys);
    } else {
      var k :| k in keys
        && !RoomFor(FilesIn(dirs, base + DirOf(cols, k)), Sharing(base, cols, keys, base + DirOf(cols, k)));
      var lost := NoRoomLosesKey(dirs, base, cols, rows, keys, k);
    }
  }
}
