/** Saving a frame partition by partition into a directory tree. */
module PartitionedSave {
  import opened Wrappers
  import opened Decimal
  import opened Streams
  import opened PartitionPaths

  // ---------- The file system ----------

  type Files = map<string, seq<Record>>

  /** The directories that exist, each with the files directly in it. */
  type Dirs = map<Path, Files>

  function FilesIn(dirs: Dirs, p: Path): Files { if p in dirs then dirs[p] else map[] }

  /** `create_dir_all`: the directory and its ancestors exist afterwards. */
  function Created(dirs: Dirs, p: Path): Dirs {
    dirs + map i | 0 <= i <= |p| && p[..i] !in dirs :: p[..i] := map[]
  }

  /** `remove_dir_all`: the directory and everything below it is gone. */
  function Removed(dirs: Dirs, p: Path): Dirs {
    map q | q in dirs && !(p <= q) :: dirs[q]
  }

  // ---------- File names ----------

  /** The text between `data_` and `.parquet`. */
  function StemOf(name: string): Option<string> {
    if |name| >= 13 && name[..5] == "data_" && name[|name| - 8..] == ".parquet" then Some(name[5..|name| - 8]) else None
  }

  function FileIndex(name: string): Option<u64> {
    var stem := StemOf(name);
    if stem.None? then None else ParseUsize(stem.value)
  }

  ghost predicate IsLargest(names: set<string>, m: Option<u64>) {
    && (m.Some? ==> exists n :: n in names && FileIndex(n) == m)
    && (forall n :: n in names && FileIndex(n).Some? ==> m.Some? && FileIndex(n).value <= m.value)
  }

  lemma LargestUnique(names: set<string>, a: Option<u64>, b: Option<u64>)
    requires IsLargest(names, a) && IsLargest(names, b)
    ensures a == b
  {
    hide FileIndex;
  }

  function Larger(m: Option<u64>, i: Option<u64>): Option<u64> {
    if i.None? then m else if m.None? then i else Some(Max(m.value, i.value))
  }

  lemma LargestNext(names: set<string>, m: Option<u64>, n: string)
    requires IsLargest(names, m)
    ensures IsLargest(names + {n}, Larger(m, FileIndex(n)))
  {
    hide FileIndex;
    if m.Some? {
      var k :| k in names && FileIndex(k) == m;
      assert k in names + {n};
    }
    assert n in names + {n};
  }

  lemma {:induction false} LargestExists(names: set<string>) returns (m: Option<u64>)
    ensures IsLargest(names, m)
    decreases names
  {
    if names == {} {
      m := None;
    } else {
      var n :| n in names;
      var r := LargestExists(names - {n});
      LargestNext(names - {n}, r, n);
      assert names == (names - {n}) + {n};
      m := Larger(r, FileIndex(n));
    }
  }

  ghost function LargestIndex(names: set<string>): (m: Option<u64>)
    ensures IsLargest(names, m)
  {
    assert exists m :: IsLargest(names, m) by { var m := LargestExists(names); }
    var m :| IsLargest(names, m);
    m
  }

  ghost function NextIndex(files: Files): u64 {
    var m := LargestIndex(files.Keys);
    if m.None? then 0 else (m.value + 1) % TWO64
  }

  function FileName(idx: nat): string { "data_" + ToString(idx) + ".parquet" }

  lemma FileIndexOfName(idx: u64)
    ensures FileIndex(FileName(idx)) == Some(idx)
  {
    var name := FileName(idx);
    assert name[..5] == "data_" && name[|name| - 8..] == ".parquet" && name[5..|name| - 8] == ToString(idx);
    ParseOfToString(idx);
  }

  lemma FileNames()
    ensures FileName(0) == "data_0.parquet" && FileName(12) == "data_12.parquet"
    ensures FileIndex("data_12.parquet") == Some(12)
  {
    assert ToString(1) == "1" && ToString(12) == "12";
    FileIndexOfName(12);
    hide FileIndex;
  }

  /** Other names have no index. */
  lemma OtherNames()
    ensures FileIndex("data_x.parquet") == FileIndex("part_1.parquet") == FileIndex("data_1.csv") == None
  {
    var s := "data_x.parquet";
    assert s[..5] == "data_" && s[|s| - 8..] == ".parquet" && s[5..|s| - 8] == "x";
    assert !IsDigit("x"[0]);
    assert ParseUsize("x") == None;
    hide ParseUsize;
    assert "part_1.parquet"[..5][0] != "data_"[0];
    assert |"data_1.csv"| < 13;
  }

  /** The next file name is new, unless the counter wraps around onto an existing data_0.parquet. */
  lemma NextIndexFresh(files: Files)
    ensures FileName(NextIndex(files)) in files <==>
      (exists n :: n in files && FileIndex(n) == Some(TWO64 - 1)) && FileName(0) in files
  {
    var idx := NextIndex(files);
    FileIndexOfName(idx);
    hide FileIndex, FileName;
    var m := LargestIndex(files.Keys);
    if FileName(idx) in files {
      assert m.Some?;
    }
  }

  // ---------- The file system as an object ----------

  class FileSystem {
    var dirs: Dirs

    method CreateDirAll(p: Path)
      modifies this
      ensures dirs == Created(old(dirs), p)
    {
      dirs := Created(dirs, p);
    }

    method RemoveDirAll(p: Path)
      modifies this
      ensures dirs == Removed(old(dirs), p)
    {
      dirs := Removed(dirs, p);
    }

    method WriteFile(p: Path, name: string, rows: seq<Record>)
      requires p in dirs
      modifies this
      ensures dirs == old(dirs)[p := old(dirs)[p][name := rows]]
    {
      dirs := dirs[p := dirs[p][name := rows]];
    }

    /** The index after the largest data_N.parquet of a directory; the largest `usize` wraps. */
    method NextPartitionFileIndex(p: Path) returns (idx: u64)
      ensures idx == NextIndex(FilesIn(dirs, p))
    {
      var maxIdx: Option<u64> := None;
      var names := if p in dirs then dirs[p].Keys else {};
      var todo := names;
      while todo != {}
        invariant todo <= names && IsLargest(names - todo, maxIdx)
        decreases todo
      {
        var n :| n in todo;
        LargestNext(names - todo, maxIdx, n);
        assert names - (todo - {n}) == (names - todo) + {n};
        todo := todo - {n};
        var stem := StemOf(n);
        if stem.Some? {
          var parsed := ParseUsize(stem.value);
          if parsed.Some? {
            maxIdx := if maxIdx.None? then parsed else Some(Max(maxIdx.value, parsed.value));
          }
        }
      }
      assert names - todo == names;
      LargestUnique(names, maxIdx, LargestIndex(names));
      idx := if maxIdx.None? then 0 else (maxIdx.value + 1) % TWO64;
    }
  }

  // ---------- The save ----------

  /** The rows of one partition, in their order. */
  function Part(rows: seq<Record>, key: Key): seq<Record> {
    if rows == [] then []
    else Part(rows[..|rows| - 1], key) + (if rows[|rows| - 1].key == key then [rows[|rows| - 1]] else [])
  }

  /** A partition is what filtering by the whole key leaves. */
  lemma {:induction false} PartIsFiltered(rows: seq<Record>, key: Key)
    ensures Part(rows, key) == Filter((r: Record) => r.key == key, rows)
  {
    if rows == [] {
    } else {
      PartIsFiltered(rows[..|rows| - 1], key);
    }
  }

  /** A partition has exactly the rows with its key, in the order of the frame. */
  lemma PartSelects(rows: seq<Record>, key: Key) returns (at: seq<nat>)
    ensures PickedAt(Part(rows, key), rows, at)
    ensures forall i, j :: 0 <= i < j < |at| ==> at[i] < at[j]
    ensures forall p: nat :: p < |rows| ==> (p in at <==> rows[p].key == key)
  {
    hide Part;
    PartIsFiltered(rows, key);
    at := FilterSelects((r: Record) => r.key == key, rows);
  }

  /** The tree with room for a partition: emptied when overwriting, kept when appending. */
  function Prepared(dirs: Dirs, d: Path, append: bool): (r: Dirs)
    ensures d in r
  {
    assert d[..|d|] == d;
    if append || d !in dirs then Created(dirs, d) else Created(Removed(dirs, d), d)
  }

  ghost function SaveOne(dirs: Dirs, d: Path, part: seq<Record>, append: bool): Dirs {
    var r := Prepared(dirs, d, append);
    r[d := r[d][FileName(if append then NextIndex(r[d]) else 0) := part]]
  }

  ghost function SaveAll(dirs: Dirs, base: Path, cols: seq<string>, rows: seq<Record>, keys: seq<Key>,
                         append: bool): Dirs {
    if keys == [] then dirs
    else
      var key := keys[|keys| - 1];
      SaveOne(SaveAll(dirs, base, cols, rows, keys[..|keys| - 1], append), base + DirOf(cols, key), Part(rows, key),
              append)
  }

  /** The partitions before the first key with a null or unsupported value. */
  function SupportedPrefix(keys: seq<Key>): seq<Key> {
    if keys == [] || !Supported(keys[0]) then [] else [keys[0]] + SupportedPrefix(keys[1..])
  }

  lemma {:induction false} SupportedPrefixAt(keys: seq<Key>, i: nat)
    requires i <= |keys| && forall j :: 0 <= j < i ==> Supported(keys[j])
    requires i == |keys| || !Supported(keys[i])
    ensures SupportedPrefix(keys) == keys[..i]
  {
    if i > 0 {
      assert Supported(keys[0]);
      assert i < |keys| ==> keys[1..][i - 1] == keys[i];
      SupportedPrefixAt(keys[1..], i - 1);
      assert keys[..i] == [keys[0]] + keys[1..][..i - 1];
    } else {
      assert keys[..0] == [];
    }
  }

  /** The directory lies below the target and is named by its components: the path is relative, has no ".."
      and no component named like a data file. */
  ghost predicate Addressable(cols: seq<string>, key: Key) {
    && (cols != [] && cols[0] != "" ==> cols[0][0] != '/')
    && forall c :: c in DirOf(cols, key) ==> c != ".." && FileIndex(c).None?
  }

  ghost predicate WellShaped(cols: seq<string>, rows: seq<Record>, keys: seq<Key>) {
    && (forall i :: 0 <= i < |rows| ==> |rows[i].key| == |cols|)
    && (forall i :: 0 <= i < |keys| ==> |keys[i]| == |cols| && Addressable(cols, keys[i]))
  }

  /** `filter(col(c).eq(v))`. */
  function FilterColumn(rows: seq<Record>, c: nat, v: KeyValue): seq<Record> {
    if rows == [] then []
    else
      var r := rows[|rows| - 1];
      FilterColumn(rows[..|rows| - 1], c, v) + (if c < |r.key| && r.key[c] == v then [r] else [])
  }

  /** The rows that agree with the key on the first `n` partition columns. */
  function PartUpTo(rows: seq<Record>, key: Key, n: nat): seq<Record>
    requires n <= |key|
  {
    if rows == [] then []
    else
      var r := rows[|rows| - 1];
      PartUpTo(rows[..|rows| - 1], key, n) + (if n <= |r.key| && r.key[..n] == key[..n] then [r] else [])
  }

  lemma {:induction false} FilterNextColumn(rows: seq<Record>, key: Key, c: nat)
    requires c < |key|
    ensures FilterColumn(PartUpTo(rows, key, c), c, key[c]) == PartUpTo(rows, key, c + 1)
  {
    if rows == [] {
    } else {
      var init, r := rows[..|rows| - 1], rows[|rows| - 1];
      var p := PartUpTo(init, key, c);
      FilterNextColumn(init, key, c);
      assert (c + 1 <= |r.key| && r.key[..c + 1] == key[..c + 1])
        <==> (c < |r.key| && r.key[..c] == key[..c] && r.key[c] == key[c]);
      if c <= |r.key| && r.key[..c] == key[..c] {
        assert (p + [r])[..|p|] == p;
      } else {
        assert p + [] == p;
      }
    }
  }

  lemma {:induction false} PartUpToEnds(rows: seq<Record>, key: Key)
    requires forall i :: 0 <= i < |rows| ==> |rows[i].key| == |key|
    ensures PartUpTo(rows, key, 0) == rows
    ensures PartUpTo(rows, key, |key|) == Part(rows, key)
  {
    if rows == [] {
    } else {
      var init, r := rows[..|rows| - 1], rows[|rows| - 1];
      PartUpToEnds(init, key);
      assert r.key[..|key|] == r.key && key[..|key|] == key && r.key[..0] == key[..0];
    }
  }

  /** Filters the rows by one partition column after the other. */
  method PartitionRows(rows: seq<Record>, key: Key) returns (part: seq<Record>)
    requires forall i :: 0 <= i < |rows| ==> |rows[i].key| == |key|
    ensures part == Part(rows, key)
  {
    PartUpToEnds(rows, key);
    part := rows;
    for c := 0 to |key|
      invariant part == PartUpTo(rows, key, c)
    {
      FilterNextColumn(rows, key, c);
      part := FilterColumn(part, c, key[c]);
    }
  }

  method SavePartition(fs: FileSystem, d: Path, rows: seq<Record>, key: Key, append: bool)
    requires forall i :: 0 <= i < |rows| ==> |rows[i].key| == |key|
    modifies fs
    ensures fs.dirs == SaveOne(old(fs.dirs), d, Part(rows, key), append)
  {
    hide Part, FileName, NextIndex, Created, Removed;
    if append {
      fs.CreateDirAll(d);
    } else {
      if d in fs.dirs {
        fs.RemoveDirAll(d);
      }
      fs.CreateDirAll(d);
    }
    assert fs.dirs == Prepared(old(fs.dirs), d, append);
    var part := PartitionRows(rows, key);
    var idx: u64 := 0;
    if append {
      idx := fs.NextPartitionFileIndex(d);
    }
    fs.WriteFile(d, FileName(idx), part);
  }

  /** Saves the partitions one after the other, in whatever order the distinct keys come. It fails
      at the first key with a null or unsupported value, after saving the partitions before it. */
  method SavePartitionedSequential(fs: FileSystem, base: Path, cols: seq<string>, rows: seq<Record>, keys: seq<Key>,
                                   append: bool)
      returns (ok: bool)
    requires WellShaped(cols, rows, keys)
    modifies fs
    ensures fs.dirs == SaveAll(old(fs.dirs), base, cols, rows, SupportedPrefix(keys), append)
    ensures ok <==> forall i :: 0 <= i < |keys| ==> Supported(keys[i])
  {
    hide DirOf, Part, SaveOne;
    for k := 0 to |keys|
      invariant fs.dirs == SaveAll(old(fs.dirs), base, cols, rows, keys[..k], append)
      invariant forall j :: 0 <= j < k ==> Supported(keys[j])
    {
      var key := keys[k];
      if !(forall i :: 0 <= i < |key| ==> !key[i].Null? && !key[i].Unsupported?) {
        SupportedPrefixAt(keys, k);
        return false;
      }
      assert keys[..k + 1][..k] == keys[..k];
      var dir := PartitionDir(cols, key);
      SavePartition(fs, base + dir, rows, key, append);
    }
    SupportedPrefixAt(keys, |keys|);
    assert keys[..|keys|] == keys;
    ok := true;
  }

  // ---------- Every row is in exactly one partition ----------

  function AllParts(rows: seq<Record>, keys: seq<Key>): seq<Record> {
    if keys == [] then [] else AllParts(rows, keys[..|keys| - 1]) + Part(rows, keys[|keys| - 1])
  }

  lemma {:induction false} AllPartsNext(rows: seq<Record>, r: Record, keys: seq<Key>)
    requires Distinct(keys)
    ensures multiset(AllParts(rows + [r], keys))
         == multiset(AllParts(rows, keys)) + (if r.key in keys then multiset{r} else multiset{})
  {
    if keys == [] {
    } else {
      var init, k := keys[..|keys| - 1], keys[|keys| - 1];
      AllPartsNext(rows, r, init);
      assert (rows + [r])[..|rows|] == rows;
      assert forall x :: x in keys <==> x in init || x == k;
      if r.key == k {
        assert k !in init;
      }
    }
  }

  lemma {:induction false} NoRowsNoParts(keys: seq<Key>)
    ensures AllParts([], keys) == []
  {
    if keys == [] {
    } else {
      NoRowsNoParts(keys[..|keys| - 1]);
    }
  }

  /** The partitions hold the rows of the frame, each as often as it occurs there. */
  lemma {:induction false} PartitionsConserveRows(rows: seq<Record>, keys: seq<Key>)
    requires Distinct(keys) && forall i :: 0 <= i < |rows| ==> rows[i].key in keys
    ensures multiset(AllParts(rows, keys)) == multiset(rows)
  {
    if rows == [] {
      NoRowsNoParts(keys);
    } else {
      var init, r := rows[..|rows| - 1], rows[|rows| - 1];
      PartitionsConserveRows(init, keys);
      AllPartsNext(init, r, keys);
      assert init + [r] == rows;
    }
  }
}
