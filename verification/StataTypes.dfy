/** Choosing a Stata storage type for an integer column on read. */
module StataTypes {
  import opened Wrappers
  import opened Text
  import opened DataTypes
  import opened FooterStats

  datatype StataType = SByte | SInt | SLong | SFloat | SDouble | SDate | STime | SDateTime | SString | SStrl | SBinary

  /** The integers a storage type holds outside its reserved missing range. Stata's missing doubles
      start at 2^1023, far above every 64-bit integer. */
  predicate NonMissing(t: StataType, v: int) {
    match t
    case SByte => -127 <= v <= 100
    case SInt => -32767 <= v <= 32740
    case SLong => -2147483647 <= v <= 2147483620
    case SDouble => -TWO64 < v < TWO64
    case _ => false
  }

  // ---------- Mapping tables ----------

  function StataTypeFromString(s: string): Option<StataType> {
    var l := Lower(s);
    if l == "byte" then Some(SByte)
    else if l == "int" then Some(SInt)
    else if l == "long" then Some(SLong)
    else if l == "float" then Some(SFloat)
    else if l == "double" then Some(SDouble)
    else if l == "date" then Some(SDate)
    else if l == "time" then Some(STime)
    else if l == "datetime" then Some(SDateTime)
    else if l == "string" then Some(SString)
    else if l == "strl" then Some(SStrl)
    else if l == "binary" then Some(SBinary)
    else None
  }

  /** The lower-case debug name of a column type. */
  function TypeName(dt: DType): string {
    match dt
    case Boolean => "boolean"
    case Int8 => "int8"
    case Int16 => "int16"
    case Int32 => "int32"
    case Int64 => "int64"
    case UInt8 => "uint8"
    case UInt16 => "uint16"
    case UInt32 => "uint32"
    case UInt64 => "uint64"
    case Float32 => "float32"
    case Float64 => "float64"
    case Utf8 => "string"
    case Blob => "binary"
    case _ => "other"
  }

  function PolarsTypeToStataType(s: string): string {
    if s in {"string", "utf8", "str", "binary"} then "string"
    else if s in {"int8", "byte"} then "byte"
    else if s in {"int16", "int"} then "int"
    else if s in {"int32", "long"} then "long"
    else if s == "int64" then "double"
    else if s == "uint8" then "int"
    else if s in {"uint16", "uint32"} then "long"
    else if s == "uint64" then "double"
    else if s in {"float32", "float"} then "float"
    else if s in {"float64", "double"} then "double"
    else if s in {"boolean", "bool"} then "byte"
    else "double"
  }

  /** The default type when nothing is known about the data. */
  function MapPolarsToStata(dt: DType, strLength: nat): StataType {
    match dt
    case Boolean => SByte
    case Int8 => SInt
    case Int16 => SLong
    case Int32 => SDouble
    case Int64 => SDouble
    case UInt8 => SInt
    case UInt16 => SLong
    case UInt32 => SLong
    case UInt64 => SDouble
    case Float32 => SFloat
    case Float64 => SDouble
    case Date => SDate
    case Time => STime
    case Datetime => SDateTime
    case Utf8 | Categorical | Enum => if strLength > 2045 then SStrl else SString
    case Blob => SBinary
    case Other => SDouble
  }

  function FindOptimalIntegerType(min: int, max: int, notBoolean: bool): DType {
    if min >= 0 && max <= 1 && !notBoolean then Boolean
    else if min >= -127 && max <= 100 then Int8
    else if min >= -32767 && max <= 32740 then Int16
    else if min >= -2147483647 && max <= 2147483620 then Int32
    else Int64
  }

  function IntegerRank(t: StataType): Option<nat> {
    match t
    case SByte => Some(1)
    case SInt => Some(2)
    case SLong => Some(3)
    case SDouble => Some(4)
    case _ => None
  }

  function WidenWithRecordedType(safe: StataType, recorded: Option<StataType>): StataType {
    if recorded.None? || IntegerRank(recorded.value).None? then safe
    else
      var rank := if IntegerRank(safe).Some? then IntegerRank(safe).value else 4;
      if IntegerRank(recorded.value).value > rank then recorded.value else safe
  }

  // ---------- What the tables guarantee ----------

  /** The chain of names from an optimal column type to its Stata type. */
  function VerifiedType(min: int, max: int): Option<StataType> {
    StataTypeFromString(PolarsTypeToStataType(TypeName(FindOptimalIntegerType(min, max, true))))
  }

  /** The Stata type of the optimal column type of a range. */
  function NarrowestType(min: int, max: int): StataType {
    match FindOptimalIntegerType(min, max, true)
    case Int8 => SByte
    case Int16 => SInt
    case Int32 => SLong
    case _ => SDouble
  }

  lemma VerifiedTypeIs(min: int, max: int)
    ensures VerifiedType(min, max) == Some(NarrowestType(min, max))
  {
    assert Lower("byte") == "byte" && Lower("int") == "int" && Lower("long") == "long" && Lower("double") == "double";
  }

  /** The verified type holds every value of the range outside its missing range, and no narrower
      integer type does. */
  lemma VerifiedTypeIsNarrowest(min: int, max: int, t: StataType)
    requires -TWO64 < min <= max < TWO64
    ensures VerifiedType(min, max).Some? && IntegerRank(VerifiedType(min, max).value).Some?
    ensures forall v :: min <= v <= max ==> NonMissing(VerifiedType(min, max).value, v)
    ensures NonMissing(t, min) && NonMissing(t, max) ==>
              IntegerRank(t).Some? && IntegerRank(VerifiedType(min, max).value).value <= IntegerRank(t).value
  {
    VerifiedTypeIs(min, max);
  }

  /** The ranks of the integer types are the order of what they hold: byte, int, long, double. */
  lemma RankIsWidth(a: StataType, b: StataType)
    requires IntegerRank(a).Some? && IntegerRank(b).Some?
    ensures IntegerRank(a).value < IntegerRank(b).value <==>
      (forall v :: NonMissing(a, v) ==> NonMissing(b, v)) && (exists v :: NonMissing(b, v) && !NonMissing(a, v))
    ensures a != b <==> IntegerRank(a) != IntegerRank(b)
  {
    assert NonMissing(SDouble, 3_000_000_000) && !NonMissing(SLong, 3_000_000_000);
    assert NonMissing(SLong, 100_000) && !NonMissing(SInt, 100_000);
    assert NonMissing(SInt, 1000) && !NonMissing(SByte, 1000);
  }

  /** A recorded type can only widen: the result is one of the two, its rank is the larger one, and
      it holds everything the verified type holds. */
  lemma WideningOnlyWidens(safe: StataType, recorded: Option<StataType>, v: int)
    requires IntegerRank(safe).Some?
    ensures var t := WidenWithRecordedType(safe, recorded);
      && (t == safe || Some(t) == recorded)
      && IntegerRank(t).Some?
      && IntegerRank(t).value == (if recorded.Some? && IntegerRank(recorded.value).Some?
                                  then Max(IntegerRank(safe).value, IntegerRank(recorded.value).value)
                                  else IntegerRank(safe).value)
      && (NonMissing(safe, v) ==> NonMissing(t, v))
  {
  }

  /** The default type is outside its missing range for every value of every integer type but
      UInt32. */
  lemma DefaultTypeSafe(dt: DType)
    requires IsInteger(dt)
    ensures (forall v :: Holds(dt, v) ==> NonMissing(MapPolarsToStata(dt, 0), v)) <==> dt != UInt32
  {
    if dt == UInt32 {
      assert Holds(dt, 2147483621) && !NonMissing(SLong, 2147483621);
    }
  }

  /** For every other integer type it is also the narrowest such type. */
  lemma DefaultTypeIsNarrowest(dt: DType, t: StataType)
    requires dt == Boolean || (IsInteger(dt) && dt != UInt32)
    requires forall v :: Holds(dt, v) ==> NonMissing(t, v)
    ensures IntegerRank(t).Some? && IntegerRank(MapPolarsToStata(dt, 0)).value <= IntegerRank(t).value
  {
    assert Holds(dt, 0) && NonMissing(t, 0);
    match dt
    case Boolean =>
    case Int8 => assert Holds(dt, 127);
    case UInt8 => assert Holds(dt, 255);
    case Int16 => assert Holds(dt, 0x7FFF);
    case UInt16 => assert Holds(dt, 0xFFFF);
    case Int32 => assert Holds(dt, 0x7FFF_FFFF);
    case Int64 => assert Holds(dt, 0x7FFF_FFFF_FFFF_FFFF);
    case UInt64 => assert Holds(dt, TWO64 - 1);
    case _ => assert false;
  }

  // ---------- describe: overrides from footer statistics ----------

  datatype Column = Column(name: string, dtype: DType)

  predicate Candidate(c: Column, castMap: set<string>) {
    c.name !in castMap && c.dtype in {Int8, Int16, Int32, UInt8, UInt16, UInt32}
  }

  /** The candidates are the uncast integer columns of at most 32 bits. */
  lemma CandidatesAreSmall(c: Column, castMap: set<string>)
    ensures Candidate(c, castMap) <==>
      c.name !in castMap && IsInteger(c.dtype) && forall v :: Holds(c.dtype, v) ==> -0x8000_0000 <= v < 0x1_0000_0000
  {
    assert Holds(Int64, 0x7FFF_FFFF_FFFF_FFFF) && Holds(UInt64, 0x7FFF_FFFF_FFFF_FFFF);
  }

  function CandidateNames(schema: seq<Column>, castMap: set<string>): seq<string> {
    if schema == [] then []
    else (if Candidate(schema[0], castMap) then [schema[0].name] else []) + CandidateNames(schema[1..], castMap)
  }

  lemma {:induction false} CandidateNamesMember(schema: seq<Column>, castMap: set<string>, name: string)
    ensures name in CandidateNames(schema, castMap)
       <==> exists i :: 0 <= i < |schema| && schema[i].name == name && Candidate(schema[i], castMap)
  {
    if schema == [] {
    } else {
      CandidateNamesMember(schema[1..], castMap, name);
      if name in CandidateNames(schema[1..], castMap) {
        var i :| 0 <= i < |schema[1..]| && schema[1..][i].name == name && Candidate(schema[1..][i], castMap);
        assert schema[i + 1].name == name;
      }
      if exists i :: 0 <= i < |schema| && schema[i].name == name && Candidate(schema[i], castMap) {
        var i :| 0 <= i < |schema| && schema[i].name == name && Candidate(schema[i], castMap);
        if i > 0 {
          assert schema[1..][i - 1].name == name;
        }
      }
    }
  }

  /** The recorded types that can be read back. */
  function RecordedTypes(metadata: map<string, string>): map<string, StataType> {
    map name | name in metadata && StataTypeFromString(metadata[name]).Some?
      :: StataTypeFromString(metadata[name]).value
  }

  function RecordedType(recorded: map<string, StataType>, name: string): Option<StataType> {
    if name in recorded then Some(recorded[name]) else None
  }

  /** Which recorded text reads as which integer type, whatever its case. */
  lemma RecordedIntegerTypes(metadata: map<string, string>, name: string)
    ensures var r := RecordedType(RecordedTypes(metadata), name);
      var s := if name in metadata then Lower(metadata[name]) else "";
      && (r == Some(SByte) <==> s == "byte") && (r == Some(SInt) <==> s == "int")
      && (r == Some(SLong) <==> s == "long") && (r == Some(SDouble) <==> s == "double")
  {
    hide Lower;
  }

  /** The type a verified range leads to. */
  function OverrideFor(b: Bounds, recorded: Option<StataType>): StataType {
    WidenWithRecordedType(NarrowestType(b.0, b.1), recorded)
  }

  /** Exactly the uncast small-integer columns with trusted statistics get an override: the narrowest
      type for their range, widened by what the file's metadata records. */
  ghost predicate IsOverrides(files: seq<File>, schema: seq<Column>, castMap: set<string>,
                              recorded: map<string, StataType>,
                              overrides: map<string, StataType>)
  {
    && (forall name :: name in overrides <==>
          name in CandidateNames(schema, castMap) && AllTrusted(files, name) && HasRowGroup(files))
    && (forall name :: name in overrides ==> exists b: Bounds ::
          IsRange(files, name, b) && overrides[name] == OverrideFor(b, RecordedType(recorded, name)))
  }

  method SafeIntegerTypeOverrides(files: seq<File>, schema: seq<Column>, castMap: set<string>,
                                  metadata: map<string, string>)
      returns (overrides: map<string, StataType>)
    ensures IsOverrides(files, schema, castMap, RecordedTypes(metadata), overrides)
  {
    hide IsRange, AllTrusted, HasRowGroup, RecordedTypes, RecordedType, CandidateNames, VerifiedType, NarrowestType,
      WidenWithRecordedType;
    overrides := map[];
    var columns := CandidateNames(schema, castMap);
    if columns == [] {
      return;
    }
    var ranges := IntegerRangesFromFooterStats(files, columns);
    var recorded := RecordedTypes(metadata);
    var todo := ranges.Keys;
    while todo != {}
      invariant todo <= ranges.Keys && overrides.Keys == ranges.Keys - todo
      invariant forall name :: name in overrides ==>
        overrides[name] == OverrideFor(ranges[name], RecordedType(recorded, name))
      decreases todo
    {
      var name :| name in todo;
      todo := todo - {name};
      var verified := VerifiedType(ranges[name].0, ranges[name].1);
      VerifiedTypeIs(ranges[name].0, ranges[name].1);
      overrides := overrides[name := WidenWithRecordedType(verified.value, RecordedType(recorded, name))];
    }
  }

  lemma RangeUnique(files: seq<File>, name: string, a: Bounds, b: Bounds)
    requires IsRange(files, name, a) && IsRange(files, name, b)
    ensures a == b
  {
    hide Says;
  }

  /** A column has one range only, so the overrides are determined by the files, the schema, the casts
      and the recorded metadata. */
  lemma OverridesUnique(files: seq<File>, schema: seq<Column>, castMap: set<string>, recorded: map<string, StataType>,
                        a: map<string, StataType>, b: map<string, StataType>)
    requires IsOverrides(files, schema, castMap, recorded, a) && IsOverrides(files, schema, castMap, recorded, b)
    ensures a == b
  {
    hide CandidateNames, AllTrusted, HasRowGroup, IsRange, OverrideFor, RecordedType;
    forall name | name in a ensures a[name] == b[name] {
      var r: Bounds :| IsRange(files, name, r) && a[name] == OverrideFor(r, RecordedType(recorded, name));
      var q: Bounds :| IsRange(files, name, q) && b[name] == OverrideFor(q, RecordedType(recorded, name));
      RangeUnique(files, name, r, q);
    }
  }

  // ---------- No value falls into the missing range ----------

  /** The type a read gives a column. */
  function ChosenType(overrides: map<string, StataType>, c: Column): StataType {
    if c.name in overrides then overrides[c.name] else MapPolarsToStata(c.dtype, 0)
  }

  /** What a stored bound stands for: a UInt32 column is stored as signed 32-bit words, and its
      statistics are in unsigned order. */
  function Meant(dt: DType, x: int): int { if dt == UInt32 && x < 0 then x + 0x1_0000_0000 else x }

  predicate IsStored(dt: DType, x: int) { dt == UInt32 ==> -0x8000_0000 <= x < 0x8000_0000 }

  /** The row group exists in a readable file. */
  predicate HasGroup(files: seq<File>, f: int, g: int) {
    0 <= f < |files| && files[f].Readable? && 0 <= g < |files[f].rowGroups|
  }

  /** The non-null values of a column, by file and row group, are values of its type; the bounds stored
      for a row group mean bounds of its values. */
  ghost predicate SoundStatistics(files: seq<File>, c: Column, values: (int, int) -> set<int>) {
    && (forall f, g, v :: HasGroup(files, f, g) && v in values(f, g) ==> Holds(c.dtype, v))
    && (forall f, g, b: Bounds :: Says(files, c.name, f, g, b) ==> IsStored(c.dtype, b.0) && IsStored(c.dtype, b.1))
    && (forall f, g, b: Bounds, v :: Says(files, c.name, f, g, b) && v in values(f, g) ==>
          Meant(c.dtype, b.0) <= v <= Meant(c.dtype, b.1))
  }

  /** The bounds are the smallest and the largest value, as writers store them. */
  ghost predicate ExactStatistics(files: seq<File>, c: Column, values: (int, int) -> set<int>) {
    && SoundStatistics(files, c, values)
    && forall f, g, b: Bounds :: Says(files, c.name, f, g, b) ==>
         Meant(c.dtype, b.0) in values(f, g) && Meant(c.dtype, b.1) in values(f, g)
  }

  lemma ValueInRange(files: seq<File>, c: Column, b: Bounds, values: (int, int) -> set<int>, f: int, g: int, v: int)
    requires AllTrusted(files, c.name) && IsRange(files, c.name, b) && SoundStatistics(files, c, values)
    requires HasGroup(files, f, g) && v in values(f, g)
    requires forall f', g', b: Bounds :: Says(files, c.name, f', g', b) ==>
      Meant(c.dtype, b.0) == b.0 && Meant(c.dtype, b.1) == b.1
    ensures b.0 <= v <= b.1
  {
    hide Meant, IsStored;
    assert FileTrusted(files[f], c.name);
    assert Says(files, c.name, f, g, GroupBounds(files[f].rowGroups[g], c.name).value);
  }

  lemma OverrideSafe(b: Bounds, recorded: Option<StataType>, v: int)
    requires b.0 <= v <= b.1
    ensures NonMissing(OverrideFor(b, recorded), v)
  {
    hide NonMissing, WidenWithRecordedType, VerifiedType, NarrowestType;
    VerifiedTypeIs(b.0, b.1);
    VerifiedTypeIsNarrowest(b.0, b.1, SDouble);
    WideningOnlyWidens(NarrowestType(b.0, b.1), recorded, v);
  }

  /** Bounds that are read as they are meant keep every value in the type they lead to. */
  lemma OverriddenValue(files: seq<File>, schema: seq<Column>, castMap: set<string>, recorded: map<string, StataType>,
                        overrides: map<string, StataType>, c: Column, values: (int, int) -> set<int>,
                        f: int, g: int, v: int)
    requires IsOverrides(files, schema, castMap, recorded, overrides) && c.name in overrides
    requires SoundStatistics(files, c, values) && HasGroup(files, f, g) && v in values(f, g)
    requires forall f', g', b: Bounds :: Says(files, c.name, f', g', b) ==>
      Meant(c.dtype, b.0) == b.0 && Meant(c.dtype, b.1) == b.1
    ensures NonMissing(overrides[c.name], v)
  {
    hide CandidateNames, HasRowGroup, IsRange, OverrideFor, RecordedType, Meant;
    var b: Bounds :| IsRange(files, c.name, b) && overrides[c.name] == OverrideFor(b, RecordedType(recorded, c.name));
    ValueInRange(files, c, b, values, f, g, v);
    OverrideSafe(b, RecordedType(recorded, c.name), v);
  }

  /** Every value of an integer column without an explicit cast lies outside the missing range of the
      type chosen for it, whatever is recorded in the metadata, unless the column is UInt32. In a UInt32
      column without an override exactly the values up to 2147483620 do. */
  lemma NoValueBecomesMissing(files: seq<File>, schema: seq<Column>, castMap: set<string>,
                              recorded: map<string, StataType>,
                              overrides: map<string, StataType>, c: Column, values: (int, int) -> set<int>,
                              f: int, g: int, v: int)
    requires IsOverrides(files, schema, castMap, recorded, overrides)
    requires c in schema && IsInteger(c.dtype) && c.name !in castMap
    requires SoundStatistics(files, c, values) && HasGroup(files, f, g) && v in values(f, g)
    ensures c.dtype != UInt32 ==> NonMissing(ChosenType(overrides, c), v)
    ensures c.dtype == UInt32 && c.name !in overrides ==> (NonMissing(ChosenType(overrides, c), v) <==> v <= 2147483620)
  {
    hide CandidateNames, AllTrusted, HasRowGroup, IsRange, OverrideFor, RecordedType;
    assert Holds(c.dtype, v);
    if c.dtype == UInt32 {
      assert MapPolarsToStata(c.dtype, 0) == SLong;
    } else if c.name in overrides {
      OverriddenValue(files, schema, castMap, recorded, overrides, c, values, f, g, v);
    } else {
      DefaultTypeSafe(c.dtype);
    }
  }

  // ---------- UInt32: statistics read as signed ----------

  ghost predicate AllAtMost(files: seq<File>, values: (int, int) -> set<int>, limit: int) {
    forall f, g, v :: HasGroup(files, f, g) && v in values(f, g) ==> v <= limit
  }

  /** Every value of the column is outside the missing range of the type chosen for it. */
  ghost predicate AllKept(files: seq<File>, overrides: map<string, StataType>, c: Column,
                          values: (int, int) -> set<int>) {
    forall f, g, v :: HasGroup(files, f, g) && v in values(f, g) ==> NonMissing(ChosenType(overrides, c), v)
  }

  lemma DefaultColumnKept(files: seq<File>, overrides: map<string, StataType>, c: Column,
                          values: (int, int) -> set<int>)
    requires c.dtype == UInt32 && c.name !in overrides && ExactStatistics(files, c, values)
    ensures AllKept(files, overrides, c, values) <==> AllAtMost(files, values, 2147483620)
  {
    hide Says, HasGroup;
    assert ChosenType(overrides, c) == SLong;
    if AllKept(files, overrides, c, values) {
      forall f, g, v | HasGroup(files, f, g) && v in values(f, g) ensures v <= 2147483620 {
        assert NonMissing(ChosenType(overrides, c), v);
      }
    }
    if AllAtMost(files, values, 2147483620) {
      forall f, g, v | HasGroup(files, f, g) && v in values(f, g) ensures NonMissing(SLong, v) {
        assert Holds(UInt32, v);
      }
    }
  }

  lemma OverrideIsInteger(files: seq<File>, schema: seq<Column>, castMap: set<string>, recorded: map<string, StataType>,
                          overrides: map<string, StataType>, name: string)
    requires IsOverrides(files, schema, castMap, recorded, overrides) && name in overrides
    ensures IntegerRank(overrides[name]).Some?
  {
    hide IsRange, CandidateNames, AllTrusted, HasRowGroup, RecordedType;
    var b: Bounds :| IsRange(files, name, b) && overrides[name] == OverrideFor(b, RecordedType(recorded, name));
    VerifiedTypeIs(b.0, b.1);
  }

  /** Values below 2^31 have bounds that read as they are meant. */
  lemma BoundsReadRight(files: seq<File>, c: Column, values: (int, int) -> set<int>)
    requires c.dtype == UInt32 && ExactStatistics(files, c, values) && AllAtMost(files, values, 0x7FFF_FFFF)
    ensures forall f, g, b: Bounds :: Says(files, c.name, f, g, b) ==>
      Meant(c.dtype, b.0) == b.0 && Meant(c.dtype, b.1) == b.1
  {
    forall f, g, b: Bounds | Says(files, c.name, f, g, b)
      ensures Meant(c.dtype, b.0) == b.0 && Meant(c.dtype, b.1) == b.1
    {
      assert HasGroup(files, f, g);
    }
  }

  lemma OverriddenColumnKept(files: seq<File>, schema: seq<Column>, castMap: set<string>,
                             recorded: map<string, StataType>,
                             overrides: map<string, StataType>, c: Column, values: (int, int) -> set<int>)
    requires IsOverrides(files, schema, castMap, recorded, overrides)
    requires c.dtype == UInt32 && c.name in overrides && ExactStatistics(files, c, values)
    ensures AllKept(files, overrides, c, values)
       <==> overrides[c.name] == SDouble || AllAtMost(files, values, 0x7FFF_FFFF)
  {
    hide IsOverrides, Says, HasGroup;
    OverrideIsInteger(files, schema, castMap, recorded, overrides, c.name);
    var t := overrides[c.name];
    assert ChosenType(overrides, c) == t;
    forall f, g, v | HasGroup(files, f, g) && v in values(f, g) ensures t == SDouble ==> NonMissing(t, v) {
      assert Holds(UInt32, v);
    }
    if AllAtMost(files, values, 0x7FFF_FFFF) {
      BoundsReadRight(files, c, values);
      forall f, g, v | HasGroup(files, f, g) && v in values(f, g) ensures NonMissing(t, v) {
        OverriddenValue(files, schema, castMap, recorded, overrides, c, values, f, g, v);
      }
    } else {
      var f, g, v :| HasGroup(files, f, g) && v in values(f, g) && v > 0x7FFF_FFFF;
      assert t != SDouble ==> !NonMissing(t, v);
    }
  }

  /** When an override is double: by the recorded type, or by bounds as they are read. */
  lemma DoubleOverride(b: Bounds, recorded: Option<StataType>)
    ensures OverrideFor(b, recorded) == SDouble <==> recorded == Some(SDouble) || b.0 < -2147483647 || b.1 > 2147483620
  {
    VerifiedTypeIs(b.0, b.1);
  }

  /** Some row group's bounds, as they are read, lie outside the range of long. */
  ghost predicate ReadOutsideLong(files: seq<File>, name: string) {
    exists f, g, b: Bounds :: Says(files, name, f, g, b) && (b.0 < -2147483647 || b.1 > 2147483620)
  }

  /** An override is double exactly when the recorded type is, or some bounds are read outside long. */
  lemma DoubleFromBounds(files: seq<File>, schema: seq<Column>, castMap: set<string>, recorded: map<string, StataType>,
                         overrides: map<string, StataType>, name: string)
    requires IsOverrides(files, schema, castMap, recorded, overrides) && name in overrides
    ensures overrides[name] == SDouble <==>
      RecordedType(recorded, name) == Some(SDouble) || ReadOutsideLong(files, name)
  {
    hide CandidateNames, AllTrusted, HasRowGroup, OverrideFor, RecordedType, Says;
    var r: Bounds :| IsRange(files, name, r) && overrides[name] == OverrideFor(r, RecordedType(recorded, name));
    DoubleOverride(r, RecordedType(recorded, name));
  }

  /** A UInt32 column keeps all its values exactly when they fit its default type, or, where its statistics are
      trusted, when no value is misread or the type they lead to is double: by the recorded type, or by bounds read
      outside long. */
  lemma UnsignedColumnKept(files: seq<File>, schema: seq<Column>, castMap: set<string>,
                           recorded: map<string, StataType>,
                           overrides: map<string, StataType>, c: Column, values: (int, int) -> set<int>)
    requires IsOverrides(files, schema, castMap, recorded, overrides)
    requires c in schema && c.dtype == UInt32 && c.name !in castMap && ExactStatistics(files, c, values)
    ensures AllKept(files, overrides, c, values) <==>
      if AllTrusted(files, c.name) && HasRowGroup(files) then
        RecordedType(recorded, c.name) == Some(SDouble) || ReadOutsideLong(files, c.name)
        || AllAtMost(files, values, 0x7FFF_FFFF)
      else AllAtMost(files, values, 2147483620)
  {
    hide AllTrusted, HasRowGroup, CandidateNames, AllKept, AllAtMost, ReadOutsideLong, ExactStatistics;
    CandidateNamesMember(schema, castMap, c.name);
    assert Candidate(c, castMap);
    if c.name in overrides {
      OverriddenColumnKept(files, schema, castMap, recorded, overrides, c, values);
      DoubleFromBounds(files, schema, castMap, recorded, overrides, c.name);
    } else {
      DefaultColumnKept(files, overrides, c, values);
    }
  }

  function MisreadFile(): File { Readable([map["x" := [Int32Stats(Some(0), Some(-1294967296))]]]) }

  lemma MisreadSays(f: int, g: int, b: Bounds)
    ensures Says([MisreadFile()], "x", f, g, b) <==> f == 0 && g == 0 && b == (0, -1294967296)
  {
  }

  lemma MisreadTrusted()
    ensures AllTrusted([MisreadFile()], "x") && HasRowGroup([MisreadFile()])
  {
    assert FileTrusted([MisreadFile()][0], "x");
  }

  lemma MisreadRange()
    ensures IsRange([MisreadFile()], "x", (0, -1294967296))
  {
    hide Says, MisreadFile;
    var r: Bounds := (0, -1294967296);
    forall f, g, b: Bounds ensures Says([MisreadFile()], "x", f, g, b) <==> f == 0 && g == 0 && b == r {
      MisreadSays(f, g, b);
    }
    assert Says([MisreadFile()], "x", 0, 0, r);
  }

  /** Row groups that all have the same values and exact bounds. */
  lemma SameGroupsExact(files: seq<File>, c: Column, values: (int, int) -> set<int>, vs: set<int>, r: Bounds)
    requires forall f, g :: values(f, g) == vs
    requires forall f, g, b: Bounds :: Says(files, c.name, f, g, b) ==> b == r
    requires IsStored(c.dtype, r.0) && IsStored(c.dtype, r.1) && Meant(c.dtype, r.0) in vs && Meant(c.dtype, r.1) in vs
    requires forall v :: v in vs ==> Holds(c.dtype, v) && Meant(c.dtype, r.0) <= v <= Meant(c.dtype, r.1)
    ensures ExactStatistics(files, c, values)
  {
    hide Says, HasGroup, Holds, Meant, IsStored;
  }

  lemma MisreadExact()
    ensures ExactStatistics([MisreadFile()], Column("x", UInt32), (f, g) => {0, 200, 3000000000})
  {
    hide Says, MisreadFile, HasGroup, ExactStatistics;
    var r: Bounds := (0, -1294967296);
    forall f, g, b: Bounds ensures Says([MisreadFile()], "x", f, g, b) ==> b == r {
      MisreadSays(f, g, b);
    }
    SameGroupsExact([MisreadFile()], Column("x", UInt32), (f, g) => {0, 200, 3000000000}, {0, 200, 3000000000}, r);
  }

  lemma MisreadCandidate()
    ensures "x" in CandidateNames([Column("x", UInt32)], {})
  {
    assert [Column("x", UInt32)][0].name == "x" && Candidate(Column("x", UInt32), {});
    CandidateNamesMember([Column("x", UInt32)], {}, "x");
  }

  lemma MisreadOverride(b: Bounds)
    requires b == (0, -1294967296)
    ensures OverrideFor(b, RecordedType(map[], "x")) == SByte
  {
    VerifiedTypeIs(b.0, b.1);
  }

  /** A UInt32 column with the values 0, 200 and 3000000000 has exact statistics and becomes a byte column:
      its largest value is read as -1294967296. */
  lemma MisreadColumnLosesValues(overrides: map<string, StataType>)
    requires IsOverrides([MisreadFile()], [Column("x", UInt32)], {}, map[], overrides)
    ensures ExactStatistics([MisreadFile()], Column("x", UInt32), (f, g) => {0, 200, 3000000000})
    ensures "x" in overrides && overrides["x"] == SByte && !NonMissing(SByte, 200)
  {
    hide IsRange, AllTrusted, HasRowGroup, CandidateNames, ExactStatistics, MisreadFile, OverrideFor, RecordedType;
    MisreadExact();
    MisreadTrusted();
    MisreadRange();
    MisreadCandidate();
    var r: Bounds :| IsRange([MisreadFile()], "x", r) && overrides["x"] == OverrideFor(r, RecordedType(map[], "x"));
    RangeUnique([MisreadFile()], "x", r, (0, -1294967296));
    MisreadOverride(r);
  }
}
