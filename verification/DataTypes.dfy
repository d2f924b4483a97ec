/** Column types of a frame and storage types of Stata. */
module DataTypes {
  import opened Wrappers

  datatype DType =
    | Boolean | Int8 | Int16 | Int32 | Int64 | UInt8 | UInt16 | UInt32 | UInt64
    | Float32 | Float64 | Date | Time | Datetime | Utf8 | Categorical | Enum | Blob | Other

  predicate IsInteger(dt: DType) {
    dt in {Int8, Int16, Int32, Int64, UInt8, UInt16, UInt32, UInt64}
  }

  /** The values an integer column of the type can hold (Boolean read as 0/1). */
  predicate Holds(dt: DType, v: int) {
    match dt
    case Boolean => 0 <= v <= 1
    case Int8 => -0x80 <= v < 0x80
    case Int16 => -0x8000 <= v < 0x8000
    case Int32 => -0x8000_0000 <= v < 0x8000_0000
    case Int64 => -0x8000_0000_0000_0000 <= v < 0x8000_0000_0000_0000
    case UInt8 => 0 <= v < 0x100
    case UInt16 => 0 <= v < 0x1_0000
    case UInt32 => 0 <= v < 0x1_0000_0000
    case UInt64 => 0 <= v < TWO64
    case _ => false
  }
}
