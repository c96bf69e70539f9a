/**
  The PHP scalar values that flow through the option adapter: field values
  of a record, option keys and option labels.
 */
module PhpValues {

  const MinInt64: int := -0x8000_0000_0000_0000
  const MaxInt64: int := 0x7FFF_FFFF_FFFF_FFFF

  /** PHP's `int` on a 64-bit platform. */
  newtype int64 = x: int | MinInt64 <= x <= MaxInt64

  /**
    A PHP scalar. Two values are identical under PHP's `===` exactly when
    they have the same type and the same value, which for this tagged
    representation is structural equality `==`.
   */
  datatype Value =
    | Null
    | Bool(b: bool)
    | Int(i: int64)
    | Str(s: string)
}
