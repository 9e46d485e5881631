/** Option and 64-bit integer helpers shared by every module of the model. */
module Wrappers {

  datatype Option<T> = None | Some(value: T)

  /** Smallest and largest values of a signed 64-bit integer (boost::int64_t). */
  const Int64Min: int := -0x8000_0000_0000_0000
  const Int64Max: int := 0x7FFF_FFFF_FFFF_FFFF

  /** 2^64: the modulus of size_t arithmetic. */
  const SizeModulus: int := 0x1_0000_0000_0000_0000

  /** 2^32: the modulus of guint / unsigned arithmetic. */
  const UintModulus: int := 0x1_0000_0000

  predicate IsInt64(x: int) { Int64Min <= x <= Int64Max }

  function Min(a: int, b: int): (r: int)
    ensures r <= a && r <= b && (r == a || r == b)
  {
    if a <= b then a else b
  }

  function Max(a: int, b: int): (r: int)
    ensures r >= a && r >= b && (r == a || r == b)
  {
    if a >= b then a else b
  }
}
