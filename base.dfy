/** Small value types shared by the routing model: optional values, results,
    and the fixed-width integers the router uses for priorities and ids. */
module Base {

  datatype Option<+T> = None | Some(value: T)

  datatype Result<+T, +E> = Ok(value: T) | Err(error: E)

  /** Go's uint32, used for route priorities. */
  newtype uint32 = x: int | 0 <= x < 0x1_0000_0000

  /** Go's int64, used for interface ids. */
  newtype int64 = x: int | -0x8000_0000_0000_0000 <= x < 0x8000_0000_0000_0000

  /** Go's `a + b` on uint32: the sum wraps around modulo 2^32. */
  function AddU32(a: uint32, b: uint32): (r: uint32)
    ensures r as int == (a as int + b as int) % 0x1_0000_0000
    ensures a as int + b as int < 0x1_0000_0000 ==> r as int == a as int + b as int
  {
    var sum := a as int + b as int;
    if sum < 0x1_0000_0000 then sum as uint32 else (sum - 0x1_0000_0000) as uint32
  }
}
