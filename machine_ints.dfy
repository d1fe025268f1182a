/** Fixed-width integers of the C++ source, written out over unbounded integers. */
module MachineInts {

  const TWO_TO_THE_32: int := 0x1_0000_0000
  const TWO_TO_THE_63: int := 0x8000_0000_0000_0000
  const TWO_TO_THE_64: int := 0x1_0000_0000_0000_0000

  type uint32 = x: int | 0 <= x < TWO_TO_THE_32
  type uint64 = x: int | 0 <= x < TWO_TO_THE_64
  type int64 = x: int | -TWO_TO_THE_63 <= x < TWO_TO_THE_63

  predicate InInt64(x: int)
  {
    -TWO_TO_THE_63 <= x < TWO_TO_THE_63
  }

  /** Unsigned 64-bit wrap-around of a mathematical result. */
  function Wrap64(x: int): (r: uint64)
    ensures InInt64(x) && x >= 0 ==> r == x
    ensures (r - x) % TWO_TO_THE_64 == 0
  {
    x % TWO_TO_THE_64
  }

  /** Unsigned 32-bit wrap-around (`unsigned` arithmetic in C++). */
  function Wrap32(x: int): (r: uint32)
    ensures 0 <= x < TWO_TO_THE_32 ==> r == x
    ensures (r - x) % TWO_TO_THE_32 == 0
  {
    x % TWO_TO_THE_32
  }

  /** Two's-complement reinterpretation of a 64-bit pattern as `int64_t`. */
  function AsInt64(x: int): (r: int64)
    ensures InInt64(x) ==> r == x
    ensures (r - x) % TWO_TO_THE_64 == 0
  {
    var w := x % TWO_TO_THE_64;
    if w < TWO_TO_THE_63 then w else w - TWO_TO_THE_64
  }
}
