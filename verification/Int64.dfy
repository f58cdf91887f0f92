/** Go's fixed-width integers as ranges of `int`. */
module Int64 {
  const TWO_63 := 0x8000_0000_0000_0000
  const TWO_64 := 0x1_0000_0000_0000_0000

  type int64 = x: int | -TWO_63 <= x < TWO_63
  type uint64 = x: int | 0 <= x < TWO_64

  function ToUint64(x: int): uint64 {
    x % TWO_64
  }

  /** Two's complement wrap-around. */
  function ToInt64(x: int): int64 {
    var m := x % TWO_64;
    if m < TWO_63 then m else m - TWO_64
  }
}
