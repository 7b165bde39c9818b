/** Java's 64-bit `long`, the type of every timestamp and duration in the cache. */
module Longs {

  const TWO_TO_THE_64: int := 0x1_0000_0000_0000_0000

  newtype Long = x: int | -0x8000_0000_0000_0000 <= x < 0x8000_0000_0000_0000

  /** `a + b` on Java longs: the mathematical sum wrapped into the 64-bit range. */
  function Add(a: Long, b: Long): (r: Long)
    ensures (r as int - (a as int + b as int)) % TWO_TO_THE_64 == 0
    ensures -0x8000_0000_0000_0000 <= a as int + b as int < 0x8000_0000_0000_0000
            ==> r as int == a as int + b as int
  {
    var s := a as int + b as int;
    if s >= 0x8000_0000_0000_0000 then (s - TWO_TO_THE_64) as Long
    else if s < -0x8000_0000_0000_0000 then (s + TWO_TO_THE_64) as Long
    else s as Long
  }
}
