/** C#'s `int`: 32-bit two's complement, where `+` and `++` wrap around
    (unchecked arithmetic). */
module Int32s {

  const Two32: int := 0x1_0000_0000
  const MinInt32: int := -0x8000_0000

  newtype int32 = x: int | -0x8000_0000 <= x < 0x8000_0000

  /** Two's-complement wrap-around of an exact result into `int`. */
  function Wrap(x: int): (r: int32)
    ensures (r as int - x) % Two32 == 0
    ensures MinInt32 <= x < -MinInt32 ==> r as int == x
  {
    ((x - MinInt32) % Two32 + MinInt32) as int32
  }

  /** Sums that differ by a multiple of 2^32 wrap to the same value. */
  lemma WrapCongruent(x: int, y: int)
    requires (x - y) % Two32 == 0
    ensures Wrap(x) == Wrap(y)
  {
    var k := (x - y) / Two32;
    assert x - MinInt32 == (y - MinInt32) + k * Two32;
    ModShift(y - MinInt32, k);
  }

  lemma {:induction false} ModShift(v: int, k: int)
    ensures (v + k * Two32) % Two32 == v % Two32
    decreases if k < 0 then -k else k
  {
    if k > 0 {
      ModShift(v, k - 1);
      assert v + k * Two32 == (v + (k - 1) * Two32) + Two32;
    } else if k < 0 {
      ModShift(v, k + 1);
      assert v + k * Two32 == (v + (k + 1) * Two32) - Two32;
    }
  }
}
