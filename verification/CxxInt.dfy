/** The fixed-width integer arithmetic of the C++ code: division and remainder that round
    toward zero, the narrowing cast to `int`, and operations that report 32-bit overflow. */
module CxxInt {

  const INT_MIN: int := -0x8000_0000
  const INT_MAX: int := 0x7fff_ffff

  predicate FitsInt(x: int) {
    INT_MIN <= x <= INT_MAX
  }

  /** `x / y` for a positive divisor. */
  function TruncDiv(x: int, y: int): int
    requires y > 0
  {
    if x >= 0 then x / y else -((-x) / y)
  }

  /** `x % y` for a positive divisor: the remainder takes the sign of `x`. */
  function TruncMod(x: int, y: int): int
    requires y > 0
  {
    if x >= 0 then x % y else -((-x) % y)
  }

  /** `static_cast<int>(x)`: keep the low 32 bits, read as two's complement. */
  function CastToInt(x: int): (r: int)
    ensures FitsInt(r)
    ensures FitsInt(x) ==> r == x
  {
    var low := x % 0x1_0000_0000;
    if low <= INT_MAX then low else low - 0x1_0000_0000
  }

  /** The result of an `int` operation; overflow is undefined behaviour in the program. */
  datatype Checked<+T> = Overflow | Value(value: T) {
    predicate IsFailure() {
      Overflow?
    }

    function PropagateFailure<U>(): Checked<U>
      requires Overflow?
    {
      Overflow
    }

    function Extract(): T
      requires Value?
    {
      value
    }
  }

  function Fit(x: int): Checked<int> {
    if FitsInt(x) then Value(x) else Overflow
  }

}
