/** The widths of the integers that can wrap. */
module Numbers {
  const TWO24: nat := 0x100_0000
  const TWO32: nat := 0x1_0000_0000
  const TWO63: int := 0x8000_0000_0000_0000
  const TWO64: nat := 0x1_0000_0000_0000_0000
  const INT_MAX := 0x7fff_ffff

  /** Conversion of an unsigned sum to a 32-bit `int`. */
  function ToInt32(n: nat): int {
    var w := n % 0x1_0000_0000;
    if w <= INT_MAX then w else w - 0x1_0000_0000
  }

  function Min(a: nat, b: nat): nat {
    if a < b then a else b
  }
}
