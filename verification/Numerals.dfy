/** Numbers written in digits. */
module Numerals {
  import opened Utf8

  /** "0123456789abcdef" and "0123456789ABCDEF". */
  const LOWER: Bytes := [0x30, 0x31, 0x32, 0x33, 0x34, 0x35, 0x36, 0x37, 0x38, 0x39, 0x61, 0x62, 0x63, 0x64, 0x65, 0x66]
  const UPPER: Bytes := [0x30, 0x31, 0x32, 0x33, 0x34, 0x35, 0x36, 0x37, 0x38, 0x39, 0x41, 0x42, 0x43, 0x44, 0x45, 0x46]

  function DigitOf(d: nat, upper: bool): Byte
    requires d < 16
  {
    if upper then UPPER[d] else LOWER[d]
  }

  /** `n` in digits of `base`, without leading zeros. */
  function Numeral(n: nat, base: nat, upper: bool): (ds: Bytes)
    requires 2 <= base <= 16
    ensures ds != []
  {
    if n < base then [DigitOf(n, upper)] else Numeral(n / base, base, upper) + [DigitOf(n % base, upper)]
  }
}
