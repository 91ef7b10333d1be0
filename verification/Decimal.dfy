/** Decimal text of integers. */
module Decimal {
  function Digit(d: int): (c: char)
    requires 0 <= d < 10
    ensures '0' <= c <= '9'
  {
    ('0' as int + d) as char
  }

  function Natural(n: nat): string {
    if n < 10 then [Digit(n)] else Natural(n / 10) + [Digit(n % 10)]
  }

  /** The text a signed integer is formatted as. */
  function Text(n: int): string {
    if n < 0 then "-" + Natural(-n) else Natural(n)
  }
}
