/**
 Money arithmetic. Every stored amount is an integer number of units of 0.0001 KES (the
 database columns are DECIMAL(18,4)). `Round` is decimal.js `toDecimalPlaces` in its default
 mode: to the nearest unit, halves away from zero.
 */
module Decimals {

  /** KES 1.0000 in units. */
  const UNITS_PER_KES := 10000

  function Round(x: real): (n: int)
    ensures -0.5 <= n as real - x <= 0.5
    ensures n as real - x == 0.5 ==> x >= 0.0
    ensures n as real - x == -0.5 ==> x <= 0.0
  {
    if x >= 0.0 then (x + 0.5).Floor else -((0.5 - x).Floor)
  }

  /** `amount.toDecimalPlaces(4)` for an amount in KES, in units. */
  function ToUnits(kes: real): int {
    Round(kes * (UNITS_PER_KES as real))
  }

  function Min(a: int, b: int): int {
    if a <= b then a else b
  }

  function Max(a: int, b: int): int {
    if a >= b then a else b
  }

  lemma RoundIsMonotone(x: real, y: real)
    requires x <= y
    ensures Round(x) <= Round(y)
  {
    if x < 0.0 && y >= 0.0 {
      assert Round(x) <= 0 <= Round(y);
    }
  }

  lemma RoundOfUnits(n: int)
    ensures Round(n as real) == n
  {
  }
}
