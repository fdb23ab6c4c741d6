/** `roundNumber` over exact reals; `Math.round` is floor(x + 1/2), ECMA-262 5.1 section
    15.8.2.15. */
module Rounding {

  function Pow10(n: nat): (p: real)
    ensures p > 0.0
  {
    if n == 0 then 1.0 else 10.0 * Pow10(n - 1)
  }

  function MathRound(x: real): int { (x + 0.5).Floor }

  function Scaled(num: real, p: real): real { num * p }

  function RoundScaled(num: real, p: real): real
    requires p > 0.0
  {
    (MathRound(Scaled(num, p)) as real) / p
  }

  function RoundNumber(num: real, dec: nat): real { RoundScaled(num, Pow10(dec)) }

  lemma {:induction false} ScaleMonotone(x: real, y: real, p: real)
    requires x <= y && p > 0.0
    ensures x * p <= y * p && x / p <= y / p
  {
    var d := y - x;
    assert d * p >= 0.0;
    assert y * p == x * p + d * p;
    assert y / p == x / p + d / p;
  }

  lemma {:induction false} MathRoundIsMonotone(x: real, y: real)
    requires x <= y
    ensures MathRound(x) <= MathRound(y)
  {
    assert (MathRound(x) as real) <= x + 0.5 && y + 0.5 < (MathRound(y) as real) + 1.0;
  }

  lemma {:induction false} MathRoundOfInt(k: int)
    ensures MathRound(k as real) == k
  {
  }

  lemma {:induction false} ScaledIsMonotone(x: real, y: real, p: real)
    requires x <= y && p > 0.0
    ensures Scaled(x, p) <= Scaled(y, p)
  {
    ScaleMonotone(x, y, p);
  }

  lemma {:induction false} ScaledBack(x: real, p: real)
    requires p > 0.0
    ensures Scaled(x / p, p) == x && Scaled(x, p) / p == x
  {
  }

  lemma {:induction false} RoundScaledIsMonotone(x: real, y: real, p: real)
    requires x <= y && p > 0.0
    ensures RoundScaled(x, p) <= RoundScaled(y, p)
  {
    hide MathRound, Scaled;
    ScaledIsMonotone(x, y, p);
    MathRoundIsMonotone(Scaled(x, p), Scaled(y, p));
    ScaleMonotone(MathRound(Scaled(x, p)) as real, MathRound(Scaled(y, p)) as real, p);
  }

  lemma {:induction false} RoundIsMonotone(x: real, y: real, dec: nat)
    requires x <= y
    ensures RoundNumber(x, dec) <= RoundNumber(y, dec)
  {
    hide RoundScaled, Pow10;
    RoundScaledIsMonotone(x, y, Pow10(dec));
  }

  lemma {:induction false} RoundScaledFixes(k: int, p: real)
    requires p > 0.0
    ensures RoundScaled((k as real) / p, p) == (k as real) / p
  {
    hide MathRound, Scaled;
    ScaledBack(k as real, p);
    MathRoundOfInt(k);
  }

  /** Numbers with no more than `dec` decimals are left alone, 0 and 100 among them. */
  lemma {:induction false} RoundFixes(k: int, dec: nat)
    ensures RoundNumber((k as real) / Pow10(dec), dec) == (k as real) / Pow10(dec)
  {
    hide RoundScaled, Pow10;
    RoundScaledFixes(k, Pow10(dec));
  }

  lemma {:induction false} RoundScaledIsNear(x: real, p: real)
    requires p > 0.0
    ensures -0.5 / p <= RoundScaled(x, p) - x <= 0.5 / p
  {
    hide Scaled;
    var y := Scaled(x, p);
    var r := MathRound(y) as real;
    ScaledBack(x, p);
    ScaleMonotone(y - 0.5, r, p);
    ScaleMonotone(r, y + 0.5, p);
    assert (y - 0.5) / p == y / p - 0.5 / p && (y + 0.5) / p == y / p + 0.5 / p;
  }

  lemma {:induction false} RoundIsNear(x: real, dec: nat)
    ensures -0.5 / Pow10(dec) <= RoundNumber(x, dec) - x <= 0.5 / Pow10(dec)
  {
    hide RoundScaled, Pow10;
    RoundScaledIsNear(x, Pow10(dec));
  }

  lemma {:induction false} RoundScaledHalf(k: int, p: real)
    requires p > 0.0
    ensures RoundScaled((k as real + 0.5) / p, p) == (k + 1) as real / p
  {
    hide Scaled;
    ScaledBack(k as real + 0.5, p);
  }

  /** Halfway between two numbers with `dec` decimals the greater one is taken, for negative numbers
      too. */
  lemma {:induction false} RoundHalfUp(k: int, dec: nat)
    ensures RoundNumber((k as real + 0.5) / Pow10(dec), dec) == (k + 1) as real / Pow10(dec)
  {
    hide RoundScaled, Pow10;
    RoundScaledHalf(k, Pow10(dec));
  }

  lemma {:induction false} Pow10IsWhole(n: nat) returns (k: nat)
    ensures Pow10(n) == k as real
  {
    if n == 0 {
      k := 1;
    } else {
      k := Pow10IsWhole(n - 1);
      k := 10 * k;
    }
  }

  /** Percentages from 0 to 100 stay there. */
  lemma {:induction false} RoundedPercent(x: real, dec: nat)
    requires 0.0 <= x <= 100.0
    ensures 0.0 <= RoundNumber(x, dec) <= 100.0
    ensures -0.5 / Pow10(dec) <= RoundNumber(x, dec) - x <= 0.5 / Pow10(dec)
  {
    hide RoundNumber, Pow10;
    var k := Pow10IsWhole(dec);
    var p := Pow10(dec);
    assert (100 * k) as real == 100.0 * p && (100.0 * p) / p == 100.0;
    RoundFixes(0, dec);
    RoundFixes(100 * k, dec);
    RoundIsMonotone(0.0, x, dec);
    RoundIsMonotone(x, 100.0, dec);
    RoundIsNear(x, dec);
  }

  lemma {:induction false} TwoDecimals()
    ensures Pow10(1) == 10.0 && Pow10(2) == 100.0
  {
    assert Pow10(1) == 10.0 * Pow10(0);
  }
}
