/** JavaScript numbers that are NaN or an integer, `parseInt(_, 10)` of ECMA-262 5.1
    section 15.1.2.2, and decimal printing as the kernel does it.  Integers are exact. */
module Numerals {
  import opened Rounding
  import opened Text

  datatype Num = NaN | Int(n: int)

  /** The operator `+` on numbers: NaN absorbs. */
  function Plus(x: Num, y: Num): Num {
    if x.Int? && y.Int? then Int(x.n + y.n) else NaN
  }

  lemma {:induction false} PlusLaws(x: Num, y: Num, z: Num)
    ensures Plus(x, Int(0)) == x && Plus(x, y) == Plus(y, x)
    ensures Plus(Plus(x, y), z) == Plus(x, Plus(y, z))
  {
  }

  /** Adding `y` leaves `x` as it is. */
  predicate AddsNothing(x: Num, y: Num) { x.NaN? || y == Int(0) }

  /** No negative number. */
  predicate Unsigned(x: Num) { x.Int? ==> x.n >= 0 }

  /** A sum without negative numbers adds nothing exactly if neither part does. */
  lemma {:induction false} SumAddsNothing(x: Num, a: Num, b: Num)
    requires Unsigned(a) && Unsigned(b)
    ensures AddsNothing(x, Plus(a, b)) <==> AddsNothing(x, a) && AddsNothing(x, b)
    ensures Unsigned(Plus(a, b))
  {
  }

  lemma {:induction false} PlusCancels(x: Num, y: Num)
    ensures Plus(x, y) == x <==> AddsNothing(x, y)
  {
  }

  function Decimal(n: nat): (s: string)
    ensures s != "" && forall i :: 0 <= i < |s| ==> IsDigit(s[i])
  {
    if n < 10 then ['0' + (n as char)] else Decimal(n / 10) + ['0' + ((n % 10) as char)]
  }

  function DigitRun(s: string): (n: nat)
    ensures n <= |s| && forall i :: 0 <= i < n ==> IsDigit(s[i])
    ensures n < |s| ==> !IsDigit(s[n])
  {
    if s == "" || !IsDigit(s[0]) then 0 else 1 + DigitRun(s[1..])
  }

  function DigitOf(c: char): (d: nat)
    requires IsDigit(c)
    ensures d < 10
  {
    (c as int) - ('0' as int)
  }

  function DigitsValue(s: string): nat
    requires forall i :: 0 <= i < |s| ==> IsDigit(s[i])
  {
    if s == "" then 0 else 10 * DigitsValue(s[..|s| - 1]) + DigitOf(s[|s| - 1])
  }

  /** `parseInt(s, 10)`: blanks, a sign, and the longest run of digits; NaN without a digit. */
  function ParseInt(s: string): Num {
    var t := TrimLeft(s);
    var negative := t != "" && t[0] == '-';
    var u := if t != "" && (t[0] == '-' || t[0] == '+') then t[1..] else t;
    var n := DigitRun(u);
    if n == 0 then NaN
    else
      var v: int := DigitsValue(u[..n]);
      Int(if negative then -v else v)
  }

  /** `parseInt(values[i], 10)`: past the end the argument is undefined, which reads as NaN. */
  function ParseIntAt(values: seq<string>, i: nat): Num {
    if i < |values| then ParseInt(values[i]) else NaN
  }

  lemma {:induction false} DigitsValueOfDecimal(n: nat)
    ensures DigitsValue(Decimal(n)) == n
  {
    var s := Decimal(n);
    if n < 10 {
      assert s[..0] == "";
    } else {
      assert s[..|s| - 1] == Decimal(n / 10);
      DigitsValueOfDecimal(n / 10);
    }
  }

  lemma {:induction false} DigitRunIs(d: string, rest: string)
    requires forall i :: 0 <= i < |d| ==> IsDigit(d[i])
    requires rest != "" ==> !IsDigit(rest[0])
    ensures DigitRun(d + rest) == |d|
  {
    if d == "" {
      assert d + rest == rest;
    } else {
      assert (d + rest)[1..] == d[1..] + rest;
      DigitRunIs(d[1..], rest);
    }
  }

  /** Reading a printed natural number gives it back, whatever text that is not a digit follows. */
  lemma {:induction false} ParseIntOfDecimal(n: nat, rest: string)
    requires rest != "" ==> !IsDigit(rest[0])
    ensures ParseInt(Decimal(n) + rest) == Int(n)
  {
    var d := Decimal(n);
    var s := d + rest;
    assert IsDigit(d[0]);
    DigitRunIs(d, rest);
    assert s[..|d|] == d;
    DigitsValueOfDecimal(n);
  }

  lemma {:induction false} DecimalIsWord(n: nat)
    ensures AllWord(Decimal(n)) && Trimmed(Decimal(n)) && ParseInt(Decimal(n)) == Int(n)
  {
    ParseIntOfDecimal(n, "");
    assert Decimal(n) + "" == Decimal(n);
  }

  function Decimals(columns: seq<nat>): (ts: seq<string>)
    ensures |ts| == |columns| && forall i :: 0 <= i < |columns| ==> ts[i] == Decimal(columns[i])
  {
    seq(|columns|, i requires 0 <= i < |columns| => Decimal(columns[i]))
  }

  /** Printed numbers are words, and each reads back. */
  lemma {:induction false} DecimalsAreWords(columns: seq<nat>)
    ensures var ts := Decimals(columns);
            forall i :: 0 <= i < |ts| ==>
              ts[i] != "" && AllWord(ts[i]) && Trimmed(ts[i]) && '\n' !in ts[i] && ParseInt(ts[i]) == Int(columns[i])
  {
    hide Decimal, ParseInt;
    var ts := Decimals(columns);
    forall i | 0 <= i < |ts|
      ensures ts[i] != "" && AllWord(ts[i]) && Trimmed(ts[i]) && ParseInt(ts[i]) == Int(columns[i])
    {
      DecimalIsWord(columns[i]);
    }
    assert forall t :: AllWord(t) ==> '\n' !in t;
  }

  /** A token of the `/\W+/` split carries no sign, so it never reads as a negative number. */
  lemma {:induction false} TokensAreUnsigned(t: string)
    requires AllWord(t)
    ensures Unsigned(ParseInt(t))
  {
    assert TrimLeft(t) == t;
  }

  /** So no position of a tokenised text does. */
  lemma {:induction false} PositionsAreUnsigned(s: string, i: nat)
    ensures Unsigned(ParseIntAt(Tokens(s), i))
  {
    hide Tokens, ParseInt;
    if i < |Tokens(s)| {
      var gaps := GlueOfTokens(s);
      TokensAreUnsigned(Tokens(s)[i]);
    }
  }

  // ---------------------------------------------------------------- parseFloat

  /** A JavaScript number read from a text, exact where it is finite. */
  datatype Float = NotANumber | Infinite(negative: bool) | Finite(r: real)

  /** The length of the exponent part at the start of `s`: e, a sign, at least one digit. */
  function ExponentRun(s: string): (n: nat)
    ensures n <= |s|
  {
    if s == "" || (s[0] != 'e' && s[0] != 'E') then 0
    else
      var k := if |s| > 1 && (s[1] == '-' || s[1] == '+') then 2 else 1;
      var d := DigitRun(s[k..]);
      if d == 0 then 0 else k + d
  }

  function ExponentFactor(s: string): real {
    var n := ExponentRun(s);
    if n == 0 then 1.0
    else
      var k := if s[1] == '-' || s[1] == '+' then 2 else 1;
      var p := Pow10(DigitsValue(s[k..][..DigitRun(s[k..])]));
      if s[1] == '-' then 1.0 / p else p
  }

  /** `parseFloat(s)`, ECMA-262 5.1 section 15.1.2.3: the longest prefix that is a decimal literal. */
  function ParseFloat(s: string): Float {
    var t := TrimLeft(s);
    var negative := t != "" && t[0] == '-';
    var u := if t != "" && (t[0] == '-' || t[0] == '+') then t[1..] else t;
    if "Infinity" <= u then Infinite(negative)
    else
      var n := DigitRun(u);
      var v := u[n..];
      var f := if v != "" && v[0] == '.' then DigitRun(v[1..]) else 0;
      if n + f == 0 then NotANumber
      else
        var fraction := if f == 0 then 0.0 else (DigitsValue(v[1..][..f]) as real) / Pow10(f);
        var rest := if v != "" && v[0] == '.' then v[1 + f..] else v;
        var m := ((DigitsValue(u[..n]) as real) + fraction) * ExponentFactor(rest);
        Finite(if negative then -m else m)
  }

  function ParseFloatAt(values: seq<string>, i: nat): Float {
    if i < |values| then ParseFloat(values[i]) else NotANumber
  }

  /** `x / d` for a natural `d`; a missing clock rate arrives as null, which divides as zero. */
  function Divide(x: Float, d: nat): Float {
    match x
    case NotANumber => NotANumber
    case Infinite(negative) => x
    case Finite(r) =>
      if d != 0 then Finite(r / (d as real))
      else if r == 0.0 then NotANumber
      else Infinite(r < 0.0)
  }

  lemma {:induction false} ParseFloatOfDecimal(n: nat)
    ensures ParseFloat(Decimal(n)) == Finite(n as real)
  {
    hide Decimal;
    var d := Decimal(n);
    assert IsDigit(d[0]);
    assert TrimLeft(d) == d;
    DigitRunIs(d, "");
    assert d + "" == d && d[..|d|] == d && d[|d|..] == "";
    DigitsValueOfDecimal(n);
  }

  // ---------------------------------------------------------------- single texts

  /** How the kernel's numbers look. */
  lemma {:induction false} DecimalTexts()
    ensures Decimal(0) == "0" && Decimal(9) == "9" && Decimal(10) == "10" && Decimal(407) == "407"
  {
    assert Decimal(4) == "4" && Decimal(40) == "40";
  }

  lemma {:induction false} NumberRead(n: nat, rest: string)
    requires rest != "" ==> !IsDigit(rest[0])
    ensures var d := Decimal(n); var s := d + rest;
            && DigitRun(s) == |d| && s[..|d|] == d && s[|d|..] == rest && DigitsValue(d) == n
            && s != "" && !IsBlank(s[0]) && IsDigit(s[0]) && TrimLeft(s) == s
  {
    hide Decimal, DigitRun;
    var d := Decimal(n);
    var s := d + rest;
    assert IsDigit(d[0]) && d[0] == s[0];
    DigitRunIs(d, rest);
    assert s[..|d|] == d;
    DigitsValueOfDecimal(n);
  }

  /** `parseInt` of blanks, a sign, a number and whatever follows it. */
  lemma {:induction false} ParseIntReads(blanks: string, sign: char, n: nat, rest: string)
    requires AllBlank(blanks) && (sign == '+' || sign == '-') && (rest != "" ==> !IsDigit(rest[0]))
    ensures ParseInt(blanks + (Decimal(n) + rest)) == Int(n)
    ensures ParseInt(blanks + ([sign] + (Decimal(n) + rest))) == Int(if sign == '-' then 0 - n else n)
  {
    hide Decimal, DigitRun, DigitsValue, TrimLeft, AllBlank, IsDigit;
    NumberRead(n, rest);
    var s := Decimal(n) + rest;
    var t := [sign] + s;
    SignOrDigit(s[0]);
    TrimLeftSkips(blanks, s);
    TrimLeftSkips(blanks, t);
    SignStays(sign, s);
    assert t[1..] == s;
  }

  lemma {:induction false} SignOrDigit(c: char)
    ensures IsDigit(c) ==> c != '+' && c != '-' && c != 'I'
  {
  }

  lemma {:induction false} ExponentStarts(s: string)
    requires s != "" && s[0] in "eE"
    ensures !IsDigit(s[0])
  {
  }

  lemma {:induction false} SignStays(sign: char, s: string)
    requires sign == '+' || sign == '-'
    ensures TrimLeft([sign] + s) == [sign] + s
  {
  }

  /** Without a digit in front, after a sign if there is one, the answer is NaN. */
  lemma {:induction false} ParseIntFails(blanks: string, sign: char, rest: string)
    requires AllBlank(blanks) && (sign == '+' || sign == '-') && (rest != "" ==> !IsDigit(rest[0]))
    ensures ParseInt(blanks + ([sign] + rest)) == NaN
    ensures rest == "" || (!IsBlank(rest[0]) && rest[0] !in "+-") ==> ParseInt(blanks + rest) == NaN
  {
    hide AllBlank;
    TrimLeftSkips(blanks, [sign] + rest);
    TrimLeftSkips(blanks, rest);
    SignStays(sign, rest);
    assert ([sign] + rest)[1..] == rest;
  }

  /** `parseFloat` of a number with an exponent, what a token such as 2e3 is read as, and of the word
      for the infinite number. */
  lemma {:induction false} ParseFloatReads(n: nat, e: char, k: nat, rest: string)
    requires e in "eE" && (rest != "" ==> !IsDigit(rest[0]))
    ensures ParseFloat(Decimal(n) + ([e] + (Decimal(k) + rest))) == Finite(n as real * Pow10(k))
    ensures ParseFloat("Infinity" + rest) == Infinite(false)
  {
    hide Decimal, Pow10, DigitRun, DigitsValue, TrimLeft, IsDigit, ExponentFactor;
    var exponent := [e] + (Decimal(k) + rest);
    assert !IsDigit(exponent[0]) by { ExponentStarts(exponent); }
    NumberRead(n, exponent);
    SignOrDigit((Decimal(n) + exponent)[0]);
    ExponentIs(e, k, rest);
    InfinityStays(rest);
  }

  lemma {:induction false} InfinityStays(rest: string)
    ensures var s := "Infinity" + rest; s[0] == 'I' && TrimLeft(s) == s
  {
  }

  lemma {:induction false} ExponentIs(e: char, k: nat, rest: string)
    requires e in "eE" && (rest != "" ==> !IsDigit(rest[0]))
    ensures ExponentFactor([e] + (Decimal(k) + rest)) == Pow10(k)
  {
    hide Decimal, Pow10, DigitRun, DigitsValue;
    NumberRead(k, rest);
    var s := Decimal(k) + rest;
    var exponent := [e] + s;
    assert exponent[1] == s[0] && exponent[1..] == s;
  }

  /** A token that begins with neither a digit nor a sign, a blank, a point or "Infinity" is NaN. */
  lemma {:induction false} ParseFloatFails(s: string)
    requires s != "" ==> !IsDigit(s[0]) && !IsBlank(s[0]) && s[0] !in "+-."
    requires !("Infinity" <= s)
    ensures ParseFloat(s) == NotANumber
  {
  }

  /** NaN absorbs; dividing by a missing clock rate gives no finite number. */
  lemma {:induction false} NoNumber(x: Num, r: real)
    ensures Plus(NaN, x) == Plus(x, NaN) == NaN
    ensures Divide(Finite(0.0), 0) == NotANumber
    ensures Divide(Finite(r), 0) == if r == 0.0 then NotANumber else Infinite(r < 0.0)
  {
  }
}
