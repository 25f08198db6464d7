/** Printing numbers into character buffers and reading them back. */
module Text {
  import opened Division

  const MIN_INT: int := -0x8000_0000

  type u32 = x: int | 0 <= x < 0x1_0000_0000
  type i32 = x: int | -0x8000_0000 <= x < 0x8000_0000

  // ----- numerals

  function Digit(d: nat): char
    requires d < 16
  {
    "0123456789abcdef"[d]
  }

  /** Arithmetic by name, so that proofs can use its laws one at a time. */
  function Mul(a: nat, b: nat): nat { a * b }
  function Div(n: nat, d: nat): nat
    requires d > 0
  {
    n / d
  }
  function Mod(n: nat, d: nat): nat
    requires d > 0
  {
    n % d
  }

  function Power(b: nat, k: nat): nat { if k == 0 then 1 else Mul(b, Power(b, k - 1)) }

  lemma Decompose(n: nat, d: nat)
    requires d > 0
    ensures n == Mul(Div(n, d), d) + Mod(n, d) && Mod(n, d) < d
  {
  }

  lemma Quotients(n: nat, d: nat, q: nat, r: nat)
    requires n == Mul(q, d) + r && r < d
    ensures Div(n, d) == q && Mod(n, d) == r
  {
    SameDecomposition(d, q, r, n / d, n % d);
  }

  lemma MulLarger(b: nat, p: nat)
    requires b > 0
    ensures Mul(b, p) >= p && (b >= 2 && p > 0 ==> Mul(b, p) > p) && Mul(b, p) == Mul(p, b)
  {
  }

  lemma MulOrder(a: nat, c: nat, b: nat)
    requires a <= c
    ensures Mul(a, b) <= Mul(c, b)
  {
  }

  lemma MulNext(a: nat, b: nat)
    ensures Mul(a + 1, b) == Mul(a, b) + b
  {
  }

  lemma Regroup(b: nat, p: nat, q: nat, r: nat)
    ensures Mul(q, Mul(b, p)) + Mul(r, b) == Mul(Mul(q, p) + r, b)
  {
  }

  lemma SmallerQuotient(n: nat, b: nat, p: nat)
    requires b > 0 && n < Mul(b, p)
    ensures Div(n, b) < p
  {
  }

  lemma LargerQuotient(n: nat, b: nat, p: nat)
    requires b > 0 && Mul(b, p) <= n
    ensures p <= Div(n, b)
  {
    hide Mul, Div, Mod;
    Decompose(n, b);
    MulLarger(b, p);
    MulNext(Div(n, b), b);
    if Div(n, b) + 1 <= p { MulOrder(Div(n, b) + 1, p, b); }
  }

  lemma PowerPositive(b: nat, k: nat)
    requires b > 0
    ensures Power(b, k) > 0
  {
  }

  /** Dividing by `b` and then by `p` is dividing by their product; the remainders split accordingly. */
  lemma DivideTwice(n: nat, b: nat, p: nat)
    requires b > 0 && p > 0
    ensures Mul(b, p) > 0
    ensures Div(Div(n, b), p) == Div(n, Mul(b, p))
    ensures Mod(Div(n, b), p) == Div(Mod(n, Mul(b, p)), b)
    ensures Mod(Mod(n, Mul(b, p)), b) == Mod(n, b)
  {
    hide Mul, Div, Mod;
    MulLarger(b, p);
    var q, r := Div(n, Mul(b, p)), Mod(n, Mul(b, p));
    Decompose(n, Mul(b, p));
    Decompose(r, b);
    SmallerQuotient(r, b, p);
    Regroup(b, p, q, Div(r, b));
    Quotients(n, b, Mul(q, p) + Div(r, b), Mod(r, b));
    Quotients(Div(n, b), p, q, Div(r, b));
  }

  // ----- numerals as character sequences

  /** The numeral of `n` without leading zeros. */
  function Numeral(b: nat, n: nat): string
    requires 2 <= b <= 16
    decreases n
  {
    Shrinks(n, b);
    if n < b then [Digit(n)] else Numeral(b, Div(n, b)) + [Digit(Mod(n, b))]
  }

  /** The last `k` digits of `n`, leading zeros included. */
  function LastDigits(b: nat, n: nat, k: nat): string
    requires 2 <= b <= 16
    decreases k
  {
    Shrinks(n, b);
    if k == 0 then [] else LastDigits(b, Div(n, b), k - 1) + [Digit(Mod(n, b))]
  }

  lemma Shrinks(n: nat, b: nat)
    requires 2 <= b
    ensures n > 0 ==> Div(n, b) < n
    ensures Mod(n, b) < b && (n < b ==> Div(n, b) == 0 && Mod(n, b) == n)
  {
    hide Mul, Div, Mod;
    Decompose(n, b);
    MulLarger(b, Div(n, b));
    if n < b {
      TimesNothing(b);
      Quotients(n, b, 0, n);
    }
  }

  lemma TimesNothing(b: nat)
    ensures Mul(0, b) == 0 && Mul(b, 1) == b && Mul(1, b) == b
  {
  }

  /** The first of `k` digits is the quotient by the highest power. */
  lemma {:induction false} FirstDigit(b: nat, n: nat, k: nat)
    requires 2 <= b <= 16 && k > 0 && n < Power(b, k)
    ensures Power(b, k - 1) > 0 && Div(n, Power(b, k - 1)) < b
    ensures LastDigits(b, n, k) == [Digit(Div(n, Power(b, k - 1)))] + LastDigits(b, Mod(n, Power(b, k - 1)), k - 1)
  {
    hide Mul, Div, Mod, Digit;
    PowerPositive(b, k - 1);
    Shrinks(n, b);
    TimesNothing(b);
    if k == 1 {
      assert Power(b, 1) == Mul(b, Power(b, 0));
      assert Power(b, 0) == 1;
      TimesNothing(n);
      Quotients(n, 1, n, 0);
      assert LastDigits(b, Div(n, b), 0) == [];
    } else {
      var p := Power(b, k - 2);
      PowerPositive(b, k - 2);
      DivideTwice(n, b, p);
      SmallerQuotient(n, b, Power(b, k - 1));
      FirstDigit(b, Div(n, b), k - 1);
    }
  }

  /** With as many digits as the number has, there are no leading zeros. */
  lemma {:induction false} AllDigits(b: nat, n: nat, k: nat)
    requires 2 <= b <= 16 && k > 0 && n < Power(b, k) && (k > 1 ==> Power(b, k - 1) <= n)
    ensures LastDigits(b, n, k) == Numeral(b, n)
    decreases k
  {
    hide Mul, Div, Mod, Digit;
    Shrinks(n, b);
    TimesNothing(b);
    if k == 1 {
      assert Power(b, 1) == Mul(b, Power(b, 0));
      assert LastDigits(b, Div(n, b), 0) == [];
    } else {
      PowerPositive(b, k - 2);
      MulOrder(1, Power(b, k - 2), b);
      MulLarger(b, Power(b, k - 2));
      SmallerQuotient(n, b, Power(b, k - 1));
      LargerQuotient(n, b, Power(b, k - 2));
      AllDigits(b, Div(n, b), k - 1);
    }
  }

  // ----- print_int

  function Filler(c: char, n: int): string { seq(if n > 0 then n else 0, _ => c) }

  /** A signed value is negative when its top bit is set; its magnitude is the two's complement. */
  predicate Negative(value: u32, signed: bool) { signed && value >= 0x8000_0000 }

  function Magnitude32(value: u32, signed: bool): nat {
    if Negative(value, signed) then 0x1_0000_0000 - value else value
  }

  /** The sign comes before the filler; a zero is printed without filler. */
  function Printed(b: nat, value: u32, minChars: int, fill: char, signed: bool): string
    requires 2 <= b <= 16
  {
    var digits := Numeral(b, Magnitude32(value, signed));
    if value == 0 then digits
    else (if Negative(value, signed) then "-" else "") + Filler(fill, minChars - |digits|) + digits
  }

  /** The digit count and the highest power, found by dividing until nothing is left. */
  method CountDigits(b: nat, val: u32) returns (n: nat, pow: u32)
    requires 2 <= b <= 16 && val > 0
    ensures n > 0 && pow == Power(b, n - 1) && pow <= val < Power(b, n)
  {
    hide Mul, Div, Mod;
    n, pow := 0, 0;
    var temp: nat := val;
    TimesNothing(val);
    Quotients(val, 1, val, 0);
    while temp > 0
      invariant Power(b, n) > 0 && temp == Div(val, Power(b, n))
      invariant n > 0 ==> pow == Power(b, n - 1) && pow <= val && pow > 0
      invariant n == 0 ==> pow == 0 && temp > 0
      decreases temp
    {
      PowerPositive(b, n + 1);
      Decompose(val, Power(b, n));
      MulLarger(temp, Power(b, n));
      DivideTwice(val, Power(b, n), b);
      MulLarger(b, Power(b, n));
      Shrinks(temp, b);
      n := n + 1;
      if n > 1 { MulLarger(b, pow); }
      var next: nat := if pow == 0 then 1 else Mul(pow, b);
      pow := next % 0x1_0000_0000;
      temp := Div(temp, b);
    }
    Decompose(val, Power(b, n));
    TimesNothing(Power(b, n));
  }

  /** `print_int`: the emitted characters and the count it reports, which leaves the filler out. */
  method PrintInt(b: nat, value: u32, minChars: int, fill: char, signed: bool) returns (out: string, ret: nat)
    requires 2 <= b <= 16
    ensures out == Printed(b, value, minChars, fill, signed)
    ensures ret == (if Negative(value, signed) then 1 else 0) + |Numeral(b, Magnitude32(value, signed))|
  {
    hide Mul, Div, Mod;
    if value == 0 {
      return [Digit(0)], 1;
    }
    hide Digit;
    var val: u32 := value;
    out, ret := [], 0;
    if Negative(value, signed) {
      val := 0x1_0000_0000 - val;
      out, ret := ['-'], 1;
    }
    ghost var magnitude := val;
    var n, pow := CountDigits(b, val);
    AllDigits(b, val, n);
    LastDigitsLength(b, val, n);
    var filler := EmitFiller(fill, n, minChars);
    var digits := EmitDigits(b, val, n, pow);
    out, ret := out + filler + digits, ret + n;
  }

  /** The filling loop: from `n` characters up to `minChars`. */
  method EmitFiller(fill: char, n: nat, minChars: int) returns (out: string)
    ensures out == Filler(fill, minChars - n)
  {
    out := [];
    var i := n;
    while i < minChars
      invariant n <= i && (i <= minChars || i == n) && out == Filler(fill, i - n)
    {
      out := out + [fill];
      i := i + 1;
    }
  }

  /** The digit loop, from the highest power down. */
  method EmitDigits(b: nat, magnitude: u32, n: nat, power: u32) returns (out: string)
    requires 2 <= b <= 16 && n > 0 && power == Power(b, n - 1) && magnitude < Power(b, n)
    ensures out == LastDigits(b, magnitude, n)
  {
    hide Mul, Div, Mod, Digit, Power, LastDigits;
    var val: u32, pow: u32, i: nat := magnitude, power, n;
    out := [];
    while i > 0
      invariant 0 <= i <= n && val < Power(b, i) && (i > 0 ==> pow == Power(b, i - 1))
      invariant out + LastDigits(b, val, i) == LastDigits(b, magnitude, n)
    {
      FirstDigit(b, val, i);
      Decompose(val, pow);
      var dig := Div(val, pow);
      EmitNext(out, Digit(dig), LastDigits(b, Mod(val, pow), i - 1));
      out := out + [Digit(dig)];
      val := Mod(val, pow);
      LowerPower(b, i);
      pow := Div(pow, b);
      i := i - 1;
    }
    LastDigitsLength(b, val, 0);
  }

  lemma EmitNext(out: string, c: char, rest: string)
    ensures out + ([c] + rest) == out + [c] + rest
  {
  }

  lemma LastDigitsLength(b: nat, n: nat, k: nat)
    requires 2 <= b <= 16
    ensures |LastDigits(b, n, k)| == k
    decreases k
  {
    hide Mul, Div, Mod, Digit;
    Shrinks(n, b);
    if k > 0 { LastDigitsLength(b, Div(n, b), k - 1); }
  }

  lemma LowerPower(b: nat, i: nat)
    requires b >= 2 && i > 0
    ensures i > 1 ==> Div(Power(b, i - 1), b) == Power(b, i - 2)
    ensures Div(Power(b, i - 1), b) < 0x1_0000_0000 || Power(b, i - 1) >= 0x1_0000_0000
  {
    hide Mul, Div, Mod;
    Shrinks(Power(b, i - 1), b);
    PowerPositive(b, i - 1);
    if i > 1 {
      MulLarger(b, Power(b, i - 2));
      Quotients(Power(b, i - 1), b, Power(b, i - 2), 0);
    }
  }
}
