/** Reading numbers from C strings, and the buffers they are printed into. */
module Parsing {
  import opened Text

  /** The characters before the terminating NUL. */
  function CString(s: string): string {
    if s == [] || s[0] == '\0' then [] else [s[0]] + CString(s[1..])
  }

  lemma {:induction false} CStringIs(s: string)
    ensures |CString(s)| <= |s| && CString(s) == s[..|CString(s)|]
    ensures |CString(s)| < |s| ==> s[|CString(s)|] == '\0'
    ensures '\0' !in CString(s) && ('\0' in s ==> |CString(s)| < |s|)
  {
    if s != [] && s[0] != '\0' {
      CStringIs(s[1..]);
    }
  }

  lemma {:induction false} CStringOf(text: string, rest: string)
    requires '\0' !in text
    ensures CString(text + ['\0'] + rest) == text
  {
    var s := text + ['\0'] + rest;
    if text == [] {
      assert s[0] == '\0';
    } else {
      assert s[0] == text[0] && s[1..] == text[1..] + ['\0'] + rest;
      CStringOf(text[1..], rest);
    }
  }

  /** The value of a signed 8-bit `char`. */
  function Code(c: char): int { if c as int < 128 then c as int else c as int - 256 }

  predicate HexLetter(c: char) { 'a' <= c <= 'f' }

  function DigitValue(b: nat, c: char): int {
    if b == 16 && HexLetter(c) then 10 + (Code(c) - Code('a')) else Code(c) - Code('0')
  }

  /** The value the parsers accumulate, before any 32-bit wrap-around. */
  function Value(b: nat, s: string): int {
    if s == [] then 0 else b * Value(b, s[..|s| - 1]) + DigitValue(b, s[|s| - 1])
  }

  /** A 32-bit `int` after overflow. */
  function Wrap(x: int): i32 { (x + 0x8000_0000) % 0x1_0000_0000 - 0x8000_0000 }

  lemma WrapStep10(x: int, d: int)
    ensures Wrap(10 * Wrap(x) + d) == Wrap(10 * x + d)
  {
  }

  lemma WrapStep16(x: int, d: int)
    ensures Wrap(16 * Wrap(x) + d) == Wrap(16 * x + d)
  {
  }

  lemma WrapNegated(x: int)
    ensures Wrap(0 - Wrap(x)) == Wrap(-x)
  {
  }

  function HasSign(s: string): bool { s != [] && s[0] == '-' }

  function Unsigned(s: string): string { if HasSign(s) then s[1..] else s }

  /** What `atoi_10` and `atoi_16` return for the string `s`. */
  function Parsed(b: nat, s: string): i32 {
    if HasSign(s) then Wrap(-Value(b, Unsigned(s))) else Wrap(Value(b, Unsigned(s)))
  }

  /** No partial sum leaves the range of `int`. */
  predicate NoOverflow(b: nat, s: string) {
    forall k :: 0 <= k <= |Unsigned(s)| ==> MIN_INT <= Value(b, Unsigned(s)[..k]) < -MIN_INT
  }

  predicate HexDigit(c: char) { '0' <= c <= '9' || HexLetter(c) }

  lemma ValueNext(b: nat, s: string, i: nat)
    requires i < |s|
    ensures Value(b, s[..i + 1]) == b * Value(b, s[..i]) + DigitValue(b, s[i])
  {
    assert s[..i + 1][..i] == s[..i];
  }

  /** `atoi_10` on a NUL-terminated buffer */
  method Atoi10(str: string) returns (r: i32)
    requires '\0' in str
    ensures r == Parsed(10, CString(str))
  {
    hide Wrap, CString, Value;
    CStringIs(str);
    ghost var body := Unsigned(CString(str));
    var p, negative := 0, false;
    if str[0] == '-' {
      p, negative := 1, true;
    }
    ghost var start := p;
    var sum: i32 := 0;
    ValueEmpty(10);
    while str[p] != '\0'
      invariant start <= p <= |CString(str)| && |body| == |CString(str)| - start
      invariant sum == Wrap(Value(10, body[..p - start]))
      decreases |str| - p
    {
      ValueNext(10, body, p - start);
      WrapStep10(Value(10, body[..p - start]), DigitValue(10, str[p]));
      sum := Wrap(10 * sum + (Code(str[p]) - Code('0')));
      p := p + 1;
    }
    assert body[..p - start] == body;
    WrapNegated(Value(10, body));
    WrapSame(sum);
    r := if negative then Wrap(0 - sum) else sum;
  }

  lemma ValueEmpty(b: nat)
    ensures Value(b, []) == 0 && Wrap(0) == 0
  {
  }

  lemma WrapSame(x: i32)
    ensures Wrap(x) == x
  {
  }

  /** `atoi_16` on a NUL-terminated buffer; its assertion fails at a character that is no hexadecimal digit. */
  method Atoi16(str: string) returns (ok: bool, r: i32)
    requires '\0' in str
    ensures ok <==> forall i :: 0 <= i < |Unsigned(CString(str))| ==> HexDigit(Unsigned(CString(str))[i])
    ensures ok ==> r == Parsed(16, CString(str))
  {
    hide Wrap, CString, Value;
    CStringIs(str);
    ghost var body := Unsigned(CString(str));
    var p, negative := 0, false;
    if str[0] == '-' {
      p, negative := 1, true;
    }
    ghost var start := p;
    var sum: i32 := 0;
    ValueEmpty(16);
    while str[p] != '\0'
      invariant start <= p <= |CString(str)| && |body| == |CString(str)| - start
      invariant sum == Wrap(Value(16, body[..p - start]))
      invariant forall i :: 0 <= i < p - start ==> HexDigit(body[i])
      decreases |str| - p
    {
      var c := str[p];
      assert c == body[p - start];
      ValueNext(16, body, p - start);
      WrapStep16(Value(16, body[..p - start]), DigitValue(16, c));
      if '0' <= c <= '9' {
        sum := Wrap(16 * sum + (Code(c) - Code('0')));
      } else if 'a' <= c <= 'f' {
        sum := Wrap(16 * sum + 10 + (Code(c) - Code('a')));
      } else {
        return false, 0;
      }
      p := p + 1;
    }
    assert body[..p - start] == body;
    WrapNegated(Value(16, body));
    ok := true;
    r := if negative then Wrap(0 - sum) else sum;
  }

  // ----- reading back what was printed

  lemma DigitIsDigit(b: nat, d: nat)
    requires (b == 10 || b == 16) && d < b
    ensures DigitValue(b, Digit(d)) == d && HexDigit(Digit(d)) && Digit(d) != '\0' && Digit(d) != '-' && Digit(d) != '.'
  {
  }

  /** The numeral of `n` is read as `n`, through sums that never exceed `n`; all its characters are digits. */
  lemma {:induction false} NumeralValue(b: nat, n: nat)
    requires b == 10 || b == 16
    ensures Value(b, Numeral(b, n)) == n && |Numeral(b, n)| > 0
    ensures forall k :: 0 <= k <= |Numeral(b, n)| ==> 0 <= Value(b, Numeral(b, n)[..k]) <= n
    ensures forall i :: 0 <= i < |Numeral(b, n)| ==> HexDigit(Numeral(b, n)[i])
    ensures '\0' !in Numeral(b, n) && '-' !in Numeral(b, n) && '.' !in Numeral(b, n)
    decreases n
  {
    hide Digit, DigitValue, HexDigit;
    var s := Numeral(b, n);
    var last, front := Mod(n, b), Div(n, b);
    Shrinks(n, b);
    Decompose(n, b);
    assert b * front + last == n;
    DigitIsDigit(b, last);
    assert Value(b, []) == 0;
    var init := s[..|s| - 1];
    if n < b {
      assert init == [] && s[|s| - 1] == Digit(last);
    } else {
      NumeralValue(b, front);
      assert init == Numeral(b, front) && s[|s| - 1] == Digit(last);
    }
    forall k | 0 <= k <= |s|
      ensures 0 <= Value(b, s[..k]) <= n
    {
      if k == |s| {
        assert s[..k] == s;
      } else {
        assert s[..k] == init[..k];
      }
    }
  }

  /** The text that `itoa` prints. */
  function ItoaText(n: i32): string { Printed(10, if n < 0 then n + 0x1_0000_0000 else n, 0, '\0', true) }

  lemma ItoaTextIs(n: i32)
    ensures ItoaText(n) == if n < 0 then ['-'] + Numeral(10, 0 - n) else Numeral(10, n)
  {
  }

  /**
   * `atoi` undoes `itoa` for every `int`. The sums stay within `int`, so that no overflow is involved, exactly when the
   * number is not the minimum.
   */
  lemma ItoaThenAtoi(n: i32)
    ensures Parsed(10, ItoaText(n)) == n && '\0' !in ItoaText(n)
    ensures NoOverflow(10, ItoaText(n)) <==> n != MIN_INT
  {
    hide Numeral, Value, ItoaText;
    ItoaTextIs(n);
    var m := if n < 0 then 0 - n else n;
    NumeralValue(10, m);
    var s := ItoaText(n);
    assert Unsigned(s) == Numeral(10, m);
    assert Unsigned(s)[..|Unsigned(s)|] == Unsigned(s);
  }

  /** `atoi_16` undoes hexadecimal printing below 2^31, and only there. */
  lemma HexThenAtoi(v: u32)
    ensures var s := Printed(16, v, 0, '\0', false);
            && '\0' !in s && (forall i :: 0 <= i < |Unsigned(s)| ==> HexDigit(Unsigned(s)[i]))
            && Parsed(16, s) == Wrap(v) && (Parsed(16, s) == v <==> v < 0x8000_0000)
            && (NoOverflow(16, s) <==> v < 0x8000_0000)
  {
    hide Numeral, Value, HexDigit;
    NumeralValue(16, v);
    var s := Printed(16, v, 0, '\0', false);
    assert Filler('\0', 0 - |Numeral(16, v)|) == [];
    assert s == Numeral(16, v) && Unsigned(s) == s;
    assert s[..|s|] == s;
  }
}
