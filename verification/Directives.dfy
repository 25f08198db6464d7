/** What each directive of a format string prints, said on the characters. */
module Directives {
  import opened Options
  import opened Text
  import opened Parsing
  import opened Formatting

  // ----- numbers

  /** Digits of the base without leading zeros, whose value is `n`. */
  predicate IsNumeral(b: nat, n: nat, t: string) {
    && t != [] && (|t| > 1 ==> t[0] != '0')
    && (forall i :: 0 <= i < |t| ==> '0' <= t[i] <= '9' || (b == 16 && 'a' <= t[i] <= 'f'))
    && Value(b, t) == n
  }

  lemma DigitShape(b: nat, d: nat)
    requires (b == 10 || b == 16) && d < b
    ensures var c := Digit(d); ('0' <= c <= '9' || (b == 16 && 'a' <= c <= 'f')) && (d > 0 ==> c != '0')
  {
  }

  lemma {:induction false} NumeralDigits(b: nat, n: nat)
    requires b == 10 || b == 16
    ensures var t := Numeral(b, n);
            && t != [] && (n > 0 ==> t[0] != '0') && (n == 0 ==> |t| == 1)
            && forall i :: 0 <= i < |t| ==> '0' <= t[i] <= '9' || (b == 16 && 'a' <= t[i] <= 'f')
    decreases n
  {
    hide Mul, Div, Mod, Digit;
    Shrinks(n, b);
    Decompose(n, b);
    DigitShape(b, Mod(n, b));
    if n >= b {
      TimesNothing(b);
      NumeralDigits(b, Div(n, b));
    }
  }

  lemma NumeralIs(b: nat, n: nat)
    requires b == 10 || b == 16
    ensures IsNumeral(b, n, Numeral(b, n))
  {
    hide Numeral, Value;
    NumeralDigits(b, n);
    NumeralValue(b, n);
  }

  /** The integer that an argument stands for. */
  function Meant(value: u32, signed: bool): int {
    if signed && value >= 0x8000_0000 then value - 0x1_0000_0000 else value
  }

  /** The number in base `b`, filled up to `width` digits: the sign, then the filler, then the digits. */
  predicate Filled(b: nat, n: int, width: int, fill: char, filler: string, digits: string) {
    && IsNumeral(b, if n < 0 then -n else n, digits)
    && |filler| == (if n != 0 && width > |digits| then width - |digits| else 0)
    && (forall i :: 0 <= i < |filler| ==> filler[i] == fill)
  }

  function Sign(n: int): string { if n < 0 then "-" else "" }

  /** `t` shows the number so; the reported count leaves the filler out. Zero is never filled up. */
  ghost predicate ShowsNumber(b: nat, n: int, width: int, fill: char, t: string, count: nat) {
    exists filler: string, digits: string ::
      Filled(b, n, width, fill, filler, digits) && t == Sign(n) + filler + digits && count == |Sign(n)| + |digits|
  }

  /** What `print_int` fills in. */
  function FillerOf(b: nat, value: u32, width: int, fill: char, signed: bool): string
    requires 2 <= b <= 16
  {
    if value == 0 then [] else Filler(fill, width - |Numeral(b, Magnitude32(value, signed))|)
  }

  lemma PrintedParts(b: nat, value: u32, width: int, fill: char, signed: bool)
    requires b == 10 || b == 16
    ensures Printed(b, value, width, fill, signed)
            == Sign(Meant(value, signed)) + FillerOf(b, value, width, fill, signed) + Numeral(b, Magnitude32(value, signed))
    ensures PrintedCount(b, value, signed) == |Sign(Meant(value, signed))| + |Numeral(b, Magnitude32(value, signed))|
  {
    hide Numeral, Filler;
    assert value == 0 ==> "" + [] + Numeral(b, 0) == Numeral(b, 0);
  }

  lemma NumberShown(b: nat, value: u32, width: int, fill: char, signed: bool)
    requires b == 10 || b == 16
    ensures ShowsNumber(b, Meant(value, signed), width, fill, Printed(b, value, width, fill, signed), PrintedCount(b, value, signed))
  {
    hide Numeral, IsNumeral, Printed, PrintedCount, Sign;
    var digits, filler := Numeral(b, Magnitude32(value, signed)), FillerOf(b, value, width, fill, signed);
    NumeralIs(b, Magnitude32(value, signed));
    PrintedParts(b, value, width, fill, signed);
    assert Filled(b, Meant(value, signed), width, fill, filler, digits);
  }

  // ----- width and filler

  predicate AllDecimal(w: string) { forall i :: 0 <= i < |w| ==> '0' <= w[i] <= '9' }

  lemma {:induction false} LeadingDigitsAre(w: string, tail: string)
    requires AllDecimal(w) && (tail != [] ==> !IsDigit(tail[0]))
    ensures LeadingDigits(w + tail) == |w|
  {
    if w == [] {
      assert w + tail == tail;
    } else {
      assert (w + tail)[1..] == w[1..] + tail;
      LeadingDigitsAre(w[1..], tail);
    }
  }

  /** Fill information taken apart: a width without leading zero, then, ignored, what follows from the next dot on. */
  lemma SpaceFill(w: string, tail: string)
    requires AllDecimal(w) && (tail != [] ==> tail[0] == '.') && w != [] && w[0] != '0'
    ensures FillData(w + tail) == if |w| > 14 then None else Some(Fill(Parsed(10, w), ' '))
    ensures FillData([]) == Some(Fill(0, '\0'))
  {
    hide LeadingDigits, Parsed;
    LeadingDigitsAre(w, tail);
    assert (w + tail)[0] == w[0] && (w + tail)[..|w|] == w;
  }

  /** A dot or a zero in front, then the width: the filler is '0'. More than fourteen further digits fail. */
  lemma ZeroFill(lead: char, w: string, tail: string)
    requires AllDecimal(w) && (tail != [] ==> tail[0] == '.') && (lead == '0' || lead == '.')
    ensures FillData([lead] + w + tail) == if |w| > 14 then None else Some(Fill(Parsed(10, w), '0'))
  {
    hide LeadingDigits, Parsed;
    LeadingDigitsAre(w, tail);
    var seg := [lead] + w + tail;
    assert seg[0] == lead && seg[1..] == w + tail && (w + tail)[..|w|] == w;
  }

  // ----- directives

  function Directed(seg: string, c: char, rest: string): string { "%" + seg + [c] + rest }

  /** Formatting goes through the directive at the front. */
  lemma FirstDirective(seg: string, c: char, rest: string, args: seq<Arg>)
    requires (forall i :: 0 <= i < |seg| ==> IsFill(seg[i])) && !IsFill(c)
    ensures var o := Directive(c, seg, args);
            Formatted(Directed(seg, c, rest), args) == if o.Text? then Prepend(o.text, o.count, Formatted(rest, Rest(c, args))) else o
  {
    hide Directive, Prepend, Rest, FillEnd;
    var s, k := Directed(seg, c, rest), |seg| + 1;
    assert s[0] == '%' && s[k] == c && s[1..k] == seg && s[k + 1..] == rest;
    FillEndIs(s, 1, k);
  }

  /** `%d`, `%i` and `%x`: the number in base 10 with its sign or in base 16 without, filled as asked. */
  lemma NumberThen(seg: string, c: char, rest: string, value: u32, args: seq<Arg>)
    requires (forall i :: 0 <= i < |seg| ==> IsFill(seg[i])) && c in {'d', 'i', 'x'}
    ensures var r := Formatted(Directed(seg, c, rest), [Int(value)] + args);
            match FillData(seg)
            case None => r == Fails
            case Some(f) =>
              var b, signed := if c == 'x' then 16 else 10, c != 'x';
              exists t, count: nat :: ShowsNumber(b, Meant(value, signed), f.minChars, f.c, t, count)
                                      && r == Prepend(t, count, Formatted(rest, args))
  {
    hide Formatted, Prepend, FillData, Printed, PrintedCount, ShowsNumber;
    var all := [Int(value)] + args;
    assert all[0] == Int(value) && all[1..] == args;
    FirstDirective(seg, c, rest, all);
    var b, signed := if c == 'x' then 16 else 10, c != 'x';
    if FillData(seg).Some? {
      var f := FillData(seg).value;
      NumberShown(b, value, f.minChars, f.c, signed);
    }
  }

  /** `%p`: a hexadecimal numeral behind "0x", whatever the fill information. */
  lemma PointerThen(seg: string, rest: string, value: u32, args: seq<Arg>)
    requires forall i :: 0 <= i < |seg| ==> IsFill(seg[i])
    ensures exists t :: IsNumeral(16, value, t)
                        && Formatted(Directed(seg, 'p', rest), [Int(value)] + args)
                           == Prepend("0x" + t, 2 + |t|, Formatted(rest, args))
  {
    hide Formatted, Prepend, Numeral, IsNumeral;
    var all := [Int(value)] + args;
    assert all[0] == Int(value) && all[1..] == args;
    FirstDirective(seg, 'p', rest, all);
    NumeralIs(16, value);
    assert Filler('\0', 0 - |Numeral(16, value)|) == [];
    assert Printed(16, value, 0, '\0', false) == Numeral(16, value);
  }

  /** `%s`, `%c` and `%%`: the string, the character with the code's low byte, and a percent sign that uses no argument. */
  lemma TextThen(seg: string, rest: string, s: string, value: u32, args: seq<Arg>)
    requires forall i :: 0 <= i < |seg| ==> IsFill(seg[i])
    ensures Formatted(Directed(seg, 's', rest), [Str(s)] + args) == Prepend(s, |s|, Formatted(rest, args))
    ensures Formatted(Directed(seg, 'c', rest), [Int(value)] + args) == Prepend([(value % 256) as char], 1, Formatted(rest, args))
    ensures Formatted(Directed(seg, '%', rest), args) == Prepend("%", 1, Formatted(rest, args))
  {
    hide Formatted, Prepend;
    assert ([Str(s)] + args)[1..] == args && ([Int(value)] + args)[1..] == args;
    FirstDirective(seg, 's', rest, [Str(s)] + args);
    FirstDirective(seg, 'c', rest, [Int(value)] + args);
    FirstDirective(seg, '%', rest, args);
  }

  /** Any other specifier fails, as does a format that ends before one; a percent sign at the end stands for itself. */
  lemma OthersFail(seg: string, c: char, rest: string, args: seq<Arg>)
    requires (forall i :: 0 <= i < |seg| ==> IsFill(seg[i])) && !IsFill(c) && c !in {'d', 'i', 'x', 'p', 's', 'c', '%'}
    ensures Formatted(Directed(seg, c, rest), args) == Fails
    ensures Formatted("%" + seg, args) == if seg == [] then Text("%", 1) else Fails
  {
    FirstDirective(seg, c, rest, args);
    FillEndIs("%" + seg, 1, |seg| + 1);
    assert ("%")[1..] == [];
  }
}
