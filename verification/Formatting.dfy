/** Formatted printing with a format string, and the buffers it prints into. */
module Formatting {
  import opened Options
  import opened Text
  import opened Parsing

  /** An argument; signed integers are passed as their 32-bit pattern. */
  datatype Arg = Int(value: u32) | Str(s: string)

  /** Characters and the reported count; `Fails` is a failed assertion, `Undefined` an argument of another kind or missing. */
  datatype Output = Text(text: string, count: int) | Fails | Undefined

  predicate IsDigit(c: char) { '0' <= c <= '9' }

  /** Fill information stands between the percent sign and the specifier. */
  predicate IsFill(c: char) { IsDigit(c) || c == '.' }

  function FillEnd(s: string, i: nat): (k: nat)
    requires i <= |s|
    ensures i <= k <= |s| && (forall j :: i <= j < k ==> IsFill(s[j])) && (k < |s| ==> !IsFill(s[k]))
    decreases |s| - i
  {
    if i == |s| || !IsFill(s[i]) then i else FillEnd(s, i + 1)
  }

  function LeadingDigits(s: string): (n: nat)
    ensures n <= |s| && (forall j :: 0 <= j < n ==> IsDigit(s[j])) && (n < |s| ==> !IsDigit(s[n]))
  {
    if s == [] || !IsDigit(s[0]) then 0 else 1 + LeadingDigits(s[1..])
  }

  datatype Fill = Fill(minChars: int, c: char)

  const MAX_FILL_DIGITS: nat := 14

  /** `get_fill_data`: zeros after a dot or a leading zero, spaces otherwise; `None` when there are too many digits. */
  function FillData(seg: string): Option<Fill> {
    if seg == [] || !IsFill(seg[0]) then Some(Fill(0, '\0'))
    else
      var rest := if seg[0] == '.' || seg[0] == '0' then seg[1..] else seg;
      var n := LeadingDigits(rest);
      if n > MAX_FILL_DIGITS then None
      else Some(Fill(Parsed(10, rest[..n]), if seg[0] == '.' || seg[0] == '0' then '0' else ' '))
  }

  /** The count that `print_int` reports. */
  function PrintedCount(b: nat, value: u32, signed: bool): nat
    requires 2 <= b <= 16
  {
    (if Negative(value, signed) then 1 else 0) + |Numeral(b, Magnitude32(value, signed))|
  }

  function Number(b: nat, signed: bool, seg: string, args: seq<Arg>): Output
    requires 2 <= b <= 16
  {
    match FillData(seg)
    case None => Fails
    case Some(f) =>
      if args == [] || !args[0].Int? then Undefined
      else Text(Printed(b, args[0].value, f.minChars, f.c, signed), PrintedCount(b, args[0].value, signed))
  }

  /** What the specifier `c` prints, with `seg` between it and the percent sign. */
  function Directive(c: char, seg: string, args: seq<Arg>): Output {
    if c == '%' then Text("%", 1)
    else if c == 'd' || c == 'i' then Number(10, true, seg, args)
    else if c == 'x' then Number(16, false, seg, args)
    else if c != 'p' && c != 's' && c != 'c' then Fails
    else if args == [] then Undefined
    else if c == 'p' && args[0].Int? then
      Text("0x" + Printed(16, args[0].value, 0, '\0', false), 2 + PrintedCount(16, args[0].value, false))
    else if c == 's' && args[0].Str? then Text(args[0].s, |args[0].s|)
    else if c == 'c' && args[0].Int? then Text([(args[0].value % 0x100) as char], 1)
    else Undefined
  }

  function Rest(c: char, args: seq<Arg>): seq<Arg> { if c == '%' || args == [] then args else args[1..] }

  function Prepend(text: string, count: int, o: Output): Output {
    if o.Text? then Text(text + o.text, count + o.count) else o
  }

  /** What a format prints. A percent sign at the very end stands for itself. */
  function Formatted(fmt: string, args: seq<Arg>): Output
    decreases |fmt|
  {
    if fmt == [] then Text([], 0)
    else if fmt[0] == '%' && |fmt| > 1 then
      var k := FillEnd(fmt, 1);
      if k == |fmt| then Fails
      else
        var o := Directive(fmt[k], fmt[1..k], args);
        if o.Text? then Prepend(o.text, o.count, Formatted(fmt[k + 1..], Rest(fmt[k], args))) else o
    else Prepend([fmt[0]], 1, Formatted(fmt[1..], args))
  }

  lemma PrependTwice(a: string, m: int, b: string, n: int, o: Output)
    ensures Prepend(a, m, Prepend(b, n, o)) == Prepend(a + b, m + n, o)
  {
    if o.Text? { assert a + (b + o.text) == a + b + o.text; }
  }

  // ----- the loops

  /** `get_fill_data`: back to the percent sign, then forward over the digits. */
  method GetFillData(fmt: string, at: nat, ghost start: nat) returns (f: Option<Fill>)
    requires start < at < |fmt| && fmt[start] == '%' && (forall j :: start < j < at ==> IsFill(fmt[j]))
    requires !IsFill(fmt[at]) && fmt[at] != '%'
    ensures f == FillData(fmt[start + 1..at])
  {
    hide LeadingDigits, Parsed;
    var p := at;
    while fmt[p] != '%'
      invariant start <= p <= at
      decreases p
    {
      p := p - 1;
    }
    p := p + 1;
    ghost var seg := fmt[start + 1..at];
    assert p < at ==> fmt[p] == seg[0];
    if fmt[p] != '.' && !IsDigit(fmt[p]) {
      return Some(Fill(0, '\0'));
    }
    var c := if fmt[p] == '.' || fmt[p] == '0' then '0' else ' ';
    if fmt[p] == '.' || fmt[p] == '0' {
      p := p + 1;
    }
    assert fmt[p..at] == if c == '0' then seg[1..] else seg;
    var ok, n := ReadNumber(fmt, p, at);
    f := if ok then Some(Fill(n, c)) else None;
  }

  /** The digits at `p`, at most fourteen of them, as a number. */
  method ReadNumber(fmt: string, p: nat, ghost at: nat) returns (ok: bool, n: i32)
    requires p <= at < |fmt| && !IsDigit(fmt[at])
    ensures ok == (LeadingDigits(fmt[p..at]) <= MAX_FILL_DIGITS)
    ensures ok ==> n == Parsed(10, fmt[p..at][..LeadingDigits(fmt[p..at])])
  {
    hide Parsed;
    ghost var rest := fmt[p..at];
    var number: string, i := [], 0;
    while IsDigit(fmt[p + i])
      invariant p + i <= at && i <= LeadingDigits(rest) && i <= MAX_FILL_DIGITS && number == rest[..i]
      decreases at - i
    {
      assert fmt[p + i] == rest[i];
      if i >= MAX_FILL_DIGITS {
        return false, 0;
      }
      number, i := number + [fmt[p + i]], i + 1;
    }
    assert p + i < at ==> fmt[p + i] == rest[i];
    assert i == LeadingDigits(rest);
    NoNulInDigits(number);
    assert number + ['\0'] + [] == number + ['\0'];
    CStringOf(number, []);
    n := Atoi10(number + ['\0']);
    ok := true;
  }

  lemma NoNulInDigits(s: string)
    requires forall j :: 0 <= j < |s| ==> IsDigit(s[j])
    ensures '\0' !in s
  {
  }

  /** `printf_internal`: the emitted characters and the reported count; fails where an assertion does. */
  method Printf(fmt: string, args: seq<Arg>) returns (ok: bool, out: string, ret: int)
    requires Formatted(fmt, args) != Undefined
    ensures ok == Formatted(fmt, args).Text?
    ensures ok ==> Formatted(fmt, args) == Text(out, ret)
  {
    hide Formatted, Rest;
    out, ret, ok := [], 0, true;
    var i, used := 0, args;
    assert fmt[0..] == fmt;
    PrependNothing(Formatted(fmt, args));
    while i < |fmt|
      invariant 0 <= i <= |fmt| && Prepend(out, ret, Formatted(fmt[i..], used)) == Formatted(fmt, args)
    {
      var text, count, next, left;
      ok, text, count, next, left := PrintOne(fmt, i, used);
      if !ok {
        return;
      }
      PrependTwice(out, ret, text, count, Formatted(fmt[next..], left));
      out, ret, i, used := out + text, ret + count, next, left;
    }
    FormattedNothing(fmt[i..], used);
    assert out + [] == out;
  }

  lemma FormattedNothing(s: string, args: seq<Arg>)
    ensures s == [] ==> Formatted(s, args) == Text([], 0)
  {
  }

  lemma FormattedFirst(s: string, args: seq<Arg>)
    requires s != []
    ensures s[0] != '%' || |s| == 1 ==> Formatted(s, args) == Prepend([s[0]], 1, Formatted(s[1..], args))
    ensures s[0] == '%' && |s| > 1 ==>
              var k := FillEnd(s, 1);
              && (k == |s| ==> Formatted(s, args) == Fails)
              && (k < |s| ==>
                    var o := Directive(s[k], s[1..k], args);
                    Formatted(s, args) == if o.Text? then Prepend(o.text, o.count, Formatted(s[k + 1..], Rest(s[k], args))) else o)
  {
    hide Directive, Prepend, Rest;
  }

  /** One character or directive at position `i`. */
  method PrintOne(fmt: string, i: nat, args: seq<Arg>) returns (ok: bool, text: string, count: int, next: nat, left: seq<Arg>)
    requires i < |fmt| && Formatted(fmt[i..], args) != Undefined
    ensures ok ==> i < next <= |fmt| && Formatted(fmt[i..], args) == Prepend(text, count, Formatted(fmt[next..], left))
    ensures !ok ==> Formatted(fmt[i..], args) == Fails
  {
    hide Directive, Formatted, Prepend, FillEnd, Rest;
    ghost var s := fmt[i..];
    assert s[0] == fmt[i] && s[1..] == fmt[i + 1..];
    FormattedFirst(s, args);
    ok, text, count, next, left := true, [fmt[i]], 1, i + 1, args;
    if fmt[i] == '%' && i + 1 < |fmt| {
      var k := SkipFill(fmt, i);
      if k == |fmt| {
        ok := false;
        return;
      }
      assert s[k - i] == fmt[k] && s[1..k - i] == fmt[i + 1..k] && s[k - i + 1..] == fmt[k + 1..];
      ok, text, count := PrintDirective(fmt, k, args, i);
      next, left := k + 1, Rest(fmt[k], args);
    }
  }

  /** The end of the digits and dots behind the percent sign at `i`. */
  method SkipFill(fmt: string, i: nat) returns (k: nat)
    requires i + 1 < |fmt|
    ensures i < k <= |fmt| && FillEnd(fmt[i..], 1) == k - i
    ensures forall j :: i < j < k ==> IsFill(fmt[j])
    ensures k < |fmt| ==> !IsFill(fmt[k])
  {
    k := i + 1;
    while k < |fmt| && IsFill(fmt[k])
      invariant i + 1 <= k <= |fmt| && forall j :: i < j < k ==> IsFill(fmt[j])
    {
      k := k + 1;
    }
    ghost var s := fmt[i..];
    assert forall j :: 0 <= j < |s| ==> s[j] == fmt[i + j];
    FillEndIs(s, 1, k - i);
  }

  lemma PrependNothing(o: Output)
    ensures Prepend([], 0, o) == o
  {
    if o.Text? { assert [] + o.text == o.text; }
  }

  lemma {:induction false} FillEndIs(s: string, i: nat, k: nat)
    requires i <= k <= |s| && (forall j :: i <= j < k ==> IsFill(s[j])) && (k < |s| ==> !IsFill(s[k]))
    ensures FillEnd(s, i) == k
    decreases k - i
  {
    if i < k { FillEndIs(s, i + 1, k); }
  }

  /** The switch over the specifier at position `at`; the percent sign is at `start`. */
  method PrintDirective(fmt: string, at: nat, args: seq<Arg>, ghost start: nat) returns (ok: bool, text: string, count: int)
    requires start < at < |fmt| && fmt[start] == '%' && (forall j :: start < j < at ==> IsFill(fmt[j])) && !IsFill(fmt[at])
    requires Directive(fmt[at], fmt[start + 1..at], args) != Undefined
    ensures ok == Directive(fmt[at], fmt[start + 1..at], args).Text?
    ensures ok ==> Directive(fmt[at], fmt[start + 1..at], args) == Text(text, count)
  {
    hide FillData, Printed, Numeral;
    ok, text, count := true, [], 0;
    var c := fmt[at];
    if c == 'd' || c == 'i' || c == 'x' {
      var f := GetFillData(fmt, at, start);
      if f.None? {
        return false, text, count;
      }
      text, count := PrintInt(if c == 'x' then 16 else 10, args[0].value, f.value.minChars, f.value.c, c != 'x');
    } else if c == 'p' {
      text, count := PrintInt(16, args[0].value, 0, '\0', false);
      text, count := "0x" + text, 2 + count;
    } else if c == 's' {
      text, count := args[0].s, |args[0].s|;
    } else if c == 'c' {
      text, count := [(args[0].value % 0x100) as char], 1;
    } else if c == '%' {
      text, count := "%", 1;
    } else {
      ok := false;
    }
  }

  // ----- single formats

  /** A signed argument. */
  function Signed(n: i32): Arg { Int(if n < 0 then n + 0x1_0000_0000 else n) }

  /** `%d` prints what `itoa` does, and the count is its length. */
  lemma DecimalFormat(n: i32)
    ensures Formatted("%d", [Signed(n)]) == Text(ItoaText(n), |ItoaText(n)|)
  {
    hide Numeral, Directive, ItoaText;
    DecimalThen(n, [], []);
    assert "%d" + [] == "%d" && [Signed(n)] + [] == [Signed(n)];
    assert ItoaText(n) + [] == ItoaText(n);
  }

  /** `%d` at the front prints the number and goes on with the rest. */
  lemma DecimalThen(n: i32, rest: string, args: seq<Arg>)
    ensures Formatted("%d" + rest, [Signed(n)] + args) == Prepend(ItoaText(n), |ItoaText(n)|, Formatted(rest, args))
  {
    hide Numeral;
    var fmt, all := "%d" + rest, [Signed(n)] + args;
    assert fmt[1] == 'd' && FillEnd(fmt, 1) == 1;
    assert fmt[1..1] == [] && fmt[2..] == rest && all[1..] == args && all[0] == Signed(n);
    ItoaTextIs(n);
    DecimalDirective(n, all);
  }

  lemma DecimalDirective(n: i32, args: seq<Arg>)
    requires args != [] && args[0] == Signed(n)
    ensures Directive('d', [], args) == Text(ItoaText(n), |ItoaText(n)|)
  {
    hide Numeral;
    ItoaTextIs(n);
  }

  /** Any other character stands for itself. */
  lemma CharacterThen(c: char, rest: string, args: seq<Arg>)
    requires c != '%'
    ensures Formatted([c] + rest, args) == Prepend([c], 1, Formatted(rest, args))
  {
    assert ([c] + rest)[1..] == rest;
  }

  // ----- bounded buffers

  /** `itoa`: text and terminator when they fit; otherwise the part that fits, without terminator, and 0. */
  method Itoa(num: i32, out: array<char>) returns (rc: nat)
    modifies out
    ensures var text := ItoaText(num);
            if |text| < out.Length
            then rc == |text| && out[..] == text + ['\0'] + old(out[|text| + 1..])
            else rc == 0 && out[..] == text[..out.Length]
    ensures |ItoaText(num)| < out.Length ==> CString(out[..]) == ItoaText(num) && Parsed(10, CString(out[..])) == num
  {
    hide Numeral, CString, Value, Parsed, NoOverflow, Formatted, ItoaText;
    DecimalFormat(num);
    var ok, text, count := Printf("%d", [Signed(num)]);
    ItoaTextIs(num);
    ItoaThenAtoi(num);
    var n := PutAll(out, text);
    if n >= out.Length {
      return 0;
    }
    Terminate(out, text);
    CStringOf(text, old(out[|text| + 1..]));
    rc := count;
  }

  /** The terminator goes behind the text that is already in the buffer. */
  method Terminate(out: array<char>, text: string)
    requires |text| < out.Length && out[..|text|] == text
    modifies out
    ensures out[..] == text + ['\0'] + old(out[|text| + 1..])
  {
    out[|text|] := '\0';
  }

  /** The closure of `itoa`: characters beyond the buffer are dropped. */
  method PutAll(out: array<char>, text: string) returns (n: nat)
    modifies out
    ensures n == if |text| < out.Length then |text| else out.Length
    ensures out[..] == text[..n] + old(out[n..])
  {
    n := 0;
    var i := 0;
    while i < |text|
      invariant 0 <= i <= |text| && n == (if i < out.Length then i else out.Length)
      invariant forall k :: 0 <= k < n ==> out[k] == text[k]
      invariant forall k :: n <= k < out.Length ==> out[k] == old(out[k])
    {
      if n < out.Length {
        out[n] := text[i];
        n := n + 1;
      }
      i := i + 1;
    }
  }

  /**
   * `vsnprintf_impl`: the buffer holds as much of the formatted text as fits before a terminator, and the full length is
   * returned.
   */
  method Snprintf(str: array<char>, fmt: string, args: seq<Arg>) returns (ok: bool, n: nat)
    requires Formatted(fmt, args) != Undefined
    modifies str
    ensures ok == Formatted(fmt, args).Text?
    ensures ok ==> Bounded(old(str[..]), str[..], Formatted(fmt, args).text) && n == |Formatted(fmt, args).text|
  {
    var text, count;
    ok, text, count := Printf(fmt, args);
    n := 0;
    if ok {
      n := PrintBounded(str, text);
    }
  }

  /** How a bounded print of `text` changes a buffer. */
  predicate Bounded(was: string, now: string, text: string) {
    if |text| < |was| then now == text + ['\0'] + was[|text| + 1..]
    else if |was| > 0 then now == text[..|was| - 1] + ['\0'] else now == was
  }

  /** The text, cut to leave room for a terminator, is what the buffer holds as a C string. */
  lemma BoundedString(was: string, now: string, text: string)
    requires Bounded(was, now, text) && '\0' !in text && |was| > 0
    ensures |now| == |was| && CString(now) == if |text| < |was| then text else text[..|was| - 1]
  {
    hide CString;
    if |text| < |was| {
      CStringOf(text, was[|text| + 1..]);
    } else {
      CStringOf(text[..|was| - 1], []);
      assert text[..|was| - 1] + ['\0'] + [] == now;
    }
  }

  method PrintBounded(str: array<char>, text: string) returns (n: nat)
    modifies str
    ensures n == |text| && Bounded(old(str[..]), str[..], text)
  {
    n := 0;
    while n < |text|
      invariant 0 <= n <= |text|
      invariant forall k :: 0 <= k < n && k < str.Length ==> str[k] == text[k]
      invariant forall k :: n <= k < str.Length ==> str[k] == old(str[k])
    {
      if n < str.Length {
        str[n] := text[n];
      }
      n := n + 1;
    }
    if n < str.Length {
      str[n] := '\0';
    } else if str.Length > 0 {
      str[str.Length - 1] := '\0';
    }
  }
}
