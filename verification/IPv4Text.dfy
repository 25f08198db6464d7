/** IPv4 addresses as text and as 32-bit numbers. */
module IPv4Text {
  import opened Options
  import opened Bytes
  import opened Text
  import opened Parsing
  import opened Formatting

  type Address = a: seq<u8> | |a| == 4 witness [0, 0, 0, 0]

  // ----- 32-bit numbers

  /** `to_u32`: the shifted octets occupy different bits, so that joining them is adding. */
  function ToU32(a: Address): u32 {
    var b0: int, b1: int, b2: int, b3: int := a[0], a[1], a[2], a[3];
    0x100_0000 * b0 + 0x1_0000 * b1 + 0x100 * b2 + b3
  }

  function FromU32(x: u32): Address {
    [x / 0x100_0000, x / 0x1_0000 % 0x100, x / 0x100 % 0x100, x % 0x100]
  }

  lemma FromNumber(x: u32)
    ensures ToU32(FromU32(x)) == x
  {
    var y := x / 0x100;
    assert x / 0x1_0000 == y / 0x100 && x / 0x100_0000 == y / 0x1_0000;
    assert x == 0x100 * y + x % 0x100 && y == 0x100 * (y / 0x100) + y % 0x100;
    assert y / 0x100 == 0x100 * (y / 0x1_0000) + y / 0x100 % 0x100;
  }

  lemma ToNumber(a: Address)
    ensures FromU32(ToU32(a)) == a
  {
    var b0: int, b1: int, b2: int, b3: int := a[0], a[1], a[2], a[3];
    var y := ToU32(a);
    assert y / 0x100 == 0x1_0000 * b0 + 0x100 * b1 + b2;
    assert y / 0x1_0000 == 0x100 * b0 + b1;
    assert y / 0x100_0000 == b0;
    assert FromU32(y) == a;
  }

  /** The octets of `a` come before those of `b`, compared from the first on. */
  predicate Before(a: Address, b: Address) {
    || a[0] < b[0]
    || (a[0] == b[0] && a[1] < b[1])
    || (a[0] == b[0] && a[1] == b[1] && a[2] < b[2])
    || (a[0] == b[0] && a[1] == b[1] && a[2] == b[2] && a[3] < b[3])
  }

  /** Numbers are ordered like addresses: the first octet is the most significant. */
  lemma NumberOrder(a: Address, b: Address)
    ensures ToU32(a) < ToU32(b) <==> Before(a, b)
  {
    var a0: int, a1: int, a2: int, a3: int := a[0], a[1], a[2], a[3];
    var b0: int, b1: int, b2: int, b3: int := b[0], b[1], b[2], b[3];
    assert ToU32(a) == 0x100 * (0x100 * (0x100 * a0 + a1) + a2) + a3;
    assert ToU32(b) == 0x100 * (0x100 * (0x100 * b0 + b1) + b2) + b3;
  }

  // ----- text

  function Octet(n: u8): string { ItoaText(n) }

  /** `to_string`: the format is four decimal numbers with dots between them. */
  function AddressText(a: Address): string {
    Octet(a[0]) + "." + Octet(a[1]) + "." + Octet(a[2]) + "." + Octet(a[3])
  }

  /** An octet takes at most three characters, none of which is a dot. */
  lemma OctetText(n: u8)
    ensures 1 <= |Octet(n)| <= 3 && '.' !in Octet(n) && '\0' !in Octet(n)
    ensures Parsed(10, CString(Octet(n))) == n
  {
    hide Numeral, Value, Parsed, CString, NoOverflow;
    ItoaTextIs(n);
    ItoaThenAtoi(n);
    NumeralValue(10, n);
    NoNul(Octet(n));
    OctetLength(n);
  }

  lemma NoNul(s: string)
    requires '\0' !in s
    ensures CString(s) == s
  {
  }

  lemma OctetLength(n: nat)
    requires n < 1000
    ensures |Numeral(10, n)| <= 3
  {
    hide Digit;
    if n >= 10 {
      assert n / 10 < 100;
      if n / 10 >= 10 {
        assert n / 10 / 10 < 10;
        assert |Numeral(10, n / 10 / 10)| == 1;
      }
      assert |Numeral(10, n / 10)| <= 2;
    }
  }

  const FORMAT: string := "%d.%d.%d.%d"

  function Args(a: Address): seq<Arg> { [Signed(a[0]), Signed(a[1]), Signed(a[2]), Signed(a[3])] }

  /** The format prints the four numbers with dots between them. */
  lemma FormatPrints(a: Address)
    ensures Formatted(FORMAT, Args(a)) == Text(AddressText(a), |AddressText(a)|)
  {
    hide Formatted, Octet, Signed;
    var a1 := [Signed(a[1]), Signed(a[2]), Signed(a[3])];
    var a2, a3 := [Signed(a[2]), Signed(a[3])], [Signed(a[3])];
    assert Args(a) == [Signed(a[0])] + a1 && a1 == [Signed(a[1])] + a2 && a2 == [Signed(a[2])] + a3 && a3 == [Signed(a[3])] + [];
    OctetThen(a[3], [], []);
    DotOctetThen(a[3], [], []);
    DotOctetThen(a[2], ".%d", a3);
    DotOctetThen(a[1], ".%d.%d", a2);
    OctetThen(a[0], ".%d.%d.%d", a1);
    assert ".%d" + [] == ".%d" && ".%d" + ".%d" == ".%d.%d" && ".%d" + ".%d.%d" == ".%d.%d.%d";
    assert "%d" + ".%d.%d.%d" == FORMAT;
    NothingPrints();
    var t3 := "." + Octet(a[3]);
    var t2 := "." + Octet(a[2]) + t3;
    var t1 := "." + Octet(a[1]) + t2;
    assert t3 + [] == t3;
    assert Formatted(".%d", a3) == Text(t3, |t3|);
    assert Formatted(".%d.%d", a2) == Text(t2, |t2|);
    assert Formatted(".%d.%d.%d", a1) == Text(t1, |t1|);
    assert Octet(a[0]) + t1 == AddressText(a);
  }

  lemma OctetThen(n: u8, rest: string, args: seq<Arg>)
    ensures Formatted("%d" + rest, [Signed(n)] + args) == Prepend(Octet(n), |Octet(n)|, Formatted(rest, args))
  {
    DecimalThen(n, rest, args);
  }

  lemma DotOctetThen(n: u8, rest: string, args: seq<Arg>)
    ensures Formatted(".%d" + rest, [Signed(n)] + args)
            == Prepend("." + Octet(n), |"." + Octet(n)|, Formatted(rest, args))
  {
    hide Formatted, Octet, Signed;
    assert ".%d" + rest == ['.'] + ("%d" + rest);
    CharacterThen('.', "%d" + rest, [Signed(n)] + args);
    OctetThen(n, rest, args);
    PrependTwice(".", 1, Octet(n), |Octet(n)|, Formatted(rest, args));
  }

  lemma NothingPrints()
    ensures Formatted([], []) == Text([], 0)
  {
  }

  /** The text always fits the buffer of 20 characters, terminator included. */
  method ToString(a: Address) returns (text: string)
    ensures text == AddressText(a)
  {
    hide Octet, Formatted;
    var buff := new char[20](_ => '\0');
    ghost var was := buff[..];
    TextFits(a);
    FormatPrints(a);
    var ok, n := Snprintf(buff, FORMAT, Args(a));
    CStringOf(AddressText(a), was[|AddressText(a)| + 1..]);
    text := CString(buff[..]);
  }

  lemma TextFits(a: Address)
    ensures 7 <= |AddressText(a)| <= 15 && '\0' !in AddressText(a)
  {
    hide Octet;
    OctetText(a[0]);
    OctetText(a[1]);
    OctetText(a[2]);
    OctetText(a[3]);
  }

  // ----- parsing

  /** A piece between dots, read as a number; a piece may not be empty. */
  function PieceValue(p: string): Option<u8> {
    if p == [] then None
    else
      var v := Parsed(10, CString(p));
      if v < 0 || v > 255 then None else Some(v)
  }

  /** The loop of `from_string` from character `i` on, with the current piece and the octets so far. */
  function Scan(str: string, i: nat, current: string, octets: seq<u8>): Option<seq<u8>>
    requires i <= |str|
    decreases |str| - i
  {
    if i == |str| || |octets| >= 4 then (if i == |str| && |octets| == 4 then Some(octets) else None)
    else
      var c := str[i];
      var piece := if c != '.' then current + [c] else current;
      if c == '.' || i == |str| - 1 then
        match PieceValue(piece)
        case None => None
        case Some(v) => Scan(str, i + 1, [], octets + [v])
      else Scan(str, i + 1, piece, octets)
  }

  /** `from_string`: what it accepts and what it stores. */
  method FromString(str: string) returns (ok: bool, out: array<u8>)
    ensures fresh(out) && out.Length == 4
    ensures ok <==> Scan(str, 0, [], []).Some?
    ensures ok ==> out[..] == Scan(str, 0, [], []).value
  {
    hide Parsed, CString;
    out := new u8[4](_ => 0);
    var current, n, i := [], 0, 0;
    while i < |str| && n < 4
      invariant 0 <= i <= |str| && 0 <= n <= 4
      invariant Scan(str, i, current, out[..n]) == Scan(str, 0, [], [])
      decreases |str| - i
    {
      var c := str[i];
      if c != '.' {
        current := current + [c];
      }
      if c == '.' || i == |str| - 1 {
        if current == [] {
          return false, out;
        }
        EndsInNul(current);
        var octet: i32 := Atoi10(current + ['\0']);
        if octet < 0 || octet > 255 {
          return false, out;
        }
        ghost var before := out[..n];
        out[n] := octet;
        n := n + 1;
        assert out[..n] == before + [octet];
        current := [];
      }
      i := i + 1;
    }
    ok := i == |str| && n == 4;
    assert out[..4] == out[..];
  }

  /** Appending a terminator does not change the string that is read. */
  lemma {:induction false} EndsInNul(p: string)
    ensures CString(p + ['\0']) == CString(p)
  {
    if p != [] && p[0] != '\0' {
      assert (p + ['\0'])[1..] == p[1..] + ['\0'];
      EndsInNul(p[1..]);
    }
  }

  /** The pieces between dots. */
  function Pieces(s: string): (r: seq<string>)
    ensures |r| > 0
  {
    if s == [] then [[]]
    else if s[0] == '.' then [[]] + Pieces(s[1..])
    else var r := Pieces(s[1..]); [[s[0]] + r[0]] + r[1..]
  }

  /** Exactly `k` pieces that are octets, and possibly one dot after the last. */
  predicate Accepted(ps: seq<string>, k: nat) {
    if k == 0 then ps == [] || ps == [[]] else ps != [] && PieceValue(ps[0]).Some? && Accepted(ps[1..], k - 1)
  }

  function Octets(ps: seq<string>, k: nat): seq<u8>
    requires Accepted(ps, k)
  {
    if k == 0 then [] else [PieceValue(ps[0]).value] + Octets(ps[1..], k - 1)
  }

  /** The pieces of the text still to come, the current piece in front. */
  function PiecesAfter(current: string, s: string): (r: seq<string>)
    ensures |r| > 0
  {
    var r := Pieces(s);
    [current + r[0]] + r[1..]
  }

  lemma AfterNothing(s: string)
    ensures PiecesAfter([], s) == Pieces(s)
  {
    hide Pieces;
    var r := Pieces(s);
    assert [] + r[0] == r[0] && [r[0]] + r[1..] == r;
  }

  lemma AfterEnd(p: string)
    ensures PiecesAfter(p, []) == [p]
  {
    assert p + [] == p;
  }

  lemma AfterDot(p: string, s: string)
    requires s != [] && s[0] == '.'
    ensures PiecesAfter(p, s) == [p] + Pieces(s[1..])
  {
    assert p + [] == p;
    assert Pieces(s)[1..] == Pieces(s[1..]);
  }

  lemma AfterCharacter(p: string, s: string)
    requires s != [] && s[0] != '.'
    ensures PiecesAfter(p, s) == PiecesAfter(p + [s[0]], s[1..])
  {
    var r := Pieces(s[1..]);
    assert p + ([s[0]] + r[0]) == (p + [s[0]]) + r[0];
    assert Pieces(s)[1..] == r[1..];
  }

  /** What the loop should return when the pieces `ps` are still to come. */
  function FromPieces(ps: seq<string>, octets: seq<u8>): Option<seq<u8>>
    requires |octets| <= 4
  {
    if Accepted(ps, 4 - |octets|) then Some(octets + Octets(ps, 4 - |octets|)) else None
  }

  lemma FromNoPieces(ps: seq<string>, octets: seq<u8>)
    requires |octets| <= 4 && (ps == [] || ps == [[]])
    ensures FromPieces(ps, octets) == if |octets| == 4 then Some(octets) else None
  {
    hide PieceValue;
    EmptyPiece();
    if |octets| == 4 {
      assert octets + Octets(ps, 0) == octets;
    } else if |ps| == 1 {
      assert PieceValue(ps[0]) == None;
    }
  }

  lemma FromOnePiece(p: string, rest: seq<string>, octets: seq<u8>)
    requires |octets| < 4
    ensures FromPieces([p] + rest, octets)
            == match PieceValue(p) case None => None case Some(v) => FromPieces(rest, octets + [v])
  {
    hide PieceValue, Accepted;
    var k := 4 - |octets|;
    AcceptedFirst(p, rest, k);
    if Accepted([p] + rest, k) {
      var v := PieceValue(p).value;
      assert octets + ([v] + Octets(rest, k - 1)) == (octets + [v]) + Octets(rest, k - 1);
    }
  }

  /** After four octets only the end of the text will do. */
  lemma FromTooMany(s: string, octets: seq<u8>)
    requires |octets| == 4 && s != []
    ensures FromPieces(Pieces(s), octets) == None
  {
  }

  /** The loop computes what the pieces say. */
  lemma {:induction false} ScanIsPieces(str: string, i: nat, current: string, octets: seq<u8>)
    requires i <= |str| && |octets| <= 4 && (i == |str| || |octets| == 4 ==> current == [])
    ensures Scan(str, i, current, octets) == FromPieces(PiecesAfter(current, str[i..]), octets)
    decreases |str| - i
  {
    hide PieceValue, FromPieces, PiecesAfter, Pieces;
    var s := str[i..];
    if i == |str| || |octets| == 4 {
      AfterNothing(s);
      if i == |str| {
        assert s == [];
        AfterEnd([]);
        FromNoPieces([[]], octets);
      } else {
        FromTooMany(s, octets);
      }
    } else {
      var c := str[i];
      assert s[0] == c && s[1..] == str[i + 1..];
      if c == '.' {
        AfterDot(current, s);
        AfterNothing(s[1..]);
        FromOnePiece(current, Pieces(s[1..]), octets);
        if PieceValue(current).Some? {
          ScanIsPieces(str, i + 1, [], octets + [PieceValue(current).value]);
        }
      } else if i == |str| - 1 {
        AfterCharacter(current, s);
        AfterEnd(current + [c]);
        assert [current + [c]] + [] == [current + [c]];
        FromOnePiece(current + [c], [], octets);
        if PieceValue(current + [c]).Some? {
          FromNoPieces([], octets + [PieceValue(current + [c]).value]);
        }
      } else {
        AfterCharacter(current, s);
        ScanIsPieces(str, i + 1, current + [c], octets);
      }
    }
  }

  lemma EmptyPiece()
    ensures PieceValue([]) == None
  {
  }

  lemma AcceptedFirst(p: string, rest: seq<string>, k: nat)
    requires k > 0
    ensures Accepted([p] + rest, k) <==> PieceValue(p).Some? && Accepted(rest, k - 1)
    ensures Accepted([p] + rest, k) ==> Octets([p] + rest, k) == [PieceValue(p).value] + Octets(rest, k - 1)
  {
    hide PieceValue;
    assert ([p] + rest)[0] == p && ([p] + rest)[1..] == rest;
  }

  lemma FourPieces(p0: string, p1: string, p2: string, p3: string)
    ensures var ps := [p0, p1, p2, p3];
            && (Accepted(ps, 4) <==> PieceValue(p0).Some? && PieceValue(p1).Some? && PieceValue(p2).Some? && PieceValue(p3).Some?)
            && (Accepted(ps, 4) ==>
                  Octets(ps, 4) == [PieceValue(p0).value, PieceValue(p1).value, PieceValue(p2).value, PieceValue(p3).value])
  {
    hide PieceValue, Accepted, Octets;
    assert [p0] + [p1, p2, p3] == [p0, p1, p2, p3] && [p1] + [p2, p3] == [p1, p2, p3];
    assert [p2] + [p3] == [p2, p3] && [p3] + [] == [p3];
    AcceptedFirst(p0, [p1, p2, p3], 4);
    AcceptedFirst(p1, [p2, p3], 3);
    AcceptedFirst(p2, [p3], 2);
    AcceptedFirst(p3, [], 1);
    NonePieces();
  }

  lemma NonePieces()
    ensures Accepted([], 0) && Octets([], 0) == []
  {
  }

  /**
   * What `from_string` accepts: four non-empty pieces between dots, each read as a number from 0 to 255, and possibly a
   * dot at the very end. It stores the four numbers.
   */
  lemma FromStringMeaning(str: string)
    ensures Scan(str, 0, [], [])
            == if Accepted(Pieces(str), 4) then Some(Octets(Pieces(str), 4)) else None
  {
    hide PieceValue, Scan, Pieces;
    ScanIsPieces(str, 0, [], []);
    assert str[0..] == str;
    AfterNothing(str);
    if Accepted(Pieces(str), 4) { assert [] + Octets(Pieces(str), 4) == Octets(Pieces(str), 4); }
  }

  /** Four pieces without dots, joined with dots, are the pieces of the result. */
  lemma {:induction false} PiecesOfJoin(p: string, rest: string)
    requires '.' !in p
    ensures Pieces(p + "." + rest) == [p] + Pieces(rest)
  {
    var s := p + "." + rest;
    if p == [] {
      assert s[0] == '.' && s[1..] == rest;
    } else {
      assert s[0] == p[0] && s[1..] == p[1..] + "." + rest;
      PiecesOfJoin(p[1..], rest);
      assert [p[0]] + p[1..] == p;
      assert ([p[1..]] + Pieces(rest))[1..] == Pieces(rest);
    }
  }

  lemma {:induction false} OnePiece(p: string)
    requires '.' !in p
    ensures Pieces(p) == [p]
  {
    if p != [] {
      OnePiece(p[1..]);
      assert [p[0]] + p[1..] == p;
    }
  }

  lemma TextPieces(a: Address)
    ensures Pieces(AddressText(a)) == [Octet(a[0]), Octet(a[1]), Octet(a[2]), Octet(a[3])]
  {
    hide Octet, Pieces;
    OctetText(a[0]);
    OctetText(a[1]);
    OctetText(a[2]);
    OctetText(a[3]);
    var t3 := Octet(a[3]);
    var t2 := Octet(a[2]) + "." + t3;
    var t1 := Octet(a[1]) + "." + t2;
    assert AddressText(a) == Octet(a[0]) + "." + t1;
    OnePiece(t3);
    PiecesOfJoin(Octet(a[2]), t3);
    PiecesOfJoin(Octet(a[1]), t2);
    PiecesOfJoin(Octet(a[0]), t1);
  }

  lemma OctetPiece(n: u8)
    ensures PieceValue(Octet(n)) == Some(n)
  {
    hide Octet, Parsed, CString;
    OctetText(n);
  }

  /** `from_string` undoes `to_string`, for every address. */
  lemma TextRoundTrip(a: Address)
    ensures var r := Scan(AddressText(a), 0, [], []); r.Some? && r.value == a
  {
    hide Octet, PieceValue, Pieces, Scan, AddressText;
    FromStringMeaning(AddressText(a));
    TextPieces(a);
    OctetPiece(a[0]);
    OctetPiece(a[1]);
    OctetPiece(a[2]);
    OctetPiece(a[3]);
    FourPieces(Octet(a[0]), Octet(a[1]), Octet(a[2]), Octet(a[3]));
  }
}
