/** 64-bit division by shifting and subtracting, on machines without the instruction. */
module Division {

  const TWO_63: nat := 0x8000_0000_0000_0000
  const TWO_64: nat := 0x1_0000_0000_0000_0000

  type u64 = x: nat | x < 0x1_0000_0000_0000_0000
  type i64 = x: int | -0x8000_0000_0000_0000 <= x < 0x8000_0000_0000_0000

  const MINIMUM: i64 := -0x8000_0000_0000_0000

  /** `Trap` is the division by zero that the routine provokes on purpose. */
  datatype Division = Trap | Quotient(quot: u64, rem: u64)

  /** Shifting left drops what does not fit. */
  function ShiftLeft(x: u64): u64 { 2 * x % 0x1_0000_0000_0000_0000 }
  function ShiftRight(x: u64): u64 { x / 2 }

  /** Two decompositions with small remainders are the same. */
  lemma SameDecomposition(d: int, q: int, r: int, q': int, r': int)
    requires q * d + r == q' * d + r' && 0 <= r < d && 0 <= r' < d
    ensures q == q' && r == r'
  {
    assert (q - q') * d == r' - r;
    if q != q' {
      MultipleIsFar(q - q', d);
    }
  }

  lemma DivisionUnique(n: nat, d: nat, q: nat, r: nat)
    requires n == Times(d, q) + r && r < d
    ensures Exact(n, d, q, r)
  {
    SameDecomposition(d, q, r, n / d, n % d);
  }

  predicate Exact(n: nat, d: nat, q: nat, r: nat) {
    r < d && n == q * d + r && q == n / d && r == n % d
  }

  lemma NothingLost(x: u64)
    requires x < TWO_63
    ensures ShiftLeft(x) == 2 * x
  {
  }

  /** `__udivmoddi4`: exact for every divisor but zero. */
  method UDivMod(n: u64, d: u64) returns (r: Division)
    ensures r.Trap? <==> d == 0
    ensures r.Quotient? ==> Exact(n, d, r.quot, r.rem)
  {
    var num: u64, den: u64, quot: u64, qbit: u64 := n, d, 0, 1;
    if den == 0 {
      return Trap;
    }
    hide Times, Power2, Exact, ShiftLeft;
    TimesUnit(d);
    // left-justify the divisor; `k` counts the shifts
    ghost var k: nat := 0;
    while den < TWO_63
      invariant den == Times(d, qbit) && qbit == Power2(k) && 0 < qbit
      decreases TWO_64 - den
    {
      Larger(d, qbit);
      Doubled(d, k);
      NothingLost(den);
      NothingLost(qbit);
      den, qbit, k := ShiftLeft(den), ShiftLeft(qbit), k + 1;
    }
    while qbit != 0
      invariant n == Times(d, quot) + num
      invariant qbit != 0 ==> den == Times(d, qbit) && qbit == Power2(k) && num < 2 * den
      invariant qbit == 0 ==> num < d
      decreases qbit
    {
      if den <= num {
        Subtract(n, d, quot, num, qbit);
        num, quot := num - den, quot + qbit;
      }
      if k > 0 {
        Doubled(d, k - 1);
        k := k - 1;
      }
      den, qbit := ShiftRight(den), ShiftRight(qbit);
    }
    DivisionUnique(n, d, quot, num);
    r := Quotient(quot, num);
  }

  function Times(d: nat, q: nat): nat { d * q }

  function Power2(k: nat): nat { if k == 0 then 1 else 2 * Power2(k - 1) }

  lemma TimesUnit(d: nat)
    ensures Times(d, 1) == d && Times(d, 0) == 0 && Power2(0) == 1
  {
  }

  lemma Doubled(d: nat, k: nat)
    ensures Power2(k + 1) == 2 * Power2(k) && Times(d, Power2(k + 1)) == 2 * Times(d, Power2(k)) && Power2(k) > 0
  {
    assert d * (2 * Power2(k)) == 2 * (d * Power2(k));
    PowerPositive(k);
  }

  lemma PowerPositive(k: nat)
    ensures Power2(k) > 0
  {
  }

  lemma Larger(d: nat, q: nat)
    requires d > 0
    ensures Times(d, q) >= q
  {
  }

  /** Moving `q` divisors from the remainder to the quotient; the quotient cannot overflow. */
  lemma Subtract(n: u64, d: nat, quot: nat, num: nat, q: nat)
    requires n == Times(d, quot) + num && Times(d, q) <= num && d > 0
    ensures n == Times(d, quot + q) + (num - Times(d, q)) && quot + q < TWO_64
  {
    hide Times;
    Distribute(d, quot, q);
    Larger(d, quot + q);
  }

  lemma Distribute(d: nat, a: nat, b: nat)
    ensures Times(d, a + b) == Times(d, a) + Times(d, b)
  {
  }

  // ----- signed division

  /** Exclusive or with 0 or with -1, which has every bit set. */
  function XorSign(x: int, s: int): int
    requires s == 0 || s == -1
  {
    if s == 0 then x else -1 - x
  }

  function ToUnsigned(x: int): u64 { x % 0x1_0000_0000_0000_0000 }

  function ToSigned(x: u64): i64 {
    if x < 0x8000_0000_0000_0000 then x else x - 0x1_0000_0000_0000_0000
  }

  /** An arithmetic shift by 63 leaves the sign. */
  function Sign(x: int): int { if x < 0 then -1 else 0 }

  function Abs(x: int): nat { if x < 0 then -x else x }

  lemma Magnitude(a: i64)
    ensures ToUnsigned(XorSign(a, Sign(a)) - Sign(a)) == Abs(a)
  {
  }

  /** Negating through the sign; 2^63 itself wraps around. */
  lemma Signed(q: u64, s: int)
    requires (s == 0 || s == -1) && q <= TWO_63
    ensures ToSigned(ToUnsigned(XorSign(q, s) - s)) == if s == -1 || q == TWO_63 then 0 - q else q
  {
  }

  /** Division truncated toward zero: the remainder is smaller than the divisor and takes the dividend's sign. */
  predicate Truncates(a: int, b: int, q: int) {
    var r := a - q * b;
    Abs(r) < Abs(b) && (r == 0 || (r < 0) == (a < 0))
  }

  lemma TruncatedOfAbs(a: int, b: int, q: int, r: int)
    requires b != 0 && q >= 0 && r >= 0 && Exact(Abs(a), Abs(b), q, r)
    ensures Truncates(a, b, if (a < 0) == (b < 0) then q else -q)
  {
  }

  /** There is one truncated quotient. */
  lemma TruncatedUnique(a: int, b: int, q: int, q': int)
    requires b != 0 && Truncates(a, b, q) && Truncates(a, b, q')
    ensures q == q'
  {
    var r, r' := a - q * b, a - q' * b;
    assert (q - q') * b == r' - r;
    if q != q' {
      MultipleIsFar(q - q', b);
    }
  }

  lemma MultipleIsFar(k: int, b: int)
    requires k != 0 && b != 0
    ensures Abs(k * b) >= Abs(b)
  {
  }

  /**
   * `__divdi3`: the quotient truncated toward zero; the one quotient that does not fit, the minimum by -1, comes out as
   * the minimum.
   */
  method SDiv(a: i64, b: i64) returns (r: Division, q: i64)
    ensures r.Trap? <==> b == 0
    ensures b != 0 && !(a == MINIMUM && b == -1) ==> Truncates(a, b, q)
    ensures a == MINIMUM && b == -1 ==> q == MINIMUM && !Truncates(a, b, q)
  {
    hide Exact, Truncates, ToUnsigned, ToSigned;
    Magnitude(a);
    Magnitude(b);
    var sa, sb := Sign(a), Sign(b);
    var ua := ToUnsigned(XorSign(a, sa) - sa);
    var ub := ToUnsigned(XorSign(b, sb) - sb);
    var s := XorSign(sa, sb);
    r := UDivMod(ua, ub);
    if r.Trap? {
      return r, 0;
    }
    q := ToSigned(ToUnsigned(XorSign(r.quot, s) - s));
    TruncatedOfAbs(a, b, r.quot, r.rem);
    QuotientFits(Abs(a), Abs(b), r.quot, r.rem);
    Signed(r.quot, s);
    MinimumDoesNotFit();
  }

  /** The quotient reaches 2^63 only for the minimum divided by 1 or -1. */
  lemma QuotientFits(n: nat, d: nat, q: nat, r: nat)
    requires 0 < d && n <= TWO_63 && Exact(n, d, q, r)
    ensures q <= TWO_63 && (q == TWO_63 ==> n == TWO_63 && d == 1) && (d == 1 ==> q == n)
  {
  }

  lemma MinimumDoesNotFit()
    ensures !Truncates(MINIMUM, -1, MINIMUM)
  {
  }
}
