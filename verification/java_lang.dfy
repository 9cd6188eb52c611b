/** The parts of the Java platform that the query picker relies on:
    nullable String references, String.length(), String.substring(int),
    Integer.parseInt(String) restricted to ASCII digits, and the remainder
    operator `%` on int, which truncates toward zero. */
module JavaLang {

  /** Bounds of Java's 32-bit `int`. */
  const MinInt: int := -0x8000_0000
  const MaxInt: int := 0x7FFF_FFFF

  predicate IsInt32(n: int) {
    MinInt <= n <= MaxInt
  }

  function Abs(n: int): nat {
    if n < 0 then -n else n
  }

  /** A Java String reference: `null`, or a sequence of characters. */
  datatype JString = Null | Str(chars: string)

  /** The unchecked exceptions the modelled calls can throw. */
  datatype JavaException =
    | NullPointerException
    | StringIndexOutOfBoundsException
    | NumberFormatException

  /** How a Java expression completes: normally with a value, or abruptly
      with an exception. */
  datatype Outcome<+T> = Normal(value: T) | Thrown(exception: JavaException)

  /** `s.length()`: dereferencing null throws. */
  function Length(s: JString): (r: Outcome<int>)
    ensures r.Thrown? <==> s.Null?
    ensures r.Thrown? ==> r.exception == NullPointerException
    ensures r.Normal? ==> r.value == |s.chars|
  {
    match s
    case Null => Thrown(NullPointerException)
    case Str(cs) => Normal(|cs|)
  }

  /** `s.substring(begin)`: the characters from index `begin` to the end.
      A null receiver throws NullPointerException; an index below zero or
      past the length throws StringIndexOutOfBoundsException. */
  function Substring(s: JString, begin: int): (r: Outcome<string>)
    ensures r.Thrown? && r.exception == NullPointerException <==> s.Null?
    ensures (r.Thrown? && r.exception == StringIndexOutOfBoundsException)
            <==> (s.Str? && !(0 <= begin <= |s.chars|))
    ensures r.Normal? <==> s.Str? && 0 <= begin <= |s.chars|
    ensures r.Normal? ==> s.Str? && 0 <= begin && |r.value| == |s.chars| - begin
                          && s.chars == s.chars[..begin] + r.value
  {
    match s
    case Null => Thrown(NullPointerException)
    case Str(cs) =>
      if 0 <= begin <= |cs| then Normal(cs[begin..])
      else Thrown(StringIndexOutOfBoundsException)
  }

  predicate IsDigit(c: char) {
    '0' <= c <= '9'
  }

  function DigitValue(c: char): (d: nat)
    requires IsDigit(c)
    ensures d < 10
  {
    c as int - '0' as int
  }

  /** The ASCII character of a decimal digit. */
  function DigitChar(d: nat): (c: char)
    requires d < 10
    ensures IsDigit(c) && DigitValue(c) == d
  {
    ('0' as int + d) as char
  }

  predicate AllDigits(s: string) {
    forall i :: 0 <= i < |s| ==> IsDigit(s[i])
  }

  /** The value of a string of decimal digits, most significant first. */
  function DigitsValue(ds: string): nat
    requires AllDigits(ds)
    decreases |ds|
  {
    if ds == [] then 0
    else DigitsValue(ds[..|ds| - 1]) * 10 + DigitValue(ds[|ds| - 1])
  }

  /** `Integer.parseInt(s)` (radix 10): an optional leading '-' or '+'
      followed by at least one digit, whose signed value fits in an int;
      anything else throws NumberFormatException. */
  function ParseInt(s: string): (r: Outcome<int>)
    ensures r.Thrown? ==> r.exception == NumberFormatException
    ensures r.Normal? ==> IsInt32(r.value) && |s| > 0
    ensures r.Normal? && s[0] == '-' ==> r.value <= 0
    ensures r.Normal? && s[0] != '-' ==> r.value >= 0
  {
    if s == [] then Thrown(NumberFormatException)
    else
      var negative := s[0] == '-';
      var body := if s[0] == '-' || s[0] == '+' then s[1..] else s;
      if body == [] || !AllDigits(body) then Thrown(NumberFormatException)
      else
        var n: int := if negative then 0 - DigitsValue(body) else DigitsValue(body);
        if IsInt32(n) then Normal(n) else Thrown(NumberFormatException)
  }

  /** The decimal digits of a natural number, without leading zeros. */
  function NatDigits(n: nat): string
    decreases n
  {
    if n < 10 then [DigitChar(n)] else NatDigits(n / 10) + [DigitChar(n % 10)]
  }

  /** `Integer.toString(n)`: the canonical decimal spelling, which parseInt
      reads back (see ParseIntOfToString). */
  function ToString(n: int): string {
    if n < 0 then "-" + NatDigits(-n) else NatDigits(n)
  }

  lemma {:induction false} NatDigitsValue(n: nat)
    ensures |NatDigits(n)| > 0 && AllDigits(NatDigits(n))
    ensures DigitsValue(NatDigits(n)) == n
    decreases n
  {
    if n >= 10 {
      NatDigitsValue(n / 10);
      var ds := NatDigits(n);
      assert ds[..|ds| - 1] == NatDigits(n / 10);
    }
  }

  /** parseInt inverts toString on every int. */
  lemma ParseIntOfToString(n: int)
    requires IsInt32(n)
    ensures ParseInt(ToString(n)) == Normal(n)
  {
    var m := if n < 0 then -n else n;
    NatDigitsValue(m);
    if n < 0 {
      var s := ToString(n);
      assert s[1..] == NatDigits(m);
    }
  }

  /** The quotient of Java's `a / b`, truncated toward zero, on unbounded
      integers (Java's wrap-around of `MinInt / -1` is not modelled; only
      JavaRem's contract uses this). Dafny's own `/` is Euclidean and
      differs on negative operands. */
  function JavaDiv(a: int, b: int): int
    requires b != 0
  {
    if (a >= 0) == (b > 0) then Abs(a) / Abs(b) else -(Abs(a) / Abs(b))
  }

  /** Java's `a % b` on ints: the remainder that goes with the truncated
      quotient. It completes the identity `(a / b) * b + a % b == a`, its
      magnitude is below that of the divisor and its sign is the sign of
      the dividend (section 15.17.3 of the Java Language Specification).
      Dafny's own `%` is Euclidean and differs on negative dividends. */
  function JavaRem(a: int, b: int): (r: int)
    requires b != 0
    ensures JavaDiv(a, b) * b + r == a
    ensures Abs(r) < Abs(b)
    ensures r == 0 || (r < 0 <==> a < 0)
  {
    var r := if a >= 0 then Abs(a) % Abs(b) else -(Abs(a) % Abs(b));
    TruncatedDivision(a, b);
    r
  }

  lemma TruncatedDivision(a: int, b: int)
    requires b != 0
    ensures JavaDiv(a, b) * b + (if a >= 0 then Abs(a) % Abs(b) else -(Abs(a) % Abs(b))) == a
  {
    var q, m := Abs(a) / Abs(b), Abs(a) % Abs(b);
    assert Abs(a) == q * Abs(b) + m;
    if b < 0 {
      assert q * b == -(q * Abs(b));
    }
  }

  /** The division identity, the bound and the sign determine Java's
      quotient and remainder: no other pair satisfies all three. */
  lemma {:induction false} JavaDivRemUnique(a: int, b: int, q: int, r: int)
    requires b != 0
    requires q * b + r == a
    requires Abs(r) < Abs(b)
    requires r == 0 || (r < 0 <==> a < 0)
    ensures q == JavaDiv(a, b) && r == JavaRem(a, b)
  {
    var l, j := JavaDiv(a, b), JavaRem(a, b);
    assert q * b - l * b == j - r;
    SameSignGap(j, r, a, b);
    if q != l {
      ScaledDifference(q, l, b);
      MultipleMagnitude(q - l, b);
      assert false;
    }
  }

  /** Two remainders with the dividend's sign lie less than |b| apart. */
  lemma SameSignGap(j: int, r: int, a: int, b: int)
    requires Abs(j) < Abs(b) && Abs(r) < Abs(b)
    requires j == 0 || (j < 0 <==> a < 0)
    requires r == 0 || (r < 0 <==> a < 0)
    ensures Abs(j - r) < Abs(b)
  {
  }

  lemma ScaledDifference(q: int, l: int, b: int)
    ensures (q - l) * b == q * b - l * b
  {
  }

  lemma MultipleMagnitude(m: int, b: int)
    requires m != 0 && b != 0
    ensures Abs(m * b) >= Abs(b)
  {
  }

  /** Java's parity test `n % 2 == 1` holds exactly for positive odd n;
      for negative odd n the remainder is -1. */
  lemma JavaRemTwo(n: int)
    ensures JavaRem(n, 2) == 1 <==> n > 0 && n % 2 == 1
    ensures JavaRem(n, 2) == -1 <==> n < 0 && n % 2 == 1
    ensures JavaRem(n, 2) == 0 <==> n % 2 == 0
  {
  }
}
