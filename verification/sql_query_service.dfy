/** The query picker of the qualifier client: given a registration number,
    choose which of two fixed SQL queries to submit, by the parity of the
    number formed by its last two characters. Failures on the way (a null
    number, one shorter than two characters, a suffix that is not an
    integer literal) are caught and fall back to Question 1. */
module SqlQueryService {
  import opened Wrappers
  import opened JavaLang

  /** The two canned SQL texts, kept opaque: only their identity matters. */
  datatype SqlQuery = Question1Sql | Question2Sql

  /** The query for Question 1 (the aggregation over departments). */
  function GetQuestion1SqlQuery(): (q: SqlQuery)
    ensures q != Question2Sql
  {
    Question1Sql
  }

  /** The query for Question 2 (the per-department salary ranking). */
  function GetQuestion2SqlQuery(): (q: SqlQuery)
    ensures q != Question1Sql
  {
    Question2Sql
  }

  /** The body of the try-block up to the parity test: the value of the
      last two characters of `regNo`, or the exception that stops it. */
  function LastTwoDigitsValue(regNo: JString): (r: Outcome<int>)
    ensures r == Thrown(NullPointerException) <==> regNo.Null?
    ensures r == Thrown(StringIndexOutOfBoundsException)
            <==> regNo.Str? && |regNo.chars| < 2
    ensures r == Thrown(NumberFormatException)
            <==> regNo.Str? && |regNo.chars| >= 2
                 && ParseInt(regNo.chars[|regNo.chars| - 2..]).Thrown?
    ensures r.Normal? ==> -9 <= r.value <= 99
    ensures r.Normal? ==> regNo.Str? && |regNo.chars| >= 2
                          && TwoCharLiteral(regNo.chars[|regNo.chars| - 2],
                                            regNo.chars[|regNo.chars| - 1]) == Some(r.value)
  {
    match Length(regNo)
    case Thrown(e) => Thrown(e)
    case Normal(len) =>
      match Substring(regNo, len - 2)
      case Thrown(e) => Thrown(e)
      case Normal(lastTwoDigits) =>
        assert lastTwoDigits[0] == regNo.chars[len - 2] && lastTwoDigits[1] == regNo.chars[len - 1];
        ParseTwoChars(lastTwoDigits);
        ParseInt(lastTwoDigits)
  }

  /** `generateSqlQuery(regNo)`: Question 1 when the suffix parses to n
      with Java's `n % 2 == 1`, Question 2 when it parses to any other
      value, and Question 1 when any exception is caught. Since Java's
      remainder keeps the dividend's sign, Question 2 goes to every suffix
      that parses to a number other than a positive odd one. */
  function GenerateSqlQuery(regNo: JString): (q: SqlQuery)
    ensures LastTwoDigitsValue(regNo).Thrown? ==> q == Question1Sql
    ensures q == Question2Sql
            <==> LastTwoDigitsValue(regNo).Normal?
                 && !(LastTwoDigitsValue(regNo).value > 0 && LastTwoDigitsValue(regNo).value % 2 == 1)
  {
    match LastTwoDigitsValue(regNo)
    case Thrown(_) => GetQuestion1SqlQuery()
    case Normal(lastTwoDigitsInt) =>
      JavaRemTwo(lastTwoDigitsInt);
      if JavaRem(lastTwoDigitsInt, 2) == 1 then GetQuestion1SqlQuery()
      else GetQuestion2SqlQuery()
  }

  /** Reference reading of a two-character integer literal, spelled out
      case by case: two digits, or a sign followed by one digit. */
  function TwoCharLiteral(a: char, b: char): Option<int> {
    if !IsDigit(b) then None
    else
      var d: int := DigitValue(b);
      if IsDigit(a) then Some(10 * DigitValue(a) + d)
      else if a == '+' then Some(d)
      else if a == '-' then Some(-d)
      else None
  }

  /** On a two-character string, parseInt accepts exactly `dd`, `+d` and
      `-d`, with the values TwoCharLiteral gives. */
  lemma {:induction false} ParseTwoChars(s: string)
    requires |s| == 2
    ensures ParseInt(s).Normal? <==> TwoCharLiteral(s[0], s[1]).Some?
    ensures ParseInt(s).Normal? ==> ParseInt(s).value == TwoCharLiteral(s[0], s[1]).value
  {
    if s[0] == '-' || s[0] == '+' {
      var body := s[1..];
      assert body == [s[1]];
      if IsDigit(s[1]) {
        assert AllDigits(body);
        assert body[..0] == [];
        assert DigitsValue(body) == DigitValue(s[1]);
      } else {
        assert !AllDigits(body);
      }
    } else if IsDigit(s[0]) && IsDigit(s[1]) {
      assert AllDigits(s);
      assert s[..1] == [s[0]];
      assert s[..1][..0] == [];
      assert DigitsValue(s[..1]) == DigitValue(s[0]);
      assert DigitsValue(s) == 10 * DigitValue(s[0]) + DigitValue(s[1]);
    } else {
      assert !AllDigits(s) by {
        if !IsDigit(s[0]) { assert !IsDigit(s[0 as int]); }
        else { assert !IsDigit(s[1 as int]); }
      }
    }
  }

  /** A suffix that selects Question 2: a digit preceded by '-', or an
      even digit preceded by a digit or '+'. */
  predicate PicksQuestion2(a: char, b: char) {
    IsDigit(b) && (a == '-' || ((IsDigit(a) || a == '+') && DigitValue(b) % 2 == 0))
  }

  /** The whole picker in terms of the last two characters alone: it
      returns Question 2 exactly when the number has at least two
      characters ending in a PicksQuestion2 pair, and Question 1 in every
      other case, null included. */
  lemma {:induction false} GenerateSqlQueryByChars(regNo: JString)
    ensures GenerateSqlQuery(regNo) == Question2Sql
            <==> regNo.Str? && |regNo.chars| >= 2
                 && PicksQuestion2(regNo.chars[|regNo.chars| - 2], regNo.chars[|regNo.chars| - 1])
    ensures GenerateSqlQuery(regNo) == Question1Sql
            <==> !(regNo.Str? && |regNo.chars| >= 2
                   && PicksQuestion2(regNo.chars[|regNo.chars| - 2], regNo.chars[|regNo.chars| - 1]))
  {
    if regNo.Str? && |regNo.chars| >= 2 {
      var s := regNo.chars;
      var suffix := s[|s| - 2..];
      assert suffix[0] == s[|s| - 2] && suffix[1] == s[|s| - 1];
      ParseTwoChars(suffix);
      LiteralPicksQuestion2(s[|s| - 2], s[|s| - 1]);
    }
  }

  /** PicksQuestion2 holds exactly for the two-character literals whose
      value is not a positive odd number. */
  lemma LiteralPicksQuestion2(a: char, b: char)
    ensures PicksQuestion2(a, b)
            <==> TwoCharLiteral(a, b).Some?
                 && !(TwoCharLiteral(a, b).value > 0 && TwoCharLiteral(a, b).value % 2 == 1)
  {
    if IsDigit(a) && IsDigit(b) {
      assert (10 * DigitValue(a) + DigitValue(b)) % 2 == DigitValue(b) % 2;
    }
  }

  /** Only the last two characters matter: whatever precedes them, two
      numbers with the same suffix get the same query. */
  lemma SuffixDecides(p1: string, p2: string, suffix: string)
    requires |suffix| == 2
    ensures GenerateSqlQuery(Str(p1 + suffix)) == GenerateSqlQuery(Str(p2 + suffix))
  {
  }

  /** Two decimal digits, as a registration number usually ends. */
  function TwoDigits(n: nat): (s: string)
    requires n < 100
    ensures |s| == 2 && IsDigit(s[0]) && IsDigit(s[1])
    ensures 10 * DigitValue(s[0]) + DigitValue(s[1]) == n
  {
    [DigitChar(n / 10), DigitChar(n % 10)]
  }

  /** Numbers ending in an odd digit pair get Question 1, those ending in
      an even pair ("00", "02", ..., "98") get Question 2. */
  lemma {:induction false} DigitPairParity(prefix: string, n: nat)
    requires n < 100
    ensures GenerateSqlQuery(Str(prefix + TwoDigits(n)))
            == if n % 2 == 1 then Question1Sql else Question2Sql
  {
    var s := prefix + TwoDigits(n);
    var d := TwoDigits(n);
    assert s[|s| - 2] == d[0] && s[|s| - 1] == d[1];
    GenerateSqlQueryByChars(Str(s));
  }

  /** A suffix "+d" parses to d and follows its parity; a suffix "-d"
      parses to -d, whose Java remainder by 2 is 0 or -1 and never 1, so
      it always gets Question 2, odd d included. */
  lemma {:induction false} SignedSuffix(prefix: string, d: nat)
    requires d < 10
    ensures GenerateSqlQuery(Str(prefix + ['+', DigitChar(d)]))
            == if d % 2 == 1 then Question1Sql else Question2Sql
    ensures GenerateSqlQuery(Str(prefix + ['-', DigitChar(d)])) == Question2Sql
  {
    var plus, minus := prefix + ['+', DigitChar(d)], prefix + ['-', DigitChar(d)];
    assert plus[|plus| - 2] == '+' && plus[|plus| - 1] == DigitChar(d);
    assert minus[|minus| - 2] == '-' && minus[|minus| - 1] == DigitChar(d);
    GenerateSqlQueryByChars(Str(plus));
    GenerateSqlQueryByChars(Str(minus));
  }

  /** A null number, or one shorter than two characters, makes length()
      or substring() throw; the handler answers Question 1. */
  lemma NullOrShortPicksQuestion1(regNo: JString)
    requires regNo.Null? || |regNo.chars| < 2
    ensures GenerateSqlQuery(regNo) == Question1Sql
  {
  }

  /** A suffix that is not an integer literal ("AB", "1X", "--", "+-")
      makes parseInt throw; the handler answers Question 1. */
  lemma MalformedSuffixPicksQuestion1(s: string)
    requires |s| >= 2 && TwoCharLiteral(s[|s| - 2], s[|s| - 1]).None?
    ensures GenerateSqlQuery(Str(s)) == Question1Sql
  {
  }

  /** The registration number of the running client, "22BCE10702", ends in
      "02" and gets Question 2; "22BCE10701" ends in "01" and gets
      Question 1. */
  lemma {:induction false} RegistrationNumberScenarios()
    ensures GenerateSqlQuery(Str("22BCE10702")) == Question2Sql
    ensures GenerateSqlQuery(Str("22BCE10701")) == Question1Sql
  {
    assert "22BCE10702" == "22BCE107" + TwoDigits(2);
    assert "22BCE10701" == "22BCE107" + TwoDigits(1);
    DigitPairParity("22BCE107", 2);
    DigitPairParity("22BCE107", 1);
  }
}
