# Query picker of the SQL-solving qualifier client

This project is a Dafny model of the only piece of local logic in the qualifier client. The rest of the client is HTTP plumbing. The modelled piece is `SqlQueryService.generateSqlQuery`, which picks one of two canned SQL queries from a registration number:

- it takes the last two characters of the number (`substring(length() - 2)`);
- it parses them with `Integer.parseInt`;
- if the value `n` satisfies Java's `n % 2 == 1`, it returns the Question 1 query, and otherwise the Question 2 query;
- any exception raised along the way is caught and answered with Question 1.

The model has three modules:

- `Wrappers`: an `Option` type.
- `JavaLang`: the Java behaviour the picker relies on.
  - A String reference that may be `null` (`JString`).
  - The exceptions involved (`JavaException`) and how an expression completes (`Outcome`).
  - `length()` and `substring(int)`, with their exceptions.
  - `Integer.parseInt` over ASCII digits with an optional sign and the 32-bit range check.
  - Java's truncating `/` and `%` (`JavaDiv`, `JavaRem`). Dafny's own operators are Euclidean, so they are not used to model Java's.
- `SqlQueryService`: the picker itself, plus lemmas that describe what it returns.

The picker is a total function with no precondition: every input gets a query, and no exception escapes. It reads no state, so repeated calls on the same number return the same query. In Dafny this holds by construction for a `function`.

The two SQL texts are modelled as the two distinct values of `SqlQuery`.

The code and its doc comment ("Odd regNo -> Question 1") disagree. The model follows the code. A suffix `-d` parses to `-d`. Java's remainder keeps the dividend's sign, so for an odd `d` the test `-d % 2 == 1` sees `-1` and picks Question 2. `SignedSuffix` proves that every `-d` suffix gets Question 2, and `GenerateSqlQueryByChars` gives the exact split by suffix characters.

## Model

| member | source | states |
|---|---|---|
| `SqlQueryService.GetQuestion1SqlQuery` | src/main/java/com/bajajfinserv/qualifier/service/SqlQueryService.java:46-61 | The Question 1 query is a fixed value, distinct from the Question 2 query |
| `SqlQueryService.GetQuestion2SqlQuery` | src/main/java/com/bajajfinserv/qualifier/service/SqlQueryService.java:67-92 | The Question 2 query is a fixed value, distinct from the Question 1 query |
| `SqlQueryService.LastTwoDigitsValue` | src/main/java/com/bajajfinserv/qualifier/service/SqlQueryService.java:21-22 | The try-block throws NullPointerException exactly for a null number and StringIndexOutOfBoundsException exactly for one shorter than two characters. It throws NumberFormatException exactly when the last two characters do not parse. Any value it yields lies in -9..99 and equals the value of the last two characters read as a two-character literal (`dd`, `+d` or `-d`) |
| `SqlQueryService.GenerateSqlQuery` | src/main/java/com/bajajfinserv/qualifier/service/SqlQueryService.java:16-40 | Every exception leads to Question 1. Question 2 is returned exactly when the suffix parses to a value that is not a positive odd number |
| `SqlQueryService.ParseTwoChars` | src/main/java/com/bajajfinserv/qualifier/service/SqlQueryService.java:22 | On a two-character string, parseInt succeeds exactly on `dd`, `+d` and `-d`, with the values of the case-by-case reference `TwoCharLiteral` |
| `SqlQueryService.GenerateSqlQueryByChars` | src/main/java/com/bajajfinserv/qualifier/service/SqlQueryService.java:16-40 | The picker as a function of the last two characters, in both directions. Question 2 exactly for a `-` before a digit, or an even digit after a digit or `+`. Question 1 for everything else, including null and short numbers |
| `SqlQueryService.SuffixDecides` | src/main/java/com/bajajfinserv/qualifier/service/SqlQueryService.java:21 | Two numbers with the same last two characters get the same query, whatever precedes them |
| `SqlQueryService.DigitPairParity` | src/main/java/com/bajajfinserv/qualifier/service/SqlQueryService.java:21-33 | A number ending in the two digits of n (0..99) gets Question 1 when n is odd and Question 2 when n is even |
| `SqlQueryService.SignedSuffix` | src/main/java/com/bajajfinserv/qualifier/service/SqlQueryService.java:22-33 | A suffix `+d` follows the parity of d. A suffix `-d` always gets Question 2, odd d included |
| `SqlQueryService.NullOrShortPicksQuestion1` | src/main/java/com/bajajfinserv/qualifier/service/SqlQueryService.java:21-38 | A null number, or one shorter than two characters, gets Question 1 through the exception handler |
| `SqlQueryService.MalformedSuffixPicksQuestion1` | src/main/java/com/bajajfinserv/qualifier/service/SqlQueryService.java:22-38 | A suffix that is not an integer literal (`AB`, `1X`, `--`) gets Question 1 through the exception handler |
| `SqlQueryService.RegistrationNumberScenarios` | src/main/java/com/bajajfinserv/qualifier/runner/ApplicationRunner.java:25-29 | The client's own number `22BCE10702` gets Question 2, and `22BCE10701` gets Question 1 |
| `JavaLang.Length` | src/main/java/com/bajajfinserv/qualifier/service/SqlQueryService.java:21 | `length()` throws NullPointerException exactly on null, and otherwise yields the number of characters |
| `JavaLang.Substring` | src/main/java/com/bajajfinserv/qualifier/service/SqlQueryService.java:21 | `substring(begin)` throws NullPointerException exactly on null and StringIndexOutOfBoundsException exactly when begin is outside 0..length. Otherwise it completes normally and yields the suffix that follows the first `begin` characters |
| `JavaLang.ParseInt` | src/main/java/com/bajajfinserv/qualifier/service/SqlQueryService.java:22 | parseInt fails only with NumberFormatException. Its value is a 32-bit int, non-positive when the text starts with `-` and non-negative otherwise |
| `JavaLang.ParseIntOfToString` | src/main/java/com/bajajfinserv/qualifier/service/SqlQueryService.java:22 | parseInt reads back the decimal spelling of every 32-bit int |
| `JavaLang.JavaRem` | src/main/java/com/bajajfinserv/qualifier/service/SqlQueryService.java:26 | Java's `%` satisfies the division identity with the truncated quotient. Its magnitude is below the divisor's, and it has the sign of the dividend |
| `JavaLang.JavaDivRemUnique` | src/main/java/com/bajajfinserv/qualifier/service/SqlQueryService.java:26 | Those three properties determine Java's quotient and remainder uniquely |
| `JavaLang.JavaRemTwo` | src/main/java/com/bajajfinserv/qualifier/service/SqlQueryService.java:26 | `n % 2 == 1` holds exactly for positive odd n. It is -1 for negative odd n and 0 for even n |

## Left out

- `WebhookService` (both HTTP calls, in blocking and reactive form) is network I/O with no local logic beyond calling the picker, so it is not part of this model.
- The fact that submission posts to the fixed test URL rather than the returned webhook URL is also I/O behaviour and is not modelled.
- `ApplicationRunner` is startup orchestration of the two network calls plus logging, so it is not part of this model. Only its registration number constant appears, in `RegistrationNumberScenarios`.
- `SolutionRequest` is a one-field JSON record with no behaviour, so it is not part of this model.
- Logging calls are side effects with no effect on the result, so they are not modelled.
- The text of the two SQL queries is not modelled. Each query is an opaque value, and only their distinctness matters to the picker.
- JavaLang.ParseInt: accepts only ASCII digits 0-9. `Integer.parseInt` also accepts other Unicode decimal digits through `Character.digit`, and that is not modelled.
- JavaLang.Length: counts Dafny characters. Java strings count UTF-16 code units, and surrogate pairs are not modelled.
