/** The lines of the input files of read.py as the parsers see them: `raw.strip()` followed
    by `line.split()`, so a line is its list of non-empty, whitespace-free tokens; and the
    `int(...)` conversion of one token. */
module Tokens {

  datatype Option<T> = None | Some(value: T)

  datatype Result<T, E> = Ok(value: T) | Err(error: E)

  /** No element occurs twice. */
  predicate Distinct<T(==)>(s: seq<T>) {
    forall i, j | 0 <= i < j < |s| :: s[i] != s[j]
  }

  /** One stripped input line, split at whitespace. The empty list is a blank line. */
  type Line = seq<string>

  /** What `split()` produces: no token is empty. */
  predicate Tokenized(lines: seq<Line>) {
    forall i, k | 0 <= i < |lines| && 0 <= k < |lines[i]| :: |lines[i][k]| > 0
  }

  /** `line.startswith(ch)` for a stripped, non-blank line: its first character is `ch`. */
  predicate StartsWith(line: Line, ch: char) {
    |line| > 0 && |line[0]| > 0 && line[0][0] == ch
  }

  predicate IsDigit(ch: char) {
    '0' <= ch <= '9'
  }

  function DigitValue(ch: char): nat
    requires IsDigit(ch)
  {
    ch as int - '0' as int
  }

  /** The value of a string of decimal digits. */
  function DigitsValue(s: string): nat
    requires forall k | 0 <= k < |s| :: IsDigit(s[k])
  {
    if s == [] then 0 else DigitsValue(s[..|s| - 1]) * 10 + DigitValue(s[|s| - 1])
  }

  predicate AllDigits(s: string) {
    |s| > 0 && forall k | 0 <= k < |s| :: IsDigit(s[k])
  }

  /** Python's `int(token)` on a whitespace-free token: an optional sign and at least one
      ASCII digit; anything else raises `ValueError`, here `None`. */
  function ParseInt(s: string): (r: Option<int>)
    ensures r.Some? <==> AllDigits(s) || (|s| > 1 && (s[0] == '-' || s[0] == '+') && AllDigits(s[1..]))
  {
    if AllDigits(s) then Some(DigitsValue(s))
    else if |s| > 1 && s[0] == '-' && AllDigits(s[1..]) then Some(-(DigitsValue(s[1..]) as int))
    else if |s| > 1 && s[0] == '+' && AllDigits(s[1..]) then Some(DigitsValue(s[1..]))
    else None
  }

  function DigitChar(d: nat): (ch: char)
    requires d < 10
    ensures IsDigit(ch) && DigitValue(ch) == d
  {
    ['0', '1', '2', '3', '4', '5', '6', '7', '8', '9'][d]
  }

  /** The decimal rendering of a natural number, as `str(n)` writes it. */
  function NatToString(n: nat): (s: string)
    ensures AllDigits(s)
    decreases n
  {
    if n < 10 then [DigitChar(n)] else NatToString(n / 10) + [DigitChar(n % 10)]
  }

  /** `str(n)` of any integer: a minus sign before the digits of a negative number. */
  function IntToString(n: int): string {
    if n < 0 then ['-'] + NatToString(-n) else NatToString(n)
  }

  lemma {:induction false} NatToStringValue(n: nat)
    ensures DigitsValue(NatToString(n)) == n
    decreases n
  {
    if n >= 10 {
      NatToStringValue(n / 10);
      var s := NatToString(n);
      assert s[..|s| - 1] == NatToString(n / 10);
    }
  }

  /** `int(str(n)) == n`. */
  lemma ParseIntRoundTrip(n: int)
    ensures ParseInt(IntToString(n)) == Some(n)
  {
    if n < 0 {
      NatToStringValue(-n);
      var s := IntToString(n);
      assert s[1..] == NatToString(-n);
      assert !AllDigits(s) by {
        assert !IsDigit(s[0]);
      }
    } else {
      NatToStringValue(n);
    }
  }

  /** The numbers of the small example files. */
  lemma SmallNumbers()
    ensures ParseInt("1") == Some(1) && ParseInt("2") == Some(2) && ParseInt("3") == Some(3)
  {
    assert AllDigits("1") && AllDigits("2") && AllDigits("3");
  }

  /** A token with anything but an optional leading sign and digits is not a number. */
  lemma ParseIntRejects(s: string, k: nat)
    requires k < |s| && !IsDigit(s[k]) && (k > 0 || (s[0] != '-' && s[0] != '+'))
    ensures ParseInt(s).None?
  {
    if k > 0 && |s| > 1 && (s[0] == '-' || s[0] == '+') {
      assert s[1..][k - 1] == s[k];
    }
  }
}
