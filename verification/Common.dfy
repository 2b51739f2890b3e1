/** Small shared vocabulary: optional values, results, and string helpers. */
module Common {
  datatype Option<+T> = None | Some(value: T)

  datatype Result<+T, +E> = Ok(value: T) | Err(error: E)

  predicate StartsWith(s: string, prefix: string) {
    |prefix| <= |s| && s[..|prefix|] == prefix
  }

  predicate IsDigit(c: char) {
    '0' <= c <= '9'
  }

  // Times are whole microseconds.
  const SECOND: int := 1000000

  // Identities that several sessions share on purpose.
  const EXEMPT: set<string> := {"admin"}

  predicate AllDigits(s: string) {
    s != "" && forall i | 0 <= i < |s| :: IsDigit(s[i])
  }

  predicate IsSpace(c: char) {
    c == ' ' || '\t' <= c <= '\r'
  }

  // Decimal rendering of a number, as an f-string writes it.
  function Decimal(n: nat): (s: string)
    ensures |s| > 0
    ensures forall i :: 0 <= i < |s| ==> IsDigit(s[i])
    decreases n
  {
    if n < 10 then [DigitChar(n)] else Decimal(n / 10) + [DigitChar(n % 10)]
  }

  function DigitChar(d: nat): char
    requires d < 10
  {
    "0123456789"[d]
  }

  lemma {:induction false} DecimalInjective(a: nat, b: nat)
    requires Decimal(a) == Decimal(b)
    ensures a == b
    decreases a
  {
    var s := Decimal(a);
    assert s[|s| - 1] == DigitChar(a % 10) == DigitChar(b % 10);
    if a >= 10 && b >= 10 {
      assert Decimal(a / 10) == s[..|s| - 1] == Decimal(b / 10);
      DecimalInjective(a / 10, b / 10);
    }
  }

  // Python's str.partition: the text before the first separator, and the rest.
  function Before(s: string, sep: char): (r: string)
    ensures |r| <= |s| && s[..|r|] == r && sep !in r
    ensures |r| < |s| ==> s[|r|] == sep
  {
    if s == "" || s[0] == sep then "" else [s[0]] + Before(s[1..], sep)
  }

  lemma {:induction false} BeforeOf(s: string, sep: char, rest: string)
    requires sep !in s
    requires rest == "" || rest[0] == sep
    ensures Before(s + rest, sep) == s
  {
    if s != "" {
      assert (s + rest)[1..] == s[1..] + rest;
      BeforeOf(s[1..], sep, rest);
    } else {
      assert s + rest == rest;
    }
  }
}
