/** Strings as the modelled code sees them: ASCII character classes, decimal numerals, joining. */
module Text {

  predicate IsDigit(c: char) {
    '0' <= c <= '9'
  }

  predicate IsAlnum(c: char) {
    IsDigit(c) || 'a' <= c <= 'z' || 'A' <= c <= 'Z'
  }

  /** A character of the regex class `\w`. */
  predicate IsWordChar(c: char) {
    IsAlnum(c) || c == '_'
  }

  /** An ASCII character of the regex class `\s`, which is also what stripping removes. */
  predicate IsSpace(c: char) {
    9 <= c as int <= 13 || 28 <= c as int <= 32
  }

  predicate AllDigits(s: string) {
    forall i :: 0 <= i < |s| ==> IsDigit(s[i])
  }

  /** The decimal numeral of `n`. */
  function Decimal(n: nat): (s: string)
    ensures s != "" && AllDigits(s)
  {
    if n < 10 then [('0' as int + n) as char]
    else Decimal(n / 10) + [('0' as int + n % 10) as char]
  }

  lemma {:induction false} DecimalInjective(m: nat, n: nat)
    requires Decimal(m) == Decimal(n)
    ensures m == n
  {
    var s, t := Decimal(m), Decimal(n);
    assert s[|s| - 1] == ('0' as int + m % 10) as char;
    assert t[|t| - 1] == ('0' as int + n % 10) as char;
    if m >= 10 && n >= 10 {
      assert Decimal(m / 10) == s[..|s| - 1] == t[..|t| - 1] == Decimal(n / 10);
      DecimalInjective(m / 10, n / 10);
    }
  }

  /** The number that a text of digits stands for. */
  function Value(s: string): int {
    if s == "" then 0 else 10 * Value(s[..|s| - 1]) + (s[|s| - 1] as int - '0' as int)
  }

  /** A numeral stands for its number and has no leading zero. */
  lemma {:induction false} DecimalStandsFor(n: nat)
    ensures Value(Decimal(n)) == n && (n > 0 ==> Decimal(n)[0] != '0')
  {
    var s := Decimal(n);
    if n >= 10 {
      DecimalStandsFor(n / 10);
      assert s[..|s| - 1] == Decimal(n / 10);
    } else {
      assert s[..0] == "";
    }
  }

  lemma Associative<T>(a: seq<T>, b: seq<T>, c: seq<T>)
    ensures a + b + c == a + (b + c)
  {
  }

  function Join(sep: string, parts: seq<string>): string {
    if |parts| == 0 then ""
    else if |parts| == 1 then parts[0]
    else parts[0] + sep + Join(sep, parts[1..])
  }

  predicate Contains(s: string, t: string) {
    exists i :: 0 <= i <= |s| && t <= s[i..]
  }

  lemma ContainsExtended(s: string, t: string, u: string)
    ensures Contains(s, t) ==> Contains(s + u, t)
    ensures Contains(s + t, t)
  {
    if i :| 0 <= i <= |s| && t <= s[i..] {
      assert (s + u)[i..] == s[i..] + u;
    }
    assert (s + t)[|s|..] == t;
  }

  /** The text without its leading white space. */
  function TrimmedStart(s: string): string {
    if s != "" && IsSpace(s[0]) then TrimmedStart(s[1..]) else s
  }

  /** The text without its trailing white space. */
  function TrimmedEnd(s: string): string {
    if s != "" && IsSpace(s[|s| - 1]) then TrimmedEnd(s[..|s| - 1]) else s
  }

  predicate EndsWith(s: string, t: string) {
    |t| <= |s| && s[|s| - |t|..] == t
  }

  /** A function that passes on character after character passes on the text. */
  lemma {:induction false} CharByChar(f: string -> string, m: string, rest: string)
    requires forall i :: 0 <= i < |m| ==> f(m[i..] + rest) == [m[i]] + f(m[i + 1..] + rest)
    ensures f(m + rest) == m + f(rest)
  {
    if m == "" {
      assert m + rest == rest;
    } else {
      forall i | 0 <= i < |m[1..]|
        ensures f(m[1..][i..] + rest) == [m[1..][i]] + f(m[1..][i + 1..] + rest)
      {
        assert m[1..][i] == m[i + 1] && m[1..][i..] == m[i + 1..] && m[1..][i + 1..] == m[i + 1 + 1..];
      }
      CharByChar(f, m[1..], rest);
      assert m[0..] == m;
      Associative([m[0]], m[1..], f(rest));
    }
  }
}
