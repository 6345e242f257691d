/** Character and number-text helpers shared by the scrapers and the
    cleaning stages: ASCII tests, ASCII lower-casing, and the decimal
    renderings and parsings that Python's str(), int() and float() perform on
    the cells the scrapers handle. */
module Text {
  import opened Results

  predicate IsAsciiChar(c: char) {
    c as int < 128
  }

  predicate AllAscii(s: string) {
    forall i :: 0 <= i < |s| ==> IsAsciiChar(s[i])
  }

  /** Lower-casing of one character (ASCII letters only). */
  function LowerChar(c: char): char {
    if 'A' <= c <= 'Z' then (c as int + 32) as char else c
  }

  function Lower(s: string): string {
    seq(|s|, i requires 0 <= i < |s| => LowerChar(s[i]))
  }

  predicate IsDigit(c: char) {
    '0' <= c <= '9'
  }

  predicate AllDigits(s: string) {
    forall i :: 0 <= i < |s| ==> IsDigit(s[i])
  }

  function DigitValue(c: char): nat
    requires IsDigit(c)
  {
    c as int - '0' as int
  }

  function DigitChar(d: nat): char
    requires d < 10
  {
    ('0' as int + d) as char
  }

  /** The number a string of decimal digits denotes (most significant first). */
  function DigitsValue(s: string): nat
    requires AllDigits(s)
  {
    if s == [] then 0 else DigitsValue(s[..|s| - 1]) * 10 + DigitValue(s[|s| - 1])
  }

  function Pow10(k: nat): (p: nat)
    ensures p > 0
  {
    if k == 0 then 1 else 10 * Pow10(k - 1)
  }

  /** Decimal rendering of a natural number, as Python's str() writes it. */
  function NatToString(n: nat): string
  {
    if n < 10 then [DigitChar(n)] else NatToString(n / 10) + [DigitChar(n % 10)]
  }

  /** Decimal rendering of an integer, as Python's str() writes it. */
  function IntToString(i: int): string
  {
    if i < 0 then "-" + NatToString(-i) else NatToString(i)
  }

  /** Python's int() on a text cell: an optional sign followed by one or more
      decimal digits; anything else is a ValueError (None here). */
  function ParseInt(s: string): Option<int>
  {
    if |s| > 0 && (s[0] == '-' || s[0] == '+') then
      if |s| > 1 && AllDigits(s[1..]) then
        Some(if s[0] == '-' then 0 - DigitsValue(s[1..]) as int else DigitsValue(s[1..]))
      else None
    else if |s| > 0 && AllDigits(s) then Some(DigitsValue(s))
    else None
  }

  /** Python's float() on a text cell written in plain decimal notation: an
      optional sign, digits, and an optional fraction after a point, with at
      least one digit in all ("12", "0.455", ".5", "3."). */
  function ParseDecimal(s: string): Option<real>
  {
    var negative := |s| > 0 && s[0] == '-';
    var body := if |s| > 0 && (s[0] == '-' || s[0] == '+') then s[1..] else s;
    var magnitude := ParseUnsignedDecimal(body, 0);
    match magnitude
    case None => None
    case Some(m) => Some(if negative then -m else m)
  }

  /** Reads `body[from..]` as digits with at most one point; the integer part
      is `body[..from]`, which is already known to be all digits. */
  function ParseUnsignedDecimal(body: string, from: nat): Option<real>
    requires from <= |body| && AllDigits(body[..from])
    decreases |body| - from
  {
    if from == |body| then
      if from == 0 then None else Some(DigitsValue(body) as real)
    else if IsDigit(body[from]) then
      assert body[..from + 1] == body[..from] + [body[from]];
      ParseUnsignedDecimal(body, from + 1)
    else if body[from] == '.' && AllDigits(body[from + 1..]) && |body| > 1 then
      var whole := body[..from];
      var frac := body[from + 1..];
      Some(DigitsValue(whole) as real + DigitsValue(frac) as real / Pow10(|frac|) as real)
    else None
  }

  lemma {:induction false} NatToStringDigits(n: nat)
    ensures |NatToString(n)| > 0 && AllDigits(NatToString(n))
    ensures DigitsValue(NatToString(n)) == n
  {
    if n >= 10 {
      NatToStringDigits(n / 10);
      var s := NatToString(n);
      assert s[..|s| - 1] == NatToString(n / 10);
    }
  }

  /** Rendering an integer with str() and reading it back with int() gives
      the integer again. */
  lemma ParseIntToString(i: int)
    ensures ParseInt(IntToString(i)) == Some(i)
  {
    if i < 0 {
      NatToStringDigits(-i);
      assert IntToString(i)[1..] == NatToString(-i);
    } else {
      NatToStringDigits(i);
    }
  }
}
