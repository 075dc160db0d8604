/**
 * The few pieces of PHP's own semantics that the core relies on: the
 * truthiness of a nullable string and the `(int)` cast of a string.
 * PHP strings are byte strings; a `string` here holds one byte per `char`.
 */
module Php {
  import opened Wrappers

  /** `if ($v)` for a nullable string: null, "" and "0" are falsy, every other string is truthy. */
  predicate Truthy(v: Option<string>)
    ensures Truthy(v) ==> v.Some? && |v.value| >= 1
  {
    v.Some? && v.value != "" && v.value != "0"
  }

  predicate IsDigit(c: char)
  {
    '0' <= c <= '9'
  }

  predicate AllDigits(s: string)
  {
    forall i :: 0 <= i < |s| ==> IsDigit(s[i])
  }

  /** The longest prefix of `s` made of decimal digits. */
  function LeadingDigits(s: string): (d: string)
    ensures AllDigits(d) && d <= s
    ensures d == s || !IsDigit(s[|d|])
  {
    if s == [] || !IsDigit(s[0]) then [] else [s[0]] + LeadingDigits(s[1..])
  }

  /** The value of a string of decimal digits, most significant first. */
  function DigitsValue(d: string): (n: nat)
    requires AllDigits(d)
  {
    if d == [] then 0 else DigitsValue(d[..|d| - 1]) * 10 + (d[|d| - 1] as int - '0' as int)
  }

  /**
   * `(int)$s`: an optional sign followed by the leading run of decimal
   * digits; a string without leading digits casts to 0.
   */
  function IntCast(s: string): (n: int)
    ensures n < 0 ==> s != [] && s[0] == '-'
    ensures n != 0 ==> exists i :: 0 <= i < |s| && IsDigit(s[i])
  {
    if s != [] && s[0] == '-' then -(DigitsValue(LeadingDigits(s[1..])) as int)
    else if s != [] && s[0] == '+' then DigitsValue(LeadingDigits(s[1..]))
    else DigitsValue(LeadingDigits(s))
  }

  /** The canonical decimal form of a natural number, as PHP prints it. */
  function Decimal(n: nat): (s: string)
    ensures s != [] && AllDigits(s)
  {
    if n < 10 then [('0' as int + n) as char]
    else Decimal(n / 10) + [('0' as int + n % 10) as char]
  }

  lemma {:induction false} DecimalValue(n: nat)
    ensures DigitsValue(Decimal(n)) == n
  {
    if n >= 10 {
      var s := Decimal(n);
      assert s[..|s| - 1] == Decimal(n / 10);
      DecimalValue(n / 10);
    }
  }

  lemma {:induction false} LeadingDigitsOfDigits(s: string)
    requires AllDigits(s)
    ensures LeadingDigits(s) == s
  {
    if s != [] {
      LeadingDigitsOfDigits(s[1..]);
    }
  }

  /** Casting the decimal form of an integer back with `(int)` gives that integer. */
  lemma IntCastOfDecimal(n: int)
    ensures n >= 0 ==> IntCast(Decimal(n)) == n
    ensures n < 0 ==> IntCast("-" + Decimal(-n)) == n
  {
    if n >= 0 {
      LeadingDigitsOfDigits(Decimal(n));
      DecimalValue(n);
    } else {
      var s := "-" + Decimal(-n);
      assert s[1..] == Decimal(-n);
      LeadingDigitsOfDigits(Decimal(-n));
      DecimalValue(-n);
    }
  }
}
