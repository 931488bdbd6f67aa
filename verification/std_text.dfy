/** The pieces of Rust's standard text handling that the task store relies on:
    `Display` for integers and booleans, `str::parse` for `u32`, `i64` and
    `bool`, and `str::split` on a single character. */
module StdText {
  import opened Outcomes

  const MAX_U32: int := 0xFFFF_FFFF
  const MIN_I64: int := -0x8000_0000_0000_0000
  const MAX_I64: int := 0x7FFF_FFFF_FFFF_FFFF

  /** Rust's `i64`. */
  type I64 = x: int | MIN_I64 <= x <= MAX_I64

  predicate IsDigit(c: char) { '0' <= c <= '9' }

  predicate AllDigits(s: string) { forall k :: 0 <= k < |s| ==> IsDigit(s[k]) }

  function DigitValue(c: char): nat
    requires IsDigit(c)
  {
    c as int - '0' as int
  }

  function DigitChar(d: nat): char
    requires d < 10
  {
    (d + '0' as int) as char
  }

  /** The value of a run of decimal digits, most significant digit first. */
  function DigitsValue(s: string): nat
    requires AllDigits(s)
  {
    if s == [] then 0 else 10 * DigitsValue(s[..|s| - 1]) + DigitValue(s[|s| - 1])
  }

  /** The decimal text `Display` prints for a non-negative integer. */
  function NatText(n: nat): (r: string)
    ensures r != [] && AllDigits(r)
    ensures DigitsValue(r) == n
  {
    if n < 10 then [DigitChar(n)]
    else
      var prefix := NatText(n / 10);
      var r := prefix + [DigitChar(n % 10)];
      assert r[..|r| - 1] == prefix;
      r
  }

  /** The text `Display` prints for an `i64`: a `-` before the magnitude of a negative value. */
  function I64Text(n: I64): string
  {
    if n < 0 then "-" + NatText(-(n as int)) else NatText(n)
  }

  /** `str::parse::<u32>()`: an optional `+`, then at least one decimal digit,
      and a value that fits in 32 bits. */
  function ParseU32(s: string): (r: Option<nat>)
    ensures r.Some? ==> r.value <= MAX_U32
  {
    var digits := if |s| > 0 && s[0] == '+' then s[1..] else s;
    if digits != [] && AllDigits(digits) && DigitsValue(digits) <= MAX_U32
    then Some(DigitsValue(digits))
    else None
  }

  /** `str::parse::<i64>()`: an optional sign, then at least one decimal digit,
      and a value in the `i64` range. */
  function ParseI64(s: string): Option<I64>
  {
    if |s| > 0 && s[0] == '-' then
      var digits := s[1..];
      if digits != [] && AllDigits(digits) && DigitsValue(digits) <= -MIN_I64
      then Some((0 - DigitsValue(digits)) as I64)
      else None
    else
      var digits := if |s| > 0 && s[0] == '+' then s[1..] else s;
      if digits != [] && AllDigits(digits) && DigitsValue(digits) <= MAX_I64
      then Some(DigitsValue(digits))
      else None
  }

  /** The text `Display` prints for a `bool`. */
  function BoolText(b: bool): string
  {
    if b then "true" else "false"
  }

  /** `str::parse::<bool>()`: exactly `true` or exactly `false`. */
  function ParseBool(s: string): Option<bool>
  {
    if s == "true" then Some(true)
    else if s == "false" then Some(false)
    else None
  }

  /** A numeral `parse::<u32>` accepts without a sign: at least one digit, a
      value that fits in 32 bits, leading zeros allowed. */
  predicate Numeral(s: string)
  {
    s != [] && AllDigits(s) && DigitsValue(s) <= MAX_U32
  }

  /** A numeral parses as its value, leading zeros included. */
  lemma ParseU32Digits(s: string)
    requires Numeral(s)
    ensures ParseU32(s) == Some(DigitsValue(s))
  {
    assert IsDigit(s[0]);
  }

  /** Parsing the text `Display` prints for a `u32` gives the value back. */
  lemma U32RoundTrip(n: nat)
    requires n <= MAX_U32
    ensures ParseU32(NatText(n)) == Some(n)
  {
  }

  /** Parsing the text `Display` prints for an `i64` gives the value back. */
  lemma I64RoundTrip(n: I64)
    ensures ParseI64(I64Text(n)) == Some(n)
  {
    if n < 0 {
      assert ("-" + NatText(-(n as int)))[1..] == NatText(-(n as int));
    }
  }

  /** A `bool` survives `Display` followed by `parse`, and nothing but the two
      literals parses. */
  lemma BoolRoundTrip(b: bool, s: string)
    ensures ParseBool(BoolText(b)) == Some(b)
    ensures ParseBool(s).Some? <==> s == "true" || s == "false"
  {
  }

  /** The text of an `i64` is digits with a leading minus sign exactly when
      the value is negative. */
  lemma I64TextShape(n: I64)
    ensures I64Text(n) != [] && (I64Text(n)[0] == '-' <==> n < 0)
    ensures forall k :: 0 <= k < |I64Text(n)| ==> IsDigit(I64Text(n)[k]) || (k == 0 && I64Text(n)[k] == '-')
  {
  }

  /** What `parse::<i64>` accepts: a non-empty text whose characters after
      the first are digits, with a minus sign in front of every negative
      value; text that starts with a digit is read as its decimal value. */
  lemma ParseI64Shape(s: string)
    ensures ParseI64(s).Some? ==> s != [] && forall k :: 0 < k < |s| ==> IsDigit(s[k])
    ensures ParseI64(s).Some? && ParseI64(s).value < 0 ==> s[0] == '-'
    ensures ParseI64(s).Some? && s[0] != '-' && s[0] != '+' ==> AllDigits(s) && ParseI64(s).value == DigitsValue(s)
  {
  }

  /** `str::split(sep)`: the pieces between occurrences of `sep`, empty pieces included. */
  function Split(s: string, sep: char): (r: seq<string>)
    ensures |r| >= 1
    ensures forall k :: 0 <= k < |r| ==> sep !in r[k]
    ensures Join(r, sep) == s
  {
    if s == [] then [[]]
    else
      var tail := Split(s[1..], sep);
      if s[0] == sep then [[]] + tail
      else
        var r := [[s[0]] + tail[0]] + tail[1..];
        assert r[1..] == tail[1..];
        r
  }

  /** The pieces joined back with the separator: the inverse of `Split`. */
  function Join(pieces: seq<string>, sep: char): string
    requires |pieces| >= 1
  {
    if |pieces| == 1 then pieces[0] else pieces[0] + [sep] + Join(pieces[1..], sep)
  }

  /** A text without the separator is one piece. */
  lemma {:induction false} SplitWhole(s: string, sep: char)
    requires sep !in s
    ensures Split(s, sep) == [s]
  {
    if s != [] {
      SplitWhole(s[1..], sep);
    }
  }

  /** The first piece ends at the first separator. */
  lemma {:induction false} SplitFirst(a: string, sep: char, b: string)
    requires sep !in a
    ensures Split(a + [sep] + b, sep) == [a] + Split(b, sep)
  {
    if a == [] {
      assert (a + [sep] + b)[1..] == b;
    } else {
      assert (a + [sep] + b)[1..] == a[1..] + [sep] + b;
      SplitFirst(a[1..], sep, b);
      var tail := Split(a[1..] + [sep] + b, sep);
      assert tail[0] == a[1..] && tail[1..] == Split(b, sep);
      assert [a[0]] + a[1..] == a;
    }
  }
}
