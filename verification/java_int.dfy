/**
 * Java's 32-bit `int`, as far as the flashcard program uses it: the mistake counter, its
 * `+ 1`, `Integer.toString` when a card is exported and `Integer.parseInt` when a row is read.
 */
module JavaInt {
  import opened Wrappers

  const MIN: int := -0x8000_0000
  const MAX: int := 0x7fff_ffff

  newtype int32 = x: int | -0x8000_0000 <= x < 0x8000_0000

  /** Java's `x + 1` on an `int`: congruent to x + 1 modulo 2^32, so it wraps at the top. */
  function Inc(x: int32): (r: int32)
    ensures (r as int - x as int - 1) % 0x1_0000_0000 == 0
    ensures x as int < MAX ==> r as int > x as int
  {
    if x as int == MAX then MIN as int32 else x + 1
  }

  predicate IsDigit(c: char) {
    '0' <= c <= '9'
  }

  predicate AllDigits(s: string) {
    forall i :: 0 <= i < |s| ==> IsDigit(s[i])
  }

  function DigitChar(d: nat): (c: char)
    requires d < 10
    ensures IsDigit(c)
  {
    ('0' as int + d) as char
  }

  /** Decimal digits of n, most significant first, without leading zeros. */
  function NatToString(n: nat): (s: string)
    ensures |s| > 0 && AllDigits(s)
    ensures s[0] == '0' <==> n == 0
    decreases n
  {
    if n < 10 then [DigitChar(n)] else NatToString(n / 10) + [DigitChar(n % 10)]
  }

  /** The number a string of decimal digits denotes. */
  function DigitsValue(s: string): nat
    requires AllDigits(s)
  {
    if |s| == 0 then 0 else DigitsValue(s[..|s| - 1]) * 10 + (s[|s| - 1] as int - '0' as int)
  }

  /** `Integer.toString(x)`: a minus sign for negative values, then the magnitude in decimal. */
  function ToString(x: int32): (s: string)
    ensures |s| > 0
    ensures s[0] == '-' <==> x < 0
    ensures forall i :: (if x < 0 then 1 else 0) <= i < |s| ==> IsDigit(s[i])
    ensures x < 0 ==> |s| > 1
    ensures s[if x < 0 then 1 else 0] == '0' ==> x == 0
    ensures DigitsValue(s[if x < 0 then 1 else 0..]) == if x < 0 then -(x as int) else x as int
  {
    if x < 0 then
      var m := NatToString(-(x as int));
      assert forall i :: 1 <= i < |m| + 1 ==> ("-" + m)[i] == m[i - 1];
      assert ("-" + m)[1..] == m;
      DigitsRoundTrip(-(x as int));
      "-" + m
    else
      DigitsRoundTrip(x as int);
      NatToString(x as int)
  }

  /**
   * `Integer.parseInt(s)` for ASCII input: an optional sign, at least one digit and a value in
   * range; `None` wherever Java throws `NumberFormatException`.
   */
  function Parse(s: string): (r: Option<int32>)
    ensures r.Some? ==> |s| > 0 && (r.value < 0 ==> s[0] == '-')
    ensures r.Some? ==> var digits := if s[0] == '-' || s[0] == '+' then s[1..] else s;
      |digits| > 0 && AllDigits(digits)
    ensures |s| > 0 && AllDigits(s) && DigitsValue(s) <= MAX ==> r == Some(DigitsValue(s) as int32)
    ensures |s| > 1 && s[0] == '+' && AllDigits(s[1..]) && DigitsValue(s[1..]) <= MAX ==>
      r == Some(DigitsValue(s[1..]) as int32)
    ensures |s| > 1 && s[0] == '-' && AllDigits(s[1..]) && DigitsValue(s[1..]) <= -MIN ==>
      r == Some((-(DigitsValue(s[1..]) as int)) as int32)
    ensures r.Some? ==> var digits := if s[0] == '-' || s[0] == '+' then s[1..] else s;
      r.value as int == if s[0] == '-' then -(DigitsValue(digits) as int) else DigitsValue(digits) as int
  {
    if |s| == 0 then None
    else
      var digits := if s[0] == '-' || s[0] == '+' then s[1..] else s;
      if |digits| == 0 || !AllDigits(digits) then None
      else
        var n: int := DigitsValue(digits);
        var v := if s[0] == '-' then -n else n;
        if MIN <= v <= MAX then Some(v as int32) else None
  }

  lemma {:induction false} DigitsRoundTrip(n: nat)
    ensures DigitsValue(NatToString(n)) == n
    decreases n
  {
    if n >= 10 {
      var s := NatToString(n);
      assert s[..|s| - 1] == NatToString(n / 10);
      DigitsRoundTrip(n / 10);
    }
  }

  /** Reading back what `Integer.toString` wrote gives the same number, for every int. */
  lemma ParseToString(x: int32)
    ensures Parse(ToString(x)) == Some(x)
    ensures |ToString(x)| > 0 && ':' !in ToString(x) && '\n' !in ToString(x)
  {
    var s := ToString(x);
    if x < 0 {
      var m := NatToString(-(x as int));
      DigitsRoundTrip(-(x as int));
      assert s[1..] == m;
    } else {
      DigitsRoundTrip(x as int);
    }
    assert forall i :: 0 <= i < |s| ==> s[i] == '-' || IsDigit(s[i]);
  }
}
