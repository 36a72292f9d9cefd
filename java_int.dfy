/** Java's decimal `int` text: `Integer.parseInt`, which the receiver applies
    to placeholder strings, and `Integer.toString`, the form in which a tag
    is written into the text frame. Only the ASCII digits '0'..'9' are
    modelled. */
module JavaInt {
  import opened Json

  predicate IsDigit(c: char) { '0' <= c <= '9' }

  predicate AllDigits(ds: string) { forall i :: 0 <= i < |ds| ==> IsDigit(ds[i]) }

  function DigitChar(d: nat): char
    requires d < 10
  {
    ('0' as int + d) as char
  }

  /** The value of a string of decimal digits, most significant digit first. */
  function DigitsValue(ds: string): nat
    requires AllDigits(ds)
  {
    if ds == [] then 0
    else DigitsValue(ds[..|ds| - 1]) * 10 + (ds[|ds| - 1] as int - '0' as int)
  }

  /** `Integer.parseInt(s)`: an optional '+' or '-', then at least one digit,
      and the value must fit in an `int`; anything else is a
      NumberFormatException, here `None`. Leading zeros are accepted. */
  function ParseInt(s: string): (r: Option<Int32>)
    // accepted text: a sign only in front, digits elsewhere, ending in a digit
    ensures r.Some? ==> |s| > 0 && IsDigit(s[|s| - 1])
    ensures r.Some? ==> forall i :: 0 <= i < |s| ==> IsDigit(s[i]) || (i == 0 && (s[i] == '-' || s[i] == '+'))
    // unsigned and '+' forms: accepted exactly when the value is below 2^31
    ensures |s| > 0 && AllDigits(s) ==>
              (r.Some? <==> DigitsValue(s) < 0x8000_0000) && (r.Some? ==> r.value == DigitsValue(s))
    ensures |s| > 1 && s[0] == '+' && AllDigits(s[1..]) ==>
              (r.Some? <==> DigitsValue(s[1..]) < 0x8000_0000) && (r.Some? ==> r.value == DigitsValue(s[1..]))
    // '-' form: accepted down to -2^31
    ensures |s| > 1 && s[0] == '-' && AllDigits(s[1..]) ==>
              (r.Some? <==> DigitsValue(s[1..]) <= 0x8000_0000) && (r.Some? ==> r.value == -(DigitsValue(s[1..]) as int))
  {
    if |s| == 0 then None
    else
      var body := if s[0] == '-' || s[0] == '+' then s[1..] else s;
      if |body| == 0 || !AllDigits(body) then None
      else
        var v: int := if s[0] == '-' then -(DigitsValue(body) as int) else DigitsValue(body);
        if -0x8000_0000 <= v < 0x8000_0000 then Some(v) else None
  }

  /** The shortest decimal digits of `n`. */
  function NatDigits(n: nat): (ds: string)
    ensures |ds| > 0 && AllDigits(ds)
  {
    if n < 10 then [DigitChar(n)] else NatDigits(n / 10) + [DigitChar(n % 10)]
  }

  /** `Integer.toString(x)`: a '-' for negative values, then the digits. */
  function Decimal(x: int): string
  {
    if x < 0 then "-" + NatDigits(-x) else NatDigits(x)
  }

  lemma {:induction false} DigitsRoundTrip(n: nat)
    ensures DigitsValue(NatDigits(n)) == n
  {
    if n >= 10 {
      var ds := NatDigits(n);
      assert ds[..|ds| - 1] == NatDigits(n / 10);
      DigitsRoundTrip(n / 10);
    }
  }

  /** Parsing what `Integer.toString` printed gives the int back. */
  lemma ParseDecimal(x: Int32)
    ensures ParseInt(Decimal(x)) == Some(x)
  {
    if x < 0 {
      DigitsRoundTrip(-(x as int));
      assert Decimal(x)[1..] == NatDigits(-(x as int));
    } else {
      DigitsRoundTrip(x);
      assert IsDigit(NatDigits(x)[0]);
    }
  }
}
