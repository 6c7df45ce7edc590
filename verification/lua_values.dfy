/**
 * Lua values as the native modules see them on the Lua stack, and the
 * decimal text of an integer ("%lld", which is also what Lua itself uses
 * to turn an integer into a string).
 */
module LuaValues {
  import opened Common

  /** A value on the Lua stack. Floats are not modelled beyond their type;
      the other reference types carry the text of their address. */
  datatype Value =
    | Nil
    | Boolean(b: bool)
    | Integer(i: int)
    | Float
    | Str(s: string)
    | Table(address: string)
    | Function(address: string)
    | Userdata(address: string)
    | Thread(address: string)
    | LightUserdata(address: string)

  const INT64_MIN: int := -0x8000_0000_0000_0000
  const INT64_MAX: int := 0x7FFF_FFFF_FFFF_FFFF

  predicate IsDigit(c: char) {
    '0' <= c <= '9'
  }

  predicate AllDigits(s: string) {
    forall k :: 0 <= k < |s| ==> IsDigit(s[k])
  }

  function DigitChar(d: nat): (c: char)
    requires d < 10
    ensures IsDigit(c)
  {
    "0123456789"[d]
  }

  function DigitValue(c: char): nat
    requires IsDigit(c)
  {
    (c - '0') as nat
  }

  /** The decimal digits of n, most significant first, without leading
      zeros. */
  function Digits(n: nat): (r: string)
    ensures |r| >= 1 && AllDigits(r)
    ensures n > 0 ==> r[0] != '0'
  {
    if n < 10 then [DigitChar(n)] else Digits(n / 10) + [DigitChar(n % 10)]
  }

  /** The number a string of digits denotes (the reference inverse). */
  function ParseDigits(s: string): nat
    requires AllDigits(s)
  {
    if |s| == 0 then 0 else ParseDigits(s[..|s| - 1]) * 10 + DigitValue(s[|s| - 1])
  }

  lemma DigitRoundTrip(d: nat)
    requires d < 10
    ensures DigitValue(DigitChar(d)) == d
  {
  }

  lemma {:induction false} ParseDigitsOfDigits(n: nat)
    ensures ParseDigits(Digits(n)) == n
  {
    if n >= 10 {
      ParseDigitsOfDigits(n / 10);
      var r := Digits(n);
      assert r[..|r| - 1] == Digits(n / 10);
      DigitRoundTrip(n % 10);
    } else {
      DigitRoundTrip(n);
    }
  }

  /** printf("%lld", i). */
  function DecimalText(i: int): (r: string)
    ensures |r| >= 1
    ensures i < 0 <==> r[0] == '-'
  {
    if i < 0 then "-" + Digits(-i) else Digits(i)
  }

  /** Reading the text back (the reference inverse of DecimalText). */
  function ParseDecimal(s: string): Option<int>
  {
    if |s| >= 2 && s[0] == '-' && AllDigits(s[1..]) then
      Some(-(ParseDigits(s[1..]) as int))
    else if |s| >= 1 && AllDigits(s) then
      Some(ParseDigits(s) as int)
    else None
  }

  lemma NonNegativeRoundTrip(n: nat)
    ensures ParseDecimal(Digits(n)) == Some(n)
  {
    var r := Digits(n);
    assert r[0] != '-' by { assert IsDigit(r[0]); }
    ParseDigitsOfDigits(n);
  }

  lemma NegativeRoundTrip(n: nat)
    ensures ParseDecimal("-" + Digits(n)) == Some(-(n as int))
  {
    var r := "-" + Digits(n);
    assert r[1..] == Digits(n);
    ParseDigitsOfDigits(n);
  }

  /** The decimal text of every integer reads back as that integer. */
  lemma DecimalRoundTrip(i: int)
    ensures ParseDecimal(DecimalText(i)) == Some(i)
  {
    if i < 0 {
      assert DecimalText(i) == "-" + Digits(-i);
      NegativeRoundTrip(-i);
    } else {
      assert DecimalText(i) == Digits(i);
      NonNegativeRoundTrip(i);
    }
  }

  function Pow10(k: nat): (r: nat)
    ensures r >= 1
  {
    if k == 0 then 1 else 10 * Pow10(k - 1)
  }

  lemma {:induction false} DigitsLength(n: nat, k: nat)
    requires 1 <= k && n < Pow10(k)
    ensures |Digits(n)| <= k
  {
    if n >= 10 {
      DigitsLength(n / 10, k - 1);
    }
  }

  /** Every 64-bit integer's text, sign included, fits in 20 characters,
      so the 64-byte formatting buffers never cut it short. */
  lemma DecimalFitsBuffer(i: int)
    requires INT64_MIN <= i <= INT64_MAX
    ensures |DecimalText(i)| <= 20
  {
    assert Pow10(19) == 10_000_000_000_000_000_000 by {
      assert Pow10(4) == 10_000;
      assert Pow10(8) == 100_000_000;
      assert Pow10(12) == 1_000_000_000_000;
      assert Pow10(16) == 10_000_000_000_000_000;
    }
    if i < 0 {
      DigitsLength(-i, 19);
    } else {
      DigitsLength(i, 19);
    }
  }
}
