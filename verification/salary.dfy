/** Salaries as whole cents. The source keeps a salary as a Python float parsed
    by `float(text)` and writes it back with two decimals (`f"{x:.2f}"`); the
    model reads the decimal subset of `float` syntax that has at most two
    fractional digits, exactly, and renders cents the same way. */
module Salary {
  import opened Text
  import opened Results

  predicate AllDigits(s: string) {
    forall i :: 0 <= i < |s| ==> IsDigit(s[i])
  }

  /** Some character of `s` is a decimal digit. */
  predicate HasDigit(s: string) {
    exists i :: 0 <= i < |s| && IsDigit(s[i])
  }

  lemma HasDigitAfterSign(t: string)
    requires t != [] && HasDigit(t[1..])
    ensures HasDigit(t)
  {
    var i :| 0 <= i < |t[1..]| && IsDigit(t[1..][i]);
    assert IsDigit(t[i + 1]);
  }

  function DigitValue(c: char): nat
    requires IsDigit(c)
  {
    c as int - '0' as int
  }

  function Digit(n: nat): (c: char)
    requires n < 10
    ensures IsDigit(c) && DigitValue(c) == n
  {
    ('0' as int + n) as char
  }

  /** Value of a run of decimal digits, most significant first. */
  function DigitsValue(s: string): nat
    requires AllDigits(s)
  {
    if s == [] then 0 else DigitsValue(s[..|s| - 1]) * 10 + DigitValue(s[|s| - 1])
  }

  /** Decimal digits of `n` without leading zeros: the integer part of `:.2f`. */
  function NatToDecimal(n: nat): (r: string)
    ensures r != [] && AllDigits(r) && DigitsValue(r) == n
  {
    if n < 10 then [Digit(n)]
    else
      var r := NatToDecimal(n / 10) + [Digit(n % 10)];
      assert r[..|r| - 1] == NatToDecimal(n / 10);
      r
  }

  /** An unsigned decimal `digits[.digits]`, with at least one digit in all and
      at most two after the point, in cents. */
  function ParseUnsigned(u: string): (r: Option<nat>)
    ensures r.Some? ==> HasDigit(u)
  {
    var dot := FindChar(u, '.', 0);
    var whole := u[..dot];
    var frac := if dot < |u| then u[dot + 1..] else [];
    if AllDigits(whole) && AllDigits(frac) && |whole| + |frac| >= 1 && |frac| <= 2 then
      assert |whole| >= 1 ==> IsDigit(u[0]);
      assert |whole| == 0 ==> IsDigit(u[dot + 1]);
      Some(DigitsValue(whole) * 100 + (if |frac| == 1 then DigitsValue(frac) * 10 else DigitsValue(frac)))
    else
      None
  }

  /** An unsigned amount with the sign in front of it applied. */
  function ApplySign(negative: bool, u: Option<nat>): (r: Option<int>)
    ensures r.Some? <==> u.Some?
    ensures r.Some? ==> (r.value < 0 ==> negative) && (if negative then r.value == -(u.value as int) else r.value == u.value)
  {
    match u
    case None => None
    case Some(c) => if negative then Some(-(c as int)) else Some(c as int)
  }

  /** `float(t)` in cents for text without surrounding whitespace: one
      optional sign, then an unsigned decimal. Text with no digit, or with any
      other character, does not parse. */
  function ParseNumber(t: string): (r: Option<int>)
    ensures r.Some? ==> HasDigit(t)
    ensures r.Some? && r.value < 0 ==> t[0] == '-'
  {
    if t != [] && (t[0] == '+' || t[0] == '-') then
      var u := ParseUnsigned(t[1..]);
      assert u.Some? ==> HasDigit(t) by {
        if u.Some? { HasDigitAfterSign(t); }
      }
      ApplySign(t[0] == '-', u)
    else
      ApplySign(false, ParseUnsigned(t))
  }

  /** `float(s)` in cents: surrounding whitespace is ignored. */
  function ParseAmount(s: string): (r: Option<int>)
    ensures r.Some? ==> HasDigit(Strip(s))
  {
    ParseNumber(Strip(s))
  }

  /** A plain run of digits reads as that many whole units. */
  lemma DigitsParse(s: string)
    requires s != [] && AllDigits(s)
    ensures ParseUnsigned(s) == Some(DigitsValue(s) * 100)
  {
    assert FindChar(s, '.', 0) == |s| by {
      forall k | 0 <= k < |s| ensures s[k] != '.' {
        assert IsDigit(s[k]);
      }
    }
    assert s[..|s|] == s;
  }

  /** Cents written with two decimals, as `f"{x:.2f}"` writes a salary, with a
      leading '-' for a negative amount. */
  function FormatAmount(c: int): (r: string)
    ensures r != [] && IsDigit(r[|r| - 1])
    ensures c >= 0 ==> IsDigit(r[0])
    ensures c < 0 ==> r[0] == '-'
    decreases if c < 0 then 1 else 0
  {
    if c < 0 then "-" + FormatAmount(-c)
    else NatToDecimal(c / 100) + "." + [Digit(c % 100 / 10), Digit(c % 10)]
  }

  /** A rendering holds digits, a point and perhaps a sign, so no line break. */
  lemma {:induction false} FormatAmountUnbroken(c: int)
    ensures Unbroken(FormatAmount(c))
    decreases if c < 0 then 1 else 0
  {
    if c < 0 {
      FormatAmountUnbroken(-c);
    } else {
      var w := NatToDecimal(c / 100);
      assert forall k :: 0 <= k < |w| ==> IsDigit(w[k]);
    }
  }

  /** The two fractional digits of a rendering are read back as the cents. */
  lemma CentsDigits(n: nat)
    ensures DigitsValue([Digit(n % 100 / 10), Digit(n % 10)]) == n % 100
  {
    var frac := [Digit(n % 100 / 10), Digit(n % 10)];
    assert frac[..1] == [frac[0]] && [frac[0]][..0] == [];
    assert DigitsValue([frac[0]]) == n % 100 / 10;
  }

  lemma {:induction false} UnsignedRoundTrip(n: nat)
    ensures ParseUnsigned(FormatAmount(n)) == Some(n)
  {
    var whole := NatToDecimal(n / 100);
    var frac := [Digit(n % 100 / 10), Digit(n % 10)];
    var u := whole + "." + frac;
    assert FormatAmount(n) == u;
    assert FindChar(u, '.', 0) == |whole| by {
      assert u[|whole|] == '.';
      forall k | 0 <= k < |whole| ensures u[k] != '.' {
        assert u[k] == whole[k] && IsDigit(whole[k]);
      }
    }
    assert u[..|whole|] == whole;
    assert u[|whole| + 1..] == frac;
    CentsDigits(n);
  }

  /** Reading back a rendered amount gives the amount: what makes a salary
      survive a save and a reload. */
  lemma AmountRoundTrip(c: int)
    ensures ParseAmount(FormatAmount(c)) == Some(c)
  {
    var n := if c < 0 then -c else c;
    UnsignedRoundTrip(n);
    var r := FormatAmount(c);
    StripFixed(r);
    if c < 0 {
      assert r == "-" + FormatAmount(n) && r[1..] == FormatAmount(n);
    }
    assert ParseNumber(r) == Some(c);
  }
}
