/** decimal.Parse(string) for amounts written as plain decimals: optional white space around the
    number, an optional leading sign, digits, and an optional decimal point with more digits. */
module DecimalParsing {
  import opened Wrappers
  import opened TextOps

  /** The white space decimal.Parse skips around a number: U+0009..U+000D and U+0020. */
  predicate IsNumberWhiteSpace(c: char)
  {
    c == ' ' || '\U{9}' <= c <= '\U{D}'
  }

  predicate IsDigit(c: char)
  {
    '0' <= c <= '9'
  }

  predicate AllDigits(s: string)
  {
    forall i :: 0 <= i < |s| ==> IsDigit(s[i])
  }

  /** The natural number a string of decimal digits denotes. */
  function DigitsValue(s: string): nat
    requires AllDigits(s)
  {
    if s == [] then 0 else DigitsValue(s[..|s| - 1]) * 10 + (s[|s| - 1] as int - '0' as int)
  }

  function Pow10(k: nat): (p: nat)
    ensures p >= 1
  {
    if k == 0 then 1 else 10 * Pow10(k - 1)
  }

  /** An unsigned number: digits, optionally a point and more digits, at least one digit in all. */
  function ParseUnsigned(s: string): Option<real>
  {
    var point := IndexOf(s, '.');
    var whole := if point < 0 then s else s[..point];
    var fraction := if point < 0 then "" else s[point + 1..];
    if AllDigits(whole) && AllDigits(fraction) && |whole| + |fraction| > 0 then
      Some(DigitsValue(whole) as real + DigitsValue(fraction) as real / Pow10(|fraction|) as real)
    else
      None
  }

  /** decimal.Parse: None stands for the FormatException it throws on text that is not a number. */
  function Parse(s: string): Option<real>
  {
    ParseSigned(TrimWith(s, IsNumberWhiteSpace))
  }

  /** A number without surrounding white space, with an optional leading sign. */
  function ParseSigned(t: string): Option<real>
  {
    if t != [] && (t[0] == '-' || t[0] == '+') then
      match ParseUnsigned(t[1..])
      case None => None
      case Some(v) => Some(if t[0] == '-' then -v else v)
    else
      ParseUnsigned(t)
  }

  function Digit(d: nat): (c: char)
    requires d < 10
    ensures IsDigit(c) && c as int - '0' as int == d
  {
    ('0' as int + d) as char
  }

  /** The decimal digits of `n`, without leading zeros. */
  function NatDigits(n: nat): (s: string)
    ensures s != [] && AllDigits(s)
    ensures DigitsValue(s) == n
  {
    if n < 10 then
      [Digit(n)]
    else
      var s := NatDigits(n / 10) + [Digit(n % 10)];
      assert s[..|s| - 1] == NatDigits(n / 10);
      s
  }


  /** The digits of `whole`, a point and two more digits read back as that number of hundredths. */
  lemma {:induction false} ParseUnsignedCents(whole: nat, tens: nat, units: nat)
    requires tens < 10 && units < 10
    ensures ParseUnsigned(NatDigits(whole) + "." + [Digit(tens), Digit(units)])
            == Some((100 * whole + 10 * tens + units) as real / 100.0)
  {
    var w := NatDigits(whole);
    var fraction := [Digit(tens), Digit(units)];
    var u := w + "." + fraction;
    assert IndexOf(u, '.') == |w| by {
      assert u[|w|] == '.';
      assert forall k :: 0 <= k < |w| ==> u[k] == w[k] && IsDigit(w[k]);
    }
    assert u[..|w|] == w;
    assert u[|w| + 1..] == fraction;
    assert DigitsValue(fraction) == 10 * tens + units by {
      assert fraction[..1] == [Digit(tens)];
      assert [Digit(tens)][..0] == [];
      assert DigitsValue([Digit(tens)]) == tens;
    }
    assert Pow10(2) == 100;
    assert whole as real + (10 * tens + units) as real / 100.0 == (100 * whole + 10 * tens + units) as real / 100.0;
  }

  lemma {:induction false} CentsDigits(n: nat)
    ensures 100 * (n / 100) + 10 * (n % 100 / 10) + n % 100 % 10 == n
  {
    var r := n % 100;
    assert n == 100 * (n / 100) + r;
    assert r == 10 * (r / 10) + r % 10;
  }

  /** A number that starts and ends with a digit is read without sign or white space. */
  lemma {:induction false} ParseDigitBounded(u: string)
    requires u != [] && IsDigit(u[0]) && IsDigit(u[|u| - 1])
    ensures Parse(u) == ParseUnsigned(u)
  {
    TrimWithKeeps(u, IsNumberWhiteSpace);
  }

  /** A minus sign before such a number negates it. */
  lemma {:induction false} ParseNegated(t: string, u: string, v: real)
    requires t == "-" + u
    requires u != [] && IsDigit(u[0]) && IsDigit(u[|u| - 1]) && ParseUnsigned(u) == Some(v)
    ensures Parse(t) == Some(-v)
  {
    assert t[0] == '-' && t[1..] == u;
    assert t[|t| - 1] == u[|u| - 1];
    TrimWithKeeps(t, IsNumberWhiteSpace);
  }

  /** An amount of `n` hundredths written with two decimal places: 12345 is "123.45". */
  function CentsLiteral(n: nat): (u: string)
    ensures u != [] && IsDigit(u[0]) && IsDigit(u[|u| - 1])
    ensures ParseUnsigned(u) == Some(n as real / 100.0)
  {
    var w := NatDigits(n / 100);
    var u := w + "." + [Digit(n % 100 / 10), Digit(n % 100 % 10)];
    ParseUnsignedCents(n / 100, n % 100 / 10, n % 100 % 10);
    CentsDigits(n);
    assert u[0] == w[0];
    u
  }

  /** An amount written with two decimal places reads back as exactly that amount. */
  lemma {:induction false} ParseCentsLiteral(n: nat)
    ensures Parse(CentsLiteral(n)) == Some(n as real / 100.0)
  {
    ParseDigitBounded(CentsLiteral(n));
  }

  lemma {:induction false} ParseUnsignedZero()
    ensures ParseUnsigned("0.00") == Some(0.0)
  {
    var z := "0.00";
    assert IndexOf(z, '.') == 1;
    assert z[..1] == "0" && z[1 + 1..] == "00";
    assert "00"[..1] == "0" && "0"[..0] == "";
    assert DigitsValue("00") == 0;
    assert Pow10(2) == 100;
  }

  /** The default text of the amount column reads as zero. */
  lemma {:induction false} ParseZero()
    ensures Parse("0.00") == Some(0.0)
  {
    ParseDigitBounded("0.00");
    ParseUnsignedZero();
  }

  /** Blank text is not a number. */
  lemma {:induction false} ParseEmpty()
    ensures Parse("") == None
  {
  }
}
