/**
 * Python's `round(x, 2)` and `str()` of the float it returns, over exact reals.
 * Rounding is half-up on the real value; the rendering is that of a float
 * holding at most two decimals: an integer part, a point, and one or two
 * fraction digits (`95.0`, `3.25`, `1.3`, `-0.25`).
 */
module Rounding {
  import opened Wrappers
  import opened Text

  /** The number of hundredths nearest to `x` (halves round up). */
  function Hundredths(x: real): (h: int)
    ensures h as real - 0.5 <= 100.0 * x < h as real + 0.5
  {
    (x * 100.0 + 0.5).Floor
  }

  /** `round(x, 2)`: the multiple of 0.01 nearest to `x`. */
  function Round2(x: real): (r: real)
    ensures x - 0.005 < r <= x + 0.005
    ensures r * 100.0 == Hundredths(x) as real
  {
    Hundredths(x) as real / 100.0
  }

  /** Rounding a value that is already rounded changes nothing. */
  lemma Round2Idempotent(x: real)
    ensures Hundredths(Round2(x)) == Hundredths(x)
    ensures Round2(Round2(x)) == Round2(x)
  {
    var h := Hundredths(x);
    assert Round2(x) * 100.0 + 0.5 == h as real + 0.5;
  }

  /** Rounding is monotone. */
  lemma Round2Monotone(x: real, y: real)
    requires x <= y
    ensures Round2(x) <= Round2(y)
  {
    var hx, hy := Hundredths(x), Hundredths(y);
    assert hx as real <= 100.0 * y + 0.5 < hy as real + 1.0;
    assert hx <= hy;
    assert Round2(x) == hx as real / 100.0 && Round2(y) == hy as real / 100.0;
  }

  /** A non-negative value never rounds to a negative one. */
  lemma Round2NonNegative(x: real)
    requires x >= 0.0
    ensures Round2(x) >= 0.0
  {
    Round2Monotone(0.0, x);
    assert Hundredths(0.0) == 0;
  }

  /** The fraction digits of `f` hundredths: trailing zero dropped, one digit kept. */
  function FractionDigits(f: nat): (s: string)
    requires f < 100
    ensures 1 <= |s| <= 2
    ensures |s| == 1 <==> f % 10 == 0
    ensures forall i :: 0 <= i < |s| ==> IsDigit(s[i])
  {
    if f % 10 == 0 then [DigitChar(f / 10)] else [DigitChar(f / 10), DigitChar(f % 10)]
  }

  /** How Python prints the float `h / 100`. */
  function FormatHundredths(h: int): (s: string)
    ensures |s| >= 3
    ensures IsDigit(s[0]) || s[0] == '-'
  {
    var a: nat := if h < 0 then -h else h;
    (if h < 0 then "-" else "") + NatToString(a / 100) + "." + FractionDigits(a % 100)
  }

  /** `str(x)` for a float `x` holding at most two decimals. */
  function Show2(x: real): (s: string)
    ensures |s| >= 3
    ensures IsDigit(s[0]) || s[0] == '-'
  {
    FormatHundredths(Hundredths(x))
  }

  /** The value of one or two fraction digits, in hundredths. */
  function FractionValue(t: string): Option<nat>
  {
    if |t| == 1 && IsDigit(t[0]) then Some(DigitsValue(t) * 10)
    else if |t| == 2 && IsDigit(t[0]) && IsDigit(t[1]) then Some(DigitsValue(t))
    else None
  }

  /** Position of the first `c` in `s`, if any. */
  function IndexOf(s: string, c: char): (k: Option<nat>)
    ensures k.Some? ==> k.value < |s| && s[k.value] == c && c !in s[..k.value]
    ensures k.None? ==> c !in s
  {
    if s == [] then None
    else if s[0] == c then Some(0)
    else match IndexOf(s[1..], c)
      case None => None
      case Some(k) => assert s[..k + 1] == [s[0]] + s[1..][..k]; Some(k + 1)
  }

  /** Reads `digits.fraction` back into hundredths. */
  function ParseUnsigned(s: string): Option<nat>
  {
    match IndexOf(s, '.')
    case None => None
    case Some(k) =>
      var whole, frac := s[..k], s[k + 1..];
      if whole != [] && (forall i :: 0 <= i < |whole| ==> IsDigit(whole[i])) then
        match FractionValue(frac)
        case None => None
        case Some(f) => Some(DigitsValue(whole) * 100 + f)
      else None
  }

  /** Reads a printed two-decimal number back into hundredths. */
  function ParseHundredths(s: string): Option<int>
  {
    if s != [] && s[0] == '-' then
      match ParseUnsigned(s[1..])
      case None => None
      case Some(a) => Some(-(a as int))
    else ParseUnsigned(s)
  }

  lemma {:induction false} FractionRoundTrip(f: nat)
    requires f < 100
    ensures FractionValue(FractionDigits(f)) == Some(f)
  {
    var t := FractionDigits(f);
    if f % 10 == 0 {
      assert t[..0] == [];
      assert DigitsValue(t) == (f / 10);
    } else {
      assert t[..1] == [DigitChar(f / 10)];
      assert t[..1][..0] == [];
      assert DigitsValue(t[..1]) == f / 10;
      assert DigitsValue(t) == DigitsValue(t[..1]) * 10 + f % 10;
    }
  }

  lemma {:induction false} UnsignedRoundTrip(a: nat)
    ensures ParseUnsigned(NatToString(a / 100) + "." + FractionDigits(a % 100)) == Some(a)
  {
    var whole, frac := NatToString(a / 100), FractionDigits(a % 100);
    var s := whole + "." + frac;
    assert '.' !in whole by {
      forall i | 0 <= i < |whole| ensures whole[i] != '.' {
        assert IsDigit(whole[i]);
      }
    }
    assert s[|whole|] == '.';
    assert s[..|whole|] == whole;
    assert IndexOf(s, '.') == Some(|whole|);
    assert s[|whole| + 1..] == frac;
    NatToStringRoundTrip(a / 100);
    FractionRoundTrip(a % 100);
  }

  /** Reading back the printed form gives the same number of hundredths. */
  lemma {:induction false} FormatHundredthsRoundTrip(h: int)
    ensures ParseHundredths(FormatHundredths(h)) == Some(h)
  {
    var a: nat := if h < 0 then -h else h;
    var body := NatToString(a / 100) + "." + FractionDigits(a % 100);
    UnsignedRoundTrip(a);
    if h < 0 {
      assert FormatHundredths(h) == "-" + body;
      assert ("-" + body)[1..] == body;
    } else {
      assert FormatHundredths(h) == body;
      assert IsDigit(body[0]);
    }
  }

  /** Two values that round differently are printed differently. */
  lemma Show2Injective(x: real, y: real)
    requires Round2(x) != Round2(y)
    ensures Show2(x) != Show2(y)
  {
    FormatHundredthsRoundTrip(Hundredths(x));
    FormatHundredthsRoundTrip(Hundredths(y));
  }

  /** A whole percentage keeps one fraction digit, a value with hundredths keeps two. */
  lemma Show2Examples()
    ensures Show2(95.0) == "95.0"
    ensures Show2(3.25) == "3.25"
    ensures Show2(-1.8) == "-1.8"
  {
    assert Hundredths(95.0) == 9500;
    assert NatToString(9) == "9";
    assert NatToString(95) == "95";
    assert Hundredths(3.25) == 325;
    assert NatToString(3) == "3";
    assert Hundredths(-1.8) == -180;
    assert NatToString(1) == "1";
  }
}
