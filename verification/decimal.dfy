/**
 Decimal rendering of an integer, as string interpolation does for `int` (invariant
 culture: ASCII digits and a leading '-'). `Parse` reads such a rendering back; it is
 the inverse used to say which number a rendering names, not a model of a route binder.
 */
module Decimal {

  import opened Optional

  predicate IsDigit(c: char) {
    '0' <= c <= '9'
  }

  function DigitChar(d: nat): (c: char)
    requires d < 10
    ensures IsDigit(c) && c as int - '0' as int == d
  {
    (d + '0' as int) as char
  }

  /** The digits of `s` read as a natural number; None unless `s` is a non-empty run of digits. */
  function ParseNat(s: string): (r: Option<nat>)
    ensures r.Some? <==> |s| > 0 && forall i :: 0 <= i < |s| ==> IsDigit(s[i])
    decreases |s|
  {
    if |s| == 0 || !IsDigit(s[|s| - 1]) then None
    else
      var d := s[|s| - 1] as int - '0' as int;
      if |s| == 1 then Some(d)
      else match ParseNat(s[..|s| - 1])
        case None => None
        case Some(v) => Some(10 * v + d)
  }

  /** An optional '-' followed by digits. */
  function Parse(s: string): (r: Option<int>)
    ensures r.Some? && r.value < 0 ==> |s| > 1 && s[0] == '-'
  {
    if |s| > 0 && s[0] == '-' then
      match ParseNat(s[1..])
      case None => None
      case Some(v) => Some(-(v as int))
    else
      match ParseNat(s)
      case None => None
      case Some(v) => Some(v)
  }

  /** A non-empty run of digits with no leading zero. */
  predicate IsCanonicalNat(d: string) {
    && |d| > 0
    && (forall i :: 0 <= i < |d| ==> IsDigit(d[i]))
    && (|d| > 1 ==> d[0] != '0')
  }

  /** The one way `int` formatting writes a number: no '+', no leading zero, no "-0". */
  predicate IsCanonical(s: string) {
    if |s| > 0 && s[0] == '-' then IsCanonicalNat(s[1..]) && s[1..] != "0"
    else IsCanonicalNat(s)
  }

  /** Most significant digit first, no leading zeros. */
  function ShowNat(n: nat): (s: string)
    ensures ParseNat(s) == Some(n)
    ensures |s| > 0 && (|s| > 1 ==> s[0] != '0')
    decreases n
  {
    if n < 10 then [DigitChar(n)]
    else
      var prefix := ShowNat(n / 10);
      var s := prefix + [DigitChar(n % 10)];
      assert s[..|s| - 1] == prefix;
      s
  }

  function Show(n: int): (s: string)
    ensures Parse(s) == Some(n)
    ensures IsCanonical(s)
    ensures n >= 0 <==> IsDigit(s[0])
  {
    if n < 0 then
      var digits := ShowNat(-n);
      var s := "-" + digits;
      assert s[1..] == digits;
      assert digits != "0" by {
        assert ParseNat("0") == Some(0);
      }
      s
    else ShowNat(n)
  }

  /** A canonical run of digits is the rendering of the number it reads as. */
  lemma {:induction false} CanonicalNatIsShown(d: string, v: nat)
    requires IsCanonicalNat(d) && ParseNat(d) == Some(v)
    ensures d == ShowNat(v)
    decreases |d|
  {
    if |d| > 1 {
      var p := d[..|d| - 1];
      var w := ParseNat(p).value;
      var last := d[|d| - 1] as int - '0' as int;
      assert v == 10 * w + last;
      CanonicalNatIsShown(p, w);
      assert ShowNat(0) == "0" && p[0] == d[0];
      assert w != 0;
      assert v / 10 == w && v % 10 == last;
      assert d == p + [d[|d| - 1]];
    }
  }

  /** `Show` is the only canonical rendering of a number, so it pins the text down completely. */
  lemma CanonicalIsShown(s: string, n: int)
    requires IsCanonical(s) && Parse(s) == Some(n)
    ensures s == Show(n)
  {
    if |s| > 0 && s[0] == '-' {
      var v := ParseNat(s[1..]).value;
      CanonicalNatIsShown(s[1..], v);
      assert ShowNat(0) == "0";
      assert s == "-" + s[1..];
    } else {
      CanonicalNatIsShown(s, ParseNat(s).value);
    }
  }
}
