/**
 * Grid positions (city.ts `Coord`): a plain pair of integers, compared by value,
 * with `offset` and the `"i,j"` string form. The string form is proved to identify
 * the coordinate uniquely by parsing it back.
 */
module Coords {
  import opened Wrappers
  import Util

  datatype Coord = Coord(i: int, j: int) {

    /** The position `di` rows and `dj` columns away. */
    function Offset(di: int, dj: int): (r: Coord)
      ensures r.i - i == di && r.j - j == dj
    {
      Coord(i + di, j + dj)
    }

    /** `i + ',' + j`, the integers in JavaScript's decimal notation. */
    function ToString(): (s: string)
      ensures |s| >= 3
    {
      IntToString(i) + "," + IntToString(j)
    }
  }

  lemma OffsetZero(c: Coord)
    ensures c.Offset(0, 0) == c
  {
  }

  lemma OffsetCompose(c: Coord, di: int, dj: int, ei: int, ej: int)
    ensures c.Offset(di, dj).Offset(ei, ej) == c.Offset(di + ei, dj + ej)
  {
  }

  lemma OffsetInverse(c: Coord, di: int, dj: int)
    ensures c.Offset(di, dj).Offset(-di, -dj) == c
  {
  }

  // ----- Decimal notation of integers -----

  predicate IsDigit(ch: char) {
    '0' <= ch <= '9'
  }

  predicate AllDigits(s: string) {
    forall k :: 0 <= k < |s| ==> IsDigit(s[k])
  }

  function DigitValue(ch: char): (d: nat)
    requires IsDigit(ch)
    ensures d < 10
  {
    ch as int - '0' as int
  }

  function DigitChar(d: nat): (ch: char)
    requires d < 10
    ensures IsDigit(ch) && DigitValue(ch) == d
  {
    ('0' as int + d) as char
  }

  /** The decimal digits of `n`, most significant first, without leading zeros. */
  function NatToString(n: nat): (s: string)
    ensures |s| > 0 && AllDigits(s)
    ensures |s| > 1 ==> s[0] != '0'
    decreases n
  {
    if n < 10 then [DigitChar(n)] else NatToString(n / 10) + [DigitChar(n % 10)]
  }

  /** JavaScript's string form of an integral number: an optional '-' and the digits. */
  function IntToString(n: int): (s: string)
    ensures |s| > 0 && ',' !in s
    ensures s[0] == '-' <==> n < 0
    ensures n >= 0 ==> AllDigits(s)
  {
    if n < 0 then "-" + NatToString(-n) else NatToString(n)
  }

  /** The value of a string of decimal digits. */
  function ParseNat(s: string): nat
    requires AllDigits(s)
  {
    if s == [] then 0 else 10 * ParseNat(s[..|s| - 1]) + DigitValue(s[|s| - 1])
  }

  /** Reads back what `IntToString` writes; `None` for anything else. */
  function ParseInt(s: string): Option<int> {
    if |s| > 1 && s[0] == '-' && AllDigits(s[1..]) then Some(-(ParseNat(s[1..]) as int))
    else if |s| > 0 && AllDigits(s) then Some(ParseNat(s))
    else None
  }

  /** Reads back what `Coord.ToString` writes: split at the first ','. */
  function ParseCoord(s: string): Option<Coord> {
    var k := Util.IndexOf(s, ',');
    if k < 0 then None
    else
      match (ParseInt(s[..k]), ParseInt(s[k + 1..]))
      case (Some(i), Some(j)) => Some(Coord(i, j))
      case _ => None
  }

  lemma {:induction false} NatToStringRoundTrip(n: nat)
    ensures ParseNat(NatToString(n)) == n
    decreases n
  {
    if n >= 10 {
      var s := NatToString(n);
      assert s[..|s| - 1] == NatToString(n / 10);
      NatToStringRoundTrip(n / 10);
    }
  }

  lemma IntToStringRoundTrip(n: int)
    ensures ParseInt(IntToString(n)) == Some(n)
  {
    var s := IntToString(n);
    if n < 0 {
      var digits := NatToString(-n);
      assert s == "-" + digits;
      assert s[1..] == digits;
      assert |s| > 1 && s[0] == '-' && AllDigits(s[1..]);
      NatToStringRoundTrip(-n);
    } else {
      assert s == NatToString(n);
      assert IsDigit(s[0]);
      NatToStringRoundTrip(n);
    }
  }

  /** The string form of a coordinate parses back to that coordinate. */
  lemma ToStringRoundTrip(c: Coord)
    ensures ParseCoord(c.ToString()) == Some(c)
  {
    var a, b := IntToString(c.i), IntToString(c.j);
    var s := c.ToString();
    assert s == a + "," + b;
    var k := Util.IndexOf(s, ',');
    assert s[|a|] == ',';
    assert s[..k] == a;
    assert s[k + 1..] == b;
    IntToStringRoundTrip(c.i);
    IntToStringRoundTrip(c.j);
  }

  /** Two coordinates with the same string key are the same coordinate. */
  lemma ToStringInjective(c: Coord, d: Coord)
    ensures c.ToString() == d.ToString() <==> c == d
  {
    if c.ToString() == d.ToString() {
      ToStringRoundTrip(c);
      ToStringRoundTrip(d);
    }
  }
}
