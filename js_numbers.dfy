/**
 * The two number-to-text conversions the controllers rely on: the global `parseInt`
 * with no radix (the route's group id) and the decimal rendering of a non-negative
 * integer inside a template literal (the scrape response's message).
 */
module JsNumbers {
  import opened Wrappers
  import opened Text

  /** The digit value of `c` in any radix up to 36 (letters of either case count from 10); 36 for a non-digit. */
  function DigitValue(c: char): (d: nat)
    ensures d <= 36
  {
    if '0' <= c <= '9' then c as nat - '0' as nat
    else if 'a' <= c <= 'z' then c as nat - 'a' as nat + 10
    else if 'A' <= c <= 'Z' then c as nat - 'A' as nat + 10
    else 36
  }

  predicate IsDigit(c: char, radix: nat)
  {
    DigitValue(c) < radix
  }

  /** The length of the longest prefix of `t` made of digits of `radix`. */
  function DigitRun(t: string, radix: nat): (n: nat)
    ensures n <= |t|
    ensures forall i :: 0 <= i < n ==> IsDigit(t[i], radix)
    ensures n < |t| ==> !IsDigit(t[n], radix)
  {
    if t != [] && IsDigit(t[0], radix) then
      var n := DigitRun(t[1..], radix);
      assert forall i :: 1 <= i <= n ==> t[i] == t[1..][i - 1];
      1 + n
    else 0
  }

  /** The number the digits `ds` spell in `radix`, most significant first. */
  function Digits(ds: string, radix: nat): nat
  {
    if ds == [] then 0
    else Digits(ds[..|ds| - 1], radix) * radix + DigitValue(ds[|ds| - 1])
  }

  /**
   * The digits after the sign: a `0x`/`0X` prefix selects radix 16 (radix 10 otherwise),
   * and the longest run of digits that follows is the value; None when there is none.
   */
  function ParseUnsigned(u: string): Option<nat>
  {
    var hex := |u| >= 2 && u[0] == '0' && (u[1] == 'x' || u[1] == 'X');
    var radix := if hex then 16 else 10;
    var v := if hex then u[2..] else u;
    var n := DigitRun(v, radix);
    if n == 0 then None else Some(Digits(v[..n], radix))
  }

  /**
   * `parseInt(s)` with no radix: leading whitespace is skipped, then an optional sign,
   * then the unsigned part; whatever follows the digits is ignored. No digit at all
   * gives NaN, here None.
   */
  function ParseInt(s: string): (r: Option<int>)
    ensures var t := TrimStart(s);
      var u := if t != [] && (t[0] == '-' || t[0] == '+') then t[1..] else t;
      var hex := |u| >= 2 && u[0] == '0' && (u[1] == 'x' || u[1] == 'X');
      var radix := if hex then 16 else 10;
      var v := if hex then u[2..] else u;
      && (r.None? <==> v == [] || !IsDigit(v[0], radix))
      && (r.Some? ==> (if r.value < 0 then 0 - r.value else r.value) == Digits(v[..DigitRun(v, radix)], radix))
      && (r.Some? && r.value < 0 ==> t[0] == '-')
      && (r.Some? && t != [] && t[0] == '-' ==> r.value <= 0)
  {
    var t := TrimStart(s);
    var neg := t != [] && t[0] == '-';
    var u := if t != [] && (t[0] == '-' || t[0] == '+') then t[1..] else t;
    match ParseUnsigned(u)
    case None => None
    case Some(d) => if neg then Some(0 - d) else Some(d)
  }

  /** Without a hex prefix, the unsigned part is the decimal run at the front. */
  lemma DecimalRun(u: string, k: nat)
    requires !(|u| >= 2 && u[0] == '0' && (u[1] == 'x' || u[1] == 'X'))
    requires 0 < k <= |u| && forall i :: 0 <= i < k ==> IsDigit(u[i], 10)
    requires k < |u| ==> !IsDigit(u[k], 10)
    ensures ParseUnsigned(u) == Some(Digits(u[..k], 10))
  {
    var n := DigitRun(u, 10);
    assert n <= k;
    assert n >= k;
  }

  /** A text that starts with a digit, not whitespace or a sign, is parsed from its first character. */
  lemma ParseFromStart(s: string)
    requires s != [] && '0' <= s[0] <= '9'
    ensures ParseInt(s) == match ParseUnsigned(s) case None => None case Some(d) => Some(d as int)
  {
    assert !IsSpace(s[0]);
    assert TrimStart(s) == s;
  }

  function DigitChar(d: nat): (c: char)
    requires d < 10
    ensures DigitValue(c) == d && '0' <= c <= '9'
  {
    ['0', '1', '2', '3', '4', '5', '6', '7', '8', '9'][d]
  }

  /** `${n}` for a non-negative integer: its decimal digits, with no leading zero. */
  function NatToString(n: nat): (r: string)
    ensures |r| >= 1
    ensures forall i :: 0 <= i < |r| ==> '0' <= r[i] <= '9'
    ensures |r| > 1 ==> r[0] != '0'
    ensures n < 10 <==> |r| == 1
  {
    if n < 10 then [DigitChar(n)]
    else NatToString(n / 10) + [DigitChar(n % 10)]
  }

  /** The digits of `n` spell `n` again. */
  lemma {:induction false} DigitsOfNatToString(n: nat)
    ensures Digits(NatToString(n), 10) == n
  {
    var r := NatToString(n);
    if n >= 10 {
      DigitsOfNatToString(n / 10);
      assert r[..|r| - 1] == NatToString(n / 10);
    }
  }

  /** A run of decimal digits with no leading zero parses as the number it spells. */
  lemma ParseDecimal(s: string)
    requires s != [] && (forall i :: 0 <= i < |s| ==> '0' <= s[i] <= '9')
    requires |s| > 1 ==> s[0] != '0'
    ensures ParseInt(s) == Some(Digits(s, 10))
  {
    assert ParseUnsigned(s) == Some(Digits(s, 10)) by {
      DecimalRun(s, |s|);
      assert s[..|s|] == s;
    }
    ParseFromStart(s);
  }

  /** `parseInt` reads back every number the controller renders: `parseInt(`${n}`) === n`. */
  lemma ParseIntOfNatToString(n: nat)
    ensures ParseInt(NatToString(n)) == Some(n)
  {
    ParseDecimal(NatToString(n));
    DigitsOfNatToString(n);
  }

  /** Text after the digits is ignored: the leading digits of `ds + rest` are `ds` when `rest` starts with a non-digit. */
  lemma ParseStopsAtNonDigit(ds: string, rest: string)
    requires ds != [] && (forall i :: 0 <= i < |ds| ==> '0' <= ds[i] <= '9')
    requires |ds| > 1 ==> ds[0] != '0'
    requires rest != [] && !IsDigit(rest[0], 10) && rest[0] != 'x' && rest[0] != 'X'
    ensures ParseInt(ds + rest) == Some(Digits(ds, 10))
  {
    var t := ds + rest;
    assert t[0] == ds[0];
    ParseFromStart(t);
    assert forall i :: 0 <= i < |ds| ==> t[i] == ds[i];
    assert t[|ds|] == rest[0];
    DecimalRun(t, |ds|);
    assert t[..|ds|] == ds;
  }

  /** `parseInt("12abc") === 12`: a number followed by other text reads as the number alone. */
  lemma ParseIntIgnoresTrailingText(n: nat, rest: string)
    requires rest != [] && !IsDigit(rest[0], 10) && rest[0] != 'x' && rest[0] != 'X'
    ensures ParseInt(NatToString(n) + rest) == Some(n)
  {
    ParseStopsAtNonDigit(NatToString(n), rest);
    DigitsOfNatToString(n);
  }

  /** A text with no decimal digit after its leading whitespace and sign is NaN. */
  lemma ParseIntOfNonDigit(s: string)
    requires s != [] && !IsSpace(s[0]) && s[0] != '-' && s[0] != '+' && s[0] != '0' && !IsDigit(s[0], 10)
    ensures ParseInt(s).None?
  {
    assert TrimStart(s) == s;
  }

  /** A leading `0x` switches to hexadecimal: `parseInt("0x1f") === 31`. */
  lemma ParseIntHex()
    ensures ParseInt("0x1f") == Some(31)
  {
    var s := "0x1f";
    assert !IsSpace(s[0]);
    assert TrimStart(s) == s;
    assert s[2..] == "1f";
    assert DigitRun("1f", 16) == 2 by {
      assert DigitRun("f", 16) == 1 by {
        assert "f"[1..] == [];
      }
      assert "1f"[1..] == "f";
    }
    assert "1f"[..2] == "1f";
    assert Digits("1f", 16) == 31 by {
      assert "1f"[..1] == "1";
      assert Digits("1", 16) == 1 by { assert "1"[..0] == []; }
    }
  }
}
