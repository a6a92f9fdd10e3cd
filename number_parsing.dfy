/** `parseFloat` on the decimal literals of ECMAScript (StrDecimalLiteral):
    leading whitespace, an optional sign, `Infinity`, digits with an
    optional fraction and an optional exponent; the longest such prefix
    is read and the rest of the text ignored. */
module NumberParsing {
  import opened Text
  import opened JsNumbers

  /** `x` times 10 raised to `e`, for any integer `e`. */
  function Scale(x: real, e: int): (r: real)
    ensures x > 0.0 ==> r > 0.0
    ensures x == 0.0 ==> r == 0.0
    decreases if e < 0 then -e else e
  {
    if e == 0 then x
    else if e > 0 then Scale(x * 10.0, e - 1)
    else Scale(x / 10.0, e + 1)
  }

  /** The value of `intDigits.fracDigits`. */
  function FractionValue(intDigits: string, fracDigits: string): real
  {
    DigitsValue(intDigits) as real + Scale(DigitsValue(fracDigits) as real, -|fracDigits|)
  }

  /** The exponent written at position `p` of `u` (`e`/`E`, an optional sign
      and at least one digit), or 0 when there is no complete exponent there. */
  function ExponentAt(u: string, p: nat): int
    requires p <= |u|
  {
    if p < |u| && (u[p] == 'e' || u[p] == 'E') then
      var signed := p + 1 < |u| && (u[p + 1] == '+' || u[p + 1] == '-');
      var q := if signed then p + 2 else p + 1;
      var qe := DigitsEnd(u, q);
      if qe == q then 0
      else if signed && u[p + 1] == '-' then -(DigitsValue(u[q..qe]) as int)
      else DigitsValue(u[q..qe])
    else 0
  }

  /** `parseFloat(s)`: NaN for blank text, and a finite number only when
      the text holds a digit. */
  function ParseFloat(s: string): (r: Num)
    ensures TrimStart(s) == [] ==> r == NaN
    ensures r.Finite? ==> exists i :: 0 <= i < |s| && IsDigit(s[i])
  {
    var t := TrimStart(s);
    LiteralHasDigit(t);
    SuffixDigit(s, |s| - |t|);
    ParseLiteralPrefix(t)
  }

  /** A literal prefix with a finite value holds a digit. */
  lemma LiteralHasDigit(t: string)
    ensures ParseLiteralPrefix(t).Finite? ==> exists i :: 0 <= i < |t| && IsDigit(t[i])
  {
    var signed := |t| > 0 && (t[0] == '+' || t[0] == '-');
    var off := if signed then 1 else 0;
    var u := t[off..];
    if ParseLiteralPrefix(t).Finite? {
      assert UnsignedPrefix(u).Finite?;
      var ie := DigitsEnd(u, 0);
      if ie > 0 {
        assert IsDigit(t[off]) by { assert t[off] == u[0]; }
      } else {
        assert ie < |u| && u[ie] == '.';
        assert IsDigit(t[off + ie + 1]) by { assert t[off + ie + 1] == u[ie + 1]; }
      }
    }
  }

  /** A digit of a suffix is a digit of the text. */
  lemma SuffixDigit(s: string, k: nat)
    requires k <= |s|
    ensures (exists i :: 0 <= i < |s[k..]| && IsDigit(s[k..][i])) ==> exists i :: 0 <= i < |s| && IsDigit(s[i])
  {
    if exists i :: 0 <= i < |s[k..]| && IsDigit(s[k..][i]) {
      var i :| 0 <= i < |s[k..]| && IsDigit(s[k..][i]);
      assert s[k + i] == s[k..][i];
    }
  }

  /** The value of the longest StrDecimalLiteral at the start of `t`, NaN if there is none. */
  function ParseLiteralPrefix(t: string): Num
  {
    var signed := |t| > 0 && (t[0] == '+' || t[0] == '-');
    var magnitude := UnsignedPrefix(if signed then t[1..] else t);
    if signed && t[0] == '-' then Negate(magnitude) else magnitude
  }

  /** `-x` (the sign of a zero is not kept). */
  function Negate(x: Num): Num
  {
    match x
    case Finite(v) => Finite(-v)
    case PosInfinity => NegInfinity
    case NegInfinity => PosInfinity
    case NaN => NaN
  }

  /** The value of the longest unsigned literal at the start of `u`. */
  function UnsignedPrefix(u: string): Num
  {
    if LiteralAt(u, 0, "Infinity") then PosInfinity else DecimalPrefix(u)
  }

  /** Digits, an optional `.` and fraction digits (at least one digit in
      all), and an optional exponent, at the start of `u`; NaN if there is
      no digit. */
  function DecimalPrefix(u: string): Num
  {
    var ie := DigitsEnd(u, 0);
    var hasDot := ie < |u| && u[ie] == '.';
    var fe := if hasDot then DigitsEnd(u, ie + 1) else ie;
    var fracDigits := if hasDot then u[ie + 1..fe] else "";
    if ie == 0 && |fracDigits| == 0 then NaN
    else Finite(Scale(FractionValue(u[..ie], fracDigits), ExponentAt(u, fe)))
  }

  /** Text that starts with a digit has no sign and does not spell `Infinity`. */
  lemma DigitFirst(s: string)
    requires |s| > 0 && IsDigit(s[0])
    ensures ParseFloat(s) == DecimalPrefix(s)
  {
    NoLeadingSpace(s);
    UnsignedDigits(s);
  }

  lemma NoLeadingSpace(s: string)
    requires |s| > 0 && IsDigit(s[0])
    ensures TrimStart(s) == s
  {
    assert !IsWhiteSpace(s[0]);
  }

  lemma UnsignedDigits(s: string)
    requires |s| > 0 && IsDigit(s[0])
    ensures ParseLiteralPrefix(s) == DecimalPrefix(s)
  {
    assert !LiteralAt(s, 0, "Infinity") by { assert s[0] != "Infinity"[0]; }
  }

  /** A literal ends where a character appears that cannot continue it. */
  predicate EndsLiteral(rest: string)
  {
    rest == [] || !(IsDigit(rest[0]) || rest[0] == '.' || rest[0] == 'e' || rest[0] == 'E')
  }

  /** Reading back the decimal text of a natural number gives the number,
      whatever text follows that cannot continue the literal. */
  lemma ParseFloatDecimal(n: nat, rest: string)
    requires EndsLiteral(rest)
    ensures ParseFloat(DecimalDigits(n) + rest) == Finite(n as real)
  {
    var d := DecimalDigits(n);
    var s := d + rest;
    assert s[0] == d[0];
    DigitFirst(s);
    DigitsEndAt(d, rest);
    assert s[..|d|] == d;
    if rest != [] { assert s[|d|] == rest[0]; }
    IntegerPrefix(s, |d|);
    DecimalDigitsValue(n);
  }

  /** Digits followed by neither a `.` nor an exponent mark read as an integer. */
  lemma IntegerPrefix(s: string, ie: nat)
    requires 0 < ie <= |s| && DigitsEnd(s, 0) == ie
    requires ie < |s| ==> s[ie] != '.' && s[ie] != 'e' && s[ie] != 'E'
    ensures DecimalPrefix(s) == Finite(DigitsValue(s[..ie]) as real)
  {
    assert ExponentAt(s, ie) == 0;
    assert DecimalPrefix(s) == Finite(Scale(FractionValue(s[..ie], ""), 0));
    WholeFraction(s[..ie]);
  }

  lemma WholeFraction(d: string)
    ensures Scale(FractionValue(d, ""), 0) == DigitsValue(d) as real
  {
    assert DigitsValue("") == 0;
  }

  /** Digits, a `.` and digits up to the end read as that decimal fraction. */
  lemma FractionPrefix(s: string, ie: nat)
    requires 0 < ie && ie + 1 < |s| && DigitsEnd(s, 0) == ie && s[ie] == '.'
    requires DigitsEnd(s, ie + 1) == |s|
    ensures DecimalPrefix(s) == Finite(FractionValue(s[..ie], s[ie + 1..]))
  {
    assert ExponentAt(s, |s|) == 0;
    assert s[ie + 1..|s|] == s[ie + 1..];
  }

  /** The digits of `d` run up to the first character of `rest` when that is not a digit. */
  lemma {:induction false} DigitsEndAt(d: string, rest: string)
    requires AllDigits(d)
    requires rest == [] || !IsDigit(rest[0])
    ensures DigitsEnd(d + rest, 0) == |d|
  {
    var s := d + rest;
    assert forall i :: 0 <= i < |d| ==> s[i] == d[i];
    assert rest != [] ==> s[|d|] == rest[0];
  }

  /** `parseFloat` of a captured `\d+\.\d+` is the decimal fraction it spells. */
  lemma ParseFloatFraction(ip: string, fp: string)
    requires |ip| >= 1 && AllDigits(ip) && |fp| >= 1 && AllDigits(fp)
    ensures ParseFloat(ip + "." + fp) == Finite(FractionValue(ip, fp))
  {
    var s := ip + "." + fp;
    FractionText(ip, fp);
    DigitFirst(s);
    FractionPrefix(s, |ip|);
  }

  /** Where the pieces of `ip.fp` lie. */
  lemma FractionText(ip: string, fp: string)
    requires |ip| >= 1 && AllDigits(ip) && |fp| >= 1 && AllDigits(fp)
    ensures var s := ip + "." + fp;
      && IsDigit(s[0]) && DigitsEnd(s, 0) == |ip| && s[|ip|] == '.' && DigitsEnd(s, |ip| + 1) == |s|
      && s[..|ip|] == ip && s[|ip| + 1..] == fp
  {
    var s := ip + "." + fp;
    assert s[0] == ip[0];
    DigitsEndAt(ip, "." + fp);
    assert s[..|ip|] == ip;
    assert s[|ip|] == '.';
    assert s[|ip| + 1..] == fp;
    DigitsEndFrom(s, |ip| + 1);
  }

  lemma DigitsEndFrom(s: string, j: nat)
    requires j <= |s| && forall i :: j <= i < |s| ==> IsDigit(s[i])
    ensures DigitsEnd(s, j) == |s|
  {
  }

  /** Whitespace in front of a number does not change what `parseFloat` reads. */
  lemma {:induction false} ParseFloatSkipsWhiteSpace(w: string, s: string)
    requires forall i :: 0 <= i < |w| ==> IsWhiteSpace(w[i])
    ensures ParseFloat(w + s) == ParseFloat(s)
  {
    TrimStartWhiteSpace(w, s);
  }

  lemma {:induction false} TrimStartWhiteSpace(w: string, s: string)
    requires forall i :: 0 <= i < |w| ==> IsWhiteSpace(w[i])
    ensures TrimStart(w + s) == TrimStart(s)
  {
    if |w| > 0 {
      assert (w + s)[1..] == w[1..] + s;
      TrimStartWhiteSpace(w[1..], s);
    } else {
      assert w + s == s;
    }
  }

  /** Text whose first visible character cannot start a number reads as NaN. */
  lemma ParseFloatNaN(s: string)
    requires var t := TrimStart(s);
      t == [] || !(IsDigit(t[0]) || t[0] == '.' || t[0] == '+' || t[0] == '-' || t[0] == 'I')
    ensures ParseFloat(s) == NaN
  {
    var t := TrimStart(s);
    if t != [] {
      assert !LiteralAt(t, 0, "Infinity") by { assert t[0] != "Infinity"[0]; }
      assert DigitsEnd(t, 0) == 0;
    }
    assert ParseLiteralPrefix(t) == DecimalPrefix(t);
  }
}
