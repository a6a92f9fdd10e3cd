/** The string operations of JavaScript that the log parser relies on:
    `trim`, `split` with a one-character separator, `includes`, the
    leftmost-match search of a regular expression, ASCII lower-casing,
    `padStart` and the decimal digits of a natural number. */
module Text {
  import opened Wrappers

  // ---------------------------------------------------------------- whitespace

  /** The characters `String.prototype.trim` removes: the WhiteSpace and
      LineTerminator code points of ECMAScript (tab, vertical tab, form feed,
      space, no-break space, byte order mark, the Zs space separators, line
      feed, carriage return, line and paragraph separators). */
  predicate IsWhiteSpace(c: char)
  {
    c == '\t' || c == '\n' || c == '\U{000B}' || c == '\U{000C}' || c == '\r' || c == ' '
    || c == '\U{00A0}' || c == '\U{1680}' || ('\U{2000}' <= c <= '\U{200A}')
    || c == '\U{2028}' || c == '\U{2029}' || c == '\U{202F}' || c == '\U{205F}'
    || c == '\U{3000}' || c == '\U{FEFF}'
  }

  /** `s.trimStart()`. */
  function TrimStart(s: string): (r: string)
    ensures |r| <= |s| && r == s[|s| - |r|..]
    ensures r == [] || !IsWhiteSpace(r[0])
    ensures forall i :: 0 <= i < |s| - |r| ==> IsWhiteSpace(s[i])
  {
    if |s| > 0 && IsWhiteSpace(s[0]) then TrimStart(s[1..]) else s
  }

  /** `s.trimEnd()`. */
  function TrimEnd(s: string): (r: string)
    ensures |r| <= |s| && r == s[..|r|]
    ensures r == [] || !IsWhiteSpace(r[|r| - 1])
    ensures forall i :: |r| <= i < |s| ==> IsWhiteSpace(s[i])
  {
    if |s| > 0 && IsWhiteSpace(s[|s| - 1]) then TrimEnd(s[..|s| - 1]) else s
  }

  /** `s.trim()`. */
  function Trim(s: string): string
  {
    TrimEnd(TrimStart(s))
  }

  /** `s.trim() !== ''`: the line holds at least one character that is not whitespace. */
  predicate IsBlank(s: string)
  {
    Trim(s) == ""
  }

  lemma BlankIff(s: string)
    ensures IsBlank(s) <==> forall i :: 0 <= i < |s| ==> IsWhiteSpace(s[i])
  {
    var t := TrimStart(s);
    assert t == [] <==> forall i :: 0 <= i < |s| ==> IsWhiteSpace(s[i]) by {
      if t != [] {
        assert t[0] == s[|s| - |t|];
      }
    }
    assert TrimEnd(t) == [] <==> t == [] by {
      if t != [] {
        assert !IsWhiteSpace(t[0]);
      }
    }
  }

  // ---------------------------------------------------------------- split

  /** `s.split(sep)` for a one-character separator: the pieces between the
      separators, the empty pieces included; there is always at least one. */
  function Split(s: string, sep: char): (parts: seq<string>)
    ensures |parts| >= 1
    ensures forall p :: p in parts ==> sep !in p
    ensures Join(parts, sep) == s
  {
    if |s| == 0 then [""]
    else
      var rest := Split(s[1..], sep);
      if s[0] == sep then [""] + rest
      else
        assert Join(rest, sep) == s[1..];
        JoinHead(s[0], rest, sep);
        [[s[0]] + rest[0]] + rest[1..]
  }

  /** `parts.join(sep)`. */
  function Join(parts: seq<string>, sep: char): string
    requires |parts| >= 1
  {
    if |parts| == 1 then parts[0] else parts[0] + [sep] + Join(parts[1..], sep)
  }

  lemma JoinHead(c: char, parts: seq<string>, sep: char)
    requires |parts| >= 1
    ensures Join([[c] + parts[0]] + parts[1..], sep) == [c] + Join(parts, sep)
  {
    var q := [[c] + parts[0]] + parts[1..];
    if |parts| > 1 {
      assert q[1..] == parts[1..];
    }
  }

  /** Splitting undoes joining, so the pieces of a split are determined by
      the text alone. */
  lemma {:induction false} SplitJoin(parts: seq<string>, sep: char)
    requires |parts| >= 1
    requires forall p :: p in parts ==> sep !in p
    ensures Split(Join(parts, sep), sep) == parts
  {
    if |parts| == 1 {
      SplitNoSeparator(parts[0], sep);
    } else {
      var tail := parts[1..];
      SplitJoin(tail, sep);
      SplitPrefix(parts[0], Join(tail, sep), sep);
      assert [parts[0]] + tail == parts;
    }
  }

  lemma {:induction false} SplitNoSeparator(s: string, sep: char)
    requires sep !in s
    ensures Split(s, sep) == [s]
  {
    if |s| > 0 {
      SplitNoSeparator(s[1..], sep);
      assert [s[0]] + s[1..] == s;
    }
  }

  lemma {:induction false} SplitPrefix(p: string, rest: string, sep: char)
    requires sep !in p
    ensures Split(p + [sep] + rest, sep) == [p] + Split(rest, sep)
  {
    if |p| == 0 {
      assert p + [sep] + rest == [sep] + rest;
      assert ([sep] + rest)[1..] == rest;
    } else {
      var s := p + [sep] + rest;
      assert s[1..] == p[1..] + [sep] + rest;
      SplitPrefix(p[1..], rest, sep);
      assert [p[0]] + p[1..] == p;
    }
  }

  /** The first piece of a split is the text before the first separator,
      whatever follows it. */
  lemma FirstPiece(p: string, rest: string, sep: char)
    requires sep !in p
    ensures Split(p + [sep] + rest, sep)[0] == p
  {
    SplitPrefix(p, rest, sep);
  }

  /** The last piece of a split is the text after the last separator. */
  lemma {:induction false} LastPiece(p: string, last: string, sep: char)
    requires sep !in last
    ensures var parts := Split(p + [sep] + last, sep); parts[|parts| - 1] == last
  {
    var s := p + [sep] + last;
    if |p| == 0 {
      assert s == [sep] + last && s[1..] == last;
      SplitNoSeparator(last, sep);
    } else {
      assert s[1..] == p[1..] + [sep] + last;
      LastPiece(p[1..], last, sep);
      var rest := Split(s[1..], sep);
      if s[0] == sep {
        assert Split(s, sep) == [""] + rest;
      } else {
        assert |rest| >= 2 by {
          assert s[1..][|p| - 1] == sep;
        }
        assert Split(s, sep) == [[s[0]] + rest[0]] + rest[1..];
      }
    }
  }

  // ---------------------------------------------------------------- search

  /** The text `lit` occurs in `s` at position `i`. */
  predicate LiteralAt(s: string, i: nat, lit: string)
  {
    i + |lit| <= |s| && s[i..i + |lit|] == lit
  }

  /** The leftmost position at or after `from` where the matcher `m`
      succeeds, with what it yields there: the way `String.prototype.match`
      and `includes` scan a line from left to right. Positions run up to
      and including `|s|`, where only an empty pattern can match. */
  function FirstMatch<T>(s: string, from: nat, m: (string, nat) -> Option<T>): (r: Option<(nat, T)>)
    ensures r.Some? ==> from <= r.value.0 <= |s| && m(s, r.value.0) == Some(r.value.1)
    ensures r.Some? ==> forall j :: from <= j < r.value.0 ==> m(s, j).None?
    ensures r.None? ==> forall j :: from <= j <= |s| ==> m(s, j).None?
    decreases |s| + 1 - from
  {
    if from > |s| then None
    else match m(s, from)
      case Some(v) => Some((from, v))
      case None => FirstMatch(s, from + 1, m)
  }

  /** A matcher that matches nowhere from `from` on gives no match. */
  lemma {:induction false} FirstMatchNone<T>(s: string, from: nat, m: (string, nat) -> Option<T>)
    requires forall j :: from <= j <= |s| ==> m(s, j).None?
    ensures FirstMatch(s, from, m).None?
    decreases |s| + 1 - from
  {
    if from <= |s| {
      FirstMatchNone(s, from + 1, m);
    }
  }

  /** The first position where the matcher succeeds is the match found. */
  lemma {:induction false} FirstMatchAt<T>(s: string, from: nat, i: nat, m: (string, nat) -> Option<T>)
    requires from <= i <= |s| && m(s, i).Some?
    requires forall j :: from <= j < i ==> m(s, j).None?
    ensures FirstMatch(s, from, m) == Some((i, m(s, i).value))
    decreases i - from
  {
    if from < i {
      FirstMatchAt(s, from + 1, i, m);
    }
  }

  /** `s.includes(sub)`. */
  predicate Contains(s: string, sub: string)
  {
    FirstMatch(s, 0, LiteralMatcher(sub)).Some?
  }

  /** The matcher of a pattern that is plain text. */
  function LiteralMatcher(sub: string): (string, nat) -> Option<nat>
  {
    (t: string, i: nat) => if LiteralAt(t, i, sub) then Some(i) else None
  }

  lemma ContainsIff(s: string, sub: string)
    ensures Contains(s, sub) <==> exists i :: 0 <= i <= |s| && LiteralAt(s, i, sub)
  {
    var m := LiteralMatcher(sub);
    if FirstMatch(s, 0, m).None? {
      forall i | 0 <= i <= |s| ensures !LiteralAt(s, i, sub) {
        assert m(s, i).None?;
      }
    }
  }

  // ---------------------------------------------------------------- digits

  predicate IsDigit(c: char) { '0' <= c <= '9' }

  predicate AllDigits(s: string) { forall i :: 0 <= i < |s| ==> IsDigit(s[i]) }

  /** The end of the run of digits that starts at `j` (`\d*`, taken greedily). */
  function DigitsEnd(s: string, j: nat): (k: nat)
    requires j <= |s|
    ensures j <= k <= |s|
    ensures forall i :: j <= i < k ==> IsDigit(s[i])
    ensures k == |s| || !IsDigit(s[k])
    decreases |s| - j
  {
    if j < |s| && IsDigit(s[j]) then DigitsEnd(s, j + 1) else j
  }

  /** A run of digits that ends the text or is followed by a non-digit is maximal. */
  lemma DigitRunAt(s: string, j: nat, d: string)
    requires j + |d| <= |s| && s[j..j + |d|] == d && AllDigits(d)
    requires j + |d| == |s| || !IsDigit(s[j + |d|])
    ensures DigitsEnd(s, j) == j + |d|
  {
    assert forall x :: j <= x < j + |d| ==> s[x] == d[x - j];
  }

  function DigitValue(c: char): nat
  {
    if IsDigit(c) then (c as int - '0' as int) else 0
  }

  function DigitChar(d: nat): char
    requires d < 10
  {
    (d + '0' as int) as char
  }

  /** The value of a string of decimal digits, as `parseInt` reads it. */
  function DigitsValue(s: string): nat
  {
    if |s| == 0 then 0 else DigitsValue(s[..|s| - 1]) * 10 + DigitValue(s[|s| - 1])
  }

  /** The decimal representation of `n`, without leading zeros: `String(n)`. */
  function DecimalDigits(n: nat): (d: string)
    ensures |d| >= 1 && AllDigits(d)
    ensures |d| == 1 || d[0] != '0'
  {
    if n < 10 then [DigitChar(n)] else DecimalDigits(n / 10) + [DigitChar(n % 10)]
  }

  lemma {:induction false} DecimalDigitsValue(n: nat)
    ensures DigitsValue(DecimalDigits(n)) == n
  {
    var d := DecimalDigits(n);
    if n >= 10 {
      DecimalDigitsValue(n / 10);
      assert d[..|d| - 1] == DecimalDigits(n / 10);
    }
  }

  /** Leading zeros do not change the value of a run of digits. */
  lemma {:induction false} LeadingZeros(z: nat, s: string)
    ensures DigitsValue(Repeat('0', z) + s) == DigitsValue(s)
  {
    if |s| == 0 {
      ZerosValue(z);
      assert Repeat('0', z) + s == Repeat('0', z);
    } else {
      var t := Repeat('0', z) + s;
      assert t[..|t| - 1] == Repeat('0', z) + s[..|s| - 1];
      LeadingZeros(z, s[..|s| - 1]);
    }
  }

  lemma {:induction false} ZerosValue(z: nat)
    ensures DigitsValue(Repeat('0', z)) == 0
  {
    if z > 0 {
      assert Repeat('0', z)[..z - 1] == Repeat('0', z - 1);
      ZerosValue(z - 1);
    }
  }

  function Repeat(c: char, n: nat): (r: string)
    ensures |r| == n && forall i :: 0 <= i < n ==> r[i] == c
  {
    if n == 0 then [] else Repeat(c, n - 1) + [c]
  }

  // ---------------------------------------------------------------- formatting

  /** `s.padStart(width, c)`. */
  function PadStart(s: string, width: nat, c: char): (r: string)
    ensures |r| == if |s| >= width then |s| else width
    ensures r == Repeat(c, |r| - |s|) + s
  {
    if |s| >= width then s else Repeat(c, width - |s|) + s
  }

  /** `String(n).padStart(width, '0')`. */
  function ZeroPadded(n: nat, width: nat): string
  {
    PadStart(DecimalDigits(n), width, '0')
  }

  lemma ZeroPaddedValue(n: nat, width: nat)
    ensures AllDigits(ZeroPadded(n, width))
    ensures DigitsValue(ZeroPadded(n, width)) == n
  {
    var d := DecimalDigits(n);
    LeadingZeros(|ZeroPadded(n, width)| - |d|, d);
    DecimalDigitsValue(n);
  }

  /** The position of the first `a` in `s`. */
  function FirstIndex(s: string, a: char): (i: nat)
    requires a in s
    ensures i < |s| && s[i] == a && a !in s[..i]
  {
    if s[0] == a then 0
    else
      var i := FirstIndex(s[1..], a) + 1;
      assert s[..i] == [s[0]] + s[1..][..i - 1];
      i
  }

  /** `s.replace(a, b)` with a one-character pattern: only the first occurrence changes. */
  function ReplaceFirst(s: string, a: char, b: char): (r: string)
    ensures |r| == |s|
  {
    if a in s then var i := FirstIndex(s, a); s[..i] + [b] + s[i + 1..] else s
  }

  /** The first occurrence of `a` follows a prefix without it. */
  lemma {:induction false} FirstIndexAfter(head: string, a: char, tail: string)
    requires a !in head
    ensures FirstIndex(head + [a] + tail, a) == |head|
  {
    if |head| > 0 {
      var s := head + [a] + tail;
      assert s[0] == head[0];
      assert s[1..] == head[1..] + [a] + tail;
      FirstIndexAfter(head[1..], a, tail);
    }
  }

  /** Replacing the first `a` changes the character right after a prefix without it. */
  lemma ReplaceFirstAfter(head: string, a: char, b: char, tail: string)
    requires a !in head
    ensures ReplaceFirst(head + [a] + tail, a, b) == head + [b] + tail
  {
    var s := head + [a] + tail;
    assert s[|head|] == a;
    FirstIndexAfter(head, a, tail);
    assert s[..|head|] == head && s[|head| + 1..] == tail;
  }

  /** `c.toLowerCase()` on the ASCII letters. */
  function ToLowerChar(c: char): char
  {
    if 'A' <= c <= 'Z' then (c as int + 32) as char else c
  }

  function ToLower(s: string): (r: string)
    ensures |r| == |s| && forall i :: 0 <= i < |s| ==> r[i] == ToLowerChar(s[i])
  {
    if |s| == 0 then [] else [ToLowerChar(s[0])] + ToLower(s[1..])
  }

  /** 10 to the power `w`, as a natural number. */
  function Power10(w: nat): (p: nat)
    ensures p >= 1
  {
    if w == 0 then 1 else 10 * Power10(w - 1)
  }

  lemma {:induction false} DecimalDigitsLength(n: nat, w: nat)
    requires w >= 1 && n < Power10(w)
    ensures |DecimalDigits(n)| <= w
  {
    if n >= 10 {
      assert Power10(w) == 10 * Power10(w - 1);
      DecimalDigitsLength(n / 10, w - 1);
    }
  }

  /** A number below 10^w, padded to w digits, takes exactly w characters. */
  lemma ZeroPaddedLength(n: nat, w: nat)
    requires w >= 1 && n < Power10(w)
    ensures |ZeroPadded(n, w)| == w
  {
    DecimalDigitsLength(n, w);
  }
}
