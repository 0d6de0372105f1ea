/**
 * The JavaScript string operations the table engine relies on, stated on
 * `seq<char>`: `trim`, `toLowerCase`, `includes`, `indexOf` on an array of
 * strings, `localeCompare` and `parseFloat`.
 */
module Text {
  import opened Seqs

  /** JavaScript's WhiteSpace and LineTerminator characters (the set used by `trim` and `parseFloat`). */
  predicate IsWhitespace(c: char)
  {
    if c <= ' ' then
      // space, and tab, line feed, vertical tab, form feed, carriage return
      c == ' ' || '\t' <= c <= '\r'
    else
      '\U{00A0}' <= c &&
      (c == '\U{00A0}' || c == '\U{1680}' || ('\U{2000}' <= c <= '\U{200A}') ||
       c == '\U{2028}' || c == '\U{2029}' || c == '\U{202F}' || c == '\U{205F}' ||
       c == '\U{3000}' || c == '\U{FEFF}')
  }

  /** `s.trimStart()`. */
  function TrimStart(s: string): (r: string)
    ensures |r| <= |s| && r == s[|s| - |r|..]
    ensures r == [] || !IsWhitespace(r[0])
    ensures forall i :: 0 <= i < |s| - |r| ==> IsWhitespace(s[i])
  {
    if s != [] && IsWhitespace(s[0]) then TrimStart(s[1..]) else s
  }

  /** `s.trimEnd()`. */
  function TrimEnd(s: string): (r: string)
    ensures |r| <= |s| && r == s[..|r|]
    ensures r == [] || !IsWhitespace(r[|r| - 1])
    ensures forall i :: |r| <= i < |s| ==> IsWhitespace(s[i])
  {
    if s != [] && IsWhitespace(s[|s| - 1]) then TrimEnd(s[..|s| - 1]) else s
  }

  /**
   * `r` is `s` with the whitespace at both ends cut off: the part of `s`
   * ending where `trimEnd` stops, with only whitespace outside it. It is
   * empty exactly for a blank text, neither starts nor ends with
   * whitespace, and equals `s` when `s` has no whitespace at its ends.
   */
  predicate TrimmedFrom(s: string, r: string)
  {
    var e := |TrimEnd(s)|;
    && |r| <= e && r == s[e - |r|..e]
    && (forall k :: 0 <= k < |s| && !(e - |r| <= k < e) ==> IsWhitespace(s[k]))
    && (r == [] <==> IsBlank(s))
    && (r == [] || (!IsWhitespace(r[0]) && !IsWhitespace(r[|r| - 1])))
    && (s == [] || (!IsWhitespace(s[0]) && !IsWhitespace(s[|s| - 1])) ==> r == s)
  }

  /** `s.trim()`. */
  function Trim(s: string): (r: string)
    ensures TrimmedFrom(s, r)
  {
    TrimSpec(s);
    TrimStart(TrimEnd(s))
  }

  lemma TrimSpec(s: string)
    ensures TrimmedFrom(s, TrimStart(TrimEnd(s)))
  {
    TrimmedSlice(s);
    TrimmedEmptyIffBlank(s);
    TrimmedEnds(s);
  }

  lemma TrimmedEnds(s: string)
    ensures var r := TrimStart(TrimEnd(s));
      r == [] || (!IsWhitespace(r[0]) && !IsWhitespace(r[|r| - 1]))
    ensures s == [] || (!IsWhitespace(s[0]) && !IsWhitespace(s[|s| - 1])) ==> TrimStart(TrimEnd(s)) == s
  {
    var e := TrimEnd(s);
    var r := TrimStart(e);
    if r != [] {
      assert r[|r| - 1] == e[|e| - 1];
    }
  }

  lemma TrimmedSlice(s: string)
    ensures var e := TrimEnd(s); var r := TrimStart(e);
      && |r| <= |e| && r == s[|e| - |r|..|e|]
      && forall k :: 0 <= k < |s| && !(|e| - |r| <= k < |e|) ==> IsWhitespace(s[k])
  {
    var e := TrimEnd(s);
    var r := TrimStart(e);
    forall k | 0 <= k < |e| - |r|
      ensures IsWhitespace(s[k])
    {
      assert e[k] == s[k];
    }
  }

  /** A string made only of whitespace (possibly empty). */
  predicate IsBlank(s: string)
  {
    forall i :: 0 <= i < |s| ==> IsWhitespace(s[i])
  }

  lemma {:induction false} TrimmedEmptyIffBlank(s: string)
    ensures TrimStart(TrimEnd(s)) == [] <==> IsBlank(s)
  {
    var e := TrimEnd(s);
    if TrimStart(e) == [] {
      forall i | 0 <= i < |s| ensures IsWhitespace(s[i]) {
        if i < |e| {
          assert IsWhitespace(e[i]);
        }
      }
    } else {
      assert e != [] && !IsWhitespace(e[|e| - 1]);
      assert s[|e| - 1] == e[|e| - 1];
    }
  }

  /** `c.toLowerCase()` for ASCII letters; every other character is kept. */
  function LowerChar(c: char): char
  {
    if 'A' <= c <= 'Z' then (c as int + 32) as char else c
  }

  /** `s.toLowerCase()`, ASCII letters only. */
  function ToLower(s: string): (r: string)
    ensures |r| == |s|
    ensures forall i :: 0 <= i < |s| ==> r[i] == LowerChar(s[i])
  {
    seq(|s|, i requires 0 <= i < |s| => LowerChar(s[i]))
  }

  /** `needle` occurs in `hay` starting at position `k`. */
  predicate OccursAt(hay: string, needle: string, k: int)
  {
    0 <= k && k + |needle| <= |hay| && hay[k..k + |needle|] == needle
  }

  /** `hay.includes(needle)`: some position of `hay` starts an occurrence of `needle`. */
  function Includes(hay: string, needle: string): (r: bool)
    ensures r <==> exists k :: OccursAt(hay, needle, k)
    decreases |hay|
  {
    if |needle| <= |hay| && hay[..|needle|] == needle then
      assert OccursAt(hay, needle, 0);
      true
    else if hay == [] then
      false
    else
      var r := Includes(hay[1..], needle);
      assert forall k :: OccursAt(hay[1..], needle, k) <==> OccursAt(hay, needle, k + 1) by {
        forall k ensures OccursAt(hay[1..], needle, k) <==> OccursAt(hay, needle, k + 1) {
          if 0 <= k && k + |needle| <= |hay| - 1 {
            assert hay[1..][k..k + |needle|] == hay[k + 1..k + 1 + |needle|];
          }
        }
      }
      assert !OccursAt(hay, needle, 0);
      assert (exists k :: OccursAt(hay, needle, k)) ==> r by {
        if exists k :: OccursAt(hay, needle, k) {
          var k :| OccursAt(hay, needle, k);
          assert OccursAt(hay[1..], needle, k - 1);
        }
      }
      r
  }

  /**
   * `headers.indexOf(name)`: the first position holding `name`, or -1.
   */
  function IndexOf(headers: seq<string>, name: string): (r: int)
    ensures -1 <= r < |headers|
    ensures r == -1 <==> name !in headers
    ensures r >= 0 ==> headers[r] == name && forall j :: 0 <= j < r ==> headers[j] != name
  {
    if headers == [] then -1
    else if headers[0] == name then 0
    else
      var t := IndexOf(headers[1..], name);
      assert name in headers <==> name in headers[1..];
      if t == -1 then -1 else t + 1
  }

  /**
   * `a.localeCompare(b, 'ja')`, abstracted as lexicographic comparison of
   * code points: negative, zero or positive.
   */
  function StrCompare(a: string, b: string): (r: int)
    ensures -1 <= r <= 1
    ensures r == 0 <==> a == b
  {
    if a == [] && b == [] then 0
    else if a == [] then -1
    else if b == [] then 1
    else if a[0] < b[0] then -1
    else if a[0] > b[0] then 1
    else
      var r := StrCompare(a[1..], b[1..]);
      assert a == [a[0]] + a[1..] && b == [b[0]] + b[1..];
      r
  }

  lemma {:induction false} StrCompareAntisymmetric(a: string, b: string)
    ensures StrCompare(a, b) == -StrCompare(b, a)
  {
    if a != [] && b != [] && a[0] == b[0] {
      StrCompareAntisymmetric(a[1..], b[1..]);
    }
  }

  lemma {:induction false} StrCompareTransitive(a: string, b: string, c: string)
    requires StrCompare(a, b) <= 0 && StrCompare(b, c) <= 0
    ensures StrCompare(a, c) <= 0
  {
    if a != [] && b != [] && c != [] && a[0] == b[0] == c[0] {
      StrCompareTransitive(a[1..], b[1..], c[1..]);
    }
  }

  predicate IsDigit(c: char)
  {
    '0' <= c <= '9'
  }

  function DigitValue(c: char): nat
    requires IsDigit(c)
  {
    c as int - '0' as int
  }

  /** The first position at or after `i` that does not hold whitespace. */
  function SkipWhitespace(s: string, i: nat): (j: nat)
    requires i <= |s|
    ensures i <= j <= |s|
    ensures forall k :: i <= k < j ==> IsWhitespace(s[k])
    ensures j == |s| || !IsWhitespace(s[j])
    decreases |s| - i
  {
    if i < |s| && IsWhitespace(s[i]) then SkipWhitespace(s, i + 1) else i
  }

  /** The end of the run of decimal digits starting at `i`. */
  function DigitEnd(s: string, i: nat): (j: nat)
    requires i <= |s|
    ensures i <= j <= |s|
    ensures forall k :: i <= k < j ==> IsDigit(s[k])
    ensures j == |s| || !IsDigit(s[j])
    decreases |s| - i
  {
    if i < |s| && IsDigit(s[i]) then DigitEnd(s, i + 1) else i
  }

  /** The value of the decimal digits `s[i..j]`. */
  function DigitsValue(s: string, i: nat, j: nat): nat
    requires i <= j <= |s| && forall k :: i <= k < j ==> IsDigit(s[k])
    decreases j
  {
    if j == i then 0 else DigitsValue(s, i, j - 1) * 10 + DigitValue(s[j - 1])
  }

  /** The value of a decimal point followed by the digits `s[i..j]`. */
  function FractionValue(s: string, i: nat, j: nat): real
    requires i <= j <= |s| && forall k :: i <= k < j ==> IsDigit(s[k])
    decreases j - i
  {
    if i == j then 0.0 else (DigitValue(s[i]) as real + FractionValue(s, i + 1, j)) / 10.0
  }

  /**
   * `parseFloat(s)` restricted to the decimal forms the table holds: after
   * leading whitespace (the characters `trim` removes), an optional sign and
   * the longest prefix of the form `digits [. digits]` or `. digits`;
   * anything after it is ignored. `None` stands for `NaN`.
   */
  function ParseNumber(s: string): (r: Option<real>)
    ensures r.Some? ==> exists k :: 0 <= k < |s| && IsDigit(s[k])
  {
    ParseSigned(s, SkipWhitespace(s, 0))
  }

  /** `parseFloat` from position `i`: an optional sign, then the magnitude. */
  function ParseSigned(s: string, i: nat): (r: Option<real>)
    requires i <= |s|
    ensures r.Some? ==> exists k :: i <= k < |s| && IsDigit(s[k])
  {
    if i < |s| && s[i] == '-' then Negate(ParseMagnitude(s, i + 1))
    else if i < |s| && s[i] == '+' then ParseMagnitude(s, i + 1)
    else ParseMagnitude(s, i)
  }

  function Negate(m: Option<real>): Option<real>
  {
    if m.Some? then Some(-m.value) else None
  }

  /**
   * The unsigned number at position `i`: its integer digits, then a decimal
   * point and its fraction digits if present; `None` when there is no digit
   * on either side of the point.
   */
  function ParseMagnitude(s: string, i: nat): (r: Option<real>)
    requires i <= |s|
    ensures r.Some? ==> exists k :: i <= k < |s| && IsDigit(s[k])
  {
    var n := DigitEnd(s, i);
    var point := n < |s| && s[n] == '.';
    var fraction := if point then FractionValue(s, n + 1, DigitEnd(s, n + 1)) else 0.0;
    if n == i && !(point && n + 1 < DigitEnd(s, n + 1)) then None
    else Some(DigitsValue(s, i, n) as real + fraction)
  }

  /**
   * A string made of whitespace followed by a non-empty run of decimal digits
   * parses to the value of those digits.
   */
  lemma ParseDigits(s: string, i: nat)
    requires i < |s|
    requires forall k :: 0 <= k < i ==> IsWhitespace(s[k])
    requires forall k :: i <= k < |s| ==> IsDigit(s[k])
    ensures ParseNumber(s) == Some(DigitsValue(s, i, |s|) as real)
  {
    assert !IsWhitespace(s[i]);
    SkipTo(s, 0, i);
    DigitRun(s, i, |s|);
  }

  lemma {:induction false} SkipTo(s: string, j: nat, i: nat)
    requires j <= i <= |s|
    requires forall k :: j <= k < i ==> IsWhitespace(s[k])
    requires i == |s| || !IsWhitespace(s[i])
    ensures SkipWhitespace(s, j) == i
    decreases i - j
  {
    if j < i {
      SkipTo(s, j + 1, i);
    }
  }

  lemma {:induction false} DigitRun(s: string, i: nat, j: nat)
    requires i <= j <= |s|
    requires forall k :: i <= k < j ==> IsDigit(s[k])
    requires j == |s| || !IsDigit(s[j])
    ensures DigitEnd(s, i) == j
    decreases j - i
  {
    if i < j {
      DigitRun(s, i + 1, j);
    }
  }

  /**
   * A decimal literal parses to its value. The text has whitespace before
   * `i`, an optional sign in `s[i..j]`, the integer digits `s[j..n]` and,
   * with a point at `n`, the fraction digits `s[n + 1..m]` (either run may
   * be empty, not both); the character at `m`, if any, does not extend the
   * literal.
   */
  lemma ParseDecimal(s: string, i: nat, j: nat, n: nat, point: bool, m: nat)
    requires i <= j <= n <= m <= |s|
    requires forall k :: 0 <= k < i ==> IsWhitespace(s[k])
    requires j == i || (j == i + 1 && (s[i] == '-' || s[i] == '+'))
    requires forall k :: j <= k < n ==> IsDigit(s[k])
    requires point ==> n < m && s[n] == '.' && forall k :: n + 1 <= k < m ==> IsDigit(s[k])
    requires !point ==> m == n && (n == |s| || s[n] != '.')
    requires m == |s| || !IsDigit(s[m])
    requires j < n || n + 1 < m
    ensures var v := DigitsValue(s, j, n) as real + (if point then FractionValue(s, n + 1, m) else 0.0);
      ParseNumber(s) == Some(if j == i + 1 && s[i] == '-' then -v else v)
  {
    assert !IsWhitespace(s[i]) by {
      if j == i && n == j {
        assert s[i] == '.';
      }
    }
    SkipTo(s, 0, i);
    if point {
      MagnitudeFraction(s, j, n, m);
    } else {
      MagnitudeWhole(s, j, n);
    }
  }

  /**
   * Without a digit, or a point and a digit, right after the whitespace
   * before `i` and the optional sign in `s[i..j]`, `parseFloat` gives NaN.
   */
  lemma ParseNotANumber(s: string, i: nat, j: nat)
    requires i <= j <= |s|
    requires forall k :: 0 <= k < i ==> IsWhitespace(s[k])
    requires i == |s| || !IsWhitespace(s[i])
    requires j == i || (j == i + 1 && (s[i] == '-' || s[i] == '+'))
    requires j == i && i < |s| ==> s[i] != '-' && s[i] != '+'
    requires j == |s| || (!IsDigit(s[j]) && !(s[j] == '.' && j + 1 < |s| && IsDigit(s[j + 1])))
    ensures ParseNumber(s) == None
  {
    SkipTo(s, 0, i);
    DigitRun(s, j, j);
    if j < |s| && s[j] == '.' {
      DigitRun(s, j + 1, j + 1);
    }
  }

  /** `ParseMagnitude` at `j` of the integer digits `s[j..n]` with no point after them. */
  lemma MagnitudeWhole(s: string, j: nat, n: nat)
    requires j < n <= |s| && forall k :: j <= k < n ==> IsDigit(s[k])
    requires n == |s| || (!IsDigit(s[n]) && s[n] != '.')
    ensures ParseMagnitude(s, j) == Some(DigitsValue(s, j, n) as real + 0.0)
  {
    DigitRun(s, j, n);
  }

  /** `ParseMagnitude` at `j` of the integer digits `s[j..n]`, a point at `n` and the fraction digits `s[n + 1..m]`. */
  lemma MagnitudeFraction(s: string, j: nat, n: nat, m: nat)
    requires j <= n < |s| && forall k :: j <= k < n ==> IsDigit(s[k])
    requires s[n] == '.' && n + 1 <= m <= |s| && forall k :: n + 1 <= k < m ==> IsDigit(s[k])
    requires m == |s| || !IsDigit(s[m])
    requires j < n || n + 1 < m
    ensures ParseMagnitude(s, j) == Some(DigitsValue(s, j, n) as real + FractionValue(s, n + 1, m))
  {
    DigitRun(s, j, n);
    DigitRun(s, n + 1, m);
  }

  /** Whitespace and one decimal digit parse to the digit's value. */
  lemma ParseOneDigit(s: string, i: nat)
    requires |s| == i + 1 && IsDigit(s[i])
    requires forall k :: 0 <= k < i ==> IsWhitespace(s[k])
    ensures ParseNumber(s) == Some(DigitValue(s[i]) as real)
  {
    ParseDigits(s, i);
    assert DigitsValue(s, i, i + 1) == DigitValue(s[i]);
  }

  /** Two decimal digits parse to their value. */
  lemma ParseTwoDigits(s: string)
    requires |s| == 2 && IsDigit(s[0]) && IsDigit(s[1])
    ensures ParseNumber(s) == Some((DigitValue(s[0]) * 10 + DigitValue(s[1])) as real)
  {
    ParseDigits(s, 0);
    assert DigitsValue(s, 0, 1) == DigitValue(s[0]);
  }
}
