/** The pieces of the Kotlin and JVM string library that the core relies on:
    `\d` digit runs and `toInt()`, `split`, `joinToString`, `trim`/`isBlank`
    (Kotlin's `Char.isWhitespace`), `equals(ignoreCase = true)`, lower-casing,
    and the SQL `LIKE` match used by the case-insensitive author search. */
module Strings {

  // ---------------------------------------------------------------------
  // Decimal digits
  // ---------------------------------------------------------------------

  /** `\d` of a Java regular expression without UNICODE_CHARACTER_CLASS: ASCII 0-9 only. */
  predicate IsDigit(c: char) {
    '0' <= c <= '9'
  }

  predicate AllDigits(s: string) {
    forall i :: 0 <= i < |s| ==> IsDigit(s[i])
  }

  /** `s.matches(Regex("\\d{n}"))`: the whole string is exactly n digits. */
  predicate MatchesDigits(s: string, n: nat) {
    |s| == n && AllDigits(s)
  }

  function DigitValue(c: char): (v: nat)
    requires IsDigit(c)
    ensures v < 10
  {
    c as int - '0' as int
  }

  function DigitChar(v: nat): (c: char)
    requires v < 10
    ensures IsDigit(c) && DigitValue(c) == v
  {
    ('0' as int + v) as char
  }

  function Pow10(n: nat): (p: nat)
    ensures p >= 1
  {
    if n == 0 then 1 else 10 * Pow10(n - 1)
  }

  /** The value `toInt()` reads from a string of decimal digits, most significant first. */
  function DecimalValue(s: string): (v: nat)
    requires AllDigits(s)
    ensures v < Pow10(|s|)
  {
    if s == [] then 0
    else DecimalValue(s[..|s| - 1]) * 10 + DigitValue(s[|s| - 1])
  }

  /** `n` written with exactly `width` decimal digits, padded with leading zeros. */
  function PadDecimal(n: nat, width: nat): (s: string)
    requires n < Pow10(width)
    ensures |s| == width
  {
    if width == 0 then []
    else PadDecimal(n / 10, width - 1) + [DigitChar(n % 10)]
  }

  /** Reading back a padded rendering yields the number: PadDecimal is a right inverse of DecimalValue. */
  lemma {:induction false} PadDecimalRoundTrip(n: nat, width: nat)
    requires n < Pow10(width)
    ensures MatchesDigits(PadDecimal(n, width), width)
    ensures DecimalValue(PadDecimal(n, width)) == n
  {
    if width > 0 {
      var p := PadDecimal(n / 10, width - 1);
      PadDecimalRoundTrip(n / 10, width - 1);
      var s := p + [DigitChar(n % 10)];
      assert s[..|s| - 1] == p;
      assert s == PadDecimal(n, width);
    }
  }

  /** Rendering the value of a digit string at its own width gives the string back:
      a digit string is determined by its length and its value. */
  lemma {:induction false} DecimalValuePadRoundTrip(s: string)
    requires AllDigits(s)
    ensures DecimalValue(s) < Pow10(|s|)
    ensures PadDecimal(DecimalValue(s), |s|) == s
  {
    if s != [] {
      var p := s[..|s| - 1];
      DecimalValuePadRoundTrip(p);
      var v := DecimalValue(p);
      var d := DigitValue(s[|s| - 1]);
      DivModTen(v, d);
      assert s == p + [s[|s| - 1]];
    }
  }

  lemma DivModTen(v: nat, d: nat)
    requires d < 10
    ensures (v * 10 + d) / 10 == v && (v * 10 + d) % 10 == d
  {
  }

  /** Kotlin's rendering of a non-negative integer in decimal, without padding. */
  function NatToString(n: nat): (s: string)
    ensures |s| >= 1 && AllDigits(s)
  {
    if n < 10 then [DigitChar(n)]
    else NatToString(n / 10) + [DigitChar(n % 10)]
  }

  /** Kotlin's string template rendering of a `Long`. */
  function IntToString(n: int): string {
    if n < 0 then "-" + NatToString(-n) else NatToString(n)
  }

  /** The rendering can be read back: DecimalValue is a left inverse of NatToString. */
  lemma {:induction false} NatToStringRoundTrip(n: nat)
    ensures DecimalValue(NatToString(n)) == n
  {
    if n >= 10 {
      NatToStringRoundTrip(n / 10);
      var s := NatToString(n);
      assert s[..|s| - 1] == NatToString(n / 10);
    }
  }

  // ---------------------------------------------------------------------
  // split and joinToString
  // ---------------------------------------------------------------------

  /** Kotlin's `s.split(sep)` with a one-character delimiter and no limit:
      every part is kept, empty ones included, so "" gives [""]. */
  function Split(s: string, sep: char): (parts: seq<string>)
    ensures |parts| >= 1
  {
    if s == [] then [[]]
    else
      var rest := Split(s[1..], sep);
      if s[0] == sep then [[]] + rest
      else [[s[0]] + rest[0]] + rest[1..]
  }

  /** Kotlin's `parts.joinToString(sep)`. */
  function Join(parts: seq<string>, sep: string): string {
    if |parts| == 0 then []
    else if |parts| == 1 then parts[0]
    else parts[0] + sep + Join(parts[1..], sep)
  }

  /** No part of a split contains the delimiter. */
  lemma {:induction false} SplitPartsFree(s: string, sep: char)
    ensures forall i :: 0 <= i < |Split(s, sep)| ==> sep !in Split(s, sep)[i]
  {
    if s != [] {
      SplitPartsFree(s[1..], sep);
    }
  }

  /** Joining the parts of a split with the same delimiter rebuilds the string. */
  lemma {:induction false} SplitJoin(s: string, sep: char)
    ensures Join(Split(s, sep), [sep]) == s
  {
    if s != [] {
      var rest := Split(s[1..], sep);
      SplitJoin(s[1..], sep);
      if s[0] == sep {
        assert Split(s, sep) == [[]] + rest;
        assert ([[]] + rest)[1..] == rest;
      } else {
        var parts := Split(s, sep);
        assert parts == [[s[0]] + rest[0]] + rest[1..];
        if |rest| == 1 {
          assert Join(parts, [sep]) == [s[0]] + rest[0];
        } else {
          assert parts[1..] == rest[1..];
          assert Join(parts, [sep]) == [s[0]] + rest[0] + [sep] + Join(rest[1..], [sep]);
          assert Join(rest, [sep]) == rest[0] + [sep] + Join(rest[1..], [sep]);
        }
      }
    }
  }

  /** A string free of the delimiter splits into itself alone. */
  lemma {:induction false} SplitNoSep(a: string, sep: char)
    requires sep !in a
    ensures Split(a, sep) == [a]
  {
    if a != [] {
      SplitNoSep(a[1..], sep);
      assert [a[0]] + a[1..] == a;
    }
  }

  /** A delimiter-free prefix followed by the delimiter splits off as the first part. */
  lemma {:induction false} SplitAppend(a: string, t: string, sep: char)
    requires sep !in a
    ensures Split(a + [sep] + t, sep) == [a] + Split(t, sep)
  {
    var s := a + [sep] + t;
    if a == [] {
      assert s[1..] == t;
    } else {
      assert s[1..] == a[1..] + [sep] + t;
      SplitAppend(a[1..], t, sep);
      assert [a[0]] + a[1..] == a;
    }
  }

  /** Three delimiter-free strings joined by the delimiter split back into exactly those three. */
  lemma SplitThree(a: string, b: string, c: string, sep: char)
    requires sep !in a && sep !in b && sep !in c
    ensures Split(a + [sep] + b + [sep] + c, sep) == [a, b, c]
  {
    assert a + [sep] + b + [sep] + c == a + [sep] + (b + [sep] + c);
    SplitAppend(a, b + [sep] + c, sep);
    SplitAppend(b, c, sep);
    SplitNoSep(c, sep);
  }

  lemma DigitsHaveNo(s: string, c: char)
    requires AllDigits(s) && !IsDigit(c)
    ensures c !in s
  {
  }

  // ---------------------------------------------------------------------
  // trim and isBlank
  // ---------------------------------------------------------------------

  /** Kotlin's `Char.isWhitespace()` on the JVM: `Character.isWhitespace(c) ||
      Character.isSpaceChar(c)`, that is TAB..CR, U+001C..U+001F and the Unicode
      space, line and paragraph separators (U+00A0 and U+202F included). */
  predicate IsWhitespace(c: char) {
    || ('\t' <= c <= '\r')
    || ('\U{1C}' <= c <= '\U{1F}')
    || c == ' '
    || c == '\U{A0}'
    || c == '\U{1680}'
    || ('\U{2000}' <= c <= '\U{200A}')
    || c == '\U{2028}'
    || c == '\U{2029}'
    || c == '\U{202F}'
    || c == '\U{205F}'
    || c == '\U{3000}'
  }

  /** Kotlin's `isBlank()`: empty or whitespace only. */
  predicate IsBlank(s: string) {
    forall i :: 0 <= i < |s| ==> IsWhitespace(s[i])
  }

  function TrimStart(s: string): string {
    if s != [] && IsWhitespace(s[0]) then TrimStart(s[1..]) else s
  }

  function TrimEnd(s: string): string {
    if s != [] && IsWhitespace(s[|s| - 1]) then TrimEnd(s[..|s| - 1]) else s
  }

  /** Kotlin's `trim()`: drops leading and trailing whitespace. */
  function Trim(s: string): string {
    TrimEnd(TrimStart(s))
  }

  /** A whitespace character in front of a blank string leaves it blank. */
  lemma BlankCons(c: char, t: string)
    requires IsWhitespace(c) && IsBlank(t)
    ensures IsBlank([c] + t)
  {
    assert forall k :: 0 < k < |[c] + t| ==> ([c] + t)[k] == t[k - 1];
  }

  /** `trimStart()` drops the blank prefix `s[..i]` and stops at a non-blank character. */
  lemma {:induction false} TrimStartCut(s: string) returns (i: int)
    ensures 0 <= i <= |s| && TrimStart(s) == s[i..] && IsBlank(s[..i])
    ensures i < |s| ==> !IsWhitespace(s[i])
  {
    if s != [] && IsWhitespace(s[0]) {
      var k := TrimStartCut(s[1..]);
      i := k + 1;
      assert s[1..][k..] == s[i..];
      assert s[..i] == [s[0]] + s[1..][..k];
      BlankCons(s[0], s[1..][..k]);
    } else {
      i := 0;
      assert s[0..] == s;
      assert s[..0] == [];
    }
  }

  /** `trimEnd()` drops the blank suffix `s[j..]` and stops at a non-blank character. */
  lemma {:induction false} TrimEndCut(s: string) returns (j: int)
    ensures 0 <= j <= |s| && TrimEnd(s) == s[..j] && IsBlank(s[j..])
    ensures 0 < j ==> !IsWhitespace(s[j - 1])
  {
    if s != [] && IsWhitespace(s[|s| - 1]) {
      var p := s[..|s| - 1];
      j := TrimEndCut(p);
      assert p[..j] == s[..j];
      assert s[j..] == p[j..] + [s[|s| - 1]];
      assert forall k :: 0 <= k < |p[j..]| ==> s[j..][k] == p[j..][k];
    } else {
      j := |s|;
      assert s[..|s|] == s;
      assert s[|s|..] == [];
    }
  }

  /** Where `trim()` cuts: it keeps the infix `s[i..j]` between a blank prefix
      and a blank suffix, and that infix neither starts nor ends with whitespace. */
  lemma {:induction false} TrimCut(s: string) returns (i: int, j: int)
    ensures 0 <= i <= j <= |s| && Trim(s) == s[i..j] && IsBlank(s[..i]) && IsBlank(s[j..])
    ensures i < j ==> !IsWhitespace(s[i]) && !IsWhitespace(s[j - 1])
  {
    i := TrimStartCut(s);
    var t := s[i..];
    var k := TrimEndCut(t);
    j := i + k;
    assert t[..k] == s[i..j];
    assert t[k..] == s[j..];
  }

  /** Trim removes a blank prefix and a blank suffix and nothing else, and the
      result neither starts nor ends with whitespace. */
  lemma {:induction false} TrimShape(s: string)
    ensures exists i, j :: 0 <= i <= j <= |s| && Trim(s) == s[i..j] && IsBlank(s[..i]) && IsBlank(s[j..])
    ensures Trim(s) == [] || (!IsWhitespace(Trim(s)[0]) && !IsWhitespace(Trim(s)[|Trim(s)| - 1]))
  {
    var i, j := TrimCut(s);
  }

  /** `isBlank()` holds exactly when `trim()` leaves nothing. */
  lemma {:induction false} BlankIffTrimEmpty(s: string)
    ensures IsBlank(s) <==> Trim(s) == []
  {
    var i, j := TrimCut(s);
    if Trim(s) == [] {
      assert s == s[..i] + s[i..];
      assert forall k :: i <= k < |s| ==> s[k] == s[j..][k - j];
    }
  }

  /** A string whose ends are not whitespace is its own trim. */
  lemma {:induction false} TrimOfTrimmed(s: string)
    requires s == [] || (!IsWhitespace(s[0]) && !IsWhitespace(s[|s| - 1]))
    ensures Trim(s) == s
  {
  }

  /** `trimStart()` removes a blank prefix from a string that does not begin with whitespace. */
  lemma {:induction false} TrimStartOfPadded(p: string, t: string)
    requires IsBlank(p)
    requires t == [] || !IsWhitespace(t[0])
    ensures TrimStart(p + t) == t
  {
    if p != [] {
      assert (p + t)[1..] == p[1..] + t;
      TrimStartOfPadded(p[1..], t);
    } else {
      assert p + t == t;
    }
  }

  /** `trimEnd()` removes a blank suffix from a string that does not end with whitespace. */
  lemma {:induction false} TrimEndOfPadded(t: string, q: string)
    requires IsBlank(q)
    requires t == [] || !IsWhitespace(t[|t| - 1])
    ensures TrimEnd(t + q) == t
  {
    if q != [] {
      var q' := q[..|q| - 1];
      assert (t + q)[..|t + q| - 1] == t + q';
      TrimEndOfPadded(t, q');
    } else {
      assert t + q == t;
    }
  }

  /** Conversely to TrimShape, a string whose ends are not whitespace is what
      `trim()` leaves of it padded with blanks on either side. */
  lemma TrimOfPadded(p: string, t: string, q: string)
    requires IsBlank(p) && IsBlank(q)
    requires t == [] || (!IsWhitespace(t[0]) && !IsWhitespace(t[|t| - 1]))
    ensures Trim(p + t + q) == t
  {
    if t == [] {
      assert p + t + q == p + q;
      BlankIffTrimEmpty(p + q);
    } else {
      assert p + t + q == p + (t + q);
      TrimStartOfPadded(p, t + q);
      TrimEndOfPadded(t, q);
    }
  }

  /** Trimming twice is trimming once. */
  lemma TrimIdempotent(s: string)
    ensures Trim(Trim(s)) == Trim(s)
  {
    TrimShape(s);
    TrimOfTrimmed(Trim(s));
  }

  // ---------------------------------------------------------------------
  // Case
  // ---------------------------------------------------------------------

  /** `Character.toUpperCase` on the characters whose upper case is ASCII:
      a-z, dotless i (U+0131) and long s (U+017F). Other characters are left
      as they are, which decides a comparison correctly whenever the other
      side of it is ASCII. */
  function UpperChar(c: char): char {
    if 'a' <= c <= 'z' then (c as int - 32) as char
    else if c == '\U{131}' then 'I'
    else if c == '\U{17F}' then 'S'
    else c
  }

  /** `Character.toLowerCase` on the characters whose lower case is ASCII:
      A-Z, capital I with dot (U+0130) and the Kelvin sign (U+212A). */
  function LowerChar(c: char): char {
    if 'A' <= c <= 'Z' then (c as int + 32) as char
    else if c == '\U{130}' then 'i'
    else if c == '\U{212A}' then 'k'
    else c
  }

  /** The per-character rule of `String.equals(other, ignoreCase = true)`. */
  predicate CharEqualsIgnoreCase(a: char, b: char) {
    a == b || UpperChar(a) == UpperChar(b) || LowerChar(UpperChar(a)) == LowerChar(UpperChar(b))
  }

  predicate EqualsIgnoreCase(a: string, b: string) {
    |a| == |b| && forall i :: 0 <= i < |a| ==> CharEqualsIgnoreCase(a[i], b[i])
  }

  /** `lowercase()` / SQL `LOWER`, character by character. */
  function Lowercase(s: string): (r: string)
    ensures |r| == |s| && forall i :: 0 <= i < |s| ==> r[i] == LowerChar(s[i])
  {
    if s == [] then [] else [LowerChar(s[0])] + Lowercase(s[1..])
  }

  function Uppercase(s: string): (r: string)
    ensures |r| == |s| && forall i :: 0 <= i < |s| ==> r[i] == UpperChar(s[i])
  {
    if s == [] then [] else [UpperChar(s[0])] + Uppercase(s[1..])
  }

  /** Changing the case of a string does not change it under `equals(ignoreCase = true)`. */
  lemma CaseChangesAreIgnored(s: string)
    ensures EqualsIgnoreCase(Uppercase(s), s) && EqualsIgnoreCase(Lowercase(s), s)
  {
    forall i | 0 <= i < |s|
      ensures CharEqualsIgnoreCase(Uppercase(s)[i], s[i]) && CharEqualsIgnoreCase(Lowercase(s)[i], s[i])
    {
      var c := s[i];
      if 'A' <= c <= 'Z' {
        assert UpperChar(LowerChar(c)) == c;
      }
    }
  }

  /** `equals(ignoreCase = true)` does not depend on the order of its operands. */
  lemma EqualsIgnoreCaseSymmetric(a: string, b: string)
    ensures EqualsIgnoreCase(a, b) <==> EqualsIgnoreCase(b, a)
  {
  }

  // ---------------------------------------------------------------------
  // Substrings and SQL LIKE
  // ---------------------------------------------------------------------

  /** `t` contains `q` as a contiguous run of characters. */
  predicate Contains(t: string, q: string) {
    q <= t || (t != [] && Contains(t[1..], q))
  }

  lemma {:induction false} ContainsAt(t: string, q: string)
    ensures Contains(t, q) <==> exists k :: 0 <= k <= |t| && q <= t[k..]
  {
    if q <= t {
      assert t[0..] == t;
    } else if t == [] {
    } else {
      ContainsAt(t[1..], q);
      if exists k :: 0 <= k <= |t| && q <= t[k..] {
        var k :| 0 <= k <= |t| && q <= t[k..];
        assert k != 0;
        assert t[1..][k - 1..] == t[k..];
      }
      if Contains(t[1..], q) {
        var k :| 0 <= k <= |t[1..]| && q <= t[1..][k..];
        assert t[1..][k..] == t[k + 1..];
      }
    }
  }

  /** The escape character of MySQL's `LIKE` when no `ESCAPE` clause is given. */
  const LikeEscape: char := '\\'

  /** SQL `t LIKE p` with MySQL's default escape: `%` matches any run of
      characters, `_` any one character, `\` followed by a character matches
      that character literally, a `\` that ends the pattern matches itself,
      and every other character matches itself. */
  predicate Like(t: string, p: string)
    decreases |t| + |p|
  {
    if p == [] then t == []
    else if p[0] == '%' then Like(t, p[1..]) || (t != [] && Like(t[1..], p))
    else if t == [] then false
    else if p[0] == '_' then Like(t[1..], p[1..])
    else if p[0] == LikeEscape && |p| >= 2 then t[0] == p[1] && Like(t[1..], p[2..])
    else t[0] == p[0] && Like(t[1..], p[1..])
  }

  /** No character of `s` has a special meaning in a `LIKE` pattern. */
  predicate NoWildcards(s: string) {
    forall i :: 0 <= i < |s| ==> s[i] != '%' && s[i] != '_' && s[i] != LikeEscape
  }

  /** No character of `s` is the `LIKE` escape; `%` and `_` may occur. */
  predicate NoEscapes(s: string) {
    forall i :: 0 <= i < |s| ==> s[i] != LikeEscape
  }

  /** A pattern without escapes matches every string it begins when followed
      by `%`: in particular each of its wildcards matches the character it
      stands over. */
  lemma {:induction false} PatternPrefix(t: string, q: string)
    requires NoEscapes(q) && q <= t
    ensures Like(t, q + "%")
  {
    if q == [] {
      assert q + "%" == "%";
      LikePercent(t);
    } else {
      var rest := q[1..] + "%";
      assert (q + "%")[1..] == rest;
      PatternPrefix(t[1..], q[1..]);
      if q[0] == '%' {
        assert ("%" + rest)[1..] == rest;
        assert Like(t[1..], "%" + rest);
        assert q + "%" == "%" + rest;
      }
    }
  }

  /** A string without escapes is `LIKE` the pattern `%` + itself + `%`. */
  lemma LikeSurroundedSelf(t: string)
    requires NoEscapes(t)
    ensures Like(t, "%" + t + "%")
  {
    PatternPrefix(t, t);
    assert ("%" + t + "%")[1..] == t + "%";
  }

  lemma {:induction false} LikePercent(t: string)
    ensures Like(t, "%")
  {
    if t != [] {
      LikePercent(t[1..]);
    }
  }

  /** A literal pattern followed by `%` matches exactly the strings it begins. */
  lemma {:induction false} LikePrefix(t: string, q: string)
    requires NoWildcards(q)
    ensures Like(t, q + "%") <==> q <= t
  {
    if q == [] {
      assert q + "%" == "%";
      LikePercent(t);
    } else if t != [] {
      assert (q + "%")[1..] == q[1..] + "%";
      LikePrefix(t[1..], q[1..]);
    }
  }

  /** With no wildcard in `q`, the pattern `%q%` is plain substring search. */
  lemma {:induction false} LikeContains(t: string, q: string)
    requires NoWildcards(q)
    ensures Like(t, "%" + q + "%") <==> Contains(t, q)
  {
    var p := "%" + q + "%";
    assert p[1..] == q + "%";
    LikePrefix(t, q);
    if t != [] {
      LikeContains(t[1..], q);
    }
  }
}
