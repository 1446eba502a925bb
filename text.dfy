/**
 * The JavaScript string primitives that calculator.js relies on, over `string`
 * (a sequence of Unicode scalar values): `trim`, `split` with a one-character
 * separator, `indexOf`/`replace` with a string pattern, ASCII upper-casing,
 * `parseInt` and `parseFloat`.
 */
module Text {
  import opened Wrappers

  /** JavaScript's WhiteSpace and LineTerminator code points: what `trim` removes. */
  predicate IsSpace(c: char) {
    || c == '\t' || c == '\n' || c == '\U{000B}' || c == '\U{000C}' || c == '\r' || c == ' '
    || c == '\U{00A0}' || c == '\U{1680}' || ('\U{2000}' <= c <= '\U{200A}')
    || c == '\U{2028}' || c == '\U{2029}' || c == '\U{202F}' || c == '\U{205F}'
    || c == '\U{3000}' || c == '\U{FEFF}'
  }

  predicate AllSpace(s: string) {
    forall i :: 0 <= i < |s| ==> IsSpace(s[i])
  }

  /** A string that `trim` leaves alone: empty, or not starting or ending in white space. */
  predicate IsTrimmed(s: string) {
    s == [] || (!IsSpace(s[0]) && !IsSpace(s[|s| - 1]))
  }

  /** `String.prototype.trimStart` */
  function TrimStart(s: string): (r: string)
    ensures |r| <= |s| && r == s[|s| - |r|..]
    ensures r == [] || !IsSpace(r[0])
    ensures AllSpace(s[..|s| - |r|])
  {
    if |s| > 0 && IsSpace(s[0]) then
      var r := TrimStart(s[1..]);
      assert s[..|s| - |r|] == [s[0]] + s[1..][..|s| - 1 - |r|];
      r
    else s
  }

  /** `String.prototype.trimEnd` */
  function TrimEnd(s: string): (r: string)
    ensures |r| <= |s| && r == s[..|r|]
    ensures r == [] || !IsSpace(r[|r| - 1])
    ensures AllSpace(s[|r|..])
  {
    if |s| > 0 && IsSpace(s[|s| - 1]) then
      var r := TrimEnd(s[..|s| - 1]);
      assert s[|r|..] == s[..|s| - 1][|r|..] + [s[|s| - 1]];
      r
    else s
  }

  /** `String.prototype.trim` */
  function Trim(s: string): (r: string)
    ensures IsTrimmed(r) && |r| <= |s|
  {
    TrimEnd(TrimStart(s))
  }

  lemma {:induction false} TrimStartSkips(p: string, t: string)
    requires AllSpace(p)
    requires t == [] || !IsSpace(t[0])
    ensures TrimStart(p + t) == t
  {
    if p != [] {
      assert (p + t)[1..] == p[1..] + t;
      TrimStartSkips(p[1..], t);
    }
  }

  lemma {:induction false} TrimEndSkips(t: string, q: string)
    requires AllSpace(q)
    requires t == [] || !IsSpace(t[|t| - 1])
    ensures TrimEnd(t + q) == t
  {
    if q != [] {
      assert (t + q)[..|t + q| - 1] == t + q[..|q| - 1];
      TrimEndSkips(t, q[..|q| - 1]);
    }
  }

  /**
   * `trim` removes exactly the white space around a trimmed core: whatever
   * white space surrounds `m`, trimming gives back `m`.
   */
  lemma TrimStrips(p: string, m: string, q: string)
    requires AllSpace(p) && AllSpace(q) && IsTrimmed(m)
    ensures Trim(p + m + q) == m
  {
    if m == [] {
      assert p + m + q == p + q + [];
      TrimStartSkips(p + q, []);
    } else {
      assert p + m + q == p + (m + q);
      TrimStartSkips(p, m + q);
      TrimEndSkips(m, q);
    }
  }

  lemma TrimmedIsFixed(m: string)
    requires IsTrimmed(m)
    ensures Trim(m) == m
  {
    assert [] + m + [] == m;
    TrimStrips([], m, []);
  }

  /** Number of occurrences of `c` in `s`. */
  function Count(s: string, c: char): nat {
    if s == [] then 0 else (if s[0] == c then 1 else 0) + Count(s[1..], c)
  }

  /** `s.split(sep)` for a one-character separator: always at least one part. */
  function Split(s: string, sep: char): (parts: seq<string>)
    ensures |parts| >= 1
    ensures forall i :: 0 <= i < |parts| ==> sep !in parts[i]
  {
    if s == [] then [[]]
    else
      var rest := Split(s[1..], sep);
      if s[0] == sep then [[]] + rest
      else [[s[0]] + rest[0]] + rest[1..]
  }

  /** `parts.join(sep)`, the inverse of `Split`. */
  function Join(parts: seq<string>, sep: char): string {
    if |parts| == 0 then []
    else if |parts| == 1 then parts[0]
    else parts[0] + [sep] + Join(parts[1..], sep)
  }

  /** Splitting yields one more part than there are separators. */
  lemma {:induction false} SplitCount(s: string, sep: char)
    ensures |Split(s, sep)| == Count(s, sep) + 1
  {
    if s != [] {
      SplitCount(s[1..], sep);
    }
  }

  /** Joining the parts of a split gives the original string back. */
  lemma {:induction false} JoinSplit(s: string, sep: char)
    ensures Join(Split(s, sep), sep) == s
  {
    if s != [] {
      var rest := Split(s[1..], sep);
      JoinSplit(s[1..], sep);
      if s[0] == sep {
        assert Split(s, sep) == [[]] + rest;
        if |rest| == 1 {
          assert Join(Split(s, sep), sep) == [] + [sep] + rest[0];
        } else {
          assert ([[]] + rest)[1..] == rest;
          assert Join(rest, sep) == rest[0] + [sep] + Join(rest[1..], sep);
        }
        assert s == [sep] + s[1..];
      } else {
        var parts := Split(s, sep);
        assert parts == [[s[0]] + rest[0]] + rest[1..];
        if |rest| == 1 {
          assert Join(parts, sep) == [s[0]] + rest[0];
        } else {
          assert parts[1..] == rest[1..];
          assert Join(rest, sep) == rest[0] + [sep] + Join(rest[1..], sep);
          assert Join(parts, sep) == [s[0]] + rest[0] + [sep] + Join(rest[1..], sep);
        }
        assert s == [s[0]] + s[1..];
      }
    }
  }

  lemma {:induction false} SplitAfterPart(p: string, t: string, sep: char)
    requires sep !in p
    ensures Split(p + [sep] + t, sep) == [p] + Split(t, sep)
  {
    if p == [] {
      assert p + [sep] + t == [sep] + t;
      assert ([sep] + t)[1..] == t;
    } else {
      assert (p + [sep] + t)[1..] == p[1..] + [sep] + t;
      SplitAfterPart(p[1..], t, sep);
      assert [p[0]] + p[1..] == p;
    }
  }

  lemma {:induction false} SplitOfPart(p: string, sep: char)
    requires sep !in p
    ensures Split(p, sep) == [p]
  {
    if p != [] {
      SplitOfPart(p[1..], sep);
      assert [p[0]] + p[1..] == p;
    }
  }

  /** Splitting a join of separator-free parts gives the parts back. */
  lemma {:induction false} SplitJoin(parts: seq<string>, sep: char)
    requires |parts| >= 1
    requires forall i :: 0 <= i < |parts| ==> sep !in parts[i]
    ensures Split(Join(parts, sep), sep) == parts
  {
    if |parts| == 1 {
      SplitOfPart(parts[0], sep);
    } else {
      SplitJoin(parts[1..], sep);
      SplitAfterPart(parts[0], Join(parts[1..], sep), sep);
      assert [parts[0]] + parts[1..] == parts;
    }
  }

  /** A character found in no part, and not the separator, is not in the join. */
  lemma {:induction false} JoinAvoids(parts: seq<string>, sep: char, c: char)
    requires c != sep && forall i :: 0 <= i < |parts| ==> c !in parts[i]
    ensures c !in Join(parts, sep)
  {
    if |parts| > 1 {
      JoinAvoids(parts[1..], sep, c);
    }
  }

  /** `pat` occurs in `s` at index `j`. */
  predicate OccursAt(s: string, pat: string, j: nat) {
    j + |pat| <= |s| && s[j..j + |pat|] == pat
  }

  function IndexFrom(s: string, pat: string, i: nat): (r: Option<nat>)
    requires i <= |s|
    ensures r.Some? ==> i <= r.value && OccursAt(s, pat, r.value)
    ensures r.Some? ==> forall j :: i <= j < r.value ==> !OccursAt(s, pat, j)
    ensures r.None? ==> forall j :: i <= j ==> !OccursAt(s, pat, j)
    decreases |s| - i
  {
    if OccursAt(s, pat, i) then Some(i)
    else if i + |pat| >= |s| then None
    else IndexFrom(s, pat, i + 1)
  }

  /** `s.indexOf(pat)`: the first index where `pat` occurs, or `None` for -1. */
  function IndexOf(s: string, pat: string): (r: Option<nat>)
    ensures r.Some? ==> OccursAt(s, pat, r.value) && forall j: nat :: j < r.value ==> !OccursAt(s, pat, j)
    ensures r.None? <==> forall j: nat :: !OccursAt(s, pat, j)
  {
    IndexFrom(s, pat, 0)
  }

  /** `s.replace(pat, '')` for a string pattern: drops the first occurrence only. */
  function RemoveFirst(s: string, pat: string): string {
    match IndexOf(s, pat)
    case None => s
    case Some(i) => s[..i] + s[i + |pat|..]
  }

  /** Upper-casing as the case-insensitive regular expression sees ASCII letters. */
  function UpperChar(c: char): char {
    if 'a' <= c <= 'z' then (c as int - 32) as char else c
  }

  function Upper(s: string): (r: string)
    ensures |r| == |s| && forall i :: 0 <= i < |s| ==> r[i] == UpperChar(s[i])
  {
    seq(|s|, i requires 0 <= i < |s| => UpperChar(s[i]))
  }

  /** Value of an alphanumeric digit in radix up to 36; 36 for anything else. */
  function DigitValue(c: char): nat {
    if '0' <= c <= '9' then c as nat - '0' as nat
    else if 'a' <= c <= 'z' then c as nat - 'a' as nat + 10
    else if 'A' <= c <= 'Z' then c as nat - 'A' as nat + 10
    else 36
  }

  predicate IsDigit(c: char, radix: nat) {
    DigitValue(c) < radix
  }

  predicate AllDigits(s: string, radix: nat) {
    forall i :: 0 <= i < |s| ==> IsDigit(s[i], radix)
  }

  /** Length of the longest prefix of `s` made of digits of the radix. */
  function LeadingDigits(s: string, radix: nat): (n: nat)
    ensures n <= |s| && AllDigits(s[..n], radix)
    ensures n == |s| || !IsDigit(s[n], radix)
  {
    if s == [] || !IsDigit(s[0], radix) then 0
    else
      var n := LeadingDigits(s[1..], radix);
      assert s[..n + 1] == [s[0]] + s[1..][..n];
      n + 1
  }

  lemma {:induction false} LeadingDigitsOf(d: string, t: string, radix: nat)
    requires AllDigits(d, radix)
    requires t == [] || !IsDigit(t[0], radix)
    ensures LeadingDigits(d + t, radix) == |d|
  {
    if d != [] {
      assert (d + t)[1..] == d[1..] + t;
      LeadingDigitsOf(d[1..], t, radix);
    }
  }

  /** The number written by the digit string `d` in the given radix. */
  function Value(d: string, radix: nat): nat
    requires AllDigits(d, radix)
  {
    if d == [] then 0 else Value(d[..|d| - 1], radix) * radix + DigitValue(d[|d| - 1])
  }

  function Pow10(n: nat): (r: nat)
    ensures r >= 1
  {
    if n == 0 then 1 else 10 * Pow10(n - 1)
  }

  /** Leading `+` or `-` removed, with the sign it stood for. */
  function StripSign(t: string): (bool, string) {
    if |t| > 0 && (t[0] == '-' || t[0] == '+') then (t[0] == '-', t[1..]) else (false, t)
  }

  /**
   * `parseInt(s)` without a radix: leading white space, an optional sign, an
   * optional `0x`/`0X` (hexadecimal), then the longest run of digits. No digit
   * at all gives `NaN`, written `None`.
   */
  function ParseInt(s: string): Option<int> {
    var (negative, u) := StripSign(TrimStart(s));
    var hex := |u| >= 2 && u[0] == '0' && (u[1] == 'x' || u[1] == 'X');
    var radix := if hex then 16 else 10;
    var body := if hex then u[2..] else u;
    var n := LeadingDigits(body, radix);
    if n == 0 then None
    else
      var magnitude: int := Value(body[..n], radix);
      Some(if negative then -magnitude else magnitude)
  }

  /** The exact value of the decimal numeral `whole.fraction` whose fraction has `scale` digits. */
  function Decimal(whole: nat, fraction: nat, scale: nat): real {
    whole as real + fraction as real / Pow10(scale) as real
  }

  /**
   * The unsigned decimal `digits[.digits]` at the head of `u`, as an exact
   * value; `None` when that prefix holds no digit at all.
   */
  function DecimalPrefix(u: string): Option<real> {
    var n1 := LeadingDigits(u, 10);
    var rest := u[n1..];
    var digits := if |rest| > 0 && rest[0] == '.' then rest[1..] else [];
    var n2 := LeadingDigits(digits, 10);
    if n1 + n2 == 0 then None
    else Some(Decimal(Value(u[..n1], 10), Value(digits[..n2], 10), n2))
  }

  /**
   * `parseFloat(s)` for the plain decimal forms: leading white space, an
   * optional sign, then the longest prefix `digits[.digits]` holding at least
   * one digit, as an exact value. No such prefix gives `NaN`, written `None`.
   */
  function ParseFloat(s: string): Option<real> {
    var (negative, u) := StripSign(TrimStart(s));
    match DecimalPrefix(u)
    case None => None
    case Some(magnitude) => Some(if negative then -magnitude else magnitude)
  }

  /** `parseInt` reads a plain decimal digit string as its value. */
  lemma ParseIntDigits(d: string)
    requires d != [] && AllDigits(d, 10)
    ensures ParseInt(d) == Some(Value(d, 10) as int)
  {
    assert !IsSpace(d[0]);
    assert [] + d == d;
    TrimStartSkips([], d);
    assert StripSign(TrimStart(d)) == (false, d) by {
      assert IsDigit(d[0], 10);
    }
    assert !(|d| >= 2 && d[0] == '0' && (d[1] == 'x' || d[1] == 'X')) by {
      assert |d| >= 2 ==> IsDigit(d[1], 10);
    }
    assert d + [] == d;
    LeadingDigitsOf(d, [], 10);
    assert d[..|d|] == d;
  }

  lemma DecimalPrefixOf(whole: string, fraction: string)
    requires whole != [] && AllDigits(whole, 10) && AllDigits(fraction, 10)
    ensures DecimalPrefix(whole + "." + fraction)
         == Some(Decimal(Value(whole, 10), Value(fraction, 10), |fraction|))
  {
    var tail := "." + fraction;
    var s := whole + tail;
    assert !IsDigit(tail[0], 10) by { assert tail[0] == '.'; }
    LeadingDigitsOf(whole, tail, 10);
    var n1 := LeadingDigits(s, 10);
    assert s[n1..] == tail && s[..n1] == whole;
    assert tail[1..] == fraction + [];
    LeadingDigitsOf(fraction, [], 10);
    var digits := if |s[n1..]| > 0 && s[n1..][0] == '.' then s[n1..][1..] else [];
    assert digits == fraction;
    assert digits[..LeadingDigits(digits, 10)] == fraction;
    assert whole + "." + fraction == s;
  }

  /** `parseFloat` reads `whole.fraction` as whole + fraction / 10^|fraction|. */
  lemma ParseFloatDecimal(whole: string, fraction: string)
    requires whole != [] && AllDigits(whole, 10) && AllDigits(fraction, 10)
    ensures ParseFloat(whole + "." + fraction)
         == Some(Decimal(Value(whole, 10), Value(fraction, 10), |fraction|))
  {
    var s := whole + "." + fraction;
    assert s[0] == whole[0] && IsDigit(s[0], 10);
    assert !IsSpace(s[0]);
    assert [] + s == s;
    TrimStartSkips([], s);
    assert StripSign(s) == (false, s) by {
      assert s[0] != '-' && s[0] != '+';
    }
    DecimalPrefixOf(whole, fraction);
  }
}
