/**
 * The IPv4 prefix pattern `^([0-9]{1,3}\.){3}[0-9]{1,3}\/[0-9]{1,3}$` that
 * a feed entry's `ip_prefix` must match: four runs of one to three decimal
 * digits separated by dots, a slash, and one to three digits. The pattern
 * does not bound an octet by 255 nor the prefix length by 32.
 */
module Ip4Cidr {

  predicate IsDigit(c: char) {
    '0' <= c <= '9'
  }

  /** One to three decimal digits (`[0-9]{1,3}`). */
  predicate IsDigitRun(s: string) {
    1 <= |s| <= 3 && forall k :: 0 <= k < |s| ==> IsDigit(s[k])
  }

  /** Length of the longest prefix of `s` made of digits. */
  function LeadingDigits(s: string): (n: nat)
    ensures n <= |s|
    ensures forall k :: 0 <= k < n ==> IsDigit(s[k])
    ensures n < |s| ==> !IsDigit(s[n])
  {
    if |s| == 0 || !IsDigit(s[0]) then 0 else 1 + LeadingDigits(s[1..])
  }

  /**
   * The matcher: `dots` more digit runs each followed by '.', then a digit
   * run, '/', and a final digit run reaching the end of the string. Since
   * no separator is a digit, taking the longest digit run loses no match.
   */
  predicate MatchesFrom(s: string, dots: nat)
    decreases dots
  {
    var n := LeadingDigits(s);
    1 <= n <= 3 && n < |s| &&
    if dots > 0 then s[n] == '.' && MatchesFrom(s[n + 1..], dots - 1)
    else s[n] == '/' && IsDigitRun(s[n + 1..])
  }

  /** Full-string match of the IPv4 prefix pattern. */
  predicate IsIp4Cidr(s: string) {
    MatchesFrom(s, 3)
  }

  /** The string `a.b.c.d/e`. */
  function Compose(a: string, b: string, c: string, d: string, e: string): string {
    a + ['.'] + (b + ['.'] + (c + ['.'] + (d + ['/'] + e)))
  }

  /** Reference reading of the pattern: a string made of five digit runs and the separators. */
  ghost predicate HasCidrShape(s: string) {
    exists a, b, c, d, e ::
      IsDigitRun(a) && IsDigitRun(b) && IsDigitRun(c) && IsDigitRun(d) && IsDigitRun(e) &&
      s == Compose(a, b, c, d, e)
  }

  /** The longest digit prefix of a digit run followed by a non-digit is that run. */
  lemma {:induction false} LeadingDigitsOfRun(a: string, rest: string)
    requires forall k :: 0 <= k < |a| ==> IsDigit(a[k])
    requires |rest| > 0 && !IsDigit(rest[0])
    ensures LeadingDigits(a + rest) == |a|
  {
    if |a| > 0 {
      assert (a + rest)[1..] == a[1..] + rest;
      LeadingDigitsOfRun(a[1..], rest);
    }
  }

  /** One step of the matcher on a run followed by a separator. */
  lemma StepOverRun(a: string, sep: char, rest: string, dots: nat)
    requires IsDigitRun(a) && !IsDigit(sep)
    ensures MatchesFrom(a + [sep] + rest, dots) <==>
      if dots > 0 then sep == '.' && MatchesFrom(rest, dots - 1)
      else sep == '/' && IsDigitRun(rest)
  {
    var s := a + [sep] + rest;
    assert s == a + ([sep] + rest);
    LeadingDigitsOfRun(a, [sep] + rest);
    assert s[|a|] == sep && s[|a| + 1..] == rest;
  }

  /** Every composition of five digit runs matches. */
  lemma ComposedMatches(a: string, b: string, c: string, d: string, e: string)
    requires IsDigitRun(a) && IsDigitRun(b) && IsDigitRun(c) && IsDigitRun(d) && IsDigitRun(e)
    ensures IsIp4Cidr(Compose(a, b, c, d, e))
  {
    var s4 := d + ['/'] + e;
    var s3 := c + ['.'] + s4;
    var s2 := b + ['.'] + s3;
    var s1 := a + ['.'] + s2;
    StepOverRun(d, '/', e, 0);
    StepOverRun(c, '.', s4, 1);
    StepOverRun(b, '.', s3, 2);
    StepOverRun(a, '.', s2, 3);
  }

  /** Splits a string the matcher accepts at its first separator. */
  lemma SplitRun(s: string, dots: nat) returns (a: string, sep: char, rest: string)
    requires MatchesFrom(s, dots)
    ensures IsDigitRun(a) && s == a + [sep] + rest
    ensures sep == (if dots > 0 then '.' else '/')
    ensures if dots > 0 then MatchesFrom(rest, dots - 1) else IsDigitRun(rest)
  {
    var n := LeadingDigits(s);
    a, sep, rest := s[..n], s[n], s[n + 1..];
    assert s == a + [sep] + rest;
  }

  /** The five runs of a string the matcher accepts. */
  lemma ShapeOfMatch(s: string) returns (a: string, b: string, c: string, d: string, e: string)
    requires IsIp4Cidr(s)
    ensures IsDigitRun(a) && IsDigitRun(b) && IsDigitRun(c) && IsDigitRun(d) && IsDigitRun(e)
    ensures s == Compose(a, b, c, d, e)
  {
    var r1, r2, r3;
    var sep1, sep2, sep3, sep4;
    a, sep1, r1 := SplitRun(s, 3);
    b, sep2, r2 := SplitRun(r1, 2);
    c, sep3, r3 := SplitRun(r2, 1);
    d, sep4, e := SplitRun(r3, 0);
    assert r2 == c + ['.'] + (d + ['/'] + e);
  }

  /** The matcher accepts exactly the strings of the reference shape. */
  lemma MatchIffShape(s: string)
    ensures IsIp4Cidr(s) <==> HasCidrShape(s)
  {
    if IsIp4Cidr(s) {
      var a, b, c, d, e := ShapeOfMatch(s);
      assert IsDigitRun(a) && IsDigitRun(b) && IsDigitRun(c) && IsDigitRun(d) && IsDigitRun(e);
    }
    if HasCidrShape(s) {
      var a, b, c, d, e :|
        IsDigitRun(a) && IsDigitRun(b) && IsDigitRun(c) && IsDigitRun(d) && IsDigitRun(e) &&
        s == Compose(a, b, c, d, e);
      ComposedMatches(a, b, c, d, e);
    }
  }

  /**
   * A matching string starts and ends with a digit and is between 9
   * (`1.1.1.1/1`) and 19 (`999.999.999.999/999`) characters long, so the
   * empty string and words such as `not-an-ip` never match.
   */
  lemma MatchBounds(s: string)
    requires IsIp4Cidr(s)
    ensures 9 <= |s| <= 19
    ensures IsDigit(s[0]) && IsDigit(s[|s| - 1])
  {
    var a, b, c, d, e := ShapeOfMatch(s);
    assert s[0] == a[0];
    var t3 := d + ['/'] + e;
    var t2 := c + ['.'] + t3;
    var t1 := b + ['.'] + t2;
    LastOfAppend(d + ['/'], e);
    LastOfAppend(c + ['.'], t3);
    LastOfAppend(b + ['.'], t2);
    LastOfAppend(a + ['.'], t1);
  }

  lemma LastOfAppend(x: string, y: string)
    requires |y| > 0
    ensures (x + y)[|x + y| - 1] == y[|y| - 1]
  {
  }

  /** The pattern accepts out-of-range octets and prefix lengths. */
  lemma AcceptsOutOfRangeNumbers()
    ensures IsIp4Cidr(Compose("999", "999", "999", "999", "999"))
  {
    var n := "999";
    assert IsDigitRun(n);
    ComposedMatches(n, n, n, n, n);
  }
}
