/**
 * String helpers with the meaning JavaScript gives them: decimal rendering of
 * numbers, `toLowerCase` on ASCII letters, `trim`, `includes`, `startsWith`,
 * `padStart(2, '0')`, `join` and the `<=` comparison of strings.
 */
module Text {

  predicate IsDigit(c: char) { '0' <= c <= '9' }

  predicate AllDigits(s: string) { forall i :: 0 <= i < |s| ==> IsDigit(s[i]) }

  function DigitValue(c: char): (d: nat)
    requires IsDigit(c)
    ensures d < 10
  {
    c as int - '0' as int
  }

  function DigitChar(d: nat): (c: char)
    requires d < 10
    ensures IsDigit(c) && DigitValue(c) == d
  {
    ('0' as int + d) as char
  }

  /** The decimal text of a non-negative integer, as `String(n)` produces it. */
  function NatToString(n: nat): (s: string)
    ensures |s| > 0 && AllDigits(s)
    ensures n < 10 <==> |s| == 1
    decreases n
  {
    if n < 10 then [DigitChar(n)] else NatToString(n / 10) + [DigitChar(n % 10)]
  }

  /** The value of a string of decimal digits (the inverse of NatToString). */
  function ParseDigits(s: string): nat
    requires AllDigits(s)
  {
    if |s| == 0 then 0 else ParseDigits(s[..|s| - 1]) * 10 + DigitValue(s[|s| - 1])
  }

  /** Reading back the decimal text of a number gives the number. */
  lemma {:induction false} ParseNatToString(n: nat)
    ensures ParseDigits(NatToString(n)) == n
    decreases n
  {
    var s := NatToString(n);
    if n >= 10 {
      assert s[..|s| - 1] == NatToString(n / 10);
      ParseNatToString(n / 10);
    }
  }

  /** NatToString is injective: different numbers have different texts. */
  lemma NatToStringInjective(m: nat, n: nat)
    requires NatToString(m) == NatToString(n)
    ensures m == n
  {
    ParseNatToString(m);
    ParseNatToString(n);
  }

  /**
   * A run of digits followed by a non-digit is read unambiguously: when two
   * such texts are equal, so are their digit runs and their remainders.
   */
  lemma DigitRunCancel(x: string, r: string, y: string, q: string)
    requires AllDigits(x) && AllDigits(y)
    requires |r| > 0 && |q| > 0 && !IsDigit(r[0]) && !IsDigit(q[0])
    requires x + r == y + q
    ensures x == y && r == q
  {
    assert x == (x + r)[..|x|] && y == (y + q)[..|y|];
    assert r == (x + r)[|x|..] && q == (y + q)[|y|..];
  }

  /** Two numbers rendered before the same kind of non-digit text are equal when the texts are. */
  lemma NumberPrefixCancel(m: nat, r: string, n: nat, q: string)
    requires |r| > 0 && |q| > 0 && !IsDigit(r[0]) && !IsDigit(q[0])
    requires NatToString(m) + r == NatToString(n) + q
    ensures m == n && r == q
  {
    DigitRunCancel(NatToString(m), r, NatToString(n), q);
    NatToStringInjective(m, n);
  }

  function ToLowerChar(c: char): char
  {
    if 'A' <= c <= 'Z' then (c as int + 32) as char else c
  }

  /** `String.prototype.toLowerCase`, restricted to the ASCII letters. */
  function ToLower(s: string): (r: string)
    ensures |r| == |s| && forall i :: 0 <= i < |s| ==> r[i] == ToLowerChar(s[i])
  {
    seq(|s|, i requires 0 <= i < |s| => ToLowerChar(s[i]))
  }

  /**
   * What `trim` removes: the white space (tab, vertical tab, form feed, the
   * space separators and the byte order mark) and the line terminators of
   * sections 12.2 and 12.3 of ECMA-262.
   */
  predicate IsSpace(c: char)
  {
    c == ' ' || c == '\t' || c == '\n' || c == '\r' || c == '\U{000B}' || c == '\U{000C}'
    || c == '\U{00A0}' || c == '\U{1680}' || ('\U{2000}' <= c <= '\U{200A}')
    || c == '\U{2028}' || c == '\U{2029}' || c == '\U{202F}' || c == '\U{205F}' || c == '\U{3000}'
    || c == '\U{FEFF}'
  }

  /** Only leading white space is removed, and all of it. */
  function TrimStart(s: string): (r: string)
    ensures |r| <= |s| && r == s[|s| - |r|..]
    ensures forall i :: 0 <= i < |s| - |r| ==> IsSpace(s[i])
    ensures r == [] || !IsSpace(r[0])
  {
    if |s| > 0 && IsSpace(s[0]) then TrimStart(s[1..]) else s
  }

  /** Only trailing white space is removed, and all of it. */
  function TrimEnd(s: string): (r: string)
    ensures |r| <= |s| && r == s[..|r|]
    ensures forall i :: |r| <= i < |s| ==> IsSpace(s[i])
    ensures r == [] || !IsSpace(r[|r| - 1])
  {
    if |s| > 0 && IsSpace(s[|s| - 1]) then TrimEnd(s[..|s| - 1]) else s
  }

  /** r is the piece of s at offset a, and everything around it is white space. */
  predicate TrimmedAt(s: string, r: string, a: int)
  {
    && 0 <= a && a + |r| <= |s| && r == s[a..a + |r|]
    && (forall i :: 0 <= i < a ==> IsSpace(s[i]))
    && (forall i :: a + |r| <= i < |s| ==> IsSpace(s[i]))
  }

  /** Cutting a white-space prefix and then a white-space suffix leaves the middle of s. */
  lemma TrimmedMiddle(s: string, front: string, r: string)
    requires |front| <= |s| && front == s[|s| - |front|..]
    requires forall i :: 0 <= i < |s| - |front| ==> IsSpace(s[i])
    requires |r| <= |front| && r == front[..|r|]
    requires forall i :: |r| <= i < |front| ==> IsSpace(front[i])
    ensures TrimmedAt(s, r, |s| - |front|)
  {
    var a := |s| - |front|;
    assert r == s[a..a + |r|];
    forall i | a + |r| <= i < |s|
      ensures IsSpace(s[i])
    {
      assert s[i] == front[i - a];
    }
  }

  /** The middle is empty exactly for blank input. */
  lemma TrimmedBlank(s: string, r: string, a: int)
    requires TrimmedAt(s, r, a) && (r == [] || !IsSpace(r[0]))
    ensures r == [] <==> forall i :: 0 <= i < |s| ==> IsSpace(s[i])
  {
    if r != [] {
      assert s[a] == r[0];
    }
  }

  /**
   * `String.prototype.trim`: the result is the middle of s once the white
   * space at both ends is cut off, and it is empty exactly for blank input.
   */
  function Trim(s: string): (r: string)
    ensures exists a :: TrimmedAt(s, r, a)
    ensures r == [] || (!IsSpace(r[0]) && !IsSpace(r[|r| - 1]))
    ensures r == [] <==> forall i :: 0 <= i < |s| ==> IsSpace(s[i])
  {
    var front := TrimStart(s);
    var r := TrimEnd(front);
    TrimmedMiddle(s, front, r);
    TrimmedBlank(s, r, |s| - |front|);
    r
  }

  predicate StartsWith(s: string, p: string)
  {
    |p| <= |s| && s[..|p|] == p
  }

  /** `s.includes(p)`: p occurs in s as a contiguous piece. */
  predicate Includes(s: string, p: string)
    decreases |s|
  {
    StartsWith(s, p) || (|s| > 0 && Includes(s[1..], p))
  }

  /** Includes means an occurrence at some offset. */
  lemma {:induction false} IncludesAt(s: string, p: string, k: nat)
    requires k + |p| <= |s| && s[k..k + |p|] == p
    ensures Includes(s, p)
    decreases k
  {
    if k > 0 {
      assert s[1..][k - 1..k - 1 + |p|] == s[k..k + |p|];
      IncludesAt(s[1..], p, k - 1);
    }
  }

  /** Every string includes itself and every suffix of itself. */
  lemma IncludesSuffix(a: string, b: string)
    ensures Includes(a + b, b)
  {
    IncludesAt(a + b, b, |a|);
  }

  /** `padStart(2, '0')`. */
  function PadStart2(s: string): (r: string)
    ensures |s| >= 2 ==> r == s
    ensures |s| < 2 ==> |r| == 2 && r[2 - |s|..] == s
    ensures forall i :: 0 <= i < 2 - |s| ==> r[i] == '0'
    decreases 2 - |s|
  {
    if |s| >= 2 then s else PadStart2(['0'] + s)
  }

  /** `ss.join(sep)`. */
  function Join(ss: seq<string>, sep: string): string
  {
    if |ss| == 0 then "" else if |ss| == 1 then ss[0] else ss[0] + sep + Join(ss[1..], sep)
  }

  /** JavaScript's `a <= b` on strings: lexicographic by character, a prefix comes first. */
  predicate LexLe(a: string, b: string)
  {
    if |a| == 0 then true
    else if |b| == 0 then false
    else if a[0] < b[0] then true
    else if a[0] > b[0] then false
    else LexLe(a[1..], b[1..])
  }
}
