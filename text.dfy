/**
 * Character and string helpers shared by the matcher, the candidate list and the markup
 * builders: ASCII case folding, the case-insensitive prefix test, line terminators,
 * the default string ordering used by `sort()`, and decimal rendering of list indices.
 */
module Text {

  /** ASCII case folding: the letters A-Z become a-z, every other character is kept. */
  function Lower(c: char): char {
    if 'A' <= c <= 'Z' then (c as int + 32) as char else c
  }

  function FoldCase(s: string): string {
    seq(|s|, i requires 0 <= i < |s| => Lower(s[i]))
  }

  /** `s` starts with `q`, comparing characters after case folding
      (what the `i` flag does to a literal pattern anchored at the start of a line). */
  predicate StartsWithNoCase(s: string, q: string) {
    |q| <= |s| && forall i :: 0 <= i < |q| ==> Lower(s[i]) == Lower(q[i])
  }

  /** Two characters fold to the same one exactly when they are equal or are the upper- and
      lower-case forms of one ASCII letter. */
  lemma LowerSame(c: char, d: char)
    ensures Lower(c) == Lower(d) <==>
            c == d || ('A' <= c <= 'Z' && d as int == c as int + 32) || ('A' <= d <= 'Z' && c as int == d as int + 32)
  {
  }

  /** The case-insensitive prefix test is the ordinary prefix relation on the folded strings. */
  lemma StartsWithNoCaseIsFoldedPrefix(s: string, q: string)
    ensures StartsWithNoCase(s, q) <==> FoldCase(q) <= FoldCase(s)
  {
    if StartsWithNoCase(s, q) {
      assert FoldCase(q) == FoldCase(s)[..|q|];
    }
    if FoldCase(q) <= FoldCase(s) {
      forall i | 0 <= i < |q| ensures Lower(s[i]) == Lower(q[i]) {
        assert FoldCase(q)[i] == FoldCase(s)[i];
      }
    }
  }

  /** A case-sensitive prefix is in particular a case-insensitive one. */
  lemma PrefixStartsWithNoCase(s: string, q: string)
    requires q <= s
    ensures StartsWithNoCase(s, q)
  {
    forall i | 0 <= i < |q| ensures Lower(s[i]) == Lower(q[i]) {
      assert q[i] == s[i];
    }
  }

  /** The characters at which `.` stops and at which multiline `^` and `$` match. */
  predicate IsLineTerminator(c: char) {
    c == '\n' || c == '\r' || c == '\U{2028}' || c == '\U{2029}'
  }

  predicate LineFree(s: string) {
    forall i :: 0 <= i < |s| ==> !IsLineTerminator(s[i])
  }

  predicate AllLineFree(vs: seq<string>) {
    forall i :: 0 <= i < |vs| ==> LineFree(vs[i])
  }

  /** The ascending order of the default `sort()`: lexicographic by character, a proper prefix first. */
  predicate LessEq(a: string, b: string)
    decreases |a|
  {
    a == [] || (b != [] && (a[0] < b[0] || (a[0] == b[0] && LessEq(a[1..], b[1..]))))
  }

  lemma {:induction false} LessEqRefl(a: string)
    ensures LessEq(a, a)
    decreases |a|
  {
    if a != [] {
      LessEqRefl(a[1..]);
    }
  }

  lemma {:induction false} LessEqTotal(a: string, b: string)
    ensures LessEq(a, b) || LessEq(b, a)
    decreases |a|
  {
    if a != [] && b != [] && a[0] == b[0] {
      LessEqTotal(a[1..], b[1..]);
    }
  }

  lemma {:induction false} LessEqAntisym(a: string, b: string)
    requires LessEq(a, b) && LessEq(b, a)
    ensures a == b
    decreases |a|
  {
    if a != [] {
      LessEqAntisym(a[1..], b[1..]);
      assert a == [a[0]] + a[1..] && b == [b[0]] + b[1..];
    }
  }

  lemma {:induction false} LessEqTrans(a: string, b: string, c: string)
    requires LessEq(a, b) && LessEq(b, c)
    ensures LessEq(a, c)
    decreases |a|
  {
    if a != [] && a[0] == b[0] && b[0] == c[0] {
      LessEqTrans(a[1..], b[1..], c[1..]);
    }
  }

  function DigitChar(d: nat): char
    requires d < 10
  {
    ('0' as int + d) as char
  }

  predicate IsDigit(c: char) {
    '0' <= c <= '9'
  }

  /** Decimal rendering of a list index, as string concatenation of a number does it. */
  function NatToString(n: nat): (s: string)
    ensures s != [] && forall i :: 0 <= i < |s| ==> IsDigit(s[i])
  {
    if n < 10 then [DigitChar(n)] else NatToString(n / 10) + [DigitChar(n % 10)]
  }

  /** Decimal parsing of a string of digits, as `parseInt(…, 10)` reads a `data-idx` attribute. */
  function ParseNat(s: string): nat
    requires forall i :: 0 <= i < |s| ==> IsDigit(s[i])
  {
    if s == [] then 0
    else
      assert IsDigit(s[|s| - 1]);
      10 * ParseNat(s[..|s| - 1]) + (s[|s| - 1] as int - '0' as int)
  }

  lemma {:induction false} ParseNatToString(n: nat)
    ensures ParseNat(NatToString(n)) == n
  {
    if n >= 10 {
      ParseNatToString(n / 10);
      var s := NatToString(n);
      assert s[..|s| - 1] == NatToString(n / 10);
    }
  }
}
