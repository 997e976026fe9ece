/**
 * The search of `checkValue`: the query is escaped into a regular expression that matches
 * only literal text, the candidate lines that start with it (ignoring case) are collected,
 * the one exactly equal to the query is dropped, and the hits are sorted and cut to six.
 */
module Matching {
  import opened Wrappers
  import opened Text

  /** The characters `checkValue` puts a backslash in front of. */
  const EscapedChars: set<char> :=
    {'-', '.', '*', '+', '?', '^', '$', '{', '}', '(', ')', '|', '[', ']', '/', '\\'}

  /** The characters that have a meaning of their own in a regular expression pattern
      (SyntaxCharacter of ECMAScript). */
  const SyntaxChars: set<char> :=
    {'^', '$', '\\', '.', '*', '+', '?', '(', ')', '[', ']', '{', '}', '|'}

  /** Letters and digits: after a backslash these start a class, assertion or
      back-reference escape instead of standing for themselves. */
  predicate IsAlphaNum(c: char) {
    'a' <= c <= 'z' || 'A' <= c <= 'Z' || '0' <= c <= '9'
  }

  /** The query with a backslash before every escaped character, as `replace(escapeRgx, "\\$1")` does. */
  function EscapeRegExp(q: string): (p: string)
    ensures |q| <= |p| <= 2 * |q|
  {
    if q == [] then []
    else (if q[0] in EscapedChars then ['\\', q[0]] else [q[0]]) + EscapeRegExp(q[1..])
  }

  /** How the regular expression engine reads one piece of a pattern. */
  datatype Atom = Literal(c: char) | Operator(c: char) | CharEscape(c: char)

  /** The tokens of a pattern: a backslash before a non-alphanumeric character makes it literal,
      an unescaped syntax character is an operator, anything else is literal.
      A trailing lone backslash is a syntax error. */
  function Tokens(p: string): Option<seq<Atom>>
    decreases |p|
  {
    if p == [] then Some([])
    else if p[0] == '\\' then
      if |p| == 1 then None
      else
        match Tokens(p[2..])
        case None => None
        case Some(t) => Some([if IsAlphaNum(p[1]) then CharEscape(p[1]) else Literal(p[1])] + t)
    else
      match Tokens(p[1..])
      case None => None
      case Some(t) => Some([if p[0] in SyntaxChars then Operator(p[0]) else Literal(p[0])] + t)
  }

  function Literals(q: string): seq<Atom> {
    seq(|q|, i requires 0 <= i < |q| => Literal(q[i]))
  }

  /** Whatever the query holds, its escaped form is read as the query's characters, one literal
      each: the matcher compares text and never interprets the query as a pattern. */
  lemma {:induction false} EscapedQueryIsLiteral(q: string)
    ensures Tokens(EscapeRegExp(q)) == Some(Literals(q))
  {
    assert SyntaxChars <= EscapedChars;
    if q != [] {
      EscapedQueryIsLiteral(q[1..]);
      var p := EscapeRegExp(q);
      assert Literals(q) == [Literal(q[0])] + Literals(q[1..]);
      if q[0] in EscapedChars {
        assert p[2..] == EscapeRegExp(q[1..]);
      } else {
        assert p[1..] == EscapeRegExp(q[1..]);
      }
    }
  }

  /** Without the escaping a query such as "a.b" would hold an operator. */
  lemma UnescapedDotIsOperator()
    ensures Tokens("a.b") == Some([Literal('a'), Operator('.'), Literal('b')])
  {
    var b := "b";
    assert b[1..] == [] && Tokens(b[1..]) == Some([]);
    var tb := Tokens(b);
    assert tb.Some? && tb.value == [Literal('b')];
    var db := ".b";
    assert db[1..] == b && db[0] in SyntaxChars;
    var td := Tokens(db);
    assert td.Some? && td.value == [Operator('.'), Literal('b')];
    var adb := "a.b";
    assert adb[1..] == db && adb[0] !in SyntaxChars;
    var ta := Tokens(adb);
    assert ta.Some? && ta.value == [Literal('a'), Operator('.'), Literal('b')];
  }

  /** A candidate line is offered for a query if it starts with the query ignoring case and is not
      exactly the query. */
  predicate IsMatch(v: string, q: string) {
    StartsWithNoCase(v, q) && v != q
  }

  /** The hits of the search loop over the lines of the joined candidate text, in order. */
  function Matches(lines: seq<string>, q: string): (r: seq<string>)
    ensures |r| <= |lines|
    ensures forall x :: x in r ==> x in lines && IsMatch(x, q)
  {
    if lines == [] then []
    else
      var last := lines[|lines| - 1];
      Matches(lines[..|lines| - 1], q) + (if IsMatch(last, q) then [last] else [])
  }

  /** The hits keep every matching line with its multiplicity and nothing else. */
  lemma {:induction false} MatchesCount(lines: seq<string>, q: string, x: string)
    ensures multiset(Matches(lines, q))[x] == if IsMatch(x, q) then multiset(lines)[x] else 0
  {
    if lines != [] {
      var init, last := lines[..|lines| - 1], lines[|lines| - 1];
      MatchesCount(init, q, x);
      assert lines == init + [last];
    }
  }

  lemma MatchesMembers(lines: seq<string>, q: string, x: string)
    ensures x in Matches(lines, q) <==> x in lines && IsMatch(x, q)
  {
    MatchesCount(lines, q, x);
  }

  predicate Sorted(s: seq<string>) {
    forall i, j :: 0 <= i < j < |s| ==> LessEq(s[i], s[j])
  }

  function Insert(x: string, s: seq<string>): (r: seq<string>)
    ensures multiset(r) == multiset(s) + multiset{x}
  {
    if s == [] then [x]
    else if LessEq(x, s[0]) then [x] + s
    else
      assert s == [s[0]] + s[1..];
      [s[0]] + Insert(x, s[1..])
  }

  /** Inserting a value bounded below by `y` into a list bounded below by `y` keeps the bound. */
  lemma InsertBounded(x: string, s: seq<string>, y: string)
    requires forall k :: 0 <= k < |s| ==> LessEq(y, s[k])
    requires LessEq(y, x)
    ensures forall k :: 0 <= k < |Insert(x, s)| ==> LessEq(y, Insert(x, s)[k])
  {
    var t := Insert(x, s);
    forall k | 0 <= k < |t| ensures LessEq(y, t[k]) {
      assert t[k] in multiset(t);
      if t[k] != x {
        assert t[k] in multiset(s);
        var i :| 0 <= i < |s| && s[i] == t[k];
      }
    }
  }

  lemma InsertFrontSorted(x: string, s: seq<string>)
    requires Sorted(s) && s != [] && LessEq(x, s[0])
    ensures Sorted([x] + s)
  {
    var r := [x] + s;
    forall i, j | 0 <= i < j < |r| ensures LessEq(r[i], r[j]) {
      if i == 0 {
        if j > 1 { LessEqTrans(x, s[0], s[j - 1]); }
      } else {
        assert r[i] == s[i - 1] && r[j] == s[j - 1];
      }
    }
  }

  lemma ConsSorted(y: string, t: seq<string>)
    requires Sorted(t) && forall k :: 0 <= k < |t| ==> LessEq(y, t[k])
    ensures Sorted([y] + t)
  {
    var r := [y] + t;
    forall i, j | 0 <= i < j < |r| ensures LessEq(r[i], r[j]) {
      assert r[j] == t[j - 1];
      if i > 0 {
        assert r[i] == t[i - 1];
      }
    }
  }

  lemma {:induction false} InsertSorted(x: string, s: seq<string>)
    requires Sorted(s)
    ensures Sorted(Insert(x, s))
    decreases |s|
  {
    if s != [] {
      if LessEq(x, s[0]) {
        InsertFrontSorted(x, s);
      } else {
        var tail := s[1..];
        assert Sorted(tail) by {
          forall i, j | 0 <= i < j < |tail| ensures LessEq(tail[i], tail[j]) {
            assert tail[i] == s[i + 1] && tail[j] == s[j + 1];
          }
        }
        InsertSorted(x, tail);
        LessEqTotal(x, s[0]);
        assert forall k :: 0 <= k < |tail| ==> LessEq(s[0], tail[k]) by {
          forall k | 0 <= k < |tail| ensures LessEq(s[0], tail[k]) {
            assert tail[k] == s[k + 1];
          }
        }
        InsertBounded(x, tail, s[0]);
        ConsSorted(s[0], Insert(x, tail));
      }
    }
  }

  /** The ascending order of `sort()`, here computed by insertion. */
  function Sort(s: seq<string>): (r: seq<string>)
    ensures Sorted(r) && multiset(r) == multiset(s)
  {
    if s == [] then [] else
      assert s == [s[0]] + s[1..];
      var t := Sort(s[1..]);
      InsertSorted(s[0], t);
      Insert(s[0], t)
  }

  /** Two ascending orderings of the same strings start with the same string. */
  lemma SortedSameHead(a: seq<string>, b: seq<string>)
    requires Sorted(a) && Sorted(b) && multiset(a) == multiset(b) && a != []
    ensures b != [] && a[0] == b[0]
  {
    assert a[0] in multiset(b) && |b| == |multiset(b)| > 0;
    assert b[0] in multiset(a);
    var i :| 0 <= i < |b| && b[i] == a[0];
    var j :| 0 <= j < |a| && a[j] == b[0];
    if i > 0 { assert LessEq(b[0], b[i]); } else { LessEqRefl(b[0]); }
    if j > 0 { assert LessEq(a[0], a[j]); } else { LessEqRefl(a[0]); }
    LessEqAntisym(a[0], b[0]);
  }

  /** Any two ascending orderings of the same strings coincide: `Sort` is the result of whatever
      algorithm `sort()` uses. */
  lemma {:induction false} SortedUnique(a: seq<string>, b: seq<string>)
    requires Sorted(a) && Sorted(b) && multiset(a) == multiset(b)
    ensures a == b
    decreases |a|
  {
    if a == [] {
      assert |b| == |multiset(b)| == 0;
    } else {
      SortedSameHead(a, b);
      assert a == [a[0]] + a[1..] && b == [b[0]] + b[1..];
      assert multiset(a[1..]) == multiset(a) - multiset{a[0]};
      assert multiset(b[1..]) == multiset(b) - multiset{b[0]};
      SortedUnique(a[1..], b[1..]);
    }
  }

  /** At most this many suggestions are kept. */
  const MaxShown := 6

  function Min(a: int, b: int): int {
    if a < b then a else b
  }

  /** The first `k` elements of `s`. */
  function Take(s: seq<string>, k: nat): seq<string> {
    s[..Min(k, |s|)]
  }

  /** The stored and shown result of a search: the sorted hits cut to `MaxShown`. */
  function Suggestions(lines: seq<string>, q: string): (r: seq<string>)
    ensures |r| <= MaxShown
    ensures Sorted(r)
    ensures forall x :: x in r ==> x in lines && IsMatch(x, q)
  {
    var sorted := Sort(Matches(lines, q));
    var r := Take(sorted, MaxShown);
    assert forall x :: x in r ==> x in multiset(sorted);
    r
  }

  /** What is left out of a sorted sequence when its first `k` elements are kept sorts after all of them. */
  lemma SortedPrefixSmallest(s: seq<string>, k: nat)
    requires Sorted(s) && k <= |s|
    ensures multiset(s[..k]) <= multiset(s)
    ensures forall x, y :: x in multiset(s) - multiset(s[..k]) && y in s[..k] ==> LessEq(y, x)
  {
    assert s == s[..k] + s[k..];
    assert multiset(s) == multiset(s[..k]) + multiset(s[k..]);
    forall x, y | x in multiset(s) - multiset(s[..k]) && y in s[..k] ensures LessEq(y, x) {
      assert x in multiset(s[k..]);
      var i :| 0 <= i < |s[k..]| && s[k..][i] == x;
      var j :| 0 <= j < k && s[..k][j] == y;
      assert s[j] == y && s[k + i] == x;
    }
  }

  /** The suggestions are the smallest hits: as many as there are hits up to six, taken from the
      hits with their multiplicity, and every hit left out sorts after every one kept. */
  lemma SuggestionsAreSmallest(lines: seq<string>, q: string)
    ensures |Suggestions(lines, q)| == Min(MaxShown, |Matches(lines, q)|)
    ensures multiset(Suggestions(lines, q)) <= multiset(Matches(lines, q))
    ensures forall x, y ::
              x in multiset(Matches(lines, q)) - multiset(Suggestions(lines, q)) && y in Suggestions(lines, q)
              ==> LessEq(y, x)
  {
    var m := Matches(lines, q);
    var sorted := Sort(m);
    assert |sorted| == |multiset(m)| == |m|;
    SortedPrefixSmallest(sorted, Min(MaxShown, |sorted|));
  }

  /** A matching line that is not suggested is crowded out: six suggestions are shown and all of
      them sort no later than it. With six hits or fewer every matching line is suggested. */
  lemma SuggestionsComplete(lines: seq<string>, q: string, x: string)
    requires x in lines && IsMatch(x, q)
    ensures x !in Suggestions(lines, q) ==>
            |Suggestions(lines, q)| == MaxShown && forall y :: y in Suggestions(lines, q) ==> LessEq(y, x)
  {
    var m := Matches(lines, q);
    var r := Suggestions(lines, q);
    MatchesMembers(lines, q, x);
    SuggestionsAreSmallest(lines, q);
    if x !in r {
      assert x in multiset(m) - multiset(r);
    }
  }

  lemma {:induction false} ApricotMatches()
    ensures Matches(["apple", "Apricot", "banana"], "ap") == ["apple", "Apricot"]
  {
    var lines := ["apple", "Apricot", "banana"];
    assert IsMatch("apple", "ap") by {
      assert Lower('a') == Lower("apple"[0]) && Lower('p') == Lower("apple"[1]);
    }
    assert IsMatch("Apricot", "ap") by {
      assert Lower('a') == Lower("Apricot"[0]) && Lower('p') == Lower("Apricot"[1]);
    }
    assert !IsMatch("banana", "ap") by {
      assert Lower("banana"[0]) != Lower('a');
    }
    assert lines[..2][..1][..0] == [];
    assert lines[..2][..1] == ["apple"];
    assert lines[..2] == ["apple", "Apricot"];
  }

  /** Sorting two strings puts the smaller first. */
  lemma SortTwo(a: string, b: string)
    requires LessEq(b, a)
    ensures Sort([a, b]) == [b, a]
  {
    var s := [a, b];
    assert s[1..] == [b] && [b][1..] == [];
    assert Sort([b]) == Insert(b, Sort([])) == [b];
    assert Sort(s) == Insert(a, [b]);
    if LessEq(a, b) {
      LessEqAntisym(a, b);
    } else {
      assert [b][1..] == [];
    }
  }

  // The concrete examples below take their strings as parameters fixed by `requires`: with the
  // string literals written into the statement itself the solver runs out of resource.
  /** A case-insensitive prefix search, sorted by character code, so upper case comes first. */
  lemma ApricotBeforeApple(lines: seq<string>, q: string)
    requires lines == ["apple", "Apricot", "banana"] && q == "ap"
    ensures Suggestions(lines, q) == ["Apricot", "apple"]
  {
    ApricotMatches();
    UpperFirst("Apricot", "apple");
    SuggestionsOfTwo(lines, q, "apple", "Apricot");
  }

  /** Two hits are both shown, the smaller first. */
  lemma SuggestionsOfTwo(lines: seq<string>, q: string, a: string, b: string)
    requires Matches(lines, q) == [a, b] && LessEq(b, a)
    ensures Suggestions(lines, q) == [b, a]
  {
    SortTwo(a, b);
    assert Take([b, a], MaxShown) == [b, a];
  }

  lemma UpperFirst(a: string, b: string)
    requires a == "Apricot" && b == "apple"
    ensures LessEq(a, b)
  {
    assert a[0] < b[0];
  }

  /** A single matching line is the whole result. */
  lemma SingleSuggestion(lines: seq<string>, q: string)
    requires |lines| == 1 && IsMatch(lines[0], q)
    ensures Suggestions(lines, q) == lines
  {
    assert lines[..0] == [] && lines[1..] == [];
    assert Matches(lines, q) == lines;
    assert Sort(lines) == lines;
  }

  /** A line exactly equal to the query is not offered. */
  lemma ExactMatchDropped(lines: seq<string>, q: string)
    requires lines == ["apple"] && q == "apple"
    ensures Suggestions(lines, q) == []
  {
    assert lines[..0] == [];
    assert !IsMatch(lines[0], q);
    assert Matches(lines, q) == [];
  }

  /** A line differing from the query only in case is offered. */
  lemma CaseVariantKept(lines: seq<string>, q: string)
    requires lines == ["Apple"] && q == "apple"
    ensures Suggestions(lines, q) == ["Apple"]
  {
    assert lines[..0] == [] && lines[1..] == [];
    assert IsMatch(lines[0], q) by {
      assert forall i :: 0 <= i < |q| ==> Lower(lines[0][i]) == Lower(q[i]);
    }
    assert Matches(lines, q) == lines;
    assert Sort(lines) == lines;
  }
}
