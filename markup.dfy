/**
 * The two pieces of markup the widget builds as strings: the suggestion list that
 * `showValues` writes into its container, and the `<option>` list that
 * `generateDatalistOptionsHtml` produces for a native datalist.
 */
module Markup {
  import opened Wrappers
  import opened Text

  /** A suggestion's text with every `<` written as `&lt;`, as `replace(/</g, "&lt;")` does. */
  function EscapeLt(s: string): (r: string)
    ensures '<' !in r
  {
    if s == [] then [] else (if s[0] == '<' then "&lt;" else [s[0]]) + EscapeLt(s[1..])
  }

  /** How the markup is read back as text, restricted to the one reference `EscapeLt` writes. */
  function UnescapeLt(s: string): string
    decreases |s|
  {
    if s == [] then []
    else if "&lt;" <= s then "<" + UnescapeLt(s[4..])
    else [s[0]] + UnescapeLt(s[1..])
  }

  /** Text without `&` is shown as it is. */
  lemma {:induction false} EscapeLtRoundTrip(s: string)
    requires '&' !in s
    ensures UnescapeLt(EscapeLt(s)) == s
  {
    if s != [] {
      EscapeLtRoundTrip(s[1..]);
      var e := EscapeLt(s);
      if s[0] == '<' {
        assert e == "&lt;" + EscapeLt(s[1..]);
        assert e[4..] == EscapeLt(s[1..]);
      } else {
        assert e == [s[0]] + EscapeLt(s[1..]);
        assert !("&lt;" <= e) by { assert e[0] != '&'; }
        assert e[1..] == EscapeLt(s[1..]);
      }
      assert s == [s[0]] + s[1..];
    }
  }

  // The concrete examples below take their strings as parameters fixed by `requires`: with the
  // string literals written into the statement itself the solver runs out of resource.
  /** Only `<` is escaped, so a text that already spells "&lt;" is shown as "<". */
  lemma EscapeLtCollides(a: string, b: string)
    requires a == "<" && b == "&lt;"
    ensures a != b && EscapeLt(a) == EscapeLt(b)
  {
    assert EscapeLt(a) == "&lt;" by { assert a[1..] == []; }
    var s3 := ";";
    assert EscapeLt(s3) == ";" by { assert s3[1..] == []; }
    var s2 := "t;";
    assert s2[1..] == s3 && EscapeLt(s2) == "t;";
    var s1 := "lt;";
    assert s1[1..] == s2 && EscapeLt(s1) == "lt;";
    assert b[1..] == s1 && EscapeLt(b) == "&lt;";
  }

  const ListOpen := "<ul class='aList'>"
  const ListClose := "</ul>"

  const ItemOpen := "<li data-idx='"
  const ItemMid := "' class='aLim'>"
  const ItemClose := "</li>"

  /** One suggestion of the list at position `i`. */
  function ItemHtml(i: nat, v: string): string {
    ItemOpen + NatToString(i) + ItemMid + EscapeLt(v) + ItemClose
  }

  /** The items of the list, numbered from 0 in order. */
  function ItemsHtml(vs: seq<string>): string
    decreases |vs|
  {
    if vs == [] then "" else ItemsHtml(vs[..|vs| - 1]) + ItemHtml(|vs| - 1, vs[|vs| - 1])
  }

  /** The markup `showValues` puts into the container. */
  function ListHtml(vs: seq<string>): string {
    ListOpen + ItemsHtml(vs) + ListClose
  }

  /** The number of times `c` occurs in `s`. */
  function Count(s: string, c: char): nat
    decreases |s|
  {
    if s == [] then 0 else (if s[0] == c then 1 else 0) + Count(s[1..], c)
  }

  lemma {:induction false} CountAppend(a: string, b: string, c: char)
    ensures Count(a + b, c) == Count(a, c) + Count(b, c)
    decreases |a|
  {
    if a != [] {
      CountAppend(a[1..], b, c);
      var ab := a + b;
      assert ab != [] && ab[0] == a[0] && ab[1..] == a[1..] + b;
      assert Count(ab, c) == (if a[0] == c then 1 else 0) + Count(a[1..] + b, c);
    } else {
      assert a + b == b;
    }
  }

  lemma {:induction false} CountAbsent(s: string, c: char)
    requires c !in s
    ensures Count(s, c) == 0
    decreases |s|
  {
    if s != [] {
      CountAbsent(s[1..], c);
    }
  }

  lemma CountLeading(s: string, c: char)
    requires s != [] && s[0] == c && c !in s[1..]
    ensures Count(s, c) == 1
  {
    CountAbsent(s[1..], c);
  }

  lemma ItemOpenTag() ensures Count(ItemOpen, '<') == 1 { CountLeading(ItemOpen, '<'); }
  lemma ItemMidTag() ensures Count(ItemMid, '<') == 0 { CountAbsent(ItemMid, '<'); }
  lemma ItemCloseTag() ensures Count(ItemClose, '<') == 1 { CountLeading(ItemClose, '<'); }
  lemma ListOpenTag() ensures Count(ListOpen, '<') == 1 { CountLeading(ListOpen, '<'); }
  lemma ListCloseTag() ensures Count(ListClose, '<') == 1 { CountLeading(ListClose, '<'); }

  lemma CountFive(a: string, b: string, c: string, d: string, e: string, x: char)
    ensures Count(a + b + c + d + e, x) == Count(a, x) + Count(b, x) + Count(c, x) + Count(d, x) + Count(e, x)
  {
    CountAppend(a, b, x);
    CountAppend(a + b, c, x);
    CountAppend(a + b + c, d, x);
    CountAppend(a + b + c + d, e, x);
  }

  lemma DigitsHaveNoTag(i: nat)
    ensures Count(NatToString(i), '<') == 0
  {
    var num := NatToString(i);
    assert '<' !in num by {
      forall k | 0 <= k < |num| ensures num[k] != '<' { assert IsDigit(num[k]); }
    }
    CountAbsent(num, '<');
  }

  lemma ItemTags(i: nat, v: string)
    ensures Count(ItemHtml(i, v), '<') == 2
  {
    var num, esc := NatToString(i), EscapeLt(v);
    ItemOpenTag();
    ItemMidTag();
    ItemCloseTag();
    DigitsHaveNoTag(i);
    CountAbsent(esc, '<');
    CountFive(ItemOpen, num, ItemMid, esc, ItemClose, '<');
  }

  /** Every `<` of the list markup opens or closes one of its own elements: two for the list and two
      per suggestion. No suggestion text can add an element. */
  lemma ListHtmlTags(vs: seq<string>)
    ensures Count(ListHtml(vs), '<') == 2 * |vs| + 2
  {
    ItemsHtmlTags(vs);
    ListOpenTag();
    ListCloseTag();
    CountAppend(ListOpen, ItemsHtml(vs), '<');
    CountAppend(ListOpen + ItemsHtml(vs), ListClose, '<');
  }

  lemma {:induction false} ItemsHtmlTags(vs: seq<string>)
    ensures Count(ItemsHtml(vs), '<') == 2 * |vs|
    decreases |vs|
  {
    if vs != [] {
      ItemsHtmlTags(vs[..|vs| - 1]);
      ItemTags(|vs| - 1, vs[|vs| - 1]);
      CountAppend(ItemsHtml(vs[..|vs| - 1]), ItemHtml(|vs| - 1, vs[|vs| - 1]), '<');
    }
  }

  const OptionOpen := "<option value=\""
  const OptionClose := "\">"

  /** `Array.prototype.join`: the values with `sep` between each two. */
  function Join(vs: seq<string>, sep: string): string
    decreases |vs|
  {
    if vs == [] then "" else if |vs| == 1 then vs[0] else vs[0] + sep + Join(vs[1..], sep)
  }

  /** With a non-empty separator the join is "" exactly for no values or one empty value. */
  lemma JoinEmpty(vs: seq<string>, sep: string)
    requires sep != ""
    ensures Join(vs, sep) == "" <==> vs == [] || vs == [""]
  {
    if |vs| > 1 {
      assert |Join(vs, sep)| >= |sep|;
    }
  }

  /** The options markup: the values joined by `"><option value="` between an opening
      `<option value="` and a closing `">`, or nothing when there are no values. */
  function DatalistOptionsHtml(values: seq<string>): string {
    if |values| > 0 then OptionOpen + Join(values, OptionClose + OptionOpen) + OptionClose else ""
  }

  /** Each value between an opener and a closer, in order. */
  function Wrapped(vs: seq<string>, open: string, close: string): string
    decreases |vs|
  {
    if vs == [] then "" else open + vs[0] + close + Wrapped(vs[1..], open, close)
  }

  /** One `<option value="v">` per value, in order. */
  function OptionsOf(vs: seq<string>): string {
    Wrapped(vs, OptionOpen, OptionClose)
  }

  /** Joining by closer-then-opener inside one opener and one closer wraps every value. */
  lemma {:induction false} JoinWrapped(vs: seq<string>, open: string, close: string)
    requires vs != []
    ensures open + Join(vs, close + open) + close == Wrapped(vs, open, close)
    decreases |vs|
  {
    if |vs| > 1 {
      JoinWrapped(vs[1..], open, close);
      var sep := close + open;
      calc {
        open + Join(vs, sep) + close;
        open + (vs[0] + sep + Join(vs[1..], sep)) + close;
        open + vs[0] + close + (open + Join(vs[1..], sep) + close);
      }
    } else {
      assert Wrapped(vs[1..], open, close) == "";
    }
  }

  /** The joined form is the concatenation of one option element per value. */
  lemma DatalistIsOptionPerValue(vs: seq<string>)
    ensures DatalistOptionsHtml(vs) == OptionsOf(vs)
  {
    if vs != [] {
      JoinWrapped(vs, OptionOpen, OptionClose);
    }
  }

  /** How an HTML parser reads a double-quoted attribute value: up to the next `"`, with the
      character references `&quot;` and `&amp;` decoded. Gives the value and what follows the quote. */
  function ReadAttr(s: string): (r: Option<(string, string)>)
    ensures r.Some? ==> |r.value.1| < |s|
    decreases |s|
  {
    if s == [] then None
    else if s[0] == '"' then Some(([], s[1..]))
    else
      var c := if "&quot;" <= s then '"' else if "&amp;" <= s then '&' else s[0];
      var n := if "&quot;" <= s then 6 else if "&amp;" <= s then 5 else 1;
      match ReadAttr(s[n..])
      case None => None
      case Some(p) => Some(([c] + p.0, p.1))
  }

  /** The values of a sequence of `<option value="…">` elements; None for anything else. */
  function ParseOptions(html: string): Option<seq<string>>
    decreases |html|
  {
    if html == [] then Some([])
    else if !(OptionOpen <= html) then None
    else
      match ReadAttr(html[|OptionOpen|..])
      case None => None
      case Some(p) =>
        if p.1 == [] || p.1[0] != '>' then None
        else
          match ParseOptions(p.1[1..])
          case None => None
          case Some(vs) => Some([p.0] + vs)
  }

  /** A value that needs no escaping inside a double-quoted attribute. */
  predicate Plain(v: string) {
    '"' !in v && '&' !in v
  }

  lemma {:induction false} ReadPlainAttr(v: string, rest: string)
    requires Plain(v)
    ensures ReadAttr(v + "\"" + rest) == Some((v, rest))
    decreases |v|
  {
    if v == [] {
      ReadClosingQuote(rest);
      assert v + "\"" + rest == "\"" + rest;
    } else {
      var t := v[1..] + "\"" + rest;
      ReadPlainAttr(v[1..], rest);
      assert v + "\"" + rest == [v[0]] + t;
      ReadOther(v[0], t, v[1..], rest);
      assert [v[0]] + v[1..] == v;
    }
  }

  /** Values free of `"` and `&` are read back from the options markup. */
  lemma {:induction false} DatalistRoundTrip(vs: seq<string>)
    requires forall i :: 0 <= i < |vs| ==> Plain(vs[i])
    ensures ParseOptions(DatalistOptionsHtml(vs)) == Some(vs)
  {
    DatalistIsOptionPerValue(vs);
    OptionsRoundTrip(vs);
  }

  lemma {:induction false} OptionsRoundTrip(vs: seq<string>)
    requires forall i :: 0 <= i < |vs| ==> Plain(vs[i])
    ensures ParseOptions(OptionsOf(vs)) == Some(vs)
    decreases |vs|
  {
    if vs != [] {
      var tail := vs[1..];
      assert forall i :: 0 <= i < |tail| ==> Plain(tail[i]) by {
        forall i | 0 <= i < |tail| ensures Plain(tail[i]) {
          assert tail[i] == vs[i + 1];
        }
      }
      OptionsRoundTrip(tail);
      assert Plain(vs[0]);
      ReadPlainAttr(vs[0], ">" + OptionsOf(tail));
      ParseOptionsHead(vs, vs[0], tail);
      assert [vs[0]] + tail == vs;
    }
  }

  /** Reading one option element: its attribute is read up to the closing quote. */
  lemma ParseOptionStep(a: string, v: string, more: string, vs: seq<string>)
    requires ReadAttr(a + "\"" + (">" + more)) == Some((v, ">" + more))
    requires ParseOptions(more) == Some(vs)
    ensures ParseOptions(OptionOpen + a + OptionClose + more) == Some([v] + vs)
  {
    var x := a + "\"" + (">" + more);
    CloseSplit(OptionOpen, a, more);
    PrefixDrop(OptionOpen, x);
    assert (">" + more)[1..] == more;
  }

  /** Reading the first option of an options list. */
  lemma ParseOptionsHead(es: seq<string>, v: string, vs: seq<string>)
    requires es != []
    requires ReadAttr(es[0] + "\"" + (">" + OptionsOf(es[1..]))) == Some((v, ">" + OptionsOf(es[1..])))
    requires ParseOptions(OptionsOf(es[1..])) == Some(vs)
    ensures ParseOptions(OptionsOf(es)) == Some([v] + vs)
  {
    WrappedHead(es, OptionOpen, OptionClose);
    ParseOptionStep(es[0], v, OptionsOf(es[1..]), vs);
  }

  lemma WrappedHead(vs: seq<string>, open: string, close: string)
    requires vs != []
    ensures Wrapped(vs, open, close) == open + vs[0] + close + Wrapped(vs[1..], open, close)
  {
  }

  lemma PrefixDrop(p: string, x: string)
    ensures p <= p + x && (p + x)[|p|..] == x
  {
  }

  lemma CloseSplit(open: string, a: string, more: string)
    ensures open + a + OptionClose + more == open + (a + "\"" + (">" + more))
  {
    assert OptionClose == "\"" + ">";
  }

  /** A value holding `"` ends its attribute early: the markup no longer reads as the option list. */
  lemma DatalistQuoteBreaks(vs: seq<string>)
    requires vs == ["a\"b"]
    ensures ParseOptions(DatalistOptionsHtml(vs)) != Some(vs)
  {
    DatalistIsOptionPerValue(vs);
    var html := OptionsOf(vs);
    var body := html[|OptionOpen|..];
    assert body == "a\"b\">";
    assert body[1..] == "\"b\">" && body[1..][1..] == "b\">";
    assert ReadAttr(body[1..]) == Some(([], "b\">"));
    assert body[0] == 'a' && !("&quot;" <= body) && !("&amp;" <= body);
    assert ['a'] + [] == "a";
    assert ReadAttr(body) == Some(("a", "b\">"));
  }

  /** A value as it must be written into a double-quoted attribute: `&` and `"` as references. */
  function AttrEscape(v: string): string
    decreases |v|
  {
    if v == [] then [] else EscapeChar(v[0]) + AttrEscape(v[1..])
  }

  function EscapeChar(c: char): string {
    if c == '&' then "&amp;" else if c == '"' then "&quot;" else [c]
  }

  function AttrEscapeAll(vs: seq<string>): (r: seq<string>)
    ensures |r| == |vs| && forall i :: 0 <= i < |vs| ==> r[i] == AttrEscape(vs[i])
  {
    if vs == [] then [] else [AttrEscape(vs[0])] + AttrEscapeAll(vs[1..])
  }

  /** The options markup with every value escaped for its attribute. */
  function DatalistOptionsHtmlEscaped(values: seq<string>): string {
    DatalistOptionsHtml(AttrEscapeAll(values))
  }

  lemma {:induction false} ReadEscapedAttr(v: string, rest: string)
    ensures ReadAttr(AttrEscape(v) + "\"" + rest) == Some((v, rest))
    decreases |v|
  {
    if v == [] {
      ReadClosingQuote(rest);
      assert AttrEscape(v) + "\"" + rest == "\"" + rest;
    } else {
      ReadEscapedAttr(v[1..], rest);
      EscapeHead(v, rest);
      ReadEscapedChar(v[0], AttrEscape(v[1..]) + "\"" + rest, v[1..], rest);
      assert [v[0]] + v[1..] == v;
    }
  }

  lemma ReadClosingQuote(rest: string)
    ensures ReadAttr("\"" + rest) == Some(([], rest))
  {
    var s := "\"" + rest;
    assert s[0] == '"' && s[1..] == rest;
  }

  lemma EscapeHead(v: string, rest: string)
    requires v != []
    ensures AttrEscape(v) + "\"" + rest == EscapeChar(v[0]) + (AttrEscape(v[1..]) + "\"" + rest)
  {
    assert AttrEscape(v) == EscapeChar(v[0]) + AttrEscape(v[1..]);
  }

  /** An escaped character reads back as itself. */
  lemma ReadEscapedChar(c: char, t: string, w: string, rest: string)
    requires ReadAttr(t) == Some((w, rest))
    ensures ReadAttr(EscapeChar(c) + t) == Some(([c] + w, rest))
  {
    if c == '&' {
      ReadAmp(t, w, rest);
    } else if c == '"' {
      ReadQuot(t, w, rest);
    } else {
      ReadOther(c, t, w, rest);
    }
  }

  lemma ReadAmp(t: string, w: string, rest: string)
    requires ReadAttr(t) == Some((w, rest))
    ensures ReadAttr("&amp;" + t) == Some(("&" + w, rest))
  {
    var s := "&amp;" + t;
    assert !("&quot;" <= s) by { assert s[1] != "&quot;"[1]; }
    assert "&amp;" <= s && s[5..] == t;
  }

  lemma ReadQuot(t: string, w: string, rest: string)
    requires ReadAttr(t) == Some((w, rest))
    ensures ReadAttr("&quot;" + t) == Some(("\"" + w, rest))
  {
    var s := "&quot;" + t;
    assert "&quot;" <= s && s[6..] == t;
  }

  lemma ReadOther(c: char, t: string, w: string, rest: string)
    requires c != '&' && c != '"'
    requires ReadAttr(t) == Some((w, rest))
    ensures ReadAttr([c] + t) == Some(([c] + w, rest))
  {
    var s := [c] + t;
    assert !("&quot;" <= s) && !("&amp;" <= s) by { assert s[0] != '&'; }
    assert s[1..] == t;
  }

  /** With the escaping every list of values is read back, quotes and ampersands included. */
  lemma {:induction false} EscapedDatalistRoundTrip(vs: seq<string>)
    ensures ParseOptions(DatalistOptionsHtmlEscaped(vs)) == Some(vs)
  {
    DatalistIsOptionPerValue(AttrEscapeAll(vs));
    EscapedOptionsRoundTrip(vs);
  }

  lemma {:induction false} EscapedOptionsRoundTrip(vs: seq<string>)
    ensures ParseOptions(OptionsOf(AttrEscapeAll(vs))) == Some(vs)
    decreases |vs|
  {
    if vs != [] {
      EscapedOptionsRoundTrip(vs[1..]);
      var es := AttrEscapeAll(vs);
      assert es == [AttrEscape(vs[0])] + AttrEscapeAll(vs[1..]);
      assert es[1..] == AttrEscapeAll(vs[1..]);
      ReadEscapedAttr(vs[0], ">" + OptionsOf(es[1..]));
      ParseOptionsHead(es, vs[0], vs[1..]);
      assert [vs[0]] + vs[1..] == vs;
    }
  }
}
