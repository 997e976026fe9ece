/**
 * The widget instance in its non-native mode: the fields the prototype methods update, and
 * one method per prototype method, each proved to produce the state WidgetSpec describes.
 * The input element and the container are reduced to their text: `elementValue` is the
 * input's value, `containerHtml` the container's markup and `hasContainer` whether it exists.
 */
module AutocompleteWidget {
  import opened Wrappers
  import opened Text
  import opened Matching
  import opened Candidates
  import opened Markup
  import opened WidgetSpec

  /** The search loop of `checkValue`: each line of the joined text that starts with the query
      (ignoring case) and is not the query itself is collected, in order. */
  method CollectMatches(lines: seq<string>, q: string) returns (matches: seq<string>)
    ensures matches == Matches(lines, q)
  {
    matches := [];
    var i := 0;
    while i < |lines|
      invariant 0 <= i <= |lines|
      invariant matches == Matches(lines[..i], q)
    {
      assert lines[..i + 1][..i] == lines[..i];
      if q != lines[i] && StartsWithNoCase(lines[i], q) {
        matches := matches + [lines[i]];
      }
      i := i + 1;
    }
    assert lines[..i] == lines;
  }

  /** The markup loop of `showValues`: the list opens, one item per value follows, numbered
      from 0, and the list closes. */
  method BuildList(vs: seq<string>) returns (html: string)
    ensures html == ListHtml(vs)
  {
    html := ListOpen;
    for i := 0 to |vs|
      invariant html == ListOpen + ItemsHtml(vs[..i])
    {
      ItemsHtmlStep(vs, i);
      html := html + ItemHtml(i, vs[i]);
    }
    assert vs[..|vs|] == vs;
    html := html + ListClose;
  }

  lemma ItemsHtmlStep(vs: seq<string>, i: nat)
    requires i < |vs|
    ensures ListOpen + ItemsHtml(vs[..i]) + ItemHtml(i, vs[i]) == ListOpen + ItemsHtml(vs[..i + 1])
  {
    assert vs[..i + 1][..i] == vs[..i];
    assert ItemsHtml(vs[..i + 1]) == ItemsHtml(vs[..i]) + ItemHtml(i, vs[i]);
  }

  class Autocomplete {
    var values: seq<string>
    var shownValues: seq<string>
    var highlightIdx: int
    var lastValue: string
    var cache: Cache
    var elementValue: string
    var containerHtml: string
    var hasContainer: bool
    var elementHasFocus: bool

    /** The instance's fields as a value. */
    function State(): Widget
      reads this
    {
      Widget(values, shownValues, highlightIdx, lastValue, cache, elementValue,
             containerHtml, hasContainer, elementHasFocus)
    }

    ghost predicate Valid()
      reads this
    {
      Inv(State())
    }

    /** The constructor and `init` with an array source: the candidates are a copy of the array;
        `focused` says whether the input is the active element already. */
    constructor (srcValues: seq<string>, text: string, focused: bool)
      ensures Valid()
      ensures State() == Initial(srcValues, text, focused)
    {
      values := srcValues;
      shownValues := [];
      highlightIdx := -1;
      lastValue := "";
      cache := EmptyCache;
      elementValue := text;
      containerHtml := "";
      hasContainer := false;
      elementHasFocus := false;
      new;
      if focused {
        SetElementFocus(true);
      }
    }

    /** The user edits the input's text. */
    method SetElementValue(text: string)
      requires Valid()
      modifies this`elementValue
      ensures Valid()
      ensures State() == old(State()).(elementValue := text)
    {
      elementValue := text;
    }

    /** `setElementFocus` for a focus (`isFocus`) or blur event. */
    method SetElementFocus(isFocus: bool)
      requires Valid()
      modifies this
      ensures Valid()
      ensures State() == Focused(old(State()), isFocus)
    {
      elementHasFocus := isFocus;
      if isFocus {
        if !hasContainer {
          lastValue := elementValue;
          hasContainer := true;
          containerHtml := "";
        }
      } else if |shownValues| > 0 {
        ClearValues();
      }
      FocusedValid(old(State()), isFocus);
    }

    /** `clearValues` */
    method ClearValues()
      requires hasContainer
      modifies this
      ensures State() == Cleared(old(State()))
    {
      highlightIdx := -1;
      lastValue := "";
      shownValues := [];
      containerHtml := "";
    }

    /** `showValues(vs)`: the list markup is built item by item. */
    method ShowValues(vs: seq<string>)
      requires hasContainer
      modifies this
      ensures State() == Shown(old(State()), vs)
    {
      var html := BuildList(vs);
      highlightIdx := -1;
      shownValues := vs;
      containerHtml := html;
    }

    /** `setHighlightedIndex(i)`; the restyling of the list items is not modelled. */
    method SetHighlightedIndex(i: int)
      modifies this`highlightIdx
      ensures State() == Highlighted(old(State()), i)
    {
      var h := if i < -1 then -1 else i;
      if h != highlightIdx {
        if h < |shownValues| {
          highlightIdx := h;
        }
      }
    }

    /** `selectValue` for a key event. */
    method SelectValue()
      requires Valid()
      modifies this
      ensures Valid()
      ensures State() == Selected(old(State()))
    {
      if highlightIdx > -1 {
        elementValue := shownValues[highlightIdx];
        ClearValues();
      }
    }

    /** `selectValue` for a pointer event on item `k` of the list: its `data-idx` is read back and
        becomes the highlight before the selection. */
    method SelectItem(k: nat)
      requires Valid() && k < |shownValues|
      modifies this
      ensures Valid()
      ensures State() == Selected(old(State()).(highlightIdx := k))
    {
      ParseNatToString(k);
      highlightIdx := ParseNat(NatToString(k));
      SelectValue();
    }

    /** The memo lookup of `checkValue`, searching and memoising on a miss. */
    method LookUp(q: string) returns (results: seq<string>)
      modifies this`cache
      ensures (results, cache) == Lookup(old(State()), q)
    {
      if q in cache.results {
        results := cache.results[q];
      } else {
        var lines := if cache.joined.Some? && cache.joined.value != [] && cache.joined.value != [""]
                     then cache.joined.value else values;
        cache := cache.(joined := Some(lines));
        var matches := CollectMatches(lines, q);
        results := Take(Sort(matches), MaxShown);
        cache := cache.(results := cache.results[q := results]);
      }
    }

    /** `checkValue`: the hits are collected line by line, sorted, cut to six and memoised. */
    method CheckValue()
      requires Valid() && hasContainer
      requires LineFree(elementValue) && AllLineFree(SearchLines(State()))
      modifies this
      ensures Valid()
      ensures State() == Checked(old(State()))
    {
      ghost var w := State();
      var newValue := elementValue;
      if newValue != lastValue {
        var results: seq<string> := [];
        if newValue != "" {
          results := LookUp(newValue);
        }
        ghost var w1 := w.(cache := cache);
        assert State() == w1;
        if |results| > 0 {
          ShowValues(results);
        } else {
          ClearValues();
        }
        lastValue := newValue;
        assert State() == Displayed(w1, results).(lastValue := newValue);
        assert Checked(w) == Displayed(w1, results).(lastValue := newValue) by {
          if newValue != "" {
            assert (results, w1.cache) == Lookup(w, newValue);
          }
        }
      }
      CheckedValid(w);
    }

    /** `performKeyAction(which)`; the Enter branch's deferred clearing in Opera is not modelled. */
    method PerformKeyAction(which: int)
      requires Valid() && hasContainer
      requires (which == UpKey || which == DownKey) && shownValues == [] ==>
               LineFree(elementValue) && AllLineFree(SearchLines(State()))
      modifies this
      ensures Valid()
      ensures State() == KeyAction(old(State()), which)
    {
      KeyActionValid(State(), which);
      if which == TabKey || which == EnterKey {
        if highlightIdx > -1 {
          SelectValue();
        } else {
          ClearValues();
        }
      } else if which == UpKey || which == DownKey {
        var n := |shownValues|;
        if n > 0 {
          if (which == UpKey && highlightIdx == 0) || (which == DownKey && highlightIdx == n - 1) {
            SetHighlightedIndex(-1);
          } else if which == UpKey && highlightIdx == -1 {
            SetHighlightedIndex(n - 1);
          } else {
            SetHighlightedIndex(highlightIdx + (if which == UpKey then -1 else 1));
          }
        } else {
          CheckValue();
        }
      }
    }

    /** `addValues(vs)`: each non-empty value not yet present is appended. */
    method AddValues(vs: seq<string>)
      requires Valid()
      modifies this`values
      ensures Valid()
      ensures State() == Added(old(State()), vs)
    {
      var i := 0;
      while i < |vs|
        invariant 0 <= i <= |vs|
        invariant values == AddAll(old(values), vs[..i])
      {
        AddAllStep(old(values), vs, i);
        var value := vs[i];
        if value != "" && IndexOf(values, value) == -1 {
          values := values + [value];
        }
        i := i + 1;
      }
      assert vs[..i] == vs;
      EditsValid(old(State()), vs);
    }

    /** `removeValues(vs)`: the first occurrence of each non-empty listed value is spliced out. */
    method RemoveValues(vs: seq<string>)
      requires Valid()
      modifies this`values
      ensures Valid()
      ensures State() == Removed(old(State()), vs)
    {
      var i := 0;
      while i < |vs|
        invariant 0 <= i <= |vs|
        invariant values == RemoveAll(old(values), vs[..i])
      {
        RemoveAllStep(old(values), vs, i);
        var value := vs[i];
        var idx := IndexOf(values, value);
        if value != "" && idx > -1 {
          values := values[..idx] + values[idx + 1..];
        }
        i := i + 1;
      }
      assert vs[..i] == vs;
      EditsValid(old(State()), vs);
    }
  }
}
