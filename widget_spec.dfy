/**
 * The widget's state as a value, and what each of its operations does to that value.
 * The class in AutocompleteWidget keeps the same fields and its methods are proved to
 * produce exactly these new states; the lemmas here say what the operations promise.
 */
module WidgetSpec {
  import opened Wrappers
  import opened Text
  import opened Matching
  import opened Candidates
  import opened Markup

  /** The instance's memo: search results by query, and the candidate lines as joined by the
      first search. */
  datatype Cache = Cache(results: map<string, seq<string>>, joined: Option<seq<string>>)

  const EmptyCache := Cache(map[], None)

  /** The instance fields: the candidates, the suggestions on show, the highlighted position
      (-1 for none), the text last searched for, the memo, the input element's text, the
      container's markup, whether the container exists, and whether the input has focus. */
  datatype Widget = Widget(
    values: seq<string>,
    shownValues: seq<string>,
    highlightIdx: int,
    lastValue: string,
    cache: Cache,
    elementValue: string,
    containerHtml: string,
    hasContainer: bool,
    hasFocus: bool)

  const TabKey := 9
  const EnterKey := 13
  const UpKey := 38
  const DownKey := 40

  /** The memo holds a joined text that a search reuses. A join of no candidates or of one empty
      candidate is the text "", which is falsy, so the next search joins the candidates again. */
  predicate HasJoined(c: Cache) {
    c.joined.Some? && c.joined.value != [] && c.joined.value != [""]
  }

  /** The joined lines are reused exactly when their text, joined by newlines, is not "". */
  lemma HasJoinedIsNonEmptyText(c: Cache)
    ensures HasJoined(c) <==> c.joined.Some? && Join(c.joined.value, "\n") != ""
  {
    if c.joined.Some? {
      JoinEmpty(c.joined.value, "\n");
    }
  }

  /** The lines a search runs over: the joined text if one is kept, else the candidates. */
  function SearchLines(w: Widget): seq<string> {
    if HasJoined(w.cache) then w.cache.joined.value else w.values
  }

  /** Every memoised result is the search of its query over the joined lines, or the empty result
      of a search made while the joined text was "" (such an entry stays when the candidates are
      joined again). */
  predicate CacheValid(c: Cache) {
    && (c.joined.None? ==> c.results == map[])
    && (forall q :: q in c.results ==>
          c.results[q] == [] || (HasJoined(c) && c.results[q] == Suggestions(c.joined.value, q)))
  }

  /** The highlight is -1 or a position in the shown list, a shown list has a container to show
      it in, and the memo is consistent. */
  predicate Inv(w: Widget) {
    && -1 <= w.highlightIdx < |w.shownValues|
    && (w.shownValues != [] ==> w.hasContainer)
    && CacheValid(w.cache)
  }

  /** `clearValues` */
  function Cleared(w: Widget): Widget {
    w.(highlightIdx := -1, lastValue := "", shownValues := [], containerHtml := "")
  }

  /** `showValues(vs)` */
  function Shown(w: Widget, vs: seq<string>): Widget {
    w.(highlightIdx := -1, shownValues := vs, containerHtml := ListHtml(vs))
  }

  function Max(a: int, b: int): int {
    if a < b then b else a
  }

  /** `setHighlightedIndex(i)`: clamped below at -1, ignored when unchanged or past the list. */
  function Highlighted(w: Widget, i: int): Widget {
    var h := Max(-1, i);
    if h != w.highlightIdx && h < |w.shownValues| then w.(highlightIdx := h) else w
  }

  /** `selectValue` from the keyboard: a highlighted suggestion is written into the input and
      the list is cleared. */
  function Selected(w: Widget): Widget
    requires w.highlightIdx < |w.shownValues|
  {
    if w.highlightIdx > -1 then Cleared(w.(elementValue := w.shownValues[w.highlightIdx])) else w
  }

  /** The result for a non-empty text `q` and the memo afterwards: a memoised result is reused;
      otherwise the lines are searched (joined first, if this is the first search) and the result
      is memoised. */
  function Lookup(w: Widget, q: string): (seq<string>, Cache) {
    if q in w.cache.results then (w.cache.results[q], w.cache)
    else
      var r := Suggestions(SearchLines(w), q);
      (r, Cache(w.cache.results[q := r], Some(SearchLines(w))))
  }

  /** `checkValue`: search again when the input text differs from the last text searched. */
  function Checked(w: Widget): Widget {
    var q := w.elementValue;
    if q == w.lastValue then w
    else if q == "" then Displayed(w, []).(lastValue := q)
    else
      var (r, c) := Lookup(w, q);
      Displayed(w.(cache := c), r).(lastValue := q)
  }

  /** The end of `checkValue`: a non-empty result is shown, otherwise the list is cleared. */
  function Displayed(w: Widget, r: seq<string>): Widget {
    if r != [] then Shown(w, r) else Cleared(w)
  }

  /** The position `performKeyAction` asks `setHighlightedIndex` for on Up or Down. */
  function ArrowTarget(w: Widget, which: int): int {
    var n := |w.shownValues|;
    if (which == UpKey && w.highlightIdx == 0) || (which == DownKey && w.highlightIdx == n - 1) then -1
    else if which == UpKey && w.highlightIdx == -1 then n - 1
    else w.highlightIdx + (if which == UpKey then -1 else 1)
  }

  /** `performKeyAction(which)` */
  function KeyAction(w: Widget, which: int): Widget
    requires w.highlightIdx < |w.shownValues|
  {
    if which == TabKey || which == EnterKey then
      if w.highlightIdx > -1 then Selected(w) else Cleared(w)
    else if which == UpKey || which == DownKey then
      if |w.shownValues| > 0 then Highlighted(w, ArrowTarget(w, which)) else Checked(w)
    else w
  }

  /** `setElementFocus`: the first focus creates the container and takes the input's text as
      the text last searched; a blur clears a list on show. */
  function Focused(w: Widget, isFocus: bool): Widget {
    if isFocus then
      if !w.hasContainer then w.(hasFocus := true, lastValue := w.elementValue, hasContainer := true, containerHtml := "")
      else w.(hasFocus := true)
    else if w.shownValues != [] then Cleared(w.(hasFocus := false))
    else w.(hasFocus := false)
  }

  /** The constructor with `init` for a candidate list given as an array: the values are copied
      as they are, and an input that already has focus is handled as a focus event. */
  function Initial(srcValues: seq<string>, text: string, focused: bool): Widget {
    var w := Widget(srcValues, [], -1, "", EmptyCache, text, "", false, false);
    if focused then Focused(w, true) else w
  }

  /** `addValues(vs)` */
  function Added(w: Widget, vs: seq<string>): Widget {
    w.(values := AddAll(w.values, vs))
  }

  /** `removeValues(vs)` */
  function Removed(w: Widget, vs: seq<string>): Widget {
    w.(values := RemoveAll(w.values, vs))
  }

  // ---------------------------------------------------------------------------------------
  // The highlight state machine, as a reference: n suggestions and "none" (-1) on one cycle.

  /** Down: none -> 0 -> 1 -> ... -> n-1 -> none. */
  function NextIndex(i: int, n: nat): int {
    if i == n - 1 then -1 else i + 1
  }

  /** Up: none -> n-1 -> ... -> 0 -> none. */
  function PrevIndex(i: int, n: nat): int {
    if i == -1 then n - 1 else i - 1
  }

  lemma NextPrevInverse(i: int, n: nat)
    requires -1 <= i < n
    ensures -1 <= NextIndex(i, n) < n && -1 <= PrevIndex(i, n) < n
    ensures PrevIndex(NextIndex(i, n), n) == i && NextIndex(PrevIndex(i, n), n) == i
  {
  }

  /** The highlight after `k` presses of Down. */
  function DownPresses(i: int, n: nat, k: nat): int {
    if k == 0 then i else NextIndex(DownPresses(i, n, k - 1), n)
  }

  /** The highlight after `k` presses of Up. */
  function UpPresses(i: int, n: nat, k: nat): int {
    if k == 0 then i else PrevIndex(UpPresses(i, n, k - 1), n)
  }

  /** Presses can be counted in two batches. */
  lemma {:induction false} PressesSplit(i: int, n: nat, a: nat, b: nat)
    ensures DownPresses(i, n, a + b) == DownPresses(DownPresses(i, n, a), n, b)
    ensures UpPresses(i, n, a + b) == UpPresses(UpPresses(i, n, a), n, b)
    decreases b
  {
    if b > 0 {
      PressesSplit(i, n, a, b - 1);
    }
  }

  /** Down climbs one position per press until the last suggestion. */
  lemma {:induction false} DownClimbs(i: int, n: nat, k: nat)
    requires -1 <= i && i + k < n
    ensures DownPresses(i, n, k) == i + k
  {
    if k > 0 {
      DownClimbs(i, n, k - 1);
    }
  }

  /** Up descends one position per press until "none". */
  lemma {:induction false} UpDescends(i: int, n: nat, k: nat)
    requires -1 <= i - k && i < n
    ensures UpPresses(i, n, k) == i - k
  {
    if k > 0 {
      UpDescends(i, n, k - 1);
    }
  }

  /** Down and Up each move around one cycle of n + 1 positions, "none" included: n + 1 presses
      come back to the start. */
  lemma CycleRoundTrip(i: int, n: nat)
    requires -1 <= i < n
    ensures DownPresses(i, n, n + 1) == i && UpPresses(i, n, n + 1) == i
  {
    var a := n - 1 - i;
    DownClimbs(i, n, a);
    assert DownPresses(i, n, a + 1) == -1;
    DownClimbs(-1, n, i + 1);
    PressesSplit(i, n, a + 1, i + 1);
    UpDescends(i, n, i + 1);
    assert UpPresses(i, n, i + 2) == n - 1;
    UpDescends(n - 1, n, a);
    PressesSplit(i, n, i + 2, a);
  }

  // ---------------------------------------------------------------------------------------
  // The invariant is kept by every operation.

  lemma InitialValid(srcValues: seq<string>, text: string, focused: bool)
    ensures Inv(Initial(srcValues, text, focused))
    ensures Initial(srcValues, text, focused).values == srcValues
    ensures focused ==> Initial(srcValues, text, focused).lastValue == text
  {
  }

  lemma HighlightedValid(w: Widget, i: int)
    requires Inv(w)
    ensures Inv(Highlighted(w, i))
  {
  }

  lemma CheckedValid(w: Widget)
    requires Inv(w) && w.hasContainer
    ensures Inv(Checked(w))
    ensures w.elementValue != w.lastValue ==> Checked(w).highlightIdx == -1
  {
    var q := w.elementValue;
    if q != w.lastValue && q != "" && q !in w.cache.results {
      var lines := SearchLines(w);
      var c := Checked(w).cache;
      assert c.joined == Some(lines);
      assert HasJoined(w.cache) ==> HasJoined(c) && c.joined == w.cache.joined;
      NoSuggestionsOverEmptyText(lines, q);
      forall p | p in c.results
        ensures c.results[p] == [] || (HasJoined(c) && c.results[p] == Suggestions(c.joined.value, p))
      {
        if p != q {
          assert p in w.cache.results;
        }
      }
    }
  }

  /** A non-empty query finds nothing in the text "". */
  lemma NoSuggestionsOverEmptyText(lines: seq<string>, q: string)
    requires q != ""
    ensures lines == [] || lines == [""] ==> Suggestions(lines, q) == []
  {
    if lines == [""] {
      assert lines[..0] == [];
      assert !StartsWithNoCase(lines[0], q);
    }
  }

  lemma KeyActionValid(w: Widget, which: int)
    requires Inv(w) && w.hasContainer
    ensures Inv(KeyAction(w, which))
  {
    if which == UpKey || which == DownKey {
      if |w.shownValues| == 0 {
        CheckedValid(w);
      }
    }
  }

  lemma FocusedValid(w: Widget, isFocus: bool)
    requires Inv(w)
    ensures Inv(Focused(w, isFocus))
  {
  }

  lemma EditsValid(w: Widget, vs: seq<string>)
    requires Inv(w)
    ensures Inv(Added(w, vs)) && Inv(Removed(w, vs))
  {
  }

  // ---------------------------------------------------------------------------------------
  // Searching.

  /** A changed, non-empty text shows its result with nothing highlighted and memoises it. On a
      miss the result is the search over the lines searched, and those lines are kept for later
      searches; a hit shows the memoised result. The entries memoised for every query stay as they
      were. A non-empty list on show is always the search over the lines searched. */
  lemma CheckedShowsSuggestions(w: Widget)
    requires Inv(w) && w.elementValue != w.lastValue && w.elementValue != ""
    ensures var q := w.elementValue;
            var hit := q in w.cache.results;
            var r := if hit then w.cache.results[q] else Suggestions(SearchLines(w), q);
            var w' := Checked(w);
            && w'.shownValues == r
            && w'.highlightIdx == -1
            && w'.containerHtml == (if r == [] then "" else ListHtml(r))
            && w'.lastValue == q
            && w'.cache.results[q] == r
            && w'.cache.joined == (if hit then w.cache.joined else Some(SearchLines(w)))
            && w'.values == w.values && w'.elementValue == w.elementValue
            && (forall p :: p in w.cache.results ==> p in w'.cache.results && w'.cache.results[p] == w.cache.results[p])
    ensures Checked(w).shownValues != [] ==> Checked(w).shownValues == Suggestions(SearchLines(w), w.elementValue)
  {
  }

  /** A changed, empty text clears the list. */
  lemma CheckedEmptyClears(w: Widget)
    requires w.elementValue != w.lastValue && w.elementValue == ""
    ensures Checked(w) == Cleared(w)
  {
  }

  /** An unchanged text changes nothing, so a second search right after the first does nothing. */
  lemma CheckedSettles(w: Widget)
    ensures w.elementValue == w.lastValue ==> Checked(w) == w
    ensures Checked(w).lastValue == w.elementValue
    ensures Checked(Checked(w)) == Checked(w)
  {
  }

  /** A query searched before is answered from the memo, which stays as it is. */
  lemma RepeatedQueryFromMemo(w: Widget)
    requires w.elementValue != w.lastValue && w.elementValue != "" && w.elementValue in w.cache.results
    ensures Checked(w).shownValues == w.cache.results[w.elementValue]
    ensures Checked(w).cache == w.cache
  {
  }

  /** Searching a text, then another, then the first again shows the first result again, from the
      memo: the search in between keeps its entry. */
  lemma SameQueryAgain(w: Widget, other: string)
    requires Inv(w) && w.hasContainer && w.elementValue != w.lastValue && w.elementValue != ""
    requires other != w.elementValue
    ensures var q := w.elementValue;
            var w1 := Checked(w);
            var w3 := Checked(Checked(w1.(elementValue := other)).(elementValue := q));
            && w3.shownValues == w1.shownValues
            && q in w1.cache.results && q in w3.cache.results
            && w3.cache.results[q] == w1.cache.results[q]
  {
    var q := w.elementValue;
    CheckedValid(w);
    CheckedShowsSuggestions(w);
    var w1 := Checked(w);
    var v := w1.(elementValue := other);
    assert Inv(v) && v.lastValue == q;
    if other != "" {
      CheckedShowsSuggestions(v);
    }
    var w2 := Checked(v);
    assert q in w2.cache.results && w2.cache.results[q] == w1.cache.results[q];
    assert w2.lastValue == other;
    var u := w2.(elementValue := q);
    RepeatedQueryFromMemo(u);
    assert w1.shownValues == w1.cache.results[q];
    assert Checked(u).shownValues == w1.shownValues;
    assert Checked(u).cache == w2.cache;
  }

  /** Adding and removing candidates leave the memo alone. Once a non-empty text is joined, the
      lines searched stay those; while the joined text is "", searches run over the edited
      candidates. */
  lemma EditsKeepSearchLines(w: Widget, vs: seq<string>)
    ensures Added(w, vs).cache == w.cache && Removed(w, vs).cache == w.cache
    ensures HasJoined(w.cache) ==> SearchLines(Added(w, vs)) == SearchLines(w) && SearchLines(Removed(w, vs)) == SearchLines(w)
    ensures !HasJoined(w.cache) ==>
            SearchLines(Added(w, vs)) == AddAll(w.values, vs) && SearchLines(Removed(w, vs)) == RemoveAll(w.values, vs)
  {
  }

  // The concrete examples below take their strings as parameters fixed by `requires`: with the
  // string literals written into the statement itself the solver runs out of resource.
  /** So a value added after the first search is not offered: with "ab" searched once, adding "ac"
      and typing "ac" shows nothing. */
  lemma AddedValueNotOffered(w: Widget, vs: seq<string>)
    requires w == Widget(["ab"], [], -1, "", Cache(map[], Some(["ab"])), "ac", "", true, true)
    requires vs == ["ac"]
    ensures "ac" in Added(w, vs).values
    ensures Checked(Added(w, vs)).shownValues == []
  {
    var w1 := Added(w, vs);
    assert w1.values == ["ab", "ac"] by {
      assert vs[..0] == [];
      assert AddAll(w.values, vs) == AddOne(w.values, "ac");
      assert "ac" !in w.values by { assert "ab" != "ac"; }
    }
    var lines := ["ab"];
    assert SearchLines(w1) == lines;
    assert Matches(lines, "ac") == [] by {
      assert lines[..0] == [];
      assert !StartsWithNoCase("ab", "ac") by { assert Lower("ab"[1]) != Lower("ac"[1]); }
    }
  }

  /** With no candidates the first search joins the text "", which is not kept: after "apple" is
      added, typing "ap" finds it. The empty result memoised for "a" stays, so going back to "a"
      shows nothing although "apple" starts with "a". */
  lemma EmptyJoinIsRedone(w: Widget, apple: string)
    requires w == Widget([], [], -1, "", EmptyCache, "a", "", true, true) && apple == "apple"
    ensures Checked(w).cache.joined == Some([])
    ensures var w2 := Checked(Added(Checked(w), [apple]).(elementValue := "ap"));
            && w2.shownValues == [apple]
            && Checked(w2.(elementValue := "a")).shownValues == []
            && Suggestions(w2.values, "a") == [apple]
  {
    NoSuggestionsOverEmptyText([], "a");
    var w1 := Checked(w);
    assert w1.cache == Cache(map["a" := []], Some([]));
    assert w1.values == [];
    var vs := [apple];
    assert AddAll([], vs) == vs by {
      assert vs[..0] == [];
      assert AddAll([], vs) == AddOne([], apple);
    }
    var w1' := Added(w1, vs).(elementValue := "ap");
    assert w1'.values == vs && !HasJoined(w1'.cache);
    assert "ap" !in w1'.cache.results by { assert "ap" != "a"; }
    assert IsMatch(apple, "ap") && IsMatch(apple, "a") by {
      assert apple != "ap" && apple != "a";
    }
    SingleSuggestion(vs, "ap");
    var w2 := Checked(w1');
    assert w2.shownValues == vs && w2.values == vs;
    assert "a" in w2.cache.results && w2.cache.results["a"] == [];
    SingleSuggestion(vs, "a");
  }

  // ---------------------------------------------------------------------------------------
  // Keys and highlighting.

  /** The index rule: clamped below at -1, ignored past the end of the list. (Asking for the
      current index again is ignored too, which leaves the same state.) */
  lemma HighlightedRule(w: Widget, i: int)
    ensures i >= |w.shownValues| ==> Highlighted(w, i) == w
    ensures i < |w.shownValues| ==> Highlighted(w, i) == w.(highlightIdx := Max(-1, i))
  {
  }

  /** Down and Up on a list on show follow the reference cycle and change nothing else. */
  lemma ArrowsFollowCycle(w: Widget)
    requires Inv(w) && |w.shownValues| > 0
    ensures KeyAction(w, DownKey) == w.(highlightIdx := NextIndex(w.highlightIdx, |w.shownValues|))
    ensures KeyAction(w, UpKey) == w.(highlightIdx := PrevIndex(w.highlightIdx, |w.shownValues|))
  {
  }

  /** Up or Down with nothing on show searches again. */
  lemma ArrowsOnEmptySearch(w: Widget, which: int)
    requires w.highlightIdx < |w.shownValues| && w.shownValues == [] && (which == UpKey || which == DownKey)
    ensures KeyAction(w, which) == Checked(w)
  {
  }

  /** Keys other than Tab, Enter, Up and Down change nothing. */
  lemma OtherKeysIgnored(w: Widget, which: int)
    requires w.highlightIdx < |w.shownValues|
    requires which != TabKey && which != EnterKey && which != UpKey && which != DownKey
    ensures KeyAction(w, which) == w
  {
  }

  /** Tab and Enter commit the highlighted suggestion into the input, or leave the input's text
      alone when none is highlighted; either way the list is cleared and nothing else changes. */
  lemma CommitKeys(w: Widget, which: int)
    requires Inv(w) && (which == TabKey || which == EnterKey)
    ensures var w' := KeyAction(w, which);
            && w'.elementValue == (if w.highlightIdx > -1 then w.shownValues[w.highlightIdx] else w.elementValue)
            && w'.highlightIdx == -1 && w'.shownValues == [] && w'.lastValue == "" && w'.containerHtml == ""
            && w'.values == w.values && w'.cache == w.cache
  {
  }

  /** Losing focus clears a list on show, which also forgets the text last searched, so the next
      search runs even on unchanged text; the candidates, the input's text and the memo stay. With
      nothing on show only the focus flag changes. */
  lemma BlurClears(w: Widget)
    requires Inv(w)
    ensures Focused(w, false).shownValues == [] && Focused(w, false).highlightIdx == -1
    ensures !Focused(w, false).hasFocus
    ensures Focused(w, false).values == w.values && Focused(w, false).elementValue == w.elementValue
    ensures Focused(w, false).cache == w.cache
    ensures w.shownValues != [] ==> Focused(w, false).lastValue == "" && Focused(w, false).containerHtml == ""
    ensures w.shownValues == [] ==> Focused(w, false) == w.(hasFocus := false)
  {
  }

  /** Pointing at item k of the list highlights k: its `data-idx` reads back as k. */
  lemma PointerHighlights(w: Widget, k: nat)
    requires Inv(w) && k < |w.shownValues|
    ensures Highlighted(w, ParseNat(NatToString(k))).highlightIdx == k
  {
    ParseNatToString(k);
  }
}
