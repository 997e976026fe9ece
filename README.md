# Autocomplete widget: a Dafny model

This project models the core of `Autocomplete`, a small browser widget. It attaches to a text
input and suggests up to six candidate values that start with what the user has typed. The model
covers the non-native mode, where the widget draws its own suggestion list instead of using a
`<datalist>`. It has three parts:

- **Matching** (`checkValue`). The input text is escaped into a regular expression. The candidates
  joined by newlines are searched case-insensitively for lines that start with the text. A line
  equal to the text is dropped. The hits are sorted, cut to six and memoised by query.
- **The highlight state machine** (`performKeyAction`, `setHighlightedIndex`, `selectValue`,
  `clearValues`, `setElementFocus`). Up and Down move a highlight around the list. Tab and Enter
  commit the highlighted value into the input. Blur clears the list.
- **Candidate maintenance and serialisation.**
  - `addValues` and `removeValues` edit the candidate list in place. Both use the `indexOf` helper.
  - `showValues` builds the list markup, escaping `<`.
  - `generateDatalistOptionsHtml` builds the `<option>` markup used in native mode.

Files:

- `wrappers.dfy`: `Option`.
- `text.dfy`: the shared helpers.
  - ASCII case folding and the case-insensitive prefix test.
  - Line terminators.
  - The ascending string order of the default `sort()`, with its order-relation lemmas.
  - Decimal rendering and parsing of list indices.
- `matching.dfy`: the search.
  - Regex escaping, plus a reader for the pattern syntax. The reader shows that an escaped query
    is read as literals.
  - The hit filter, the sort and the cut to six, with their lemmas.
- `candidates.dfy`: `indexOf`, what one `addValues` or `removeValues` call does to the list, and
  lemmas about both.
- `markup.dfy`: the `<`-escape, the list markup and the datalist markup, with a reader for the
  datalist markup.
- `widget_spec.dfy`: the instance's fields as a value (`Widget`).
  - One function per operation, giving the new state.
  - The invariant every operation keeps: the highlight is -1 or a position in the shown list, and
    the memo is consistent.
  - Lemmas about the search, the keys and the highlight cycle.
- `autocomplete.dfy`: the class `Autocomplete`. Its fields mirror the instance fields. Each
  method's contract says what the new state is, as the `widget_spec.dfy` function of the old state.
  - The loops of `showValues`, `checkValue`, `addValues` and `removeValues` are written as loops,
    with invariants tying them to those functions.
  - `Valid()` is the invariant. The constructor establishes it. The methods run by events or
    called from outside require it and keep it: `SetElementFocus`, `SetElementValue`,
    `CheckValue`, `PerformKeyAction`, `SelectValue`, `SelectItem`, `AddValues` and `RemoveValues`.
    The helpers `ClearValues`, `ShowValues`, `SetHighlightedIndex` and `LookUp` state only their
    new state.
  - `CheckValue`, `PerformKeyAction`, `ClearValues` and `ShowValues` also require that the
    container exists. The source only calls them once it does. The `input` and `keydown` listeners
    are attached in `addInputListeners` (lines 194 and 206). That runs right after
    `generateContainer`, on the first focus (lines 141-143).

Two points about the memo and the initial list:

- **Edits do not refresh the memo.** `addValues` and `removeValues` (lines 395-428) never touch
  `this.cache`. The first search joins the candidates into one text and stores it (line 239).
  Later searches reuse that text, even after candidates are added or removed, except when the
  stored text is "". The join of no candidates, or of one empty candidate, is "". That is falsy,
  so the next search joins the candidates again. Results memoised by query are never dropped. So
  an empty result memoised while the text was "" stays after the candidates are joined again.
  `WidgetSpec.EditsKeepSearchLines`, `WidgetSpec.AddedValueNotOffered` and
  `WidgetSpec.EmptyJoinIsRedone` state this, and `WidgetSpec.CheckedShowsSuggestions` states that a search keeps every memoised entry.
- **The initial candidates are copied as they are.** Line 50 copies the source array without
  removing duplicates.

## Model

| member | source | states |
|---|---|---|
| Text.StartsWithNoCaseIsFoldedPrefix | src/Autocomplete.js:238 | the `i`-flag prefix test is exactly the prefix relation on ASCII-folded strings |
| Text.LowerSame | src/Autocomplete.js:238 | two characters compare equal ignoring case iff they are equal or the two cases of one ASCII letter |
| Text.PrefixStartsWithNoCase | src/Autocomplete.js:238 | a case-sensitive prefix is also a case-insensitive one |
| Text.LessEqTotal | src/Autocomplete.js:246 | the `sort()` order compares any two strings |
| Text.LessEqAntisym | src/Autocomplete.js:246 | the `sort()` order is antisymmetric |
| Text.LessEqTrans | src/Autocomplete.js:246 | the `sort()` order is transitive |
| Text.StartsWithNoCase | src/Autocomplete.js:238 | the `i`-flag literal pattern anchored at a line start: the line is at least as long as the query and agrees with it character by character after ASCII case folding |
| Text.LessEq | src/Autocomplete.js:246 | the default `sort()` order: character-by-character comparison, a prefix sorting first |
| Text.ParseNat | src/Autocomplete.js:369 | `parseInt(…, 10)` of a non-empty run of digits, read as a decimal number; a missing attribute, read as -1 by the source, is not modelled |
| Text.NatToString | src/Autocomplete.js:303 | the index rendered into `data-idx` is a non-empty run of digits |
| Text.ParseNatToString | src/Autocomplete.js:325 | reading a rendered `data-idx` back with `parseInt` gives the index |
| Matching.EscapeRegExp | src/Autocomplete.js:237-238 | escaping never shortens the query and at most doubles its length |
| Matching.EscapedQueryIsLiteral | src/Autocomplete.js:237-238 | the escaped query is read as a sequence of literal characters, one per query character, so metacharacters match themselves |
| Matching.UnescapedDotIsOperator | src/Autocomplete.js:237-238 | without the escape, `.` in a query would be read as an operator |
| Matching.Matches | src/Autocomplete.js:241-245 | every hit is a candidate line that starts with the query ignoring case and differs from it |
| Matching.MatchesCount | src/Autocomplete.js:241-245 | each line occurs among the hits exactly as often as among the candidates if it matches, else not at all |
| Matching.MatchesMembers | src/Autocomplete.js:241-245 | a string is a hit iff it is a candidate line that starts with the query ignoring case and is not the query |
| Matching.Sort | src/Autocomplete.js:246 | `sort()` yields an ascending permutation of its input |
| Matching.InsertSorted | src/Autocomplete.js:246 | inserting into an ascending list keeps it ascending |
| Matching.SortedUnique | src/Autocomplete.js:246 | two ascending permutations of the same multiset are equal, so the sorted result does not depend on the sort algorithm |
| Matching.Suggestions | src/Autocomplete.js:246 | at most six results, ascending, each a matching candidate |
| Matching.SuggestionsAreSmallest | src/Autocomplete.js:246 | the result holds min(6, hits) of the hits, and every hit left out sorts after every hit kept |
| Matching.SuggestionsComplete | src/Autocomplete.js:241-246 | a matching candidate is left out only when six results are shown and all of them sort before it |
| Matching.ApricotMatches | src/Autocomplete.js:241-245 | for query "ap" over "apple", "Apricot", "banana", the hits are "apple" and "Apricot", in candidate order |
| Matching.ApricotBeforeApple | src/Autocomplete.js:238-246 | for query "ap" over "apple", "Apricot", "banana", the result is "Apricot" then "apple" (upper case first) |
| Matching.SingleSuggestion | src/Autocomplete.js:241-246 | a single matching line is the whole result |
| Matching.ExactMatchDropped | src/Autocomplete.js:242 | a candidate equal to the query ("apple" for "apple") is not offered |
| Matching.CaseVariantKept | src/Autocomplete.js:242 | a candidate that differs from the query only in case ("Apple" for "apple") is offered |
| Candidates.IndexOf | src/Autocomplete.js:505-509 | -1 iff the item is absent, otherwise the position of its first occurrence |
| Candidates.AddAll | src/Autocomplete.js:395-404 | the old list is a prefix of the new one |
| Candidates.AddAllMembers | src/Autocomplete.js:398-404 | after adding, a value is present iff it was present before or is a non-empty listed value |
| Candidates.AddAllNoDuplicates | src/Autocomplete.js:400-403 | adding never introduces a duplicate |
| Candidates.AddAllAppendsInOrder | src/Autocomplete.js:400-403 | the appended values are new, non-empty, listed values, in the order of their first occurrence in the argument |
| Candidates.AddAllPresent | src/Autocomplete.js:400-403 | adding values that are all present or empty leaves the list unchanged |
| Candidates.AddAllIdempotent | src/Autocomplete.js:395-404 | adding the same values twice is the same as adding them once |
| Candidates.RemoveOneFirst | src/Autocomplete.js:419-420 | removing a present value splices out its first occurrence and keeps the rest in order |
| Candidates.RemoveOneCount | src/Autocomplete.js:419-420 | an empty value changes nothing; a non-empty one takes away one copy if there is one |
| Candidates.RemoveAllCount | src/Autocomplete.js:413-422 | the list after removing is the multiset difference of the old list and the non-empty listed values |
| Candidates.RemoveAllNoDuplicates | src/Autocomplete.js:413-422 | removing keeps a duplicate-free list duplicate-free |
| Candidates.RemoveAllAbsent | src/Autocomplete.js:413-422 | removing only absent values leaves the list unchanged |
| Markup.EscapeLt | src/Autocomplete.js:296-303 | the escaped text contains no `<` |
| Markup.EscapeLtRoundTrip | src/Autocomplete.js:296-303 | for text without `&`, turning `&lt;` back into `<` restores the text |
| Markup.EscapeLtCollides | src/Autocomplete.js:296-303 | with `&` left unescaped, "<" and "&lt;" render the same |
| Markup.ItemTags | src/Autocomplete.js:303 | each list item holds exactly two `<` characters, whatever the value |
| Markup.ListHtmlTags | src/Autocomplete.js:301-305 | the list markup for n values holds exactly 2n + 2 `<` characters, so no value can open a tag |
| Markup.Join | src/Autocomplete.js:239 | `Array.prototype.join`: the values with the separator between each two, "" for none |
| Markup.JoinEmpty | src/Autocomplete.js:239 | `join` with a non-empty separator gives "" exactly for no values or one empty value |
| Markup.DatalistIsOptionPerValue | src/Autocomplete.js:128-133 | the datalist markup is "" for no values, otherwise one `<option value="v">` per value, in order |
| Markup.DatalistRoundTrip | src/Autocomplete.js:128-133 | for values without `"` or `&`, reading the options back gives the values |
| Markup.DatalistQuoteBreaks | src/Autocomplete.js:128-133 | a value containing `"` does not read back as itself |
| Markup.EscapedDatalistRoundTrip | src/Autocomplete.js:128-133 | with attribute escaping, every list of values reads back as itself |
| WidgetSpec.NextPrevInverse | src/Autocomplete.js:277-285 | one Down and one Up undo each other and stay in range |
| WidgetSpec.PressesSplit | src/Autocomplete.js:277-285 | presses can be counted in two batches |
| WidgetSpec.DownClimbs | src/Autocomplete.js:284 | Down climbs one position per press up to the last suggestion |
| WidgetSpec.UpDescends | src/Autocomplete.js:284 | Up descends one position per press down to "none" |
| WidgetSpec.CycleRoundTrip | src/Autocomplete.js:277-285 | Down and Up each run once around a cycle of n + 1 positions, "none" included |
| WidgetSpec.InitialValid | src/Autocomplete.js:45-73 | the initial state keeps the invariant and holds the source values as given |
| WidgetSpec.HighlightedValid | src/Autocomplete.js:336-356 | setting the highlight keeps it within -1 and the list |
| WidgetSpec.CheckedValid | src/Autocomplete.js:228-256 | a search keeps the invariant: every memoised result is the search of its query over the joined lines, or an empty result memoised while the joined text was ""; when the text changed, the highlight ends at -1 |
| WidgetSpec.KeyActionValid | src/Autocomplete.js:259-291 | every key keeps the invariant |
| WidgetSpec.FocusedValid | src/Autocomplete.js:136-148 | focus and blur keep the invariant |
| WidgetSpec.EditsValid | src/Autocomplete.js:395-428 | adding and removing keep the invariant |
| WidgetSpec.CheckedShowsSuggestions | src/Autocomplete.js:233-255 | a changed, non-empty text shows its memoised result, or on a miss the search over the lines searched, which is then memoised and whose lines are kept; no highlight, `lastValue` set to the text, candidates and input left alone; the results memoised for every query stay as they were; a non-empty list shown is always the search over the lines searched |
| WidgetSpec.CheckedEmptyClears | src/Autocomplete.js:249-254 | a changed, empty text clears the list |
| WidgetSpec.CheckedSettles | src/Autocomplete.js:233-255 | an unchanged text changes nothing, `lastValue` always ends as the text, and a second search right after the first does nothing |
| WidgetSpec.RepeatedQueryFromMemo | src/Autocomplete.js:235-246 | a query already searched shows the memoised sequence and leaves the memo unchanged |
| WidgetSpec.SameQueryAgain | src/Autocomplete.js:233-255 | searching a text, then another, then the first again shows the first result again, from the memo |
| WidgetSpec.EditsKeepSearchLines | src/Autocomplete.js:395-428 | adding or removing candidates leaves the memo alone; once a non-empty text is joined the lines searched stay the same, and while the joined text is "" they are the edited candidates |
| WidgetSpec.AddedValueNotOffered | src/Autocomplete.js:239 | after "ab" was joined, adding "ac" and typing "ac" shows nothing |
| WidgetSpec.HasJoinedIsNonEmptyText | src/Autocomplete.js:239 | the joined lines are reused exactly when their text joined by newlines is not "" |
| WidgetSpec.EmptyJoinIsRedone | src/Autocomplete.js:235-247 | with no candidates, a search for "a" stores the empty join; after adding "apple", "ap" shows "apple", and "a" again shows its memoised empty result although "apple" matches |
| WidgetSpec.NoSuggestionsOverEmptyText | src/Autocomplete.js:239-245 | a non-empty query finds nothing in the text "" |
| WidgetSpec.HighlightedRule | src/Autocomplete.js:336-356 | the index is clamped below at -1 and ignored past the end of the list; nothing else changes |
| WidgetSpec.ArrowsFollowCycle | src/Autocomplete.js:277-285 | on a list on show, Down and Up move the highlight by the reference cycle and change nothing else |
| WidgetSpec.ArrowsOnEmptySearch | src/Autocomplete.js:286-288 | with nothing on show, Up and Down run the search |
| WidgetSpec.OtherKeysIgnored | src/Autocomplete.js:261-264 | keys other than Tab, Enter, Up and Down change nothing |
| WidgetSpec.CommitKeys | src/Autocomplete.js:266-273 | Tab and Enter write the highlighted value into the input, or leave its text when nothing is highlighted; either way they clear the list and leave the candidates and memo alone |
| WidgetSpec.BlurClears | src/Autocomplete.js:145-147 | blur leaves no list on show and no highlight, and keeps the candidates, the input's text and the memo |
| WidgetSpec.PointerHighlights | src/Autocomplete.js:324-326 | pointing at item k highlights k |
| Matching.IsMatch | src/Autocomplete.js:238-243 | a line is a hit when it starts with the query ignoring case and is not the query itself |
| Matching.Tokens | src/Autocomplete.js:238 | how the engine reads the query part of the pattern built at line 238: a backslash makes a following non-alphanumeric character literal, an unescaped ECMAScript syntax character is an operator, any other character is literal, and a trailing lone backslash is an error; the query part is read as a pattern on its own, without the `.*)$` that follows it at line 238 |
| Markup.ItemHtml | src/Autocomplete.js:303 | one list item: its index in `data-idx` and its `<`-escaped value |
| Markup.ListHtml | src/Autocomplete.js:300-305 | the list opener, one item per value numbered from 0, and the closer |
| Markup.DatalistOptionsHtml | src/Autocomplete.js:128-133 | the options markup as written: the values joined between `<option value="` and `">`, "" for none |
| Candidates.AddOne | src/Autocomplete.js:400-403 | one turn of the adding loop: a non-empty absent value is appended |
| Candidates.RemoveOne | src/Autocomplete.js:418-421 | one turn of the removal loop: the first occurrence of a non-empty value is spliced out |
| Candidates.RemoveAll | src/Autocomplete.js:413-422 | the removal loop's turns in order, each on the list the earlier turns left |
| WidgetSpec.Initial | src/Autocomplete.js:45-73 | the state after construction: the source values copied, no list, no memo, and a focus event when the input already has focus |
| WidgetSpec.Focused | src/Autocomplete.js:136-148 | a first focus creates the container and takes the input's text as `lastValue`; a blur with a list on show clears it |
| WidgetSpec.Lookup | src/Autocomplete.js:235-247 | a memo hit returns the stored result and leaves the memo; a miss searches the lines searched, memoises the result and keeps those lines |
| WidgetSpec.SearchLines | src/Autocomplete.js:239 | the lines searched: the stored joined lines when their text is not "", else the current candidates |
| WidgetSpec.Displayed | src/Autocomplete.js:249-253 | a non-empty result is shown, otherwise the list is cleared |
| WidgetSpec.Checked | src/Autocomplete.js:228-256 | nothing when the text is unchanged; otherwise the result of the lookup (none for empty text) is shown or the list cleared, and `lastValue` becomes the text |
| WidgetSpec.Shown | src/Autocomplete.js:308-310 | the given values on show, no highlight, their list markup in the container |
| WidgetSpec.Cleared | src/Autocomplete.js:387-392 | no list, no highlight, empty `lastValue` and container |
| WidgetSpec.Highlighted | src/Autocomplete.js:336-358 | the index clamped below at -1, stored when it differs and lies before the end of the list |
| WidgetSpec.Selected | src/Autocomplete.js:376-379 | a highlighted value is written into the input and the list cleared |
| WidgetSpec.ArrowTarget | src/Autocomplete.js:277-285 | the index Up and Down ask for: "none" past either end, the last item from "none" on Up, else one step |
| WidgetSpec.KeyAction | src/Autocomplete.js:259-291 | Tab and Enter commit or clear, Up and Down move the highlight or search when nothing is shown, other keys do nothing |
| WidgetSpec.Added | src/Autocomplete.js:395-410 | the candidates become those after the adding loop; nothing else changes |
| WidgetSpec.Removed | src/Autocomplete.js:413-428 | the candidates become those after the removal loop; nothing else changes |
| AutocompleteWidget.CollectMatches | src/Autocomplete.js:241-245 | the search loop collects exactly the hits, in order |
| AutocompleteWidget.BuildList | src/Autocomplete.js:301-305 | the markup loop builds exactly the list markup |
| AutocompleteWidget.Autocomplete.constructor | src/Autocomplete.js:45-73 | the new instance is in the initial state and valid |
| AutocompleteWidget.Autocomplete.SetElementFocus | src/Autocomplete.js:136-148 | the new state is the focus/blur state, and the instance stays valid |
| AutocompleteWidget.Autocomplete.ClearValues | src/Autocomplete.js:387-392 | no list, no highlight, empty `lastValue` and empty container markup |
| AutocompleteWidget.Autocomplete.ShowValues | src/Autocomplete.js:294-311 | the list on show is the given values, no highlight, and the container holds their list markup |
| AutocompleteWidget.Autocomplete.SetHighlightedIndex | src/Autocomplete.js:333-358 | the highlight as `Highlighted` sets it, and nothing else changes |
| AutocompleteWidget.Autocomplete.SelectValue | src/Autocomplete.js:361-379 | the keyboard commit, and the instance stays valid |
| AutocompleteWidget.Autocomplete.SelectItem | src/Autocomplete.js:366-379 | the pointer commit of item k, and the instance stays valid |
| AutocompleteWidget.Autocomplete.LookUp | src/Autocomplete.js:235-247 | the result from the memo, or searched and memoised on a miss |
| AutocompleteWidget.Autocomplete.CheckValue | src/Autocomplete.js:228-256 | the new state is `Checked` of the old one, and the instance stays valid |
| AutocompleteWidget.Autocomplete.PerformKeyAction | src/Autocomplete.js:259-291 | the new state is `KeyAction` of the old one, and the instance stays valid |
| AutocompleteWidget.Autocomplete.AddValues | src/Autocomplete.js:395-410 | the candidates become `AddAll` of the old ones; nothing else changes |
| AutocompleteWidget.Autocomplete.RemoveValues | src/Autocomplete.js:413-428 | the candidates become `RemoveAll` of the old ones; nothing else changes |

## Left out

- Native mode is left out, because that mode hands matching to the browser. This covers `setDatalist` and the `<datalist>` refresh after `addValues` and `removeValues`. `generateDatalistOptionsHtml` is modelled as `Markup.DatalistOptionsHtml`.
- The `dom` and `xml` candidate sources (`getDomValues`, `getXmlValues`, `parseXML`, used at lines 50-52 in both modes) are left out, because they walk the DOM or parse XML. The model takes the candidates as a list, as the `array` source gives them; any other source type gives `[]` (line 52), which is the list `[]`.
- The DOM is reduced to data. Event listeners, `generateContainer`'s wrapper and styles, the restyling of highlighted items in `setHighlightedIndex`, focus return and `stopEvent` in `selectValue`, and the browser-specific input events (`toggleSelectionChangeEvent`, `checkForValuePropertyChange`) are not modelled. The input's text is a string field, and a user edit is the `SetElementValue` method.
- `highlightValue` is not modelled. Its mouse-move throttle and its walk up the DOM to the list item are DOM work. `WidgetSpec.PointerHighlights` states what it does once the item is found.
- The Opera branch that clears the list in a `setTimeout` on Enter (line 270) is left out, because it is a timer. The model clears at once.
- `AutocompleteWidget.Autocomplete.SelectItem`: the model only sees indices that come from rendered items (`k < |shownValues|`). The source does not check a `data-idx` it reads (line 370).
- Inputs that are not strings are not modelled: `null`, `undefined`, non-string entries, and the `undefined` that ends the loops at lines 400 and 418. The loops run over the whole argument.
- Aliasing is not modelled. If `removeValues` or `addValues` is called with the candidate array itself, the source loop sees its own splices and appends. In the model the argument is a value.
- Matching is modelled per candidate line, not as a regular-expression engine run over the joined text. For this to agree with the source:
  - the query and the candidates must contain no line terminator;
  - case is folded for ASCII letters only.
  `AutocompleteWidget.Autocomplete.CheckValue` requires the first condition of the text and of the lines searched, and `PerformKeyAction` does so only for Up and Down with nothing on show, the case that searches. Non-ASCII case folding is not modelled.
- `Matching.Sort` orders strings by Unicode code point. `sort()` compares UTF-16 code units, and the two orders differ only for characters above U+FFFF.
- CheckedShowsSuggestions: a memo hit is promised only to show the memoised result, which is the search over the lines searched or empty. An empty result memoised while the joined text was "" stays after line 239 joins the candidates again, so it can differ from the current search (`WidgetSpec.EmptyJoinIsRedone`).
- EditsKeepSearchLines: the lines searched stay those of the first join only when that join is not ""; the lemma states the "" case separately.
- The memo is modelled as a map from query to result plus the joined lines. It is not modelled as one JavaScript object holding both. The `r-` key prefix only separates the query keys from `escapeRgx` and `values`.

## Findings

| source | as written | input that shows it | evidently intended | confidence | as-written member | corrected member |
|---|---|---|---|---|---|---|
| src/Autocomplete.js:128-133 | values are put inside `value="…"` without escaping `"` or `&` | the value `a"b` yields `<option value="a"b">`, whose attribute ends after `a` | each option's value attribute reads back as the candidate | medium, not executed | Markup.DatalistQuoteBreaks | Markup.EscapedDatalistRoundTrip |
