# Tag autocomplete of the decima log page

This project models the tag-autocomplete engine of the decima journal page
(`frontend/logic.js`) and proves properties of it in Dafny. The page has two
text fields that suggest tags from the list of known tags:

- the **entry box**, where a log entry is typed. It suggests tags while the
  text ends in a partial hashtag: a `#` followed by a non-empty run of
  `[A-Za-z0-9_-]` that reaches the end of the text (the pattern
  `#[\w\d-_]+$`). A commit replaces that partial hashtag with `#tag ` (the tag
  and a space).
- the **filter box**, where the whole field is the prefix. A commit replaces
  the whole field with the tag.

Each box keeps a list of candidates and a focus index, where -1 means nothing
is focused. It reacts to these events:

- text input recomputes the candidates by prefix filtering the known tags;
- Tab commits a lone candidate, or moves the focus through -1, 0, …, len-1;
- Space commits the focused candidate;
- a click on a shown tag commits that tag;
- ESC empties the field.

Text input, and a Tab that moves the focus, redraw a *ghost text* behind the
field. Entry commits and ESC clear it. The filter box's commits leave it as it
was. The resolved candidate is index 0 when there is exactly one candidate,
otherwise the focused one. In the filter box the ghost text is the resolved
candidate; in the entry box it is the typed text with its partial hashtag
replaced by `#` and the resolved candidate. Either is split at the length of
the typed text into an invisible part and a visible remainder, and each part
has its spaces turned into `&nbsp;`.

Modules, one per piece of the script:

- `Wrappers` (wrappers.dfy): `Option`.
- `TagSyntax` (tag_syntax.dfy): the hashtag pattern. It holds `IsTagChar` (the
  character class) and `MatchesAt` (where the pattern matches, the reference
  definition). It computes the match with `TrailingTagStart`, and holds
  `RemoveFirstHash` (`replace('#', '')`) and `ReplaceTrailingTag`
  (`replace(tagRegex, …)`).
- `Suggest` (suggest.dfy): the pieces both boxes share. `PrefixFilter`
  filters the known tags. `NextFocus` is one Tab press, using the script's
  sign-of-dividend `%`. `FocusAfter` is a series of presses. `ResolvedIndex`
  picks the candidate an action applies to. `JsIndex` is an index that may
  read `undefined`.
- `ShadowText` (shadow_text.dfy): `FixWhitespace`, `ShadowSplit` and
  `ShadowMarkup` (`updateShadowSuggest`), and the `Shadow` value
  (`Blank | Ghost(invisible, visible)`).
- `Entry` (entry.dfy): the entry box. `SuggestedTags` and `ShadowUpdate` are
  functions of the state. The class `EntryBox` holds `text`, `candidates`,
  `focus` and `shadow`, with one method per event.
- `Filter` (filter.dfy): the filter box. `ShadowFor`, `SpaceAsWritten` and
  `SpaceCommit` are functions of the state. The class `FilterBox` has one
  method per event.

Each class has an invariant `Valid()`. In both boxes, emptying the candidate
list does not reset the focus: the entry box's no-match branch and the filter
box's empty-text branch both keep it. So the invariant is not "the focus
indexes a candidate".

- **Entry box**: the focus is -1 or a candidate index, unless the list is
  empty and the text has no partial hashtag. With this invariant,
  `EntryBox.Space` is proved never to splice `#undefined` into the text.
- **Filter box**: the focus is -1 or a candidate index, unless the list is
  empty. That exception is enough to make Space misbehave (see Findings).

Some facts about the code that the model keeps:

- In the filter box an exact match only hides the list (line 409); its one
  candidate stays, and `FilterBox.Input` states the candidates are
  `PrefixFilter(tags, text)` regardless. The entry box has no exact-match test.
- The branches that empty the list (lines 227 and 415) keep the focus.
- Commits keep the candidates and the focus (lines 300-303, 462-466). In the
  filter box a Tab commit also keeps the ghost text, because
  `hideTagSuggestions` only hides the lists.
- The filter's focus handler (line 430) only renders the list and leaves the
  candidates as they are.

## Model

| member | source | states |
|---|---|---|
| TagSyntax.IsTagChar | frontend/logic.js:55 | the class `[\w\d-_]` is `A-Z`, `a-z`, `0-9`, `_` and `-`; every such character is ASCII, and neither `#` nor a space is one |
| TagSyntax.MatchesAt | frontend/logic.js:55 | the `$`-anchored pattern `#` plus one or more class characters can match only at the `#` just before the non-empty trailing run of class characters |
| TagSyntax.TagRun | frontend/logic.js:55 | the run of tag characters at the end of a text: every character in it is one of `[A-Za-z0-9_-]` and the character before it is not |
| TagSyntax.TrailingTagStart | frontend/logic.js:214 | `tagRegex.exec` finds a match exactly when the pattern matches at some position, and the position it returns is a match |
| TagSyntax.MatchIsUnique | frontend/logic.js:55 | the pattern matches at most one position, so the leftmost match that `exec` and `replace` use is the only one |
| TagSyntax.FirstHash | frontend/logic.js:217 | the position of the first `#`, with no `#` before it |
| TagSyntax.RemoveFirstHash | frontend/logic.js:217 | `replace('#', '')` removes only the first `#`, and a text without `#` is returned unchanged |
| TagSyntax.ReplaceTrailingTag | frontend/logic.js:300-303 | `replace(tagRegex, r)` keeps the text before the matching `#` and puts `r` in place of the match; a text the pattern does not match is unchanged |
| TagSyntax.PartialTagIsRunAfterHash | frontend/logic.js:214-217 | the incomplete tag is the run after the `#`: it is non-empty and made of tag characters only |
| TagSyntax.NoTagAfterNonTagChar | frontend/logic.js:55 | a text ending in a non-tag character (a lone `#`, a space) has no partial hashtag |
| Suggest.PrefixFilter | frontend/logic.js:220-222 | a string is a candidate exactly when it is a known tag that starts with the prefix (case-sensitive) |
| Suggest.PrefixFilterConcat | frontend/logic.js:403-405 | filtering keeps the order of the known tags: the matches of one part come before those of a later part |
| Suggest.PrefixFilterCount | frontend/logic.js:220-222 | every matching tag is kept as many times as it occurs among the known tags, and no other tag is kept |
| Suggest.PrefixFilterNarrows | frontend/logic.js:403-405 | filtering the candidates of a prefix by a longer text gives the candidates of the longer text |
| Suggest.JsRem | frontend/logic.js:306 | the script's `%` with a positive divisor: the remainder is congruent to the dividend, lies strictly between -divisor and divisor, and has the dividend's sign |
| Suggest.NextFocus | frontend/logic.js:305-309 | from any focus of at least -1, one Tab gives a focus in -1 .. len-1; from a focus in range, Tab moves to the next candidate and wraps from the last one to -1 |
| Suggest.FocusAfterInRange | frontend/logic.js:468-472 | however many Tabs are pressed, the focus stays in -1 .. len-1 |
| Suggest.FocusAfterSteps | frontend/logic.js:305-309 | Tabs that do not reach the end of the list move the focus forward one candidate each |
| Suggest.FocusFromUnfocused | frontend/logic.js:305-309 | from -1, k Tabs (k <= len) focus candidate k-1, and len+1 Tabs return to -1 |
| Suggest.FocusFullCycle | frontend/logic.js:468-472 | len+1 Tabs return any focus in -1 .. len-1 to itself |
| Suggest.ResolvedIndex | frontend/logic.js:199 | with exactly one candidate the resolved index is 0, otherwise it is the stored focus; a focus in -1 .. count-1 resolves to an index in that range |
| Suggest.JsIndex | frontend/logic.js:202 | reading a candidate by index gives that candidate when the index is in range, and otherwise the text `undefined`; it never yields any other string |
| ShadowText.FixWhitespace | frontend/logic.js:135-137 | the output contains no space |
| ShadowText.FixWhitespaceChar | frontend/logic.js:135-137 | a space becomes `&nbsp;`, and any other character stays as it is |
| ShadowText.FixWhitespaceConcat | frontend/logic.js:135-137 | the replacement works character by character: it maps a concatenation to the concatenation of the results |
| ShadowText.FixWhitespaceIdentity | frontend/logic.js:136 | a text is unchanged exactly when it contains no space |
| ShadowText.ShadowSplit | frontend/logic.js:139-148 | the two parts rebuild the suggestion, and the first is as long as the shorter of the typed text and the suggestion; when the suggestion extends the typed text, the first part is the typed text |
| ShadowText.ShadowMarkup | frontend/logic.js:139-150 | the two drawn parts concatenate to the whole suggestion with spaces turned into `&nbsp;`; when the suggestion extends the typed text, the invisible part is the typed text |
| Entry.SuggestedTags | frontend/logic.js:214-229 | no candidates unless the text ends in a partial hashtag; otherwise the known tags that extend the run after its `#` |
| Entry.ShadowUpdate | frontend/logic.js:197-211 | with no candidates the ghost text is left as it is; otherwise it is cleared when the resolved index is negative, and drawn when it is not |
| Entry.ExtendTrailingTag | frontend/logic.js:202-205 | replacing a partial hashtag by a tag that extends it appends the untyped rest of the tag to the text |
| Entry.GhostCompletesTypedText | frontend/logic.js:197-205 | while the candidates belong to the current text, the ghost text is the typed text (invisible) followed by the untyped rest of the resolved candidate |
| Entry.CommitCompletesTag | frontend/logic.js:300-303 | a commit keeps the text before the `#`, puts `#tag ` in place of the partial hashtag, and leaves no partial hashtag; text without one is unchanged |
| Entry.EntryBox.constructor | frontend/logic.js:161-162 | an empty box: no candidates, focus -1, no ghost text |
| Entry.EntryBox.Input | frontend/logic.js:213-230 | the candidates become those of the new text; the focus is reset only when the text ends in a partial hashtag; the ghost text is redrawn or cleared; the invariant is kept |
| Entry.EntryBox.Tab | frontend/logic.js:298-311 | a lone candidate is committed over the partial hashtag and the ghost text cleared; otherwise the focus moves on and the ghost text follows it; candidates unchanged |
| Entry.EntryBox.Space | frontend/logic.js:315-322 | with a focus of at least 0, the focused candidate is committed when it exists, and otherwise the text is unchanged (never `#undefined`); candidates and focus unchanged |
| Entry.EntryBox.Click | frontend/logic.js:279-288 | the clicked tag is committed over the partial hashtag and the ghost text is cleared; candidates and focus unchanged |
| Entry.EntryBox.Escape | frontend/logic.js:292-295 | a non-empty entry is emptied and its ghost text cleared; candidates and focus unchanged |
| Entry.EntryBox.InsertHashtag | frontend/logic.js:262-267 | `#` is appended without an input event; the rest of the state is unchanged |
| Entry.TwoCandidatesScenario | frontend/logic.js:197-225 | for `hello #to` with tags todo, travel, tomorrow: candidates todo and tomorrow, no ghost text at focus -1, ghost `do` after one Tab |
| Entry.NoPartialTagScenario | frontend/logic.js:214-229 | `hello` and `hello #` get no candidates |
| Entry.CommitScenario | frontend/logic.js:300-303 | committing `work` over `at #wo` gives `at #work ` |
| Filter.ShadowFor | frontend/logic.js:372-386 | the ghost text is drawn exactly when there are candidates and the resolved index is not negative, and its parts rebuild the resolved candidate |
| Filter.GhostCompletesTypedText | frontend/logic.js:372-386 | while the candidates belong to the current text, the ghost text is the typed text (invisible) followed by the untyped rest of the resolved candidate |
| Filter.SpaceAsWritten | frontend/logic.js:478-486 | as written, Space writes the focused candidate when the list has one there, writes `undefined` when the focus points past the end of the list, and leaves the text when the focus is negative |
| Filter.SpaceAfterClearingWritesUndefined | frontend/logic.js:399-419 | with tags todo, tomorrow: typing `t` gives both candidates, Tab focuses 0, and a Space after the field is emptied writes `undefined`, which is not a tag |
| Filter.SpaceCommit | frontend/logic.js:480-484 | Space, corrected: a focus on a candidate makes that candidate the field; any other focus leaves the field as it is; it agrees with the code wherever the focused candidate exists |
| Filter.FilterBox.constructor | frontend/logic.js:337-338 | an empty box: no candidates, focus -1, no ghost text |
| Filter.FilterBox.Input | frontend/logic.js:399-419 | non-empty text resets the focus to -1 and makes the candidates the known tags it prefixes (an exact match included); empty text empties the candidates and keeps the focus; invariant kept |
| Filter.FilterBox.Tab | frontend/logic.js:460-475 | a lone candidate becomes the whole field, with focus and ghost text kept; otherwise the focus moves on and the ghost text follows it |
| Filter.FilterBox.Space | frontend/logic.js:478-486 | the field becomes SpaceCommit of the state: the focused candidate if the list has one there, otherwise it is unchanged |
| Filter.FilterBox.Click | frontend/logic.js:490-500 | the clicked tag, with its first `#` dropped (`RemoveFirstHash`), becomes the field; candidates, focus and ghost text unchanged |
| Filter.FilterBox.Escape | frontend/logic.js:445-457 | a non-empty field is emptied and its ghost text cleared; candidates and focus unchanged |

## Findings

| source | as written | input that shows it | evidently intended | confidence | as-written member | corrected member |
|---|---|---|---|---|---|---|
| frontend/logic.js:480-484 | Space sets the field to `suggestedFilterTags[focus]` whenever the focus is not negative. Emptying the field (line 415) empties the list but keeps the focus, so the index can be past the end and the field becomes `undefined` | known tags `todo`, `tomorrow`: type `t`, press Tab, erase the field, press Space | Space commits only a candidate that the list has at the focus, and otherwise leaves the field alone | not executed | Filter.SpaceAsWritten (shown by Filter.SpaceAfterClearingWritesUndefined, and reached from a fresh box in Filter.ClearedFieldSession) | Filter.SpaceCommit (used by Filter.FilterBox.Space) |

## Left out

- Network I/O is not modelled: `httpRequest`, `fetchTags`, `fetchLog`, `fetchSortedLog`, `saveEvent` and the status checks. The known tags are a parameter of each `Input`. The `fetchLog` calls after a filter commit are dropped.
- Timers are not modelled: the 250 ms `debounce` of the log query and the 200 ms blur timeout. Both only affect the network and the lists' visibility.
- Rendering is not modelled: Handlebars templates, the markdown helper, `innerHTML` writes of the lists, `classList` show/hide, the `faded` class, the buttons, scrolling and `matchMedia`. This includes whether a suggestion list is visible: the filter's exact-match hiding (line 409) and the focus handler that lists all tags (line 430) change only that visibility, so they have no counterpart in the model.
- The `<span class='invisible'>` wrapper around the invisible part is not modelled. A `Ghost` value holds the two parts, and `Blank` stands for `innerHTML = ''`.
- Submitting the entry (the form's submit and the done button) is not modelled, because it saves over the network before clearing the entry. The clearing itself is the same as `EntryBox.Escape`.
- The global key suppression (lines 510-526) and the browser's default actions are not modelled. Space is not suppressed, so after the Space handler the browser also types a space and raises an input event. The model's `Space` is the handler alone.
- Which element has focus is left to the caller: each key method models the key pressed while its box has focus. The filter's ESC while unfocused acts on the modelled state just as `FilterBox.Escape` does, and its ESC on an empty field only hides the lists and blurs.
- The regular-expression engine is not modelled. `tagRegex` is the predicate `MatchesAt`, and the `$` patterns of `String.replace` replacement strings are assumed absent from tags.
- JavaScript strings are UTF-16 code units; the model uses Dafny characters. They differ only for characters outside the Basic Multilingual Plane. Tag characters are ASCII, so the entry box's partial hashtag and its commits are unaffected.
- ShadowText.ShadowSplit cuts the suggestion after as many characters as the typed text has, where `updateShadowSuggest` (line 140) cuts after `originalText.length` UTF-16 code units. A click on any code element (lines 490-499) can put text with a character outside the Basic Multilingual Plane into the filter field while the old candidates stay. When such a field does not prefix the drawn candidate, the model's filter ghost text is split at a different place than the script's. Example: tags `todo` and `tomorrow`, type `t`, click `😀b`, press Tab: the model draws `to` invisibly, the script `tod`.
- Suggest.NextFocus: for a focus left past the end of the list, only the range of the result is stated, not its value.
- Filter.ShadowFor requires that the focus is inside a list of two or more candidates: otherwise the script would fail on `undefined.substring`. `FilterBox.Valid()` shows this never happens.
- Filter.FilterBox.Space follows the corrected Space (see Findings), not the code as written. Filter.SpaceAsWritten models the code as written.
