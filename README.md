# Entity-aware question input: a Dafny model

This project models the deterministic core of a question-answering front
end over Wikidata. It has three parts.

- **static/script.js.** The browser keeps a question in two forms:
  - the flat form `where was [Marie Curie] born`;
  - the markup form shown in an editable field. There every plain run is
    a `<span>` and every entity mention a `<span class="entity" …>`.

  The model covers:
  - the conversions between the two forms (`putTextIntoSpans`,
    `putTextIntoSpansInput`, `removeHtmlInputField`);
  - the readers of the markup (`getEntityNames`, `getSpansAsArray`);
  - the reconciliation `handleInput`. After every edit it demotes an entity
    span whose text no longer equals the name recorded for it, cuts the
    recorded names down to those still shown, removes one empty span and
    merges one seam between plain spans;
  - the rewriting of mentions into QIDs (`getQidQuestion`) and of a
    trailing mention into its alias (`addAlias`);
  - the module-level state in one `Widget` class: the stale-response filter
    of the completion callback, the completion selection with wrap-around,
    and the paging over answer candidates.
- **get_wiki_info_mapping.py.** The cleaners for the QID, title and
  abstract columns, the three mapping builders (last wins, first wins),
  the merge of three mappings into one (with its `pop` side effects), and
  `combine_mappings` (prefer non-empty).
- **aqqu_server.py.** The entity-mention stripper and the transformers from
  the Aqqu and completion responses into answer lists, interpretation
  strings and completion texts.

Strings are `seq<char>`. Each regular expression is a hand-written matcher
(module `Regex`), run by one generic driver for each way the source uses a
regular expression:
- global replace;
- first-match replace;
- collect all matches.

JavaScript's `$` patterns in replacement strings, its truncating `%`, its
`NaN` and its `undefined` are modelled where the code depends on them.

Files:
- `strings.dfy`, `regex.dfy` and `maps.dfy` hold the shared helpers.
- `markup.dfy`, `roundtrip.dfy`, `unmark.dfy`, `qidalias.dfy`,
  `reconcile.dfy` and `widget.dfy` model static/script.js.
- `aswritten.dfy` and `droppedtail.dfy` hold the two findings.
- `wikiinfo.dfy` models get_wiki_info_mapping.py.
- `aqqu.dfy` models aqqu_server.py.

## Model

| member | source | states |
|---|---|---|
| Strings.IndexOf | static/script.js:339 | `indexOf`: the position found holds the pattern and no earlier position does; `None` means the pattern occurs nowhere |
| Strings.JsReplaceString | static/script.js:339 | a string-pattern `replace` with no occurrence leaves the text unchanged |
| Strings.JsSubstituteLiteral | static/script.js:339 | a replacement text without `$` is inserted as it is |
| Strings.SplitJoin | static/script.js:298 | `split(",")` gives back the fields that were joined with commas, if no field holds a comma |
| Regex.FirstMatchFound | static/script.js:174 | the leftmost match of a non-global `replace` is a match of the pattern at its position |
| Regex.FirstMatchLeftmost | static/script.js:174 | no match starts before the leftmost one, and none anywhere when there is none |
| Regex.RewriteAllCopy | static/script.js:321-323 | text in which no match starts is copied through by a global replace |
| Regex.RewriteAllNotLonger | get_wiki_info_mapping.py:60-64 | a global replace whose matches never grow the text never makes it longer |
| Regex.RewriteAllKeepsAbsent | get_wiki_info_mapping.py:60-64 | a global replace whose outputs avoid some characters does not bring them into the text |
| Markup.EntityTagAtMatches | static/script.js:18 | an `inputEntityRegex` match is the entity opening tag up to its first `>`, text without `<`, and `</span>` |
| Markup.GetSpansAsArray | static/script.js:134-152 | the method's two loops compute the pieces cut at the end of every `</span>` |
| Markup.CloseTagEnds | static/script.js:136-145 | the `regex.exec` loop collects the end of every closing tag in order |
| Markup.CutAt | static/script.js:146-151 | the `slice` loop cuts the text between consecutive ends |
| Markup.SpanEndsFindsAll | static/script.js:136-145 | every closing tag (matched case-insensitively) at or after the start is found |
| Markup.SpansPerCloseTag | static/script.js:134-152 | one piece per occurrence of `</span>` |
| Markup.SpansCover | static/script.js:134-152 | every piece ends with `</span>`, and the pieces put together are the text up to its last `</span>` (no pieces when there is none) |
| Markup.InputSpanStepShrinks | static/script.js:333-343 | each round of the `putTextIntoSpansInput` loop removes a `]`, so the corrected loop ends |
| Markup.PutTextIntoSpansInput | static/script.js:329-345 | the method with its `while` loop and counter computes the corrected loop from counter 0 |
| Markup.GetQidQuestion | static/script.js:297-307 | the method with its `for` loop replaces the `i`-th collected mention by the `i`-th QID in brackets, in order |
| RoundTrip.WrapPlainRunsFlat | static/script.js:321-322 | the first two replaces wrap every plain run of a flat question in `<span>…</span>` |
| RoundTrip.PutTextIntoSpansFlat | static/script.js:320-325 | `putTextIntoSpans` of a flat question is its plain runs as plain spans and its mentions as entity spans |
| RoundTrip.InputLoop | static/script.js:333-343 | the loop turns the `k`-th remaining mention into the entity span numbered `k`, from any counter on |
| RoundTrip.InputSpansFlat | static/script.js:329-345 | `putTextIntoSpansInput` of a flat question gives the input markup in which the `i`-th entity span calls `handleEntityMouseover(i, event)` |
| Unmark.RemoveMarked | static/script.js:348-352 | `removeHtmlInputField` gives the flat question back from its markup, with or without tooltip attributes |
| Unmark.NamesMarked | static/script.js:123-130 | `getEntityNames` of the markup lists the mentioned names in order |
| Unmark.StaticRoundTrip | static/script.js:320-325 | `removeHtmlInputField(putTextIntoSpans(t)) == t`, and `getEntityNames` lists the bracket contents of `t` in order |
| Unmark.InputRoundTrip | static/script.js:329-352 | the same two facts for `putTextIntoSpansInput` |
| QidAlias.WholesOfFlat | static/script.js:299 | `question.match(/\[.*?\]/g)` on a flat question lists its mentions, brackets included, in order |
| QidAlias.NoEarlier | static/script.js:302 | in a flat question whose mentions differ from `[name]`, `[name]` does not occur before the text that follows |
| QidAlias.QidRound | static/script.js:302 | one round of the loop rewrites the first mention still to do into `[qid]` and changes nothing else |
| QidAlias.QidRounds | static/script.js:300-305 | the rounds from `i` on rewrite the remaining mentions, the `k`-th into QID number `i + k` |
| QidAlias.QidQuestionFlat | static/script.js:297-307 | `getQidQuestion` rewrites the `k`-th mention of a flat question into `[qidsArray[k]]` (`[undefined]` past the end), keeps the text outside the brackets and the number of mentions |
| QidAlias.AddAliasTrailing | static/script.js:311-316 | a completion ending in `[name] ` gets ` [name <span class="alias">(alias)</span>] ` in place of that mention, for a non-empty alias |
| QidAlias.AddAliasOnlyTrailing | static/script.js:311-316 | `addAlias` changes only a completion that ends with `] `, and only for a non-empty alias |
| Reconcile.EntityOpenTag | static/script.js:174 | the demoted tag starts with `<span class="entity"`, runs to a `>`, and becomes `<span>` |
| Reconcile.ScanSpans | static/script.js:167-183 | the `for` loop with its `break` ends in the state `ScanFrom` gives from the start: the pieces taken, `entityIndex`, the kept names and the mismatch flag. `ScanFromStart` proves that this state keeps `Tracks` and stops as `StopsAt` says |
| Reconcile.StepTracks | static/script.js:168-182 | one round keeps the loop invariant `Tracks`: the index counts the entity pieces taken, the kept names and the mismatch flag follow the ordinals, and the new piece is `Reconciled` |
| Reconcile.ScanTracks | static/script.js:167-183 | from any state the loop reaches without having stopped, it keeps `Tracks` and stops as `StopsAt` says: after the last piece, or right after the first round in which the number of entity pieces seen reaches the number of recorded names, and never before the first round |
| Reconcile.ScanFromStart | static/script.js:167-183 | on any pieces, the loop from its start keeps `Tracks` and stops as `StopsAt` says |
| Reconcile.ScanOfTracks | static/script.js:159-183 | on the markup, the loop keeps `Tracks` and stops as `StopsAt` says. With recorded names, an early stop comes right after the entity piece whose ordinal is the last recorded one, with the index equal to the number of recorded names |
| Reconcile.KeptSubsequence | static/script.js:171-178 | the kept names are an in-order subsequence of the recorded names, never longer |
| Reconcile.KeptUnchanged | static/script.js:171-178 | when no name changed, every recorded name looked at is kept |
| Reconcile.HandleInputEntities | static/script.js:159-199 | the stored list is empty without recorded names. Otherwise it is exactly the recorded names still shown at their ordinal, in order and never longer, over the ordinals of the entity pieces the loop took before stopping. Mismatch is flagged exactly when a name changed. With no mismatch the markup only loses its first `<br>` |
| Reconcile.HandleInputShrinks | static/script.js:159-199 | the stored list is empty when no names were recorded, and otherwise an in-order subsequence of the recorded names |
| Reconcile.HandleInputText | static/script.js:157-199 | the method runs the steps of `handleInput` in the source's order and computes the corrected `HandleInput`, whose rebuild keeps the markup the loop did not take (second finding) |
| Reconcile.SpansTail | static/script.js:134-152 | the pieces and the text after the last closing tag give the markup back |
| Reconcile.RebuiltKeepsAll | static/script.js:185-187 | the corrected rebuild is every piece, then the text after the last closing tag. The pieces the loop took are `Reconciled` (an entity piece demoted exactly when its name changed at its ordinal), and the rest are unchanged. Without a mismatch the rebuild is the markup itself |
| Reconcile.MergeDeletesSeam | static/script.js:190 | the merge deletes exactly one `</span><span>`, the one closing the first plain span followed by another; with none the markup is unchanged |
| Reconcile.DemoteReplacesOpenTag | static/script.js:174 | demoting puts `<span>` in place of the first entity opening tag (up to its first `>`) and keeps the entity text |
| DroppedTail.SpansPieces | static/script.js:134-152 | `getSpansAsArray` gives back the whole pieces a markup was put together from, with nothing after the last one |
| DroppedTail.DemoteEntity | static/script.js:174 | demoting an entity span gives the plain span with the same text |
| DroppedTail.MarkedScan | static/script.js:167-183 | on `first[name]after` with a changed name, the loop stops after two of three pieces with the entity demoted |
| DroppedTail.DroppedAfterMismatch | static/script.js:182-187 | after such an edit the source rebuilds from the first two pieces only; the corrected version keeps the third |
| DroppedTail.AfterIgnored | static/script.js:182-187 | the source's result after such an edit is the same whatever text followed the entity |
| DroppedTail.MarieCurie | static/script.js:182-187 | `Where was [Marie Curie] born?` edited to `Marie Curiex` loses ` born?` in the source and keeps it once corrected |
| AsWritten.StepAgrees | static/script.js:337-340 | on text without `$`, the written round (`replace(match[0], replStr)`) is the corrected one |
| AsWritten.DollarStep | static/script.js:337-340 | a written round on the mention `[$&]` wraps it in an entity span and leaves the mention itself in place |
| AsWritten.DollarRoundStep | static/script.js:335-343 | every written round on `[$&]` finds a mention again and leads to the next round |
| AsWritten.DollarQuestionStart | static/script.js:329-332 | the question `[$&]` after the two wrapping replaces is round 0 of the written loop |
| AsWritten.DollarQuestionRounds | static/script.js:335-343 | on the question `[$&]`, round `k` of the written loop always steps to round `k + 1`, so the loop never ends |
| AsWritten.DollarQuestionCorrected | static/script.js:329-345 | on the question `[$&]` the corrected loop stops with the one entity span |
| Widget.JsRem | static/script.js:48 | JavaScript's `%`: the sign of the dividend, below the divisor in size, `NaN` for a zero divisor |
| Widget.Wrap | static/script.js:48-54 | with at least one button and a numeric selection, the new selection is in `[0, numButtons)`; otherwise `NaN` |
| Widget.WrapArrows | static/script.js:48-54 | from a button in range, `+1` and `-1` move to the neighbour and wrap around at both ends |
| Widget.NavigationButtons | static/script.js:583-598 | first and previous are disabled iff `currIndex < 1`; next and last iff `currIndex + 1 >= numAnswers` |
| Widget.MovedIndex | static/script.js:445-454 | the index stays in `{-1} ∪ [0, numAnswers)` and either stays or moves into range |
| Widget.NavigatedIndex | static/script.js:555-580 | paging keeps the index in `{-1} ∪ [0, numAnswers)` |
| Widget.DisabledIffStays | static/script.js:555-598 | a paging button is disabled exactly when pressing it would leave the index where it is |
| Widget.Widget.constructor | static/script.js:654-665 | the page starts with selection 0, no responses, no candidate, and the question field in markup form |
| Widget.Widget.NavigateCompletions | static/script.js:36-58 | the selection becomes `Wrap(old, direction, numButtons)`; nothing else changes |
| Widget.Widget.GetCompletions | static/script.js:233-246 | the selection goes back to 0, and the query is the question without `<br>`, in flat form, with mentions rewritten into QIDs when QIDs are recorded |
| Widget.Widget.RemoveCompletionButtons | static/script.js:356-361 | it removes buttons `0 … lastResultLen-1` and sets `lastResultLen` to the new count |
| Widget.Widget.OnCompletionResponse | static/script.js:250-292 | an empty or older response changes nothing. An accepted one (equal timestamps included) sets `maxTimestamp` to its timestamp and `lastResultLen` to its result count, and builds one button per result. `maxTimestamp` never decreases |
| Widget.MakeButton | static/script.js:270-286 | the button for result `i` has id `button<i>`, the result's QIDs and its original completion, and shows the completion with its alias added, put into spans |
| Widget.MakeButtons | static/script.js:269-287 | one button per result, in order, the `k`-th built from result `k` with index `k` |
| Widget.Widget.ChooseCompletion | static/script.js:96-120 | the chosen completion becomes input markup, its QIDs are stored, and its entity names are recorded |
| Widget.Widget.HandleInput | static/script.js:157-205 | the field and the stored names become the corrected `Reconcile.HandleInput` of the old ones, whose demotion rule and kept names `RebuiltKeepsAll` and `HandleInputEntities` state. The new list is empty when none was recorded, and otherwise an in-order subsequence of the old one |
| Widget.Widget.MoveIndex | static/script.js:445-454 | it returns true and moves iff the index is in `[0, numAnswers)`, otherwise it leaves `currIndex` unchanged; it keeps `Valid` |
| Widget.Widget.NavigateResults | static/script.js:555-580 | the index moves as `NavigatedIndex` says, and the buttons are refreshed when it moved into range |
| Widget.Widget.DisplayAqquResults | static/script.js:425-442 | with a non-empty result the first candidate is shown and the buttons are refreshed; without a result nothing changes |
| Maps.LastWinsKeys | get_wiki_info_mapping.py:78-81 | a QID is in a last-wins mapping exactly when some line has it |
| Maps.LastWinsValue | get_wiki_info_mapping.py:78-81 | the value kept is that of the last line with the QID |
| Maps.FirstWinsKeys | get_wiki_info_mapping.py:94-100 | a QID is in a first-wins mapping exactly when some line has it |
| Maps.FirstWinsValue | get_wiki_info_mapping.py:94-100 | the value kept is that of the first line with the QID |
| Maps.LastWinsFrom | get_wiki_info_mapping.py:78-81 | every entry of a last-wins mapping comes from a line |
| Maps.FirstWinsFrom | get_wiki_info_mapping.py:94-100 | every entry of a first-wins mapping comes from a line |
| WikiInfo.QidFromUrlRoundTrip | get_wiki_info_mapping.py:30-36 | `<http://www.wikidata.org/entity/Q42>` gives `Q42` |
| WikiInfo.QidFromUrlNoMatch | get_wiki_info_mapping.py:30-36 | a string in which the pattern matches nowhere comes back unchanged |
| WikiInfo.QidFromUrlPlain | get_wiki_info_mapping.py:30-36 | a string without `<` comes back unchanged |
| WikiInfo.GetWikititleFromUrl | get_wiki_info_mapping.py:39-48 | the title never holds `_`, since underscores are replaced after unquoting |
| WikiInfo.TitleFromUrlRoundTrip | get_wiki_info_mapping.py:39-48 | the page URL of a title gives that title back, decoded and with spaces for underscores |
| WikiInfo.CleanAbstractString | get_wiki_info_mapping.py:51-66 | the abstract holds no `@` and no tab and is never longer than the input |
| WikiInfo.Strip | get_wiki_info_mapping.py:97 | `strip(chars)` keeps the middle of the string, which neither starts nor ends with one of the characters |
| WikiInfo.SplitOnce | get_wiki_info_mapping.py:112 | `split(sep, 1)` gives at most two fields, split at the first separator |
| WikiInfo.Rows | get_wiki_info_mapping.py:76-81 | the rows of all lines in order, or failure as soon as a line does not unpack into two fields |
| WikiInfo.GetQidToWikititleDict | get_wiki_info_mapping.py:69-82 | the title mapping is last-wins over the rows, and fails exactly when a line does not unpack |
| WikiInfo.GetQidToImageDict | get_wiki_info_mapping.py:85-101 | the image mapping is first-wins over the rows, and fails exactly when a line does not unpack |
| WikiInfo.GetQidToAbstractDict | get_wiki_info_mapping.py:104-117 | the abstract mapping is last-wins over the rows split at the first tab, and fails exactly when a line does not unpack |
| WikiInfo.TitleValuesClean | get_wiki_info_mapping.py:78-81 | no title in the mapping holds `_` |
| WikiInfo.ImageValuesTrimmed | get_wiki_info_mapping.py:94-100 | no image in the mapping starts or ends with `<` or `>` |
| WikiInfo.AbstractValuesClean | get_wiki_info_mapping.py:113-116 | no abstract in the mapping holds `@` or a tab |
| WikiInfo.StrDict.Pop | get_wiki_info_mapping.py:135-136 | `pop(key, None)` removes the key, present or not |
| WikiInfo.AddTitled | get_wiki_info_mapping.py:131-136 | the first loop gives every titled QID its title, image and abstract, and pops those QIDs from the image and abstract mappings |
| WikiInfo.AddImaged | get_wiki_info_mapping.py:137-140 | the second loop adds every remaining image QID with an empty title, and pops those QIDs from the abstract mapping |
| WikiInfo.AddRest | get_wiki_info_mapping.py:141-142 | the third loop adds every remaining abstract QID with empty title and image |
| WikiInfo.GetQidToWikiInfoDict | get_wiki_info_mapping.py:120-143 | the keys are the union of the three inputs; each QID gets its title, image and abstract (`""` where one is missing). Afterwards the image mapping holds only untitled QIDs, and the abstract mapping only QIDs with neither title nor image |
| WikiInfo.Combined | get_wiki_info_mapping.py:161-172 | truthy entries of `mapping1` stay; missing or falsy ones are filled from truthy `mapping2` values; no falsy value is added |
| WikiInfo.CombineMappings | get_wiki_info_mapping.py:161-172 | `mapping1` is changed in place into `Combined` and returned itself |
| Aqqu.ReplaceEntityMentionsNames | aqqu_server.py:105-112 | every `[type\|qid:name]` becomes `name` and nothing else changes |
| Aqqu.AnnotatedRewrite | aqqu_server.py:105-112 | the global replace turns a question of well-formed mentions and mention-free text into the same question with only the names |
| Aqqu.ReplaceEntityMentionsPlain | aqqu_server.py:105-112 | a question without `[` is returned unchanged |
| Aqqu.GetAnswers | aqqu_server.py:115-133 | one list per candidate, in order; list `i` holds the names of candidate `i`'s answers, in order |
| Aqqu.GetMid2Name | aqqu_server.py:181-193 | a later entity with the same MID overwrites an earlier one |
| Aqqu.DisplayNameIsLast | aqqu_server.py:152 | an entity is shown under the last name given for its MID |
| Aqqu.DisplayNameFallback | aqqu_server.py:152 | a MID without a name is shown as itself |
| Aqqu.LastDot | aqqu_server.py:165 | `rfind(".")`: the position of a dot with no dot after it, or -1 |
| Aqqu.AfterLastDot | aqqu_server.py:165 | the part after the last dot has no dot and is the whole string when there is no dot |
| Aqqu.AfterLastDotSuffix | aqqu_server.py:165 | that part is the end of the relation, right after its last dot |
| Aqqu.RelationName | aqqu_server.py:162-169 | a shown relation holds neither a dot nor an underscore |
| Aqqu.ShowRelation | aqqu_server.py:164-167 | the loop body shows a relation as `RelationName` does: the part after the last dot, with underscores as spaces |
| Aqqu.EntityNames | aqqu_server.py:146-155 | one shown name per entity match, in order, falling back to the MID |
| Aqqu.RelationGroups | aqqu_server.py:157-172 | one string per relation group, its relations joined by ` -> ` |
| Aqqu.GetInterpretationStrings | aqqu_server.py:136-178 | one interpretation per candidate, in order: entity names joined by ` - `, `, `, relation groups joined by ` - `, `:` |
| Aqqu.EntitiesString | aqqu_server.py:146-156 | the entity loop joins the shown names with ` - ` |
| Aqqu.RelationsString | aqqu_server.py:157-174 | the relation loops join the groups with ` - ` |
| Aqqu.RelationGroupString | aqqu_server.py:160-170 | the innermost loop joins one group's relations with ` -> ` |
| Aqqu.GetCompletions | aqqu_server.py:196-204 | the `completion` fields, with the same length and order as the completions |

## Left out

- DOM and jQuery work is not modelled: element creation and removal, CSS colouring, tooltips (`handleEntityMouseover`, `hideTooltip`, `resetTooltip`), answer paragraphs (`showCurrentResult`, `showCaption`, `showAnswers`, `showInterpretation`, `showMoreResults`, `showLessResults`), `copyQuestionToInput`, the key and ready handlers (`enterPressed`, `handleKeyPress`), and `handleMouseOver`. It is browser rendering; the model reports button ids and button states as results instead.
- The caret code (`getAllNodes`, `getCaretData`, `setCaretPosition`) is not modelled. It uses the DOM selection interface.
- `$.getJSON`, `Date.now()`, `encodeURI` and the HTTP and file transport of the Python scripts are not modelled. They are network, clock and library calls. The completion callback takes the decoded response as a parameter.
- The Flask routes `home` and `qac`, the `__main__` blocks, `argparse`, `get_mapping_tuples`, `write_qid_to_wiki_info` and get_wiki_image_urls.py are not part of this model. They are I/O around the modelled logic.
- WikiInfo.GetWikititleFromUrl: `urllib.parse.unquote` is a function parameter, so percent-decoding itself is not modelled.
- Reconcile.ScanSpans: when the entity names read from the markup and the recorded names both end before an entity piece, the source pushes `undefined` into the new list; the model pushes nothing. This needs a piece the entity regex accepts that `getEntityNames` does not list.
- Widget.Widget.HandleInput: models `handleInput` with the correction of the second finding below. The source's own version is Reconcile.HandleInputAsWritten.
- Reconcile.HandleInputText: computes the corrected `HandleInput`. On a mismatch it rebuilds with `Rebuilt`, which keeps the markup after the last piece the loop took. The source joins only the pieces it took, as Reconcile.HandleInputAsWritten models.
- Markup.PutTextIntoSpansInput: models the loop with the correction of the first finding below. The source's own round is Markup.InputSpanStepAsWritten.
- QidAlias.QidQuestionFlat: stated for flat questions whose QIDs hold no bracket, `<`, line terminator or `$`, and whose mention names are not a QID nor `undefined`. If a QID equals a later mention's name, the source's first-occurrence `replace` rewrites an earlier, already rewritten mention instead.
- QidAlias.AddAliasTrailing: stated for an alias without `$` and plain text before the mention without `[`. A `$` in the alias would be read as a substitution pattern.
- Unmark.StaticRoundTrip: the round trips are stated for flat questions whose plain text has no bracket or `<`, and whose names have no bracket, `<` or line terminator. Other input can be read differently by the regular expressions.
- Aqqu.ReplaceEntityMentionsNames: stated for mentions whose kind, QID and name hold no newline and no `|`, `:` or `]` respectively, with no `[` in the surrounding text.
- Widget.Widget.OnCompletionResponse: the Python-side JSON fields other than the completions, and the button colouring, are not modelled.

## Findings

| source | as written | input that shows it | evidently intended | confidence | as-written member | corrected member |
|---|---|---|---|---|---|---|
| static/script.js:339 | `text.replace(match[0], replStr)` passes the mention text inside a replacement string, so `$&` in an entity name stands for the match again. Every round then re-inserts `[$&]` and the `while` loop never ends | the question `[$&]` | the `i`-th mention is replaced literally by its entity span, and the loop ends after the last mention | not executed | AsWritten.DollarQuestionRounds | Markup.PutTextIntoSpansInput |
| static/script.js:182-187 | after a mismatch, the markup is rebuilt from `newSpans`. That array stops at the piece holding the last recorded entity, so all markup after it is dropped | `Where was [Marie Curie] born?` in the input field, with the entity text edited to `Marie Curiex` | the rebuilt markup keeps the pieces after the loop's last piece and the text after the last closing tag | not executed | DroppedTail.DroppedAfterMismatch | Reconcile.RebuiltKeepsAll |
