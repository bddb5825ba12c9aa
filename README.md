# Text navigation in the VoiceCode editor extension

A Dafny model of the three navigation algorithms in `extension.js`, with proofs about them.

- **Scope boundary resolver** (`findScopeStart`, `findScopeEnd`, used by the `expandSelectionToScope` command).
  - Scans backward and forward from the cursor offset over the document text.
  - Keeps one counter per bracket kind, and per quote style a parity count with a first-seen position.
  - The result is the offset pair of the enclosing bracket pair or string literal.
- **Word navigator** (the `selectNextWord` command).
  - Walks a (line, column) position one column at a time, wrapping across line ends.
  - Stops when the editor's word oracle finds a word.
- **Marked-word locator** (the `selectBySurroundingCharacters` command).
  - Searches for the leftmost match of `(^|\W) first \w+ last ($|\W)`, forward from the cursor or backward over the reversed prefix.
  - Asks the word oracle for the word at an offset two past the match.

Files and modules:

| file | module | contents |
|---|---|---|
| `text.dfy` | `Text` | word characters, maximal runs, and the word oracle `WordAround` |
| `scope.dfy` | `Scope` | the resolver (details below) |
| `scope_properties.dfy` | `ScopeProperties` | what the resolver selects for bracket pairs, string literals and plain text; the two off-by-one findings |
| `navigator.dfy` | `Navigator` | positions and validation, the two-phase step `Advance`, the walk `NextWordFrom`, and the loop `SelectNextWord` |
| `navigator_properties.dfy` | `NavigatorProperties` | the walk visits neighbouring positions, selects the first word ahead, and never re-selects the current word |
| `locator.dfy` | `Locator` | the pattern as `MatchesAt` plus a leftmost search, the two query offsets, and the command |

`scope.dfy` in more detail:
- The scan state is a `Tally` datatype: three bracket counters and three quote (count, position) pairs.
- `BackStep` and `ForwardStep` are one step of each scan; `BackTally` and `ForwardTally` fold them over the characters read.
- `BackTallyMeaning` and `ForwardTallyMeaning` give the state's declarative meaning.
- `ScopeStart` and `ScopeEnd` are the specifications; `FindScopeStart` and `FindScopeEnd` are the two loops, proved against them.

An editor document is modelled as follows:
- For the resolver and the locator, it is its flat text, a `seq<char>`, and positions are offsets into it.
- For the navigator, it is a non-empty sequence of lines, and positions are (line, column) pairs.
- The editor's `validatePosition` is written out as the clamp it is (`Navigator.Validate`).
- The word oracle `getWordRangeAtPosition` is modelled as the maximal run of `\w` characters containing the column, where both ends of a run count as inside it (`Text.WordAround`).
- Where the code fails at run time (reading the index of a null match, translating to a negative line), the model returns `None`: no selection change.

The resolver's methods model the code as written, including the two quirks listed under Findings. The corrected definitions `IntendedScopeStart` and `IntendedScopeEnd` sit beside them, with the intended property proved in `ScopeProperties.BracketPairScope`.

Two behaviours of the code differ from what a reader of the command would expect, and the model follows the code in both:
- **End boundary.** One would expect the end boundary on the closer's own offset, as the start comes just past the opener. The code gives one past the closer (see Findings).
- **Quote priority.** One would expect a quote to win whenever the cursor is inside a string. The code counts only the quotes a scan actually reads, and each scan stops at the nearest unmatched bracket. Take `foo("a[b]c")` with the cursor on the `b`: `BracketPairScope` (with p = 6, q = 8) shows that the scope runs from 7 to 9, the bracket's interior plus its closer, rather than the string's contents.

## Model

| member | source | states |
|---|---|---|
| Text.WordAround | extension.js:162 | the oracle finds a word exactly when a neighbour of the column is a word character, and then returns the maximal run containing the column |
| Text.WordAroundFindsRun | extension.js:125 | querying any column of a maximal run, both ends included, returns that very run |
| Scope.BackStep | extension.js:197-234 | one step of the backward switch: a character that is neither bracket nor quote changes nothing, and only an opener can make the scan halt |
| Scope.ForwardStep | extension.js:274-311 | one step of the forward switch: a character that is neither bracket nor quote changes nothing, and only a closer can make the scan halt |
| Scope.BackTally | extension.js:194-235 | the backward loop's variables after reading text[lo..e], from e - 1 down to lo; no contract of its own, its meaning is Scope.BackTallyMeaning |
| Scope.ForwardTally | extension.js:271-312 | the forward loop's variables after reading text[b..h]; no contract of its own, its meaning is Scope.ForwardTallyMeaning |
| Scope.BackTallyMeaning | extension.js:194-235 | after the backward scan has read text[lo..e]: each counter is its own kind's openers minus closers, so kinds never cancel and counters may go negative; each quote count is the number of that quote read; each position is one past the nearest such quote at or before the cursor |
| Scope.ForwardTallyMeaning | extension.js:271-312 | the same for the forward scan: closers minus openers, and the offset of the first such quote at or after the cursor |
| Scope.HaltsBackAtMeaning | extension.js:194 | the backward loop stops exactly where some kind has more openers than closers among the characters read |
| Scope.HaltsForwardAtMeaning | extension.js:271 | the forward loop stops exactly where some kind has more closers than openers among the characters read |
| Scope.LastOpener | extension.js:194-236 | the highest index at which the backward scan halts, with no halt between it and the cursor; None when the scan reaches the start without halting |
| Scope.FirstCloser | extension.js:271-313 | the first length of text read after which the forward scan halts, that is, one past the unmatched closer; None when it reaches the end of the text |
| Scope.QuoteOverride | extension.js:243-249 | with every quote count even the bracket boundary stands; any other result is the position recorded for a quote whose count is odd |
| Scope.BackOverrideBounds | extension.js:243-249 | a start override lands in (lo, e] just past a quote character the backward scan read |
| Scope.ForwardOverrideBounds | extension.js:320-326 | an end override lands in [b, h) on a quote character the forward scan read |
| Scope.StartBracket | extension.js:235-241 | the start boundary before the override is 0, or lies just past an opener at or below the cursor |
| Scope.EndBracket | extension.js:312-318 | the end boundary before the override is \|text\|-1, or lies past the cursor just after a closer |
| Scope.ScopeStart | extension.js:177-252 | one past the halting opener, 0 when the scan ran past the start or halted at index 0, then the quote override in the order double, single, back quote; always within [0, offset+1] |
| Scope.ScopeEnd | extension.js:254-329 | one past the unmatched closer, clamped to \|text\|-1, then the quote override; within [offset, \|text\|-1] when offset < \|text\| |
| Scope.IntendedScopeStart | extension.js:237-241 | corrected start: one past the halting opener, including an opener at index 0 |
| Scope.IntendedScopeEnd | extension.js:314-318 | corrected end: the offset of the unmatched closer itself |
| Scope.FindScopeStart | extension.js:177-252 | the backward loop returns ScopeStart(text, offset) |
| Scope.FindScopeEnd | extension.js:254-329 | the forward loop returns ScopeEnd(text, offset) |
| Scope.ExpandSelectionToScope | extension.js:91-97 | the selection runs from ScopeStart to ScopeEnd of the cursor's offset |
| ScopeProperties.PlainBackSkip | extension.js:197-234 | characters that are neither brackets nor quotes leave the backward scan's variables unchanged |
| ScopeProperties.PlainForwardSkip | extension.js:274-311 | the same for the forward scan |
| ScopeProperties.BackScanHaltsAtOpener | extension.js:194-236 | over plain text the backward scan halts at the first opener below the cursor, having read no quote |
| ScopeProperties.ForwardScanHaltsAtCloser | extension.js:271-313 | over plain text the forward scan halts just past the first closer, having read no quote |
| ScopeProperties.BracketPairScope | extension.js:177-329 | for a cursor strictly inside a bracket pair with plain text between: as written, the start is p+1 (0 when p = 0) and the end is q+1 (q when q is the last index); as intended, the start is p+1 and the end is q |
| ScopeProperties.PlainTextScope | extension.js:177-329 | with no bracket and no quote in the text, the scope is [0, \|text\|-1] |
| ScopeProperties.StringLiteralStart | extension.js:194-249 | inside a string literal opened at p, with nothing else to count before the cursor, the start is p+1 |
| ScopeProperties.StringLiteralEnd | extension.js:271-326 | inside a string literal closed at q, with nothing else to count after the cursor, the end is q |
| ScopeProperties.StringLiteralScope | extension.js:177-329 | a cursor inside the only string literal of a bracket-free text selects the literal's contents |
| ScopeProperties.StartQuotePriority | extension.js:243-249 | over the characters the backward scan read: an odd count of `"` puts the start just past the nearest `"`; else an odd count of `'` just past the nearest `'`; else an odd count of backquotes just past the nearest one; with all counts even the start is StartBracket |
| ScopeProperties.EndQuotePriority | extension.js:320-326 | over the characters the forward scan read: an odd count of `"` puts the end on the first `"`; else an odd count of `'` on the first `'`; else an odd count of backquotes on the first one; with all counts even the end is EndBracket |
| ScopeProperties.ScopeEndTakesCloser | extension.js:312-318 | in "x(a)b" at offset 2 the start is 2 and the end 4, so the selection takes in the closer; the intended end is 3 |
| ScopeProperties.ScopeStartTakesOpenerAtZero | extension.js:235-241 | in "(a)" at offset 1 the start is 0, before the opener; the intended start is 1 |
| ScopeProperties.CursorOnBracket | extension.js:177-329 | both scans read the character at the cursor: on an opener the start is one past it (0 at index 0), on a closer the end is one past it (clamped) |
| Navigator.Validate | extension.js:152-157 | validation always gives a valid position, and leaves a position unchanged exactly when it is valid, which is what the `!==` comparisons observe |
| Navigator.StepColumn | extension.js:149-153 | the first phase of a step moves ahead in the walk's direction, and fails only going back from (0, 0), where both translations throw |
| Navigator.CrossLine | extension.js:155-159 | the second phase lands on column 0 of an existing line, and fails exactly when the next line in the walk's direction does not exist |
| Navigator.Advance | extension.js:149-160 | a completed step is a valid position strictly ahead in the walk's direction |
| Navigator.WordAt | extension.js:162 | the oracle's range lies on the queried line, is a maximal run, and contains the column |
| Navigator.StartPosition | extension.js:143-147 | the walk starts at the current word's end going forward or its start going back, and at the cursor when there is no word there |
| Navigator.StartPositionAsWritten | extension.js:143-145 | as written, a cursor with no word under it fails, since `currentWordRange.start` is read before the null guard in line 145 |
| Navigator.NextWordFrom | extension.js:148-163 | a word the walk selects is a maximal run on one line of the document, and extends past p in the walk's direction |
| Navigator.SelectNextWord | extension.js:139-165 | the loop's selection equals the walk NextWordFrom from the start position, including giving up when a step leaves the document |
| NavigatorProperties.ValidateIsClamp | extension.js:152-157 | validation gives the last valid position not after its argument |
| NavigatorProperties.AdvanceIsNext | extension.js:149-160 | a step reaches the neighbouring valid position in the walk's direction, and fails exactly when there is none |
| NavigatorProperties.AdvanceAtLineEdges | extension.js:149-160 | forward from a line end, the step goes to column 0 of the next line, or nowhere after the last line; back from column 0, it goes to the previous line at FarColumn clamped to the line's end, or nowhere before the first line |
| NavigatorProperties.NextWordFound | extension.js:148-163 | any word the walk selects is the oracle's answer at some valid position ahead of the start |
| NavigatorProperties.NextWordIsFirstAhead | extension.js:146-164 | the walk selects the oracle's word at the first valid position ahead that has one, with no word at any position in between; it selects nothing exactly when no position ahead has a word |
| NavigatorProperties.NextWordLiesAhead | extension.js:143-163 | starting on the facing edge of a word, or off any word, the selected word lies wholly ahead of the start |
| NavigatorProperties.SelectsAnotherWord | extension.js:139-165 | the selection is never the word under the cursor, and lies wholly past the start position |
| NavigatorProperties.CrossesToNextLine | extension.js:155-162 | from inside "abc" on the first of ["abc", "def"], the selection is "def" on the next line |
| NavigatorProperties.NothingAfterLastWord | extension.js:146-163 | for every document: with no word character from p's column to the end of its line and on no later line, the forward walk from p selects nothing |
| NavigatorProperties.CursorOffWord | extension.js:143-145 | on [" a"] at (0, 0), the code as written fails, while the intended walk from the cursor selects "a" |
| Locator.MatchesAt | extension.js:120 | the pattern at one start index, the `^` alternative or a non-word character, then MarkerThenWord; no contract of its own, proved equal to the pattern in Locator.MatchesAtIsRegex |
| Locator.MarkerIndex | extension.js:120 | the opening marker of a match starting at i stands at i (when the `^` group matched) or at i+1 |
| Locator.MarkedWord | extension.js:120 | a match encloses a maximal run of word characters, with the first marker just before it and the last just after it |
| Locator.MatchesAtIsRegex | extension.js:120 | the RunEnd-based match predicate agrees with the pattern written out group by group, in both directions |
| Locator.FirstMatch | extension.js:122 | the leftmost match at or after the given index, with no match before it; None when there is none |
| Locator.Reverse | extension.js:131 | the definition of the reversal of the prefix (same length, character j is character \|s\|-1-j); its meaning for the offsets is Locator.BackwardQueryFindsWord |
| Locator.ForwardQueryFindsWord | extension.js:121-125 | the query offset cursor + index + 2 lies inside the matched word, and the oracle there returns exactly that word |
| Locator.BackwardQueryFindsWord | extension.js:128-134 | the query offset \|prefix\| - index - 2 lies inside the word matched in the reversed prefix, and the oracle returns that word read forwards |
| Locator.SelectForward | extension.js:119-126 | selects something exactly when the text from the cursor contains a match; the selection is the word of the leftmost match, in document offsets, enclosed by the markers and starting after the cursor |
| Locator.SelectBackward | extension.js:127-136 | selects something exactly when the reversed prefix contains a match; the selection is the word of the leftmost match there, read forwards, enclosed by the markers and ending before the cursor |
| Locator.SelectBySurroundingCharacters | extension.js:112-138 | selects something exactly when both markers are given and the search in the requested direction finds a match; the selection is then the word of the leftmost match in that direction, as SelectForward or SelectBackward gives it: an enclosed word ahead of the cursor |
| Locator.ForwardExample | extension.js:119-126 | in "x <ab> y", forward from 0 with < and >, the selection is [3, 5) |
| Locator.BackwardExample | extension.js:127-136 | in "<ab>", backward from 4, the selection is [1, 3), through the empty `^` alternative |

## Left out

- The RPC connection, the command registration, `executeCommand`, `moveCursorToLine`, `selectLines` and `insertFromLine` (extension.js:7-110, 167-175). They only delegate to editor primitives.
- Assigning `editor.selection` and revealing ranges. The model returns offsets, ranges or `None` instead.
- `offsetAt` and `positionAt`. The resolver works on offsets throughout. For an empty text `ScopeEnd` is -1, an offset that `positionAt` clamps to 0; that clamp is not modelled.
- The editor's default word definition. The oracle is modelled as runs of `\w` characters (ASCII letters, digits, underscore).
- Locator.SelectBySurroundingCharacters: markers must be single ASCII characters that are neither word characters nor regular-expression metacharacters (`\ ^ $ . | ? * + ( ) [ ] { }`). A metacharacter marker changes the pattern the unescaped interpolation builds, or makes it invalid, and that is not modelled. Multi-character markers and UTF-16 surrogate pairs split by the reversal are not modelled either. Non-ASCII markers are not modelled: without the `u` flag, the case-insensitive flag upper-cases characters at or above code point 128 when comparing, so a non-ASCII letter marker such as `é` would also match its other case `É`. On ASCII markers that are not word characters, and on `\w`, the flag has no effect, so leaving it out changes nothing for the markers modelled.
- Locator.SelectBySurroundingCharacters: the oracle is applied to the flat text rather than to the line `positionAt` gives. This agrees because a line break is not a word character, so no run spans a line break.
- NavigatorProperties.NextWordIsFirstAhead: the backward direction is proved only for documents whose lines have at most 9999 characters. A backward step over a line start jumps to column 9999 of the previous line, which skips the end of a longer line. The step itself is modelled exactly.
- NavigatorProperties.AdvanceIsNext: for the same reason, it is stated for backward steps only under the same line-length bound.
- Directional symmetry and fixed-point properties of the resolvers are not proved. The source makes no such promise.

## Findings

| source | as written | input that shows it | evidently intended | confidence | as-written member | corrected member |
|---|---|---|---|---|---|---|
| extension.js:312-318 | the loop increments `index` past the unmatched closer before it exits, so the end boundary is one past the closer and the selection takes the closer in | "x(a)b", cursor offset 2: start 2, end 4, selection "a)" | end on the closer (3), selecting just the inside, as the start does for the opener and the quote override does for quotes | not executed; high | ScopeProperties.ScopeEndTakesCloser | Scope.IntendedScopeEnd |
| extension.js:235-241 | an opener at index 0 leaves `index` at -1, the same as running past the start, so the start is 0 instead of 1 | "(a)", cursor offset 1: start 0, selection "(a" | start just past the opener (1) | not executed; high | ScopeProperties.ScopeStartTakesOpenerAtZero | Scope.IntendedScopeStart |
| extension.js:143-145 | `currentWordRange.start`/`.end` is read before line 145 guards on `currentWordRange`, so a cursor off any word throws | [" a"], cursor (0, 0), forward | start the walk at the cursor, as line 145 provides | not executed; high | Navigator.StartPositionAsWritten | Navigator.StartPosition |

The navigator uses the corrected `StartPosition`, so `NavigatorProperties.CursorOffWord` shows the intended walk selecting "a". The resolver's loops keep the as-written behaviour so that they stay faithful to the code. `ScopeProperties.BracketPairScope` proves the intended inside-of-the-pair property for `IntendedScopeStart` and `IntendedScopeEnd`.
