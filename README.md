# Session engine of a German vocabulary drill

This project models the core of a browser flashcard app for German vocabulary, `script.js`, in Dafny.

- Word lists come as comma-separated unit files, one row per word: `type,gender,word,cn,forms,example`.
- The user checks units, or the "all favourites" entry, in a sidebar.
- The app builds a play list from the loaded words. It drops ignored words, and in gender mode it keeps only nouns. The list is shuffled in random order and kept in catalog order in sequential order.
- The app then asks one word at a time.
  - In spelling mode it judges the typed answer.
  - In gender mode it judges the chosen article.
- The user can mark the current word as a favourite or as ignored, and can clear all ignore marks.

The model has five modules:

- `Text` (`text.dfy`) models the JavaScript string built-ins the core uses:
  - `trim`, with the exact WhiteSpace and LineTerminator set of ECMA-262 (sections 12.2 and 12.3), which is also what `\s` matches;
  - `split` on one character;
  - `replace(/\s+/g, ' ')`;
  - `toLowerCase`.

  Two have a reference partner: `Join` for `Split`, and `Words` (the maximal runs of non-whitespace characters) for the normalisation. `trim` is characterised directly: the ensures of `TrimLeft` and `TrimRight` say what remains, and `TrimLeftDropsWs`/`TrimRightDropsWs` say that only whitespace was dropped. `toLowerCase` has no partner. It is a per-character table, and `EqualsIgnoringCaseLetterwise` and `LowerIdempotent` are stated about it.
- `Collections` (`collections.dfy`) models `filter`, `concat` and the add-or-delete toggle on a `Set`.
- `Vocab` (`vocab.dfy`) models the word records and the parse in `fetchCsv`.
  - `ParseLines`/`ParseUnit` are what the code computes.
  - `FetchCsv` is its loop, proved equal to them.
  - `ParseLinesSpec` gives an independent reference: one record per non-blank line, in order, or failure when one line is short.
- `Quiz` (`quiz.dfy`) models the two answer checks as predicates, with worked examples.
- `SessionEngine` (`session.dfy`) models the module-level state of the page (lines 10-20) as a `Session` class. Its methods are `refreshPlayList`, `nextQuestion`, `loadSelectedUnits`, the two toggles, `resetIgnored`, `switchMode`, `changeOrder`, `checkGender`, `submitSpelling` and `showResult`. A random choice is a nondeterministic `:|` choice:
  - the shuffle is any permutation of the filtered list;
  - the random draw is any index of the list.

  Every method keeps the invariant `Session.Valid`. The play list lies inside the catalog. The quiz also waits for "next" only when there is a current word, because `showResult` is reached only through the two checks, and they throw before it when there is no word (script.js:392-410).

Two behaviours of the code are worth stating outright, because a reader could expect otherwise:

- **Case of the noun.** The noun itself is compared case-sensitively (`p[1] === currentWord.word`, script.js:403), so `"Der  tisch"` is rejected for the noun `der Tisch`, while the article is compared ignoring case. `Quiz.NounExampleWordCase` proves the rejection.
- **Random-order restore.** A restore in random order keeps `currentIndex` (`if (!isRestore) currentIndex = 0;`, script.js:252). `SessionEngine.RebuildIndex` states this.

## Model

| member | source | states |
|---|---|---|
| Text.TrimLeft | script.js:224 | the result is a suffix of the input that is empty or starts with a non-whitespace character |
| Text.TrimLeftDropsWs | script.js:224 | what the left trim drops is whitespace, and nothing remains exactly when the input is all whitespace |
| Text.TrimRight | script.js:224 | the result is a prefix of the input that is empty or ends with a non-whitespace character |
| Text.TrimRightDropsWs | script.js:224 | what the right trim drops is whitespace, and nothing remains exactly when the input is all whitespace |
| Text.Trim | script.js:224 | the result has whitespace at neither end and is no longer than the input |
| Text.TrimEmpty | script.js:224 | `!line.trim()` holds exactly when the line consists only of whitespace |
| Text.TrimIdempotent | script.js:221 | trimming an already trimmed text changes nothing |
| Text.Split | script.js:225 | `split` gives at least one part, no part holds the separator, and joining the parts with the separator gives back the input |
| Text.SplitJoin | script.js:225 | splitting a joined list of separator-free parts gives back exactly those parts |
| Text.WordsOfTrim | script.js:399 | trimming does not change the words of a text |
| Text.WordsWsSuffix | script.js:399 | trailing whitespace does not change the words of a text |
| Text.WordsWsPrefix | script.js:399 | leading whitespace does not change the words of a text |
| Text.Collapse | script.js:399 | `replace(/\s+/g, ' ')`. Its partner is `Text.CollapseTrimmed`: on a trimmed text it equals the words joined by single spaces |
| Text.CollapseTrimmed | script.js:399 | on a text with whitespace at neither end, replacing each whitespace run by one space gives the words of the text joined by single spaces |
| Text.Normalize | script.js:399 | `trim().replace(/\s+/g, ' ')`. `Text.NormalizeIsJoinedWords` and `Text.NormalizedTokens` characterise it |
| Text.NormalizeIsJoinedWords | script.js:399 | `trim().replace(/\s+/g, ' ')` equals the words of the input joined by single spaces |
| Text.NormalizedTokens | script.js:399-402 | splitting the normalised input on a space gives exactly its words, or `[""]` when it has none |
| Text.WordsOfJoin | script.js:399-402 | the words of words joined with single spaces are those words |
| Text.Lower | script.js:394 | `toLowerCase` keeps the length (one character per character). `Text.EqualsIgnoringCaseLetterwise` and `Quiz.LowerIdempotent` are stated about it |
| Text.EqualsIgnoringCaseLetterwise | script.js:394 | two strings are equal after `toLowerCase` exactly when they have the same length and agree letter by letter after lower-casing |
| Collections.Filter | script.js:244-248 | a filtered list is no longer than the list |
| Collections.FilterCounts | script.js:244-248 | a filtered list holds each accepted value as often as the list does and no rejected value |
| Collections.FilterMembers | script.js:200 | a value is in the filtered list exactly when it is in the list and accepted |
| Collections.FilterIdempotent | script.js:244-248 | filtering twice with the same test is filtering once |
| Collections.FilterAppend | script.js:196-200 | filtering a concatenation filters each part |
| Collections.FilterConcat | script.js:196-200 | filtering the concatenated unit lists is concatenating the filtered lists |
| Collections.Concat | script.js:196 | `[].concat(...results)`. `Collections.ConcatCounts`, `Collections.ConcatMembers` and `Collections.ConcatPrefix` characterise it |
| Collections.ConcatPrefix | script.js:196 | concatenating the first `i + 1` lists appends list `i` to the concatenation of the first `i` |
| Collections.ConcatCounts | script.js:196 | the concatenation holds each value as often as all lists together |
| Collections.ConcatMembers | script.js:196 | a value is in the concatenation exactly when it is in one of the lists |
| Collections.Flip | script.js:329-333 | after the toggle the value is a member exactly when it was not, and no other value changes |
| Collections.FlipFlip | script.js:329-333 | toggling the same value twice restores the set |
| Vocab.MakeRecord | script.js:225-236 | the record built from one row. `Vocab.RecordOfTrimmedRow`, `Vocab.RecordIdentity` and `Vocab.RowRoundTrip` characterise it |
| Vocab.RecordOfTrimmedRow | script.js:226-236 | a row of trimmed columns becomes the record of exactly those columns, with columns past the end empty |
| Vocab.ParseLines | script.js:223-237 | the loop over data lines as the code runs it. `Vocab.ParseLinesSpec`, `Vocab.ShortRowFails` and `Vocab.RecordIdentity` characterise it |
| Vocab.ParseUnit | script.js:215-240 | one unit's fetch result as the code computes it. `Vocab.ParseUnitSpec` and `Vocab.ShortRowEmptiesUnit` characterise it |
| Vocab.ParseLinesSpec | script.js:223-237 | the parse equals the reference: one record per non-blank line, in order, when every non-blank line has four columns, and failure otherwise |
| Vocab.ParseUnitSpec | script.js:218-239 | a fetched unit skips the header and is the records of its non-blank lines, or empty when one of them is short |
| Vocab.ShortRowFails | script.js:225-233 | one non-blank line that lacks column 2 or 3 fails the whole parse, wherever it is |
| Vocab.ShortRowEmptiesUnit | script.js:225-239 | one short non-blank line after the header empties the whole unit (the thrown error is caught and `[]` returned) |
| Vocab.RecordIdentity | script.js:226-232 | every record carries the unit name and the id `book-unit-word` built from its trimmed word |
| Vocab.RowRoundTrip | script.js:225-236 | a row of at least four comma-free trimmed fields parses back to exactly those fields, with absent optional columns empty |
| Vocab.UnitWords | script.js:195 | one parse result per unit |
| Vocab.FetchCsv | script.js:215-240 | the loop returns the unit's parse: empty on a failed fetch or a short row, otherwise one record per non-blank data line |
| Vocab.FetchUnits | script.js:195-196 | the loaded catalog is the concatenation of the units' parses, in unit order |
| Quiz.GenderCorrect | script.js:394 | the article check. `Quiz.GenderIgnoresCase`, `Text.EqualsIgnoringCaseLetterwise` and `Quiz.GenderExamples` characterise it |
| Quiz.SpellingCorrect | script.js:399-406 | the spelling check. `Quiz.SpellingByWords` characterises it by the words of the input |
| Quiz.SpellingByWords | script.js:397-407 | a spelling answer is judged on its words alone. For a noun, the first word is the article ignoring case and the second is the word exactly. For any other word, the words joined by single spaces are the word |
| Quiz.SpellingIgnoresSpacing | script.js:399 | two inputs with the same words get the same verdict |
| Quiz.SpellingOfOtherWord | script.js:404-406 | for a non-noun whose word is one word, the answer is correct exactly when the input's words are that one word |
| Quiz.NounWithSpaceUnanswerable | script.js:401-403 | a noun whose stored word holds any whitespace character (a space, a tab, ...) can never be answered correctly |
| Quiz.CanonicalAccepted | script.js:401-411 | typing the answer the result line shows (`gender word` for a noun, `word` otherwise) is judged correct: for a noun whose article and word are single words, and for any other word that is its own words joined by single spaces (such as `sich freuen`) |
| Quiz.LowerIdempotent | script.js:394 | lower-casing twice changes nothing more |
| Quiz.GenderIgnoresCase | script.js:394 | the gender verdict is the same for an answer and its lower-cased form |
| Quiz.NounExampleExact | script.js:399-403 | `"der Tisch"` is accepted for the noun `der Tisch` |
| Quiz.NounExampleSpacing | script.js:399-403 | `"Der  Tisch"` (capital article, two spaces) is accepted for `der Tisch` |
| Quiz.NounExampleWordCase | script.js:399-403 | `"Der  tisch"` is rejected for `der Tisch`, because the noun is compared case-sensitively |
| Quiz.NounExampleArticle | script.js:399-403 | `"das Tisch"` is rejected for `der Tisch` |
| Quiz.OtherWordExamples | script.js:404-406 | for the verb `laufen`, `"laufen"` is accepted and `"Laufen"` is rejected |
| Quiz.GenderExamples | script.js:394 | for `der Tisch`, `"der"` and `"DER"` are accepted and `"die"` is rejected |
| SessionEngine.Playable | script.js:244-248 | the play-list filter. `SessionEngine.PlayableMembers` and `SessionEngine.PlayableIdempotent` characterise it |
| SessionEngine.PlayableMembers | script.js:244-248 | a word is in the rebuilt list exactly when it is in the catalog, not ignored, and a noun in gender mode |
| SessionEngine.ShuffledMembers | script.js:250-251 | any permutation of the filtered list, such as the shuffled play list, holds exactly those words |
| SessionEngine.PlayableIdempotent | script.js:244-248 | filtering an already filtered list with the same marks and mode changes nothing |
| SessionEngine.RebuildIndex | script.js:250-263 | the cursor after a rebuild. A non-restore gives 0. A restore in random order keeps the cursor. A restore in sequential order without stored settings keeps the cursor. With stored settings, a saved index strictly between 0 and the new length is honoured, and any other saved index (0, or past the end) gives 0 |
| SessionEngine.Slot | script.js:287-291 | the sequential draw reads a slot inside the list: the cursor itself while it is inside the list, and slot 0 once it is at or past the end |
| SessionEngine.ServedInOrder | script.js:286-292 | until the end of the list, sequential questions come from consecutive slots and the cursor counts them |
| SessionEngine.ServedSplit | script.js:286-292 | drawing `a` questions and then `b` questions is drawing `a + b` |
| SessionEngine.RoundVisitsEverySlot | script.js:286-292 | a round from the start visits every slot once, in order. The next draw wraps to slot 0, and the following rounds repeat the first |
| SessionEngine.RoundFromCursor | script.js:286-292 | a round of as many questions as the list holds, from any cursor inside it (such as a restored one), visits every slot once: from the cursor to the end, then from slot 0 up to the cursor |
| SessionEngine.SameSlotSameServed | script.js:287-291 | cursors that draw from the same slot serve the same slots from then on |
| SessionEngine.Loaded | script.js:195-207 | the catalog a load gives. `SessionEngine.FavoritesLoaded` characterises the favourites case, and `Vocab.FetchUnits` the unit case |
| SessionEngine.FavoritesLoaded | script.js:199-205 | the favourites catalog holds exactly the favourite words of all units, and the load stops exactly when there are none |
| SessionEngine.Session.RebuiltIsValid | script.js:244-254 | a rebuilt play list lies inside the catalog and holds no ignored word, and only nouns in gender mode |
| SessionEngine.Session.constructor | script.js:10-20 | the initial state: empty lists, spelling mode, random order, waiting for an answer, no word, cursor 0, no marks |
| SessionEngine.Session.NextQuestion | script.js:271-298 | an empty list changes nothing. Sequential order draws the cursor's slot (wrapping past the end to 0) and moves the cursor past it. Random order draws some word of the list and keeps the cursor. The quiz then waits for an answer, and lists, mode, order and marks are unchanged |
| SessionEngine.Session.AskSequentially | script.js:271-298 | `k` questions in a row in sequential order come from the slots `Served` predicts, each asks the word in its slot, and the cursor ends where `Advanced` says. Lists, mode, order and marks are unchanged |
| SessionEngine.Session.RefreshPlayList | script.js:243-268 | the play list becomes the filtered catalog (in catalog order when sequential, a permutation of it when random), the cursor is set by `RebuildIndex`, and a question is drawn |
| SessionEngine.Session.LoadSelectedUnits | script.js:157-212 | nothing checked, or no favourites among the loaded words, leaves the session untouched. Otherwise the catalog becomes the loaded words (only the favourites in favourites mode) and the play list is rebuilt |
| SessionEngine.Session.ToggleFav | script.js:327-336 | with a current word, its id is toggled among the favourites and nothing else changes. Without one nothing changes |
| SessionEngine.Session.ToggleIgnore | script.js:338-348 | with a current word, its id is toggled among the ignored ids and the play list is left as it is. Without one nothing changes |
| SessionEngine.Session.ResetIgnored | script.js:372-378 | unconfirmed it changes nothing. Confirmed it clears the ignore marks and reloads the selection without a restore |
| SessionEngine.Session.SwitchMode | script.js:386-391 | the mode is set, and the play list is rebuilt exactly when a refresh is asked for and the catalog is not empty |
| SessionEngine.Session.ChangeOrder | script.js:381-385 | the order is set and the play list is rebuilt without a restore |
| SessionEngine.Session.ShowResult | script.js:409-410 | called, as in the source, only with a current word: the quiz waits for "next", the invariant `Valid` is kept, and nothing else of the session changes |
| SessionEngine.Session.CheckGender | script.js:392-396 | outside the waiting-for-answer state nothing happens. Otherwise the verdict is the case-insensitive article comparison and the quiz waits for "next" |
| SessionEngine.Session.SubmitSpelling | script.js:397-408 | outside the waiting-for-answer state nothing happens. Otherwise the verdict is the spelling check of the typed input and the quiz waits for "next" |

## Left out

- The page itself is left out: the DOM and the `els` table, `renderSidebar`, `toggleSidebar`, `updateBtnStates`, `addChar` and the Enter-key handler. They only display state or call the modelled operations.
- Persistence is left out: `localStorage` and JSON (`loadBasicSettings`, `saveState`, `saveIgnored`, `saveFavorites`, `restoreSidebarSelection`, `initApp`). Instead, the saved cursor is the `saved: Option<nat>` parameter of `RefreshPlayList`.
  - `None` means no stored settings.
  - A stored record without an index is `Some(0)`.
  - A non-integer or negative stored index is not modelled.
- `fetch` and `async` are left out. Each unit's fetch outcome is a parameter (`Fetched.response`, with `None` for a network error or a status that is not ok). No ordering assumption is needed: `Promise.all` (script.js:195) returns the results in the order of `promises`, whatever order the fetches settle in, and `FetchUnits` concatenates them in that order.
- Which units the checkboxes and `configData` name is left out: `Selection` carries the fetched units. That includes every unit of the configuration in favourites mode.
- The distribution of `Math.random` is left out. The shuffle is any permutation and the random draw is any index, so no uniformity or fairness is stated.
- `alert` and `confirm` are left out. `confirm` is the `confirmed` parameter of `ResetIgnored`, and the alerts have no state effect.
- `TYPE_MAP`, the display texts and the HTML of the result line are left out. `Quiz.CanonicalAnswer` keeps only the answer text that the result line shows.
- `toLowerCase` beyond Basic Latin and Latin-1 is left out, and so is UTF-16: characters are Dafny `char`s.
- SessionEngine.Session.CheckGender: with no current word while waiting for an answer, the source throws a `TypeError` before `showResult`. The model returns `None` and changes nothing, which is the state the throw leaves.
- SessionEngine.Session.SubmitSpelling: the same, for the same reason.
- Concurrency is left out: a second load that starts before the first one's fetches settle is not modelled. Methods run one at a time.
