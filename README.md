# Chapter editor of ChapterSmith AI, in Dafny

ChapterSmith AI helps an author turn an outline into a manuscript, one chapter
at a time. In the browser, the chapter editor (`src/components/ChapterGenerator.jsx`)
lets the author do four things:

- pick a chapter number;
- optionally override the point of view (POV);
- *prepare* a chapter, which asks the server for a generation plan;
- paste the generated text and *save* it.

While the author types, the editor shows a live word count. The count is red
when it lies outside 1400–1800 words.

This project models that editor:

- `words.dfy`, module `Words`: the word counter
  `content.split(/\s+/).filter(Boolean).length`. It is modelled as a faithful
  regular-expression split (`Split`), a filter (`NonEmpty`) and a length
  (`WordCount`). The count is proved equal to an independent definition: the
  number of maximal runs of non-whitespace characters. The split itself is
  pinned down: its non-empty pieces are exactly those runs, in text order,
  and it is the only piece list of its shape whose single-space join is the
  text with whitespace runs squeezed. Its behaviour under concatenation and
  surrounding whitespace is also proved. Whitespace is the
  ECMAScript `\s` set, WhiteSpace plus LineTerminator code points.
- `decimal.dfy`, module `Decimal`: how the template literal renders the word
  count the server returns in the "Saved. Word count: N" message. It comes
  with a parse-back round trip.
- `editor.dfy`, module `Editor`: the editor state (`EditorState`) and its
  transitions as pure functions, plus the component itself as the class
  `ChapterEditor`. The class has one field per `useState` and one method per
  event handler. Each method is tied to a transition function.
  `prepare` and `save` are asynchronous. Each is split at its `await` into a
  Begin and an End step, so the state while a request is in flight can be
  stated (for example, `saving` is true then). The server's replies are
  inputs (`PrepareOutcome`, `SaveOutcome`). The request bodies the editor
  would send are outputs (`PrepareRequest`, `SaveRequest`).

Where the model follows the code rather than the surrounding text:

- The rules panel (`src/App.jsx:97`) says a chapter must be "strictly between
  1400 and 1800" words. The flag at line 104 uses inclusive bounds, so 1400
  and 1800 are in range. The model follows the code (`RangeBoundsInclusive`).
- The save guard at line 40 tests only for the empty string. So
  whitespace-only content, which has no words, is still sent to the server
  (`WhitespaceOnlyContentIsSent`). Rejecting it is left to the server, which
  is not part of this model.
- The flag never blocks a save.
- `save` does not check the reply's HTTP status. This is a finding, below:
  `ChapterEditor.EndSave` uses the corrected reading, and the as-written
  reading is kept beside it as `SaveMessageAsWritten`.

## Model

| member | source | states |
|---|---|---|
| `Words.Split` | src/components/ChapterGenerator.jsx:59 | `split(/\s+/)` always yields at least one piece; no piece holds whitespace; only the first and last piece may be empty; the first piece is empty exactly when the text is empty or starts with whitespace |
| `Words.NonEmpty` | src/components/ChapterGenerator.jsx:59 | `filter(Boolean)` keeps only non-empty pieces, each taken from the input, and never more than there were |
| `Words.NonEmptyMultiset` | src/components/ChapterGenerator.jsx:59 | the kept pieces are exactly the non-empty input pieces, each as often as it occurs: the multiset of the input with every empty piece removed |
| `Words.NonEmptyKeepsWords` | src/components/ChapterGenerator.jsx:59 | every non-empty input piece is kept |
| `Words.NonEmptyAppend` | src/components/ChapterGenerator.jsx:59 | filtering distributes over concatenation, so the kept pieces stay in their input order |
| `Words.SplitJoin` | src/components/ChapterGenerator.jsx:59 | splitting pieces joined by single spaces gives back exactly those pieces, whenever they are of the shape a split produces |
| `Words.SplitSingle` | src/components/ChapterGenerator.jsx:59 | the split is a single piece exactly when the text holds no whitespace |
| `Words.SplitLast` | src/components/ChapterGenerator.jsx:59 | the last piece is empty exactly when the text is empty or ends with whitespace |
| `Words.JoinSplit` | src/components/ChapterGenerator.jsx:59 | joining the pieces with single spaces gives the text with every whitespace run squeezed to one space |
| `Words.SplitUnique` | src/components/ChapterGenerator.jsx:59 | any piece list of the shape a split produces whose single-space join is the squeezed text is the split itself, so the split is fully determined |
| `Words.PieceIsMaximalRun` | src/components/ChapterGenerator.jsx:59 | every non-empty piece is a maximal run of non-whitespace characters of the text |
| `Words.MaximalRunIsPiece` | src/components/ChapterGenerator.jsx:59 | every maximal run of non-whitespace characters is a piece |
| `Words.PiecesInOrder` | src/components/ChapterGenerator.jsx:59 | of two non-empty pieces, the later one is a maximal run that starts after the earlier one ends |
| `Words.WordCountCons` | src/components/ChapterGenerator.jsx:59 | a leading character adds one to the count exactly when it is a non-whitespace character followed by whitespace or by nothing |
| `Words.WordCountIsRunCount` | src/components/ChapterGenerator.jsx:59 | the word count equals the number of maximal runs of non-whitespace characters, counted by their last characters |
| `Words.MaximalRunEndsAtRunEnd` | src/components/ChapterGenerator.jsx:59 | every maximal non-whitespace run ends at a run end |
| `Words.RunEndClosesMaximalRun` | src/components/ChapterGenerator.jsx:59 | every run end closes a maximal run |
| `Words.MaximalRunUnique` | src/components/ChapterGenerator.jsx:59 | two maximal runs that end at the same place are the same run, so run ends and maximal runs correspond one to one |
| `Words.WordCountZeroIff` | src/components/ChapterGenerator.jsx:59 | the count is 0 exactly when the text is empty or all whitespace |
| `Words.LeadingSpaceIgnored` | src/components/ChapterGenerator.jsx:59 | leading whitespace does not change the count |
| `Words.TrailingSpaceIgnored` | src/components/ChapterGenerator.jsx:59 | trailing whitespace does not change the count |
| `Words.JoinedBySpace` | src/components/ChapterGenerator.jsx:59 | two texts joined by any non-empty whitespace run count the sum of their words |
| `Words.JoinedBySingleSpace` | src/components/ChapterGenerator.jsx:59 | `wc(a + " " + b) == wc(a) + wc(b)` for all `a`, `b` |
| `Words.SpaceRunLengthIgnored` | src/components/ChapterGenerator.jsx:59 | the length of a whitespace run between two texts does not change the count |
| `Decimal.DecimalString` | src/components/ChapterGenerator.jsx:50 | `${n}` renders a non-negative count as digits with no leading zero |
| `Decimal.DecimalLength` | src/components/ChapterGenerator.jsx:50 | a count below 10^k renders in at most k digits |
| `Decimal.SafeCountIsPlainNumeral` | src/components/ChapterGenerator.jsx:50 | every count a JSON reply carries exactly (at most 2^53 - 1) is below 10^21, where JavaScript still writes plain digits, and renders in at most 16 of them |
| `Decimal.DecimalRoundTrip` | src/components/ChapterGenerator.jsx:50 | reading the rendered digits back gives the number |
| `Decimal.DecimalInjective` | src/components/ChapterGenerator.jsx:50 | different counts render differently |
| `Editor.SavedMessageShowsCount` | src/components/ChapterGenerator.jsx:50 | the "Saved. Word count: N" message determines N |
| `Editor.OutOfRange` | src/components/ChapterGenerator.jsx:104 | the count is shown as in range exactly when 1400 <= count <= 1800 |
| `Editor.RangeBoundsInclusive` | src/components/ChapterGenerator.jsx:104 | 1400 and 1800 are in range; 1399 and 1801 are not |
| `Editor.BlankTextFlagged` | src/components/ChapterGenerator.jsx:104 | whitespace-only content counts 0 words and is flagged |
| `Editor.ChapterNumbers` | src/components/ChapterGenerator.jsx:64-66 | the buttons offer the chapter numbers 1 to `chapter_count`, each once, in increasing order |
| `Editor.OverridePayload` | src/components/ChapterGenerator.jsx:28 | the `overridePOV` fallback to null sends null exactly for Auto; otherwise it sends the option's value, `female` or `male` |
| `Editor.OverridePayloadInjective` | src/components/ChapterGenerator.jsx:71-75 | the three options give three different payloads |
| `Editor.PovUsed` | src/components/ChapterGenerator.jsx:47 | `pov_used` is absent exactly when no plan exists, and is the plan's `resolved_pov` otherwise |
| `Editor.PrepareOutcomes` | src/components/ChapterGenerator.jsx:22-37 | a prepare never touches content, selection, override or `saving`. A plan becomes the current plan and its title the chapter title. A rejected reply leaves no plan and sets "Failed to prepare generation". An unusable reply leaves the reset state |
| `Editor.PrepareIdempotent` | src/components/ChapterGenerator.jsx:22-37 | preparing twice with the same reply ends in the same state as preparing once |
| `Editor.PrepareRequestPayload` | src/components/ChapterGenerator.jsx:28 | the prepare request carries the selected chapter, and its override is null exactly when the choice is Auto |
| `Editor.EmptyContentBlocksSave` | src/components/ChapterGenerator.jsx:40 | saving empty content sends nothing and changes only the message, to "Please paste or write…" |
| `Editor.WhitespaceOnlyContentIsSent` | src/components/ChapterGenerator.jsx:40 | whitespace-only content counts 0 words, is flagged, and is still sent |
| `Editor.SaveRequestPayload` | src/components/ChapterGenerator.jsx:40-48 | any non-empty content is sent whatever its word count. The request holds the selected chapter, the title, the content and the plan's POV, absent when there is no plan |
| `Editor.SaveCycle` | src/components/ChapterGenerator.jsx:39-57 | a save of non-empty content raises `saving` and clears the message while in flight. Afterwards `saving` is false whatever the outcome, and only the message differs from the state before |
| `Editor.SavedOnlyWhenAccepted` | src/components/ChapterGenerator.jsx:49-53 | with the reply's status checked, the message reads "Saved. …" exactly when the server accepted the save |
| `Editor.RejectedSaveReportedAsSaved` | src/components/ChapterGenerator.jsx:49-50 | as written, a reply with an error status and a JSON body without `word_count` shows "Saved. Word count: undefined" |
| `Editor.SaveMessagesAgreeWhenAccepted` | src/components/ChapterGenerator.jsx:49-53 | the as-written and the corrected messages differ only for replies with an error status |
| `Editor.ChapterEditor.constructor` | src/components/ChapterGenerator.jsx:6-12 | the editor starts on chapter 1 with no plan, not saving, empty content, title and message, and the override on Auto |
| `Editor.ChapterEditor.SelectChapter` | src/components/ChapterGenerator.jsx:64-66 | a chapter button selects its number and changes nothing else |
| `Editor.ChapterEditor.ChooseOverride` | src/components/ChapterGenerator.jsx:71 | picking an override option changes only the override |
| `Editor.ChapterEditor.EditTitle` | src/components/ChapterGenerator.jsx:101 | editing the title changes only the title |
| `Editor.ChapterEditor.EditContent` | src/components/ChapterGenerator.jsx:102 | editing the content changes only the content; the shown count is the new content's word count |
| `Editor.ChapterEditor.BeginPrepare` | src/components/ChapterGenerator.jsx:22-29 | clears message and plan before the request; returns the request for the selected chapter and override, whose number is 1 or one of the chapter buttons' numbers |
| `Editor.ChapterEditor.EndPrepare` | src/components/ChapterGenerator.jsx:30-36 | applies the reply as `AfterPrepareEnd` says |
| `Editor.ChapterEditor.BeginSave` | src/components/ChapterGenerator.jsx:39-48 | only callable while not saving (the button is disabled). Empty content sets the message and sends nothing. Otherwise it raises `saving`, clears the message and returns the request. A request is sent exactly when `saving` is raised, and its number is 1 or one of the chapter buttons' numbers |
| `Editor.ChapterEditor.EndSave` | src/components/ChapterGenerator.jsx:49-56 | sets the outcome's message (status checked) and lowers `saving` |

## Findings

| source | as written | input that shows it | evidently intended | confidence | as-written member | corrected member |
|---|---|---|---|---|---|---|
| src/components/ChapterGenerator.jsx:49-50 | `save` decodes the reply and shows "Saved. Word count: …" without checking `res.ok`. `prepare` does check it, at line 30 | the server answers the save with an error status and a JSON body without `word_count`, such as `{"detail": "Not Found"}`; the editor shows "Saved. Word count: undefined" | a reply that is not `ok` is reported as "Save failed" | medium; not executed | `Editor.SaveMessageAsWritten`, shown by `Editor.RejectedSaveReportedAsSaved` | `Editor.SaveMessage`, proved by `Editor.SavedOnlyWhenAccepted`, used by `Editor.ChapterEditor.EndSave` |

## Left out

- HTTP and JSON: `fetch`, `res.json()` and the `baseUrl` fallback (lines 4, 14-20, 25-34, 44-49). Replies are inputs to the End steps.
- The saved-chapter list and its refresh (`fetchChapters`, lines 14-20 and 51, and its rendering at lines 112-124): they only display what the server stores.
- Overlapping requests, for example a second `prepare` started before the first returns. React's batching of state updates is also left out. The model is sequential.
- A reply whose fields are missing or of the wrong type, such as a plan without `chapter_title` or a non-numeric `word_count`. `Plan` carries strings, and `word_count` is either a whole number from 0 to 2^53 - 1 (`SafeCount`) or absent (rendered "undefined").
- The rendering of plan, rules and prompt text (lines 83-98) and all styling.
- Everything the server does: POV resolution (including the dual-POV alternation that `src/components/POVRules.jsx` only describes), the prompt text, the server-side word count and validation, project creation and deletion, and manuscript export. None of this code is part of this model.
- `src/App.jsx` and `src/components/ProjectForm.jsx`: form state, the `confirm` dialog, the Blob download and the `manuscript.md` filename fallback. These are browser plumbing.
- Decimal.DecimalString: models `${n}` for whole numbers only. Exponent notation, which JavaScript uses from 10^21 on, and the rounding of JSON numbers above 2^53 - 1 are not modelled. The editor only passes it a `SafeCount`, for which the plain numeral is what JavaScript prints (`SafeCountIsPlainNumeral`).
- Unicode: JavaScript strings are UTF-16, while Dafny strings here are sequences of Unicode scalar values. Every `\s` code point lies in the Basic Multilingual Plane, so the count is the same.
