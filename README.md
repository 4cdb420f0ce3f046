# TalkLift-AI core, modelled in Dafny

TalkLift-AI is a speaking coach. The user records speech, which is transcribed. The transcript is then sent to a language model in one of three modes: grammar correction, a professional rewrite or a casual rewrite. The results can be saved to a "Learning Journey" history, discussed in a chat panel, and exported as a report. This project models the logic inside that application and proves properties of it:

- **Correction highlighter** (`highlight.dfy`, `span_matcher.dfy`, `escape.dfy`). It covers:
  - which claimed edits count;
  - the stable longest-first sort of their snippets;
  - the word-bounded, case-insensitive search that `String.prototype.split` runs with the alternation of the snippets;
  - how each resulting part is tagged.

  The search is a literal left-to-right scanner. It is proved lossless, ordered, free of misses, unique, and longest-first at each match.
- **Transcription screen** (`transcription.dfy`): a class with the screen's state. Its methods are `saveSession`, `handleAction` and the chat toggle; a function gives the report input.
- **History list** (`history.dfy`): a class holding the view, the cloud rows and the local-storage list. Its methods are the merge on load, the delete routed by the id's shape, and the expand toggle. Pure functions cover the snake_case/camelCase field accessors and the report input.
- **Analysis endpoint** (`analyze_route.dfy`): the order of the request checks, the prompt for each mode, the removal of code fences from the model's reply, and the parse-failure answer.
- **Chat endpoint** (`chat_route.dfy`) and **chat panel** (`chat_panel.dfy`). The endpoint builds the priming turns, the history and the last message. The panel is a class whose message log only grows.
- **Date formatting** (`pretty_date.dfy`): the ordinal suffix with JavaScript's truncating `%`, and the fallback for invalid dates.
- **Shared pieces.** `js_text.dfy` holds the JavaScript semantics the model relies on: truthiness, `||`, ASCII `toLowerCase`, `trim`, and a global literal `replace`. `analysis.dfy` holds the shared records. `flows.dfy` holds properties that cross components.

Some behaviour is outside the model and becomes parameters:
- the network, the language model, `JSON.parse`, the cloud table and the clock;
- the session lookup and `request.json()`.

A call that may throw is an `Outcome` (`Returned(value)` or `Threw(message)`). `JSON.parse` is a function to `Option`. Each React handler is one atomic transition.

## Model

| member | source | states |
|---|---|---|
| JsText.LowerStrFacts | components/TranscriptionView.tsx:220 | after `toLowerCase` no upper-case letter is left; folding twice is folding once; a string is unchanged exactly when it has no upper-case letter |
| JsText.TrimStart | app/api/analyze/route.ts:86 | the result is a suffix of the input; everything dropped is white space and the result does not start with white space |
| JsText.TrimEnd | app/api/analyze/route.ts:86 | the result is a prefix of the input; everything dropped is white space and the result does not end with white space |
| JsText.BlankIffAllSpace | components/ChatInterface.tsx:32 | `!input.trim()` holds exactly when every character of the input is white space |
| JsText.TrimIdempotent | app/api/analyze/route.ts:86 | trimming twice is trimming once |
| JsText.RemoveAllLeftmost | app/api/analyze/route.ts:86 | the text before the leftmost occurrence is kept verbatim, that occurrence is dropped, and the removal resumes right after it; with `RemoveAllAbsent` this determines the result for every text |
| JsText.RemoveAllAbsent | app/api/analyze/route.ts:86 | removing a literal that does not occur leaves the text unchanged |
| SpanMatcher.FirstMatch | components/TranscriptionView.tsx:228 | the alternative chosen at a position matches there with `\b` on both sides, no earlier alternative matches there, and there is none exactly when no alternative matches |
| SpanMatcher.LongestWins | components/TranscriptionView.tsx:223-228 | with alternatives longest first, any alternative that matches at a position is no longer than the one chosen |
| SpanMatcher.Scan | components/TranscriptionView.tsx:228-229 | the search's matches are in order, do not overlap, and lie inside the text |
| SpanMatcher.ScanHits | components/TranscriptionView.tsx:228 | every reported match is non-empty and is exactly what the pattern matches at its start |
| SpanMatcher.ScanMissesNothing | components/TranscriptionView.tsx:228 | no position left outside every match has a match of its own |
| SpanMatcher.ScanMeetsSpec | components/TranscriptionView.tsx:228-229 | the search meets its specification: ordered, made of true matches, missing none |
| SpanMatcher.ScanSpecUnique | components/TranscriptionView.tsx:228-229 | any sequence of matches meeting that specification is the search's result |
| SpanMatcher.Cut | components/TranscriptionView.tsx:229 | `split` with one capturing group gives two parts per match plus one |
| SpanMatcher.SplitLossless | components/TranscriptionView.tsx:229 | the parts join back to exactly the text: nothing is dropped, reordered or re-cased |
| SpanMatcher.SplitMatch | components/TranscriptionView.tsx:228-229 | each odd-numbered part is a slice of the text between word boundaries, and it equals, ignoring case, the first alternative that matches there |
| SpanMatcher.SplitLongestWins | components/TranscriptionView.tsx:223-229 | no alternative that matches where a captured part starts is longer than that part |
| SpanMatcher.SplitSlices | components/TranscriptionView.tsx:229 | every part is a contiguous slice of the text |
| SpanMatcher.SplitWithoutMatches | components/TranscriptionView.tsx:229 | with no match anywhere, the text comes back as a single part |
| Highlight.RealEditsMembers | components/TranscriptionView.tsx:220 | the counted edits are exactly the edits whose sides differ beyond letter case; none is counted exactly when all sides agree ignoring case |
| Highlight.AnalysisEditsMembers | components/TranscriptionView.tsx:273-275 | the listed edits are exactly those whose sides differ after lower-casing and trimming |
| Highlight.AnalysisEditsAppend | components/TranscriptionView.tsx:273-283 | the analysis filter distributes over concatenation, so the list keeps input order and lists each kept occurrence once, duplicates included |
| Highlight.RealEditsIdempotent | components/TranscriptionView.tsx:247 | filtering the counted edits again changes nothing |
| Highlight.AnalysisRefinesReal | components/TranscriptionView.tsx:273-275 | the analysis list is the highlight filter followed by the trimmed filter |
| Highlight.FiltersDiffer | components/TranscriptionView.tsx:220 | the filters differ: an edit that only adds a trailing space is highlighted but not listed |
| Highlight.InsertByLength | components/TranscriptionView.tsx:224 | insertion adds exactly the one edit (multiset) |
| Highlight.SortByLength | components/TranscriptionView.tsx:224 | the sort is a permutation of its input |
| Highlight.SortIsSorted | components/TranscriptionView.tsx:224 | the sorted edits have snippets of non-increasing length |
| Highlight.SortIsStable | components/TranscriptionView.tsx:251 | for every length, the edits of that length keep their input order |
| Highlight.PassNeedlesLongestFirst | components/TranscriptionView.tsx:223-226 | the alternatives of the pattern are ordered longest first |
| Highlight.HighlightPass | components/TranscriptionView.tsx:218-234 | one highlight pass gives an odd number of runs: plain text, then alternately an underlined match and the plain text after it; its content is stated by `HighlightLossless`, `HighlightTags`, `MatchesAreHighlighted` and `LongestNeedleWins` |
| Highlight.HighlightLossless | components/TranscriptionView.tsx:229 | the runs of a pass join back to exactly the text |
| Highlight.HighlightTags | components/TranscriptionView.tsx:230-233 | a run is underlined exactly when some counted edit's snippet equals it, ignoring case |
| Highlight.NoRealEditsPlain | components/TranscriptionView.tsx:221 | with every edit a case-only no-op (or none), the pass returns the whole text, not underlined |
| Highlight.NoOpEditsIgnored | components/TranscriptionView.tsx:247-248 | case-only edits play no part: the pass over all edits equals the pass over the counted ones |
| Highlight.MatchesAreHighlighted | components/TranscriptionView.tsx:255-260 | every match of the pattern becomes an underlined run of exactly the matched slice, bracketed by word boundaries |
| Highlight.LongestNeedleWins | components/TranscriptionView.tsx:223-228 | at each match, no counted edit whose snippet also matches there is longer than the underlined text |
| Highlight.AbsentSnippetHighlightsNothing | components/TranscriptionView.tsx:230-233 | a snippet absent from the text (ignoring case) equals no run |
| Highlight.NothingOccursNothingHighlighted | components/TranscriptionView.tsx:257-260 | when no counted snippet occurs in the text, no run is underlined |
| Highlight.PayOutFirst | components/TranscriptionView.tsx:223-233 | edits for "pay" and then "pay out" underline "we pay out" as the plain run "we ", the underlined run "pay out" and an empty plain run |
| Escape.EscapeAsWritten | components/TranscriptionView.tsx:225 | the escaping as written never shortens a snippet; `AsWrittenNeedsClosingBracket` and `EscapeAsWrittenMissesLoneDot` state what it actually rewrites |
| Escape.Escape | components/TranscriptionView.tsx:225 | the intended escaping at most doubles a snippet's length; `EscapeIsLiteral` and `EscapeRoundTrip` state that it yields a literal pattern for exactly the snippet |
| Escape.EscapeIsLiteral | components/TranscriptionView.tsx:225 | the intended escaping yields a pattern in which every metacharacter is escaped |
| Escape.EscapeRoundTrip | components/TranscriptionView.tsx:252 | the escaped pattern stands for exactly the snippet |
| Escape.PlainSnippetsAgree | components/TranscriptionView.tsx:225 | on snippets without metacharacters, the escaping as written and the intended one both leave the snippet alone |
| Escape.AsWrittenNeedsClosingBracket | components/TranscriptionView.tsx:252 | as written, the escaping changes nothing unless the snippet contains a backslash followed by `]` |
| Escape.EscapeAsWrittenMissesLoneDot | components/TranscriptionView.tsx:225 | as written, "e.g." reaches the pattern unescaped and is not literal; the intended escaping quotes both dots |
| Transcription.ActionName | components/TranscriptionView.tsx:90 | each button sends one of "grammar", "improve" or "casual" |
| Transcription.ActionNamesDistinct | components/TranscriptionView.tsx:83-96 | distinct buttons send distinct modes and show distinct panels |
| Transcription.SavedFields | components/TranscriptionView.tsx:59-65 | the saved row always carries the transcript; it carries a version exactly when that result exists and has that text, and then it is that text |
| Transcription.TranscriptionView.constructor | components/TranscriptionView.tsx:39-44 | the screen starts idle, not loading, not saved, with no results |
| Transcription.TranscriptionView.SaveSession | components/TranscriptionView.tsx:47-81 | without a session nothing is inserted and sign-in is requested (or the login alert shown); otherwise the row is inserted for the user; `isSaved` becomes true only on an insert without error; the results are untouched |
| Transcription.TranscriptionView.HandleAction | components/TranscriptionView.tsx:83-103 | the request carries the transcript and the action's mode; a returned object becomes that action's result, a throw keeps it and alerts; the other results are untouched; loading ends on every path |
| Transcription.TranscriptionView.ToggleChat | components/TranscriptionView.tsx:166 | the chat button opens the chat panel, or returns to idle when it is open |
| Transcription.TranscriptionView.Report | components/TranscriptionView.tsx:105-113 | the report has the transcript and the whole grammar result; each tone text is present exactly when truthy; the date is the formatted current time |
| History.Read | components/HistoryList.tsx:97 | a field reads as the snake_case value when it is truthy, otherwise as the camelCase value |
| History.ReadTruthy | components/HistoryList.tsx:131 | a section is shown exactly when either naming holds a non-empty text |
| History.ReadSingleNaming | components/HistoryList.tsx:126 | an entry written under one naming only reads back that naming's texts |
| History.ItemReport | components/HistoryList.tsx:171-180 | the report has the transcript or ""; a grammar section exactly when either grammar field is non-empty, then with no mistakes; each tone text exactly when truthy; the stored date unchanged |
| History.WithoutIdMembers | components/HistoryList.tsx:64 | deleting removes every entry with the id and keeps all others |
| History.WithoutIdAppend | components/HistoryList.tsx:64 | deletion distributes over concatenation, so order is kept |
| History.WithoutAbsentId | components/HistoryList.tsx:64-66 | deleting an id that is not present changes nothing |
| History.WithoutIdIdempotent | components/HistoryList.tsx:64 | deleting the same id twice is deleting it once |
| History.LocalShapedMembers | components/HistoryList.tsx:65 | local storage receives exactly the entries whose id has no '-'; a cloud-shaped id is never written locally |
| History.LocalShapedAppend | components/HistoryList.tsx:65 | the local filter distributes over concatenation, so view order is kept |
| History.LocalShapedSorts | components/HistoryList.tsx:65 | the local filter keeps a list of local entries whole and drops a list of cloud entries entirely |
| History.DeleteKeepsLocalEntries | components/HistoryList.tsx:49-65 | with cloud ids carrying '-' and local ids not, deleting from the merged view writes back the local entries minus the id |
| History.HistoryList.constructor | components/HistoryList.tsx:25-26 | the list starts empty with nothing expanded |
| History.HistoryList.LocalList | components/HistoryList.tsx:46 | a missing local-storage key reads as the empty list |
| History.HistoryList.LoadHistory | components/HistoryList.tsx:29-50 | the view is the cloud rows (only when signed in and the query succeeded) followed by the local entries |
| History.HistoryList.DeleteItem | components/HistoryList.tsx:56-67 | the cloud is asked exactly when the id contains '-'; the view loses every entry with the id; local storage becomes the view's entries without '-' |
| History.HistoryList.ToggleExpanded | components/HistoryList.tsx:89 | clicking an entry expands it, or collapses it when it is already expanded |
| History.LoadThenDelete | components/HistoryList.tsx:29-67 | loading while signed in and then deleting leaves local storage with the old local entries minus the id |
| AnalyzeRoute.Failure | app/api/analyze/route.ts:93-95 | the outer catch answers 500 with the error's message, or "Error processing text" when the message is empty |
| AnalyzeRoute.PromptHead | app/api/analyze/route.ts:23-79 | a prompt exists exactly for the modes grammar, improve and casual |
| AnalyzeRoute.PromptEmbedsText | app/api/analyze/route.ts:23-76 | every prompt ends with the text verbatim followed by a closing quote |
| AnalyzeRoute.PromptsDiffer | app/api/analyze/route.ts:24-77 | the three modes give three different prompts for the same text |
| AnalyzeRoute.PlanFor | app/api/analyze/route.ts:10-79 | checks run in source order: missing or empty text gives 400, then a missing key gives 500, then an unknown mode gives 400; otherwise the mode's prompt is sent |
| AnalyzeRoute.Clean | app/api/analyze/route.ts:86 | the cleaned reply is never longer than the reply; `CleanHasNoFence`, `CleanKeepsBareReply`, `CleanIdempotent` and `CleanUnwrapsFencedJson` state what it keeps and removes |
| AnalyzeRoute.FenceRemovalComplete | app/api/analyze/route.ts:86 | after every "```" is removed, none is left |
| AnalyzeRoute.CleanHasNoFence | app/api/analyze/route.ts:86 | the cleaned reply contains no "```" |
| AnalyzeRoute.CleanKeepsBareReply | app/api/analyze/route.ts:86 | a reply without fences is only trimmed |
| AnalyzeRoute.CleanIdempotent | app/api/analyze/route.ts:86 | cleaning twice is cleaning once |
| AnalyzeRoute.CleanUnwrapsFencedJson | app/api/analyze/route.ts:86 | "```json" + object + "```" cleans to the trimmed object |
| AnalyzeRoute.Finish | app/api/analyze/route.ts:81-91 | the answer is 200 exactly when the model replied and the cleaned reply parses, and then it is the parsed object; a parse failure gives the fixed 500 with no partial result; a thrown call goes to the outer catch |
| AnalyzeRoute.Post | app/api/analyze/route.ts:6-97 | the whole handler: early answers, or the model's reply finished as above; the status is 200, 400 or 500, and it is non-200 exactly when the body is an error |
| AnalyzeRoute.RejectionsSkipModel | app/api/analyze/route.ts:8-79 | when the handler answers before the model call, the model plays no part in the answer |
| AnalyzeRoute.NoTextBeforeKey | app/api/analyze/route.ts:10-12 | missing or empty text gives 400 "No text provided" whatever the key and the mode |
| AnalyzeRoute.UnknownModeRejected | app/api/analyze/route.ts:77-78 | with text and key present, an unknown mode gives 400 "Invalid mode" whatever the model would say |
| ChatRoute.Failure | app/api/chat/route.ts:49-51 | the outer catch answers 500 with the error's message, or "Error processing chat" when the message is empty |
| ChatRoute.Priming | app/api/chat/route.ts:19-30 | the first priming turn is a user turn that quotes the context verbatim |
| ChatRoute.RoleOf | app/api/chat/route.ts:36 | role "user" maps to "user" and any other role to "model" |
| ChatRoute.HistoryShape | app/api/chat/route.ts:18-39 | for n ≥ 1 messages the history has n + 1 turns: the two priming turns, then every message but the last, in order, with the role mapped and the content copied |
| ChatRoute.HistoryOfNoMessages | app/api/chat/route.ts:18-39 | without messages the history is the two priming turns |
| ChatRoute.LastMessageNotInHistory | app/api/chat/route.ts:35-43 | the history does not depend on the last message, which is sent on its own |
| ChatRoute.PlanFor | app/api/chat/route.ts:10-43 | missing messages or an empty context gives 400; an empty message list fails with the TypeError's message; otherwise the last message's content is sent with the history |
| ChatRoute.Post | app/api/chat/route.ts:6-53 | the whole handler: early answers, or the model's reply as `{ reply }`; it is 200 exactly when the body is a reply |
| ChatRoute.EmptyMessagesFail | app/api/chat/route.ts:42 | an empty message list yields 500 with the TypeError's message before the model is asked |
| ChatRoute.MissingFieldsSkipModel | app/api/chat/route.ts:10-12 | a missing field yields 400 "Missing required fields" whatever the model would say |
| ChatPanel.Followup | components/ChatInterface.tsx:51-60 | a truthy reply appends it; otherwise a truthy error appends "Error: " + error; otherwise nothing; a throw appends the apology; always at most one assistant message |
| ChatPanel.ChatInterface.constructor | components/ChatInterface.tsx:20-22 | the panel starts with no messages, empty input, not loading |
| ChatPanel.ChatInterface.SetInput | components/ChatInterface.tsx:128 | typing replaces the input and nothing else |
| ChatPanel.ChatInterface.HandleSend | components/ChatInterface.tsx:31-64 | blank input changes nothing and sends nothing; otherwise the untrimmed input is appended as a user message, the input is cleared, the prior messages plus the new one are posted with the context, the follow-up is appended, and loading ends; messages only grow |
| PrettyDate.JsRem10 | lib/utils.ts:13 | `d % 10` truncates toward zero: the remainder has the dividend's sign and differs from it by a multiple of 10 |
| PrettyDate.Suffix | lib/utils.ts:11-19 | the suffix is one of st, nd, rd, th, and it is "th" for 4 to 20 |
| PrettyDate.SuffixIsEnglishForDays | lib/utils.ts:11-19 | for every day of a month (1 to 31) the suffix is the English ordinal suffix |
| PrettyDate.SuffixDiffersBeyondDays | lib/utils.ts:12-14 | beyond the days of a month the rule is not the English one: 111 gets "st" |
| PrettyDate.SuffixExamples | lib/utils.ts:12-17 | 1, 21 and 31 get st; 2 and 22 get nd; 3 and 23 get rd; 11, 12 and 13 get th |
| PrettyDate.ParseNatToString | lib/utils.ts:21 | the decimal digits of a number read back to the number |
| PrettyDate.FormatPrettyDate | lib/utils.ts:1-25 | an invalid date or a thrown error gives the input string back unchanged |
| PrettyDate.FormattedDayReadsBack | lib/utils.ts:21 | a formatted date starts with the day's digits, unpadded (no leading zero), which read back to the day, followed at once by the day's English suffix and then by " month year, time" |
| Flows.SavedRowReadsBack | components/HistoryList.tsx:171-179 | a row saved by the transcription screen reads back with the same transcript and tone texts; it has a grammar section exactly when a non-empty corrected text was saved, without mistakes, and the raw timestamp |
| Flows.ClientData | components/TranscriptionView.tsx:92-96 | an error answer is stored as an object with none of the read fields; a data answer is stored as it is |
| Flows.ButtonRequestsAreValid | components/TranscriptionView.tsx:87-91 | a button's request is never answered "Invalid mode"; it is answered early exactly for an empty transcript or a missing key, and otherwise its prompt quotes the transcript |
| Flows.EmptyTranscriptShowsPlain | components/TranscriptionView.tsx:219-221 | an empty transcript is refused with 400, stored with no mistakes, and the first pass then shows the text plain |
| Flows.ExchangeOf | components/ChatInterface.tsx:51-56 | a reply answer reaches the panel as a reply, an error answer as an error |
| Flows.PayloadReachesModel | components/ChatInterface.tsx:41-48 | the panel's payload reaches the model as the text just typed, with the two priming turns and every earlier message as history |
| Flows.EmptyContextAnswersMissingFields | components/ChatInterface.tsx:53-56 | a panel on an empty transcript gets 400 for every message and shows "Error: Missing required fields" |

## Left out

- Highlight.HighlightPass: requires every counted edit to have a non-empty snippet on its side. An empty alternative in the source's pattern matches the empty string at word boundaries; that split is not modelled.
- Regular expressions are not compiled. Snippets are matched as literal text, which is what the escaping at TranscriptionView.tsx lines 225 and 252 intends (see Findings). The `SyntaxError` that a malformed pattern would throw during rendering is not modelled.
- The second highlight pass takes the corrected text as a string. A grammar result without `correctedText` makes `split` (TranscriptionView.tsx line 256) throw when some edit counts; with none, the corrected panel renders nothing (line 248). Neither is modelled.
- Case folding is ASCII only: `toLowerCase` and the `i` flag's case-insensitive matching on letters outside ASCII are not modelled. The patterns carry no `u` flag, so `\w` and `\b` use the ASCII word characters in the source too, and `SpanMatcher.IsWordChar` models that rule exactly.
- `JSON.parse` is an uninterpreted function to `Option`. `JSON.stringify`, malformed local-storage JSON, and fields whose JSON values are not strings are not modelled.
- `formatPrettyDate` takes its date reading (day, short month name, year and clock time) as input. `Date` parsing, the locale and the time zone are not modelled.
- The Gemini SDK, the Supabase client and `fetch` are parameters: their outcomes arrive as values. The `history-updated` event, React state batching and async interleaving are not modelled; each handler is one atomic transition.
- lib/PdfGenerator and lib/supabase are not part of this model: the report input is modelled, the document it becomes is not.
- Disabled buttons, scrolling, animation, markup and `console` logging are left out.
- Transcription.TranscriptionView.HandleAction: the answer is stored as the parsed object restricted to the fields the client reads (`Flows.ClientData` maps an error answer to an object with none of them). The `error` field the screen never reads is dropped.

## Findings

| source | as written | input that shows it | evidently intended | confidence | as-written member | corrected member |
|---|---|---|---|---|---|---|
| components/TranscriptionView.tsx:225 | the class in `/[.*+?^${}()\|[\\]\\]/g` closes at the first `]`, so the expression only rewrites a metacharacter followed by a backslash and `]`; a lone `.`, `(` or `+` in a snippet reaches the pattern unescaped (the same expression is at line 252) | a mistake whose `original` is "e.g.": each `.` then matches any character; a snippet with an unbalanced `(` makes the `RegExp` constructor throw | every metacharacter escaped, so that each alternative matches its snippet literally | high; not executed | Escape.EscapeAsWrittenMissesLoneDot | Escape.EscapeRoundTrip |
