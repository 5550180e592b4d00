# Bermal first-aid chat: retrieval and session engine in Dafny

This project models the core of a first-aid chat assistant built with Next.js.
The core has two parts:

- **The chat route.** It prepares the user's question, builds a searchable
  entry for each row of the book corpus, and walks the ranked entries. From
  them it builds the grounding text handed to the language model and picks the
  first usable demonstration video. When nothing was ranked, it falls back to
  the whole corpus. An empty completion is replaced by a fixed apology.
- **The chat page's session.** This is the conversation shown, the input box,
  the video shown, the last error, the loading flag, a question history with a
  seven-day expiry, and per-category usage statistics. A keyword classifier
  names the statistics buckets.

The video player's id check is modelled as well.

Modules, one file each:

- `JsText`: the JavaScript string conventions the code relies on. These are
  `null` as an option, truthiness, the whitespace class of `\s` and `trim`,
  ASCII `\w`, `toLowerCase`, `trim`, `includes` and `join`.
- `Categories`: the classifier `determineCategory`, an ordered rule table it is
  proved equal to, and `normalizeCategory`.
- `SessionStats`: the statistics record.
  - `StatsAfterAnswer` is what `updateStats` computes.
  - `StatsAfterDelete` is what `updateStatsOnDelete` computes.
  - Lemmas cover the totals, the bucket sum, the per-name counts, and when a
    delete undoes an answer.
- `History`: history items and the expiry filter.
- `VideoPlayer`: `isValidVideoId`, and the "has a video" test shared by the
  route and the page.
- `ChatRoute`: `prepareText`, the searchable entries, the result loop with its
  fallback (the method `AssembleContext`), the reply default, and the request
  as a whole (`Post`).
- `ChatPage`: the class `ChatBot`. Its fields are the page's state and its
  methods are the page's handlers. The submit handler is split at its `await`:
  - `BeginSubmit` is the guard and what happens before the request.
  - `FinishSubmit` is the success or failure bookkeeping once the request's
    outcome is known.

The page files every history item under the reply's `category`, or under
"General" when there is none. The route never sends a category. The statistics
bucket, however, is named by the classifier. The model reproduces this as
written:

- Deleting a history item looks for buckets normalising to "general" and
  usually finds none.
- The totals go down but no bucket does.
- Statistics that were consistent (the totals equal each other and the bucket
  sum) become inconsistent (`DeleteGeneralBreaksConsistency`,
  `ChatPage.AnswerThenDeleteFromHistory`).

Deleting an item right after answering restores the statistics exactly,
provided that the buckets are canonical and the item's category normalises to
the label the answer was counted under (`DeleteUndoesAnswer`). With the "General" fallback
it does not (`DeleteGeneralBreaksConsistency`). Both totals are decremented
with no floor, so they can go below zero.

## Model

| member | source | states |
|---|---|---|
| JsText.ToLowerChar | src/app/page.tsx:159 | `toLowerCase` on one character: an upper-case letter moves up by 32 code points to its lower-case form, any other character is unchanged, and the result is never upper-case |
| JsText.LowerAt | src/app/page.tsx:159 | lower-casing a string keeps its length and lower-cases each character in place |
| JsText.TrimShape | src/app/page.tsx:195 | `trim` returns an infix of its input that neither starts nor ends with whitespace, everything before and after that infix is whitespace, and the result is empty exactly when the input is all whitespace |
| JsText.TrimTrimmed | src/app/page.tsx:195 | trimming a string that has no whitespace at either end changes nothing |
| JsText.ContainsOccurs | src/app/page.tsx:160 | `includes` holds exactly when the needle occurs in the text at some index |
| JsText.JoinContainsParts | src/app/api/chat/route.ts:53 | a string built by `join` contains each of the joined parts |
| Categories.DetermineCategory | src/app/page.tsx:158-168 | the classifier always returns one of the eight labels |
| Categories.FirstMatchingRule | src/app/page.tsx:158-168 | the ordered rule table: no rule matching gives "Otros"; otherwise the result is the name of a rule with a contained keyword and no earlier rule matches |
| Categories.DetermineCategoryFollowsRules | src/app/page.tsx:158-168 | the cascade of `includes` tests equals first-match over the rules Heridas, Quemaduras, Fracturas, RCP, Mordeduras, Atragantamiento, Cortes on the lower-cased `question + ' ' + answer`, with "Otros" as default |
| Categories.CortesRuleUnreachable | src/app/page.tsx:160-166 | the classifier never returns "Cortes", and any text containing "cortes" is classified "Heridas", because "corte" is tested first |
| Categories.NormalizeCategoryShape | src/app/page.tsx:195 | a normalised name has no whitespace at its ends and no upper-case letter, and it is empty exactly when the name is all whitespace |
| Categories.NormalizeCategoryIdempotent | src/app/page.tsx:195 | normalising twice equals normalising once |
| Categories.NormalizeTrimmed | src/app/page.tsx:195 | a name with no whitespace at its ends normalises to its lower-case form |
| Categories.NormalizedLabelsDiffer | src/app/page.tsx:201-204 | distinct labels, and any label and "General", normalise to different names, so a delete never matches a bucket of another label |
| SessionStats.IndexOfName | src/app/page.tsx:143 | `findIndex` by name finds the first bucket with that name, and returns -1 exactly when there is none |
| SessionStats.AnswerRecordsOneQuestion | src/app/page.tsx:135-156 | answering adds exactly 1 to each total and to the bucket sum; it adds 1 to the classified category's count and leaves every other name's count alone; names keep their places; only the first bucket with the category's name goes up, by exactly 1, and every other bucket is unchanged; a bucket `{name: category, value: 1}` is appended at the end exactly when no bucket has that name |
| SessionStats.AnswerPreservesConsistency | src/app/page.tsx:135-156 | answering keeps the totals equal to each other and to the bucket sum |
| SessionStats.AnswerPreservesCanonical | src/app/page.tsx:140-148 | answering with a classifier label keeps the buckets distinctly named by labels and positive |
| SessionStats.IndexInSpec | src/app/page.tsx:204 | the delete's `findIndex` finds the first bucket whose normalised name matches, and returns -1 exactly when none does |
| SessionStats.KeepOnDeleteAppend | src/app/page.tsx:202 | the delete's `filter` of a concatenation is the concatenation of the filtered parts, so kept buckets keep their relative order across the category and the others |
| SessionStats.KeepOnDeleteParts | src/app/page.tsx:202 | the delete's `filter` keeps every bucket outside the category in order, and keeps exactly the category's buckets above 1 |
| SessionStats.DecrementFirstMatch | src/app/page.tsx:204-207 | decrementing the first matching bucket leaves the other buckets as they are and lowers only the first of the category's buckets |
| SessionStats.DeleteBucketsParts | src/app/page.tsx:201-207 | after a delete, buckets outside the category are unchanged and in order; the category's buckets are its buckets above 1 with the first lowered by one |
| SessionStats.DeleteRemovesOneQuestion | src/app/page.tsx:196-214 | deleting lowers each total by exactly 1, with no floor, and changes the buckets as `DeleteBucketsParts` states |
| SessionStats.DeleteWithoutMatchKeepsBuckets | src/app/page.tsx:201-207 | with no bucket in the deleted item's normalised category, the buckets stay exactly as they were |
| SessionStats.UniqueMatchSum | src/app/page.tsx:201-207 | with exactly one bucket of the category, of positive value, the delete lowers the bucket sum by exactly 1 |
| SessionStats.DeleteUniqueMatchSum | src/app/page.tsx:196-214 | the same for the statistics record and the page's own normalised-name test |
| SessionStats.UndoBumped | src/app/page.tsx:201-207 | deleting from a category whose only bucket was just incremented takes the increment back |
| SessionStats.DeleteRemovesAdded | src/app/page.tsx:201-207 | deleting from a category whose only bucket was just created at 1 removes that bucket |
| SessionStats.DeleteUndoesAnswer | src/app/page.tsx:135-215 | when the buckets are canonical and the deleted item carries the label it was classified under, delete after answer restores the statistics exactly |
| SessionStats.DeleteGeneralBreaksConsistency | src/app/page.tsx:196-214 | deleting under "General" right after an answer returns the totals to their old values but leaves the bucket sum one higher, so consistent statistics become inconsistent |
| History.ExpireAppend | src/app/page.tsx:111 | the expiry filter distributes over concatenation, so kept items keep their relative order |
| History.ExpireMembers | src/app/page.tsx:49 | the filter keeps exactly the items with `now - timestamp <= 604800000`, and never grows the history |
| History.ExpireAllFresh | src/app/page.tsx:49 | a history of fresh items passes the filter unchanged |
| History.ExpireIdempotent | src/app/page.tsx:111 | filtering twice at the same time equals filtering once |
| History.ExpireLater | src/app/page.tsx:111 | filtering at one time and then at a later one equals filtering at the later time |
| History.ExpireBoundary | src/app/page.tsx:24 | an item exactly seven days old is kept; one a millisecond older is dropped |
| VideoPlayer.IsValidVideoId | src/app/components/VideoPlayer.tsx:19-23 | the empty string and the placeholders "NULL" and "EMPTY" are rejected; an id is accepted exactly when its length is 11 or 12 |
| VideoPlayer.ValidIdIsShown | src/app/page.tsx:319 | every id the player accepts passes the page's display check |
| VideoPlayer.ShownIdMayBeInvalid | src/app/page.tsx:319 | the converse fails: "abc" passes the display check and the player rejects it |
| ChatRoute.KeepWordAndSpaceShape | src/app/api/chat/route.ts:42 | stripping `[^\w\s]` leaves only ASCII word characters and whitespace, all taken from the input |
| ChatRoute.KeepWordAndSpaceKeeps | src/app/api/chat/route.ts:42 | stripping changes nothing in a string of word characters and whitespace |
| ChatRoute.KeepWordAndSpaceAppend | src/app/api/chat/route.ts:42 | the strip of a concatenation is the concatenation of the strips, so every kept character stays, in order |
| ChatRoute.KeepWordAndSpaceDrops | src/app/api/chat/route.ts:42 | a character that is neither a word character nor whitespace is deleted |
| ChatRoute.PrepareTextShape | src/app/api/chat/route.ts:41-43 | prepared text has only ASCII letters (none upper-case), digits, `_` and whitespace, with no whitespace at either end |
| ChatRoute.PrepareTextIdempotent | src/app/api/chat/route.ts:41-43 | preparing prepared text changes nothing |
| ChatRoute.SearchableEntriesMention | src/app/api/chat/route.ts:48-54 | the entry built from each corpus row keeps that row's topic, content, keywords and video id, and its search string contains the topic, the content and every keyword |
| ChatRoute.SearchStringMentions | src/app/api/chat/route.ts:53 | the search string contains the topic, the content and every keyword |
| ChatRoute.BlocksAppend | src/app/api/chat/route.ts:67 | the grounding text of two runs of entries is the concatenation of their texts |
| ChatRoute.BlocksEmpty | src/app/api/chat/route.ts:75 | the grounding text is empty exactly when there are no entries |
| ChatRoute.CorpusTextIsAllBlocks | src/app/api/chat/route.ts:77 | the fallback text equals the text the loop would build from every corpus row in original order |
| ChatRoute.FirstVideoSpec | src/app/api/chat/route.ts:69-72 | the chosen video is the id of the earliest entry whose id is present, non-empty and not a placeholder, and it is absent exactly when no entry qualifies |
| ChatRoute.FirstVideoAppend | src/app/api/chat/route.ts:69-72 | later entries never override a video already chosen |
| ChatRoute.ChosenVideoFromCorpus | src/app/api/chat/route.ts:56-60 | with a ranking of at most five corpus entries, the chosen video is the id of some corpus row |
| ChatRoute.AssembleContext | src/app/api/chat/route.ts:38-78 | with results, the grounding text is their blocks in result order; with none, it is the whole corpus's blocks and there is no video; the video is the first usable one; the text is non-empty whenever there are results or a corpus |
| ChatRoute.ReplyContent | src/app/api/chat/route.ts:119 | the reply is the completion when that is present and non-empty, and otherwise "Lo siento, no pude generar una respuesta."; it is never empty |
| ChatRoute.Post | src/app/api/chat/route.ts:25-124 | the reply carries the defaulted completion and the first usable video of the ranking, which comes from the corpus; it carries no category; the grounding text is the ranked blocks or the corpus fallback |
| ChatPage.WithoutIndexSpec | src/app/page.tsx:191 | filtering out index `i` removes that item alone and keeps the others in order |
| ChatPage.WithoutIndexOutside | src/app/page.tsx:191 | filtering out an index the history does not have removes nothing |
| ChatPage.AnsweredHistory | src/app/page.tsx:109-119 | after a successful turn the history is the surviving old items, then the new item last; nothing stale survives and the history grows by at most one |
| ChatPage.AnswerThenDeleteFromHistory | src/app/page.tsx:117 | a reply without category is filed under "General"; answering keeps consistent statistics consistent, and deleting the item again breaks consistency |
| ChatPage.ChatBot.constructor | src/app/page.tsx:27-40 | the initial state: no messages, empty input, no video, no error, not loading, empty history, zero statistics |
| ChatPage.ChatBot.Mount | src/app/page.tsx:42-67 | a stored history is loaded through the expiry filter at `now`; stored statistics are loaded as they are; a missing or unreadable value keeps the current one; the conversation becomes the greeting |
| ChatPage.ChatBot.SetInput | src/app/page.tsx:291 | typing sets the input and nothing else |
| ChatPage.ChatBot.BeginSubmit | src/app/page.tsx:77-85 | blank input (after trim) or a request in flight changes nothing; otherwise the input is appended as a user message and cleared, the error is reset, loading starts, and the question is returned |
| ChatPage.ChatBot.UpdateStats | src/app/page.tsx:135-156 | the statistics become `StatsAfterAnswer` of the classified category; the totals stay equal; nothing else changes |
| ChatPage.ChatBot.FinishSubmit | src/app/page.tsx:87-133 | on a reply: the answer is appended; the video is shown only if the exchange is first aid and the id is truthy; the answer is counted; the history becomes the unexpired items plus one new item stamped `now`, with no video when classified "Otros". On failure: the error text is recorded, the apology is appended, and history and statistics are unchanged. Loading is off afterwards |
| ChatPage.ChatBot.ClearChat | src/app/page.tsx:170-173 | the conversation becomes the greeting alone and the video is cleared; history and statistics are untouched |
| ChatPage.ChatBot.HistoryClick | src/app/page.tsx:183-187 | the conversation becomes exactly the item's question and answer, and the video becomes the item's id when that is truthy |
| ChatPage.ChatBot.UpdateStatsOnDelete | src/app/page.tsx:196-215 | the statistics become `StatsAfterDelete` of the item's category; the totals stay equal; nothing else changes |
| ChatPage.ChatBot.DeleteHistoryItem | src/app/page.tsx:189-193 | the item at the index is removed and the others keep their order; the statistics uncount that item's category |

## Left out

- The fuzzy ranking (`fuzzysort.go`), with its scoring, threshold and tie-breaking, is a library whose source is not part of this model. `Post` takes the ranker as a function parameter. The only assumptions about its output are `RankedFrom`: at most five results, each a searchable entry of the corpus.
- The corpus query, the completion request, the page's `fetch` and the JSON bodies are network I/O.
  - The corpus and the completion text are inputs.
  - The outcome of the page's request is the `Outcome` input of `FinishSubmit`.
  - The route's HTTP 500 responses appear only as the `Refused` outcome the page sees.
- The missing API key check and the system prompt text are configuration and prompt wording, and are not modelled.
- `localStorage` reads and writes, `JSON.parse` and `console.error` are persistence and logging. A stored value that is missing or fails to parse is `None` in `Mount`.
- `Date.now()` is the `now` parameter.
- `isLoading` is kept only as a guard. The concurrency of overlapping requests is not modelled. Nor is React's batching of state updates: the updates of one handler apply in program order.
- `isHistoryVisible`, `isDashboardVisible`, their toggles, `preguntaRealizada`, all rendering, the dashboard panel, the YouTube embed and the markdown renderer are display only.
- `JsText.ToLowerChar` covers ASCII and the Latin-1 capitals only. Other Unicode case mappings, including those that change a string's length, are not modelled.
- String lengths count Unicode scalar values, while JavaScript counts UTF-16 code units. `IsValidVideoId` therefore differs for ids with characters outside the Basic Multilingual Plane.
- The bucket objects are modelled as values. The page copies the bucket array but mutates the shared bucket objects in place (`.value += 1`, `-= 1`). That aliasing is invisible in sequential use, but a re-run state updater (React's development double invocation) would apply the change twice.
- ChatPage.ChatBot.DeleteHistoryItem: requires the index to be in range. The page only passes indices of listed items; with any other index the page would fail reading the missing item's category.
- The request body the page sends (the whole conversation) is not modelled. Retrieval uses only the last message's content, which `Post` takes as `lastMessage`. The whole conversation also goes to the completion request, whose result is the `completion` input.
