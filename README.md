# PII masking in a streaming chat: a verified model

This project models the masking pipeline of a chat application. The model covers four parts:

- **Detector.** `detectPII` runs three regular-expression matchers over the text: email, phone, and a capitalised two-word name with a stoplist. It puts the raw spans into one array in that order, stable-sorts them by `start`, and then filters them. The filter keeps a span when it starts at or after the end of its *immediate predecessor in the sorted array*.
- **Segmenter and reveal toggle.** `applyPIISpans` turns a text and its spans into plain and masked segments. `SpoilerText` is the click-to-reveal toggle on one masked segment.
- **Stream read loop.** `useChatStream.sendMessage` reads server-sent `data:` frames. It builds up the answer text and re-runs detection after every chunk. It reports updates to the page and stops at the first `done`.
- **Page helpers.** These are `formatTime`, the updaters that replace the streaming message or attach spans to a message, the send guard, and `handleSend`.

Modules and files, in dependency order:

| file | module | models |
|---|---|---|
| `wrappers.dfy` | `Wrappers` | `Option`, for `undefined` / `null` |
| `chars.dfy` | `Chars` | character classes: `\w`, `\b`, `\s` / `trim` whitespace |
| `spans.dfy` | `PiiSpans` | `PIISpan`, `Message`, `Chat` |
| `regex.dfy` | `Regex` | a backtracking matcher for the email and phone patterns, proved sound and complete against a relational semantics |
| `matchers.dfy` | `Matchers` | the three `exec` loops: leftmost search from `lastIndex`, the stoplist, `lastIndex` advancing to the end of every match |
| `resolver.dfy` | `Resolver` | the stable sort by `start` and the predecessor filter |
| `detector.dfy` | `PiiDetector` | `detectPII` as a method with the three loops, and its properties |
| `segments.dfy` | `SpoilerText` | `applyPIISpans` as a method over the sorted copy, and the `SpoilerText` toggle as a class |
| `stream.dfy` | `ChatStream` | the read loop as a class method with nested loops, specified by a left fold `Run` over the events |
| `page.dfy` | `Page` | `formatTime`, the message updaters, the guard, and `handleSend` as a class method |

Choices that shape the model:

- **Text.** Text is `seq<char>`, one `char` per UTF-16 code unit. Offsets are code-unit offsets, as in JavaScript.
- **Detector follows the code.** The output is *not* always disjoint. A span is compared with its sorted predecessor even when that predecessor was dropped. For example, in `555-123-4567.555-123-9999@ex.com` the email `[0,32)` and the second phone `[13,25)` are both kept. `Resolver.OverlapSortedSurvives` proves this for raw spans of that shape: an email `[0,32)` pushed before phones `[0,12)` and `[13,25)`. `SpoilerText.OverlapRepeatsText` shows that the segments then repeat part of the message.
- **Leftmost matching, one pass.** Each matcher searches left to right from `lastIndex` and resumes at the end of every match, stoplisted or not. This gives two consequences that the code does not guard against, and the model keeps both. First, a capitalised word before a name can take the name's first word. In `Call John Smith at 555-123-4567` the name loop matches `Call John` over `[0,9)`, so `John Smith` over `[5,15)` is never reported and `Smith` stays unmasked (`PiiDetector.CallJohnNotJohnSmith`). Second, detection is not stable when text is appended, and the stream re-runs it on the whole text after every chunk. So a span shown after one chunk can vanish after the next. `a@b.co` has an email span `[0,6)`, but `a@b.co9` has no email span, because the TLD must end at a word boundary (`PiiDetector.AppendDropsEmail`). The phone pattern's trailing `\b` drops `555-123-4567` the same way once a digit follows it. That phone case is not proved.
- **Stream inputs.** The stream is given as the sequence of already-decoded reads. `JSON.parse`, together with the property reads on its result, is a parameter `parse: string -> Option<Event>`. JavaScript's falsy values are folded in: a missing or empty `chunk` is `""`, and a missing or false `done` is `false`.
- **Detector passed to the hook.** The hook's detector is a parameter of `ChatStream.Stream`. `Page.ChatPage` builds its stream with `Detect`. The stream's lemmas therefore hold for any detector.
- **Stream without `done`.** When the stream ends without a `done` frame, the hook returns nothing and leaves `isStreaming` set, as the code does (`ChatStream.Stream.SendMessage`, `Page.ChatPage.HandleSend`). The page's guard then refuses every later send (`Page.ShouldSend`).
- **Page parameters.** For `handleSend`, the clock readings (`Date.now()` as strings) and the server response are parameters.

## Model

| member | source | states |
|---|---|---|
| Regex.Match | app/lib/pii-detector.ts:21-32 | a match found at `i` ends within the text and at least the pattern's minimum length after `i` |
| Regex.MatchSound | app/lib/pii-detector.ts:21-32 | the end the greedy backtracking search returns is one the pattern's relational semantics accepts |
| Regex.MatchComplete | app/lib/pii-detector.ts:21-32 | whenever the pattern matches at `i` with some end, the search finds a match at `i` |
| Matchers.EmailPattern | app/lib/pii-detector.ts:21 | definition: the email regex, node by node, including the literal `\|` its TLD class admits; properties in `Regex.MatchSound`, `Regex.MatchComplete`, `PiiDetector.EmailSpansMatch` |
| Matchers.PhonePattern | app/lib/pii-detector.ts:32 | definition: the phone regex, node by node; properties in `Regex.MatchSound`, `Regex.MatchComplete`, `PiiDetector.PhoneSpansMatch` |
| Matchers.Stoplist | app/lib/pii-detector.ts:46 | definition: the six common first words; properties in `PiiDetector.StoplistSkips`, `PiiDetector.NameSpansShape` |
| Matchers.Accepted | app/lib/pii-detector.ts:47 | definition: only a name whose capture group 1 is on the stoplist is refused; properties in `Matchers.Pushed`, `PiiDetector.StoplistSkips` |
| Matchers.LowerRunEnd | app/lib/pii-detector.ts:43 | `[a-z]+` taken greedily: the run is all lower-case and stops at the text end or a non-lower-case character |
| Matchers.SpaceRunEnd | app/lib/pii-detector.ts:43 | `\s+` taken greedily, in the same way |
| Matchers.LowerRunEndAt | app/lib/pii-detector.ts:43 | any maximal lower-case run is the one the greedy scan finds |
| Matchers.SpaceRunEndAt | app/lib/pii-detector.ts:43 | any maximal whitespace run is the one the greedy scan finds |
| Matchers.NameAt | app/lib/pii-detector.ts:43 | a name found at `p` is a boundary, upper, lower run, whitespace, upper, lower run, boundary |
| Matchers.NameAtComplete | app/lib/pii-detector.ts:43 | every position where the name pattern matches is found, with exactly those parts, so no backtracking is needed |
| Matchers.KindOf | app/lib/pii-detector.ts:27-51 | each matcher tags its spans email, phone or name, never ssn or credit card |
| Matchers.MatchAt | app/lib/pii-detector.ts:21-43 | a hit of any rule at `p` starts at `p`, is non-empty and ends within the text |
| Matchers.NameHit | app/lib/pii-detector.ts:43-47 | a name hit covers a match of the name shape whose first word, capture group 1, ends at `groupEnd`; every match of the shape at `p` is this hit |
| Matchers.PatternHit | app/lib/pii-detector.ts:21-32 | an email or phone hit is a match of the pattern over `[p, end)`, and there is a hit wherever the pattern matches at `p` |
| Matchers.Search | app/lib/pii-detector.ts:23 | the search returns a hit at or after `from` |
| Matchers.SearchLeftmost | app/lib/pii-detector.ts:23 | the search returns the leftmost hit at or after `from` |
| Matchers.FindFrom | app/lib/pii-detector.ts:23 | `exec` from `lastIndex` returns a hit of the rule that starts at or after `lastIndex` |
| Matchers.FindFromLeftmost | app/lib/pii-detector.ts:23 | `exec` returns no hit later than any position where the rule matches |
| Matchers.FindFromSkip | app/lib/pii-detector.ts:23 | `exec` passes over a position where the rule does not match: the search from there is the search from the next position |
| Matchers.Pushed | app/lib/pii-detector.ts:47-53 | one match pushes at most one span |
| Matchers.Collect | app/lib/pii-detector.ts:23-54 | the spans pushed from `from` on are well-formed, of the rule's kind, in order and non-overlapping |
| Matchers.Scan | app/lib/pii-detector.ts:23-54 | one `exec` loop yields well-formed spans of its kind, in order and non-overlapping |
| Matchers.ScanStep | app/lib/pii-detector.ts:23-54 | after a match, scanning resumes at the match end, whether or not a span was pushed |
| Matchers.ScanDone | app/lib/pii-detector.ts:23 | when `exec` finds nothing the loop pushes nothing |
| Resolver.KeptAt | app/lib/pii-detector.ts:58-60 | definition: index 0, or a start at least the end of `arr[index - 1]`; properties in `Resolver.ResolveByPredecessor` |
| Resolver.FilterUpTo | app/lib/pii-detector.ts:57-61 | definition: the filter over the first `n` sorted spans; properties in `Resolver.FilterIsSubsequence`, `Resolver.ChainedKeepsAll` |
| Resolver.Resolve | app/lib/pii-detector.ts:57-61 | definition: the `.filter` on the sorted array; properties in `Resolver.ResolveByPredecessor`, `Resolver.ResolveStrictlySorted`, `Resolver.OverlapSurvives` |
| Resolver.Insert | app/lib/pii-detector.ts:57 | inserting adds exactly one copy of the span |
| Resolver.InsertSorted | app/lib/pii-detector.ts:57 | inserting into a sorted array keeps it sorted by `start` |
| Resolver.InsertKeepsRuns | app/lib/pii-detector.ts:57 | inserting puts the new span first among its equal-start run |
| Resolver.SortByStart | app/lib/pii-detector.ts:57 | the sort is ordered by `start` and is a permutation of its input |
| Resolver.SortIsStable | app/lib/pii-detector.ts:57 | spans with equal `start` keep their input order |
| Resolver.StableSortIsUnique | app/lib/pii-detector.ts:57 | any start-ordered arrangement that keeps equal-start runs in order is this sort |
| Resolver.FilterIsSubsequence | app/lib/pii-detector.ts:57-61 | the kept spans are the input at increasing kept indices, and an index is kept exactly when the filter accepts it |
| Resolver.FirstIsKept | app/lib/pii-detector.ts:58 | the first sorted span is always kept |
| Resolver.ChainedKeepsAll | app/lib/pii-detector.ts:57-61 | when each span starts at or after its predecessor's end, all spans are kept |
| Resolver.DisjointKeepsAll | app/lib/pii-detector.ts:57-61 | a sorted array of pairwise disjoint spans is kept whole |
| Resolver.KeptStartsFirst | app/lib/pii-detector.ts:57-61 | a kept span starts strictly after every span sorted before it |
| Resolver.ResolveStrictlySorted | app/lib/pii-detector.ts:57-61 | kept spans have strictly increasing starts |
| Resolver.KeptHeadsItsStart | app/lib/pii-detector.ts:57-61 | a kept span is the first of the spans with its start |
| Resolver.ResolveMembers | app/lib/pii-detector.ts:57-61 | the filter keeps only input spans |
| Resolver.ResolveByPredecessor | app/lib/pii-detector.ts:57-61 | a sorted span at index `i > 0` is kept exactly when its start is at least the end of the span at `i - 1`, whether or not that one was kept |
| Resolver.SortResolveStrictlySorted | app/lib/pii-detector.ts:57-61 | sort then filter gives strictly increasing starts |
| Resolver.SortResolveHeads | app/lib/pii-detector.ts:57-61 | each result span is the first raw span, in push order, with its start |
| Resolver.ResolvedHeadStart | app/lib/pii-detector.ts:57-58 | the first span kept after sorting exists and starts no later than any raw span |
| Resolver.SortResolveMembers | app/lib/pii-detector.ts:57-61 | each result span is a raw span |
| Resolver.SortResolveDisjoint | app/lib/pii-detector.ts:57-61 | pairwise disjoint raw spans are all kept, sorted |
| Resolver.PermutedApart | app/lib/pii-detector.ts:57 | sorting keeps raw spans pairwise disjoint |
| Resolver.OverlapSurvives | app/lib/pii-detector.ts:57-61 | for raw spans email `[0,32)`, phone `[0,12)`, phone `[13,25)`, the result keeps the email and the second phone, and the two overlap |
| Resolver.OverlapSortedSurvives | app/lib/pii-detector.ts:57-61 | the same raw spans, sorted and then filtered as `detectPII` does, keep the overlapping email and phone |
| PiiDetector.RawSpans | app/lib/pii-detector.ts:18-54 | definition: the email, then phone, then name spans, in push order; properties in `PiiDetector.RawWellFormed`, `PiiDetector.PushOrderHead` |
| PiiDetector.Detect | app/lib/pii-detector.ts:17-62 | definition: raw spans sorted, then filtered; properties in `PiiDetector.DetectPII` and the `Detect*` lemmas |
| PiiDetector.ExecAll | app/lib/pii-detector.ts:22-54 | the `while (exec)` loop pushes exactly the spans of the scan from offset 0 |
| PiiDetector.DetectPII | app/lib/pii-detector.ts:17-62 | the result is `Detect(text)`: well-formed, of a detectable kind, strictly increasing starts |
| PiiDetector.RawWellFormed | app/lib/pii-detector.ts:18-54 | every raw span lies inside the text, is non-empty and is email, phone or name |
| PiiDetector.ScanMembers | app/lib/pii-detector.ts:23-54 | every span one matcher pushes lies inside the text and has that matcher's kind |
| PiiDetector.DetectWellFormed | app/lib/pii-detector.ts:7-62 | every returned span has `0 <= start < end <= length` and is email, phone or name |
| PiiDetector.DetectStrictlySorted | app/lib/pii-detector.ts:57-61 | returned spans are sorted by strictly increasing start |
| PiiDetector.DetectKeepsByPredecessor | app/lib/pii-detector.ts:57-61 | the result is the sorted raw spans at increasing indices, and index `i` is kept exactly when `i = 0` or its start is at least the end of sorted span `i - 1` |
| PiiDetector.DetectKeepsFirst | app/lib/pii-detector.ts:57-58 | if there is any raw span, the first sorted one is returned first |
| PiiDetector.DetectKeepsDisjoint | app/lib/pii-detector.ts:57-61 | pairwise disjoint raw spans are all returned |
| PiiDetector.PushOrderHead | app/lib/pii-detector.ts:18-54 | among raw spans with one start, an email comes first, then a phone |
| PiiDetector.TiePrecedence | app/lib/pii-detector.ts:21-57 | a returned span is the first raw span with its start: an email if any email starts there, else a phone if a phone does |
| PiiDetector.FirstPushedWins | app/lib/pii-detector.ts:21-57 | the same precedence for any email, phone and name arrays pushed in that order |
| PiiDetector.DetectEmpty | app/lib/pii-detector.ts:17-62 | empty text gives no spans |
| PiiDetector.StoplistSkips | app/lib/pii-detector.ts:43-54 | a name match whose first word is stoplisted pushes nothing, and scanning resumes after its second word |
| PiiDetector.NameSpansShape | app/lib/pii-detector.ts:43-53 | every name span is capitalised word, whitespace, capitalised word, between word boundaries, with a first word not in the stoplist |
| PiiDetector.EmailSpansMatch | app/lib/pii-detector.ts:21-29 | every email span matches the email pattern exactly |
| PiiDetector.PhoneSpansMatch | app/lib/pii-detector.ts:32-39 | every phone span matches the phone pattern exactly |
| PiiDetector.FirstNameScan | app/lib/pii-detector.ts:43-54 | an accepted first name match is pushed, and every other name span starts at or after its end |
| PiiDetector.DetectNames | app/lib/pii-detector.ts:41-61 | every returned name span was pushed by the name loop |
| PiiDetector.DetectEmails | app/lib/pii-detector.ts:20-61 | every returned email span was pushed by the email loop |
| PiiDetector.FirstNameHitSkips | app/lib/pii-detector.ts:43-61 | when the first name match is accepted it is pushed, and no returned name span starts strictly inside it |
| PiiDetector.CallJohnNotJohnSmith | app/lib/pii-detector.ts:43-54 | in `Call John Smith at 555-123-4567` the name loop pushes `Call John` `[0,9)`, and `John Smith` `[5,15)` is not returned |
| PiiDetector.EmailScanExample | app/lib/pii-detector.ts:21-29 | the email loop on `contact a.b+tag@example.co.uk now` pushes exactly `[8,29)`: the backtracking match keeps `.uk` |
| PiiDetector.LeadingEmailFirst | app/lib/pii-detector.ts:17-62 | when the only email span starts at 0, it is the first span returned |
| PiiDetector.AppendDropsEmail | app/lib/pii-detector.ts:17-62 | `a@b.co` returns the email `[0,6)` first, but `a@b.co9` returns no email span |
| SpoilerText.Walk | app/components/SpoilerText.tsx:96-118 | definition: the `forEach` from a span index and a cursor; properties in `SpoilerText.WalkStep`, `SpoilerText.WalkCovers`, `SpoilerText.WalkMasked` |
| SpoilerText.Cut | app/components/SpoilerText.tsx:96-125 | definition: the walk over a sorted copy, then the remainder; properties in `SpoilerText.CutSorted`, `SpoilerText.CutCovers`, `SpoilerText.CutMasked` |
| SpoilerText.Segments | app/components/SpoilerText.tsx:78-129 | definition: the whole text without spans, else the cut of a sorted copy; properties in `SpoilerText.ApplyPIISpans`, `SpoilerText.Coverage`, `SpoilerText.MaskedInOrder` |
| SpoilerText.Spoiler.Valid | app/components/SpoilerText.tsx:26-64 | definition: revealed exactly after an odd number of clicks; kept by `SpoilerText.Spoiler.Click` |
| SpoilerText.SliceIndex | app/components/SpoilerText.tsx:99 | `slice` clamps an index into `[0, length]` and leaves an in-range index alone |
| SpoilerText.JsSlice | app/components/SpoilerText.tsx:99-122 | `slice` never grows the text and is the sub-sequence `[a, b)` for in-range `a <= b` |
| SpoilerText.WalkStep | app/components/SpoilerText.tsx:96-118 | one `forEach` step emits the gap if `start > lastIndex`, then the masked slice, then moves the cursor to `end` |
| SpoilerText.ApplyPIISpans | app/components/SpoilerText.tsx:78-129 | the method's segments are `Segments(text, spans)` |
| SpoilerText.CutSorted | app/components/SpoilerText.tsx:89-128 | the walk over the sorted copy emits exactly `Cut(text, sorted)` |
| SpoilerText.NoSpansWholeText | app/components/SpoilerText.tsx:84-87 | with no spans the result is the single segment `text`, even when `text` is empty |
| SpoilerText.MaskedOnlyAppend | app/components/SpoilerText.tsx:96-118 | picking out the masked segments commutes with concatenation |
| SpoilerText.WalkMasked | app/components/SpoilerText.tsx:96-118 | the masked segments of the walk are the spans' slices, one per span, in sorted order |
| SpoilerText.CutMasked | app/components/SpoilerText.tsx:89-128 | the remainder adds no masked segment |
| SpoilerText.MaskedInOrder | app/components/SpoilerText.tsx:93-118 | with spans present, the masked segments are the slices of the sorted copy, one per span, in its order |
| SpoilerText.MaskedTextInBounds | app/components/SpoilerText.tsx:105 | the `k`-th masked segment's text is `text[start..end)` of the `k`-th sorted span |
| SpoilerText.WalkPlainNonEmpty | app/components/SpoilerText.tsx:98-103 | gaps are emitted only when non-empty |
| SpoilerText.PlainSegmentsNonEmpty | app/components/SpoilerText.tsx:98-125 | with spans present, no plain segment is empty |
| SpoilerText.SortedWellFormed | app/components/SpoilerText.tsx:93 | sorting the copy keeps spans inside the text |
| SpoilerText.ConcatAppend | app/components/SpoilerText.tsx:89-128 | joining segment texts commutes with concatenation |
| SpoilerText.WalkCovers | app/components/SpoilerText.tsx:96-118 | over chained spans the walk's texts join to the text from the cursor to the last span's end |
| SpoilerText.CutCovers | app/components/SpoilerText.tsx:89-128 | over chained spans all segment texts join to the whole text |
| SpoilerText.Coverage | app/components/SpoilerText.tsx:89-128 | for pairwise disjoint, in-bounds spans, the segment texts in order spell the text exactly |
| SpoilerText.Chain | app/components/SpoilerText.tsx:93 | sorted pairwise disjoint spans are chained |
| SpoilerText.NestedRepeatsText | app/components/SpoilerText.tsx:96-125 | a span nested in one covering the whole text makes the segments spell the text followed by the nested part again |
| SpoilerText.OverlapRepeatsText | app/components/SpoilerText.tsx:96-125 | for the detector's overlapping output on a 32-character text, the segments spell 51 characters |
| SpoilerText.KeysDistinct | app/components/SpoilerText.tsx:109 | the keys `pii-start-end-index` of masked segments are pairwise distinct |
| SpoilerText.Spoiler.constructor | app/components/SpoilerText.tsx:26 | a segment starts hidden, with no clicks, for its text and kind |
| SpoilerText.Spoiler.Click | app/components/SpoilerText.tsx:30-64 | a click while hidden reveals, a click while revealed hides |
| SpoilerText.TwoClicksRestore | app/components/SpoilerText.tsx:26-64 | two clicks restore the state, and after `n` clicks the segment is revealed exactly when `n` is odd |
| ChatStream.ReadEvents | app/hooks/useChatStream.ts:53-59 | definition: the events of one read's lines; properties in `ChatStream.FrameRecovered`, `ChatStream.HeadLost`, `ChatStream.TailLost` |
| ChatStream.Events | app/hooks/useChatStream.ts:49-59 | definition: the events of all reads, in order; properties in `ChatStream.EventsTwo`, `ChatStream.FrameSplitLost` |
| ChatStream.StreamingMessage | app/hooks/useChatStream.ts:66-74 | definition: the update for the text so far; properties in `ChatStream.UpdateShape` |
| ChatStream.Step | app/hooks/useChatStream.ts:61-86 | definition: the chunk, then the id, then `done`; properties in `ChatStream.StepGood`, `ChatStream.StepCurrent` |
| ChatStream.Run | app/hooks/useChatStream.ts:49-92 | definition: the events in order, none after the first `done`; properties in `ChatStream.RunAppend`, `ChatStream.RunOpen`, `ChatStream.RunCompleted` |
| ChatStream.Chunks | app/hooks/useChatStream.ts:45-62 | definition: the chunks concatenated; properties in `ChatStream.RunOpen`, `ChatStream.RunCompleted` |
| ChatStream.LastId | app/hooks/useChatStream.ts:46-78 | definition: the last non-empty id, else the initial one; properties in `ChatStream.RunOpen`, `ChatStream.RunCompleted` |
| ChatStream.LastText | app/hooks/useChatStream.ts:69-74 | definition: the text of the latest update; properties in `ChatStream.RunCurrent` |
| ChatStream.SplitLines | app/hooks/useChatStream.ts:54 | `split("\n")` gives at least one piece and no piece holds a newline |
| ChatStream.SplitJoin | app/hooks/useChatStream.ts:54 | joining the pieces with newlines gives the read back |
| ChatStream.JoinSplit | app/hooks/useChatStream.ts:54 | splitting undoes joining newline-free pieces |
| ChatStream.LineEvents | app/hooks/useChatStream.ts:56-59 | a line yields at most one event, only when it starts with `data: ` and its payload after 6 characters parses |
| ChatStream.FlattenAppend | app/hooks/useChatStream.ts:49-92 | the events of two runs of reads are the first's, then the second's |
| ChatStream.FrameRecovered | app/hooks/useChatStream.ts:53-89 | a frame `data: <json>\n\n` arriving in one read yields its event |
| ChatStream.FrameSplitLost | app/hooks/useChatStream.ts:53-89 | a frame split across two reads is lost, though its halves together would parse |
| ChatStream.EventsTwo | app/hooks/useChatStream.ts:49-56 | the events of two reads are the first read's, then the second's |
| ChatStream.RunAppend | app/hooks/useChatStream.ts:49-92 | handling `a` then `b` is handling `b` from where `a` left off, unless `a` hit `done` |
| ChatStream.RunDoneStays | app/hooks/useChatStream.ts:82-86 | nothing after a `done` is handled |
| ChatStream.StepGood | app/hooks/useChatStream.ts:61-80 | one event keeps updates well-shaped and growing, extends `fullText` and only appends notices |
| ChatStream.RunOpen | app/hooks/useChatStream.ts:45-80 | before any `done`, `fullText` is the concatenation of the chunks, the id is the last non-empty one or `conversationId \|\| ""`, the latest update carries `fullText`, and the updates are well-shaped, carry growing texts and name non-empty ids |
| ChatStream.RunGood | app/hooks/useChatStream.ts:61-80 | whatever the events, each update's text extends the previous one and ids are non-empty |
| ChatStream.RunCompleted | app/hooks/useChatStream.ts:82-86 | at the first `done` the loop ends with the chunks up to that event and the last id among them, the latest update carrying that text; later events change nothing |
| ChatStream.StepCurrent | app/hooks/useChatStream.ts:61-80 | after one event the latest update carries `fullText`, and there is none only while `fullText` is empty |
| ChatStream.RunCurrent | app/hooks/useChatStream.ts:49-92 | whatever the events, every chunk is reported at once: the latest update's text is `fullText` |
| ChatStream.UpdateShape | app/hooks/useChatStream.ts:66-74 | every update has id `streaming` and `isUser` false, and its spans are `detect(text)`, or undefined when that is empty |
| ChatStream.Stream.constructor | app/hooks/useChatStream.ts:14-15 | the hook starts not streaming, with an empty message |
| ChatStream.Stream.SendMessage | app/hooks/useChatStream.ts:24-99 | the callbacks are the fold's notices; on `done` it returns id and text and resets the state; without `done` it returns nothing and stays streaming; a failed request resets the state |
| ChatStream.Stream.ReadAll | app/hooks/useChatStream.ts:49-92 | the read loop moves the progress as the fold over all the reads' events does, resetting the hook on `done` and leaving it streaming otherwise |
| ChatStream.Stream.HandleRead | app/hooks/useChatStream.ts:53-91 | the lines of one read move the progress as the fold over that read's events does |
| ChatStream.Stream.HandleLine | app/hooks/useChatStream.ts:57-90 | one line moves the progress as the fold over its events does, and sets the hook state |
| Page.FormatTime | app/page.tsx:187-199 | definition: the bucket's label; properties in `Page.JustNowIff`, `Page.MinutesShown`, `Page.HoursShown`, `Page.DaysShown` |
| Page.Bucket | app/page.tsx:190-198 | "just now" exactly below one minute, negative ages included; minutes 1..59 below an hour; hours 1..23 below a day; otherwise days of at least 1, each the floor of the age |
| Page.HoursFromMinutes | app/page.tsx:195 | floored minutes floored by 60 are floored hours |
| Page.DaysFromHours | app/page.tsx:197 | floored hours floored by 24 are floored days |
| Page.NatToString | app/page.tsx:194-198 | `${n}` is non-empty decimal digits with no leading zero |
| Page.NatToStringValue | app/page.tsx:194-198 | reading the digits back gives the number |
| Page.NatToStringInjective | app/page.tsx:194-198 | different counts print differently |
| Page.JustNowIff | app/page.tsx:190-193 | "Just now" exactly when the age is under a minute |
| Page.MinutesShown | app/page.tsx:194 | "N min" for `1 <= N < 60` whole minutes |
| Page.HoursShown | app/page.tsx:195-196 | "H hr" with `H` the floor of the minutes by 60, `H < 24` |
| Page.DaysShown | app/page.tsx:197-198 | "D day" plus "s" exactly when `D > 1`, with `D` the floor of the hours by 24, `D >= 1` |
| Page.WithoutStreaming | app/page.tsx:109 | the filter keeps exactly the messages whose id is not `streaming` |
| Page.WithoutStreamingInOrder | app/page.tsx:109 | the kept messages stay in their order |
| Page.WithoutStreamingNone | app/page.tsx:109 | with no streaming message the filter changes nothing |
| Page.WithoutStreamingAppend | app/page.tsx:109 | the filter commutes with concatenation |
| Page.ReplaceStreaming | app/page.tsx:108-111 | the new message is last; before it no message has id `streaming`, a message is there exactly when it was in the list and is not the streaming one, and these keep their order |
| Page.ReplaceLeavesOneStreaming | app/page.tsx:108-111 | only the last message can have id `streaming` |
| Page.ReplaceTwice | app/page.tsx:108-111 | a second streaming update replaces the first |
| Page.ReplaceKeepsOthers | app/page.tsx:127-137 | a non-streaming message is in the result exactly when it was before or is the new one |
| Page.SetPiiSpans | app/page.tsx:170-179 | the update keeps the list's length |
| Page.SetPiiSpansEffect | app/page.tsx:170-179 | each message keeps id, text and author; only those with the given id take the spans, and only when there are some |
| Page.SetPiiSpansMiss | app/page.tsx:170-179 | with no spans, or no message with the id, nothing changes |
| Page.SetPiiSpansIdempotent | app/page.tsx:170-179 | applying the same update twice is applying it once |
| Page.Trim | app/page.tsx:89 | definition: `trim()` as both ends trimmed; properties in `Page.TrimEmptyIff` |
| Page.TrimStart | app/page.tsx:89 | drops exactly the leading whitespace |
| Page.TrimEnd | app/page.tsx:89 | drops exactly the trailing whitespace |
| Page.TrimEmptyIff | app/page.tsx:89 | the trimmed input is empty exactly when every character is whitespace |
| Page.ShouldSend | app/page.tsx:89 | sending needs no stream in progress |
| Page.ShouldSendIff | app/page.tsx:89 | `handleSend` goes ahead exactly when no stream runs and some character is not whitespace |
| Page.UserMessage | app/page.tsx:91-95 | definition: the user's message, stamped; its append is stated in `Page.ChatPage.HandleSend` |
| Page.Deliver | app/page.tsx:106-119 | definition: a message update runs the replace updater, a conversation update changes no message; properties in `Page.DeliverAllSnoc` |
| Page.DeliverAll | app/page.tsx:106-120 | definition: the callbacks' updaters in order; properties in `Page.DeliverAllShows`, `Page.StreamShown` |
| Page.LastConversation | app/page.tsx:113-118 | definition: the last id passed to the conversation callback; used in `Page.ChatPage.HandleSend` |
| Page.FinalMessage | app/page.tsx:124-136 | the final message's id is `conversationId-stamp`, never `streaming`; its spans are undefined exactly when detection found none |
| Page.LastUpdate | app/page.tsx:106-111 | the latest update is one of the notices |
| Page.DeliverAllSnoc | app/page.tsx:106-120 | the callbacks' updaters apply in order |
| Page.ShownNext | app/page.tsx:108-111 | a new streaming update takes the place of the previous one |
| Page.DeliverAllShows | app/page.tsx:106-111 | after streaming updates the list is the non-streaming messages in order, then the latest update |
| Page.StreamUpdatesStreaming | app/page.tsx:106-111 | all the hook's updates carry the streaming id |
| Page.StreamShown | app/page.tsx:103-120 | whatever the stream delivers, the page shows the earlier non-streaming messages, then the latest update |
| Page.FinalReplacesStreaming | app/page.tsx:127-137 | on completion the page ends with the final message and holds no streaming message |
| Page.ChatPage.constructor | app/page.tsx:12-17 | the page starts with no messages, empty input, no conversation and a hook running `Detect` |
| Page.ChatPage.HandleSend | app/page.tsx:88-152 | a blank input or a running stream changes nothing; otherwise the user message is appended, the input cleared, the updates applied, the final message replaces the streaming one on completion, the hook stays streaming exactly when no `done` arrived, and a new id is adopted only when the conversation id was falsy |

## Left out

- Markup, styling and logging in every component and hook: they carry no logic.
- `fetch`, the database, the API routes and the LLM client: these are I/O. The page and the hook take the server response as a parameter: the decoded reads, or `None` for a failed request or a missing body.
- `TextDecoder`: reads arrive decoded. A multi-byte character split between two reads is not modelled.
- `JSON.parse` and the property reads on its result: these are the `parse` parameter. A payload that throws corresponds to `None`.
- An error thrown by `reader.read()` in the middle of a stream is not modelled. The response is a finite list of completed reads.
- The `Date` clock and date parsing: `formatTime` takes the age in whole milliseconds, and the ids take the clock readings as strings. An unparsable date, which gives `NaN` in JavaScript, is not modelled.
- `detectPIIAsync` in `app/lib/pii-detector.ts`: a timer around `detectPII`.
- `detectPIIAsync` in `app/page.tsx` and the request to `/api/pii`: only its updater, `SetPiiSpans`, is modelled. `ChatPage.HandleSend` does not apply it. The message id it targets reads the clock a second time (`app/page.tsx:141`), so it need not match the final message's id (`:132`).
- `loadConversations`, `loadConversation`, `handleNewConversation`, `handleConversationSelect` and the effects: these are fetches and plain state assignments.
- React scheduling: the updaters queued by the callbacks are applied in order, at once, after the stream.
- `ChatPage.HandleSend`: the guard reads the stream's `isStreaming` at the time of the call, and the conversation-id callback uses the id captured when `handleSend` started, as the source's closure does.
- Characters outside the Basic Multilingual Plane: each `char` is one UTF-16 code unit, and lone surrogates cannot be represented.
- The `ssn` and `credit_card` categories exist in the span type, but no matcher produces them.
- Name precedence and append stability: the code guarantees neither, and the model follows the code (see "Leftmost matching, one pass" above).
- A resolver that guarantees disjoint output, with a `lastAcceptedEnd` cursor, is not modelled. The code compares each span with its sorted predecessor, and the model follows the code.
- Reveal state carried across re-renders by content is not modelled: the code keys segments by position only (`SpoilerText.KeysDistinct`).
- `Spoiler.Title`: the hover text, with no contract.
