# quote-speaker core, modelled in Dafny

quote-speaker is a Discord bot that reads text aloud in a voice channel.
Users can give it text, or an image from which Google Vision reads the text.
It synthesises speech with VOICEVOX: the external VOICEVOX web service first, a
local VOICEVOX engine in a Docker container as a fallback. The repository
holds two near-identical copies of the engine: `dist_unified/index.js` and
the top-level `index.js`. Most of each file is Discord, HTTP and Vision glue.
This project models the logic between the glue:

- **Playback** (`playback.dfy`). The per-guild playback state: the queue,
  `isPlaying`, and the item being played. It covers `processQueue`,
  `playAudio`, the audio player's `Idle` and `error` handlers, and the `s`
  (skip) and `ss` (stop all) messages.
  - Each queued item is named by a number and carries the state of the
    promise that `playAudio` returned: pending, resolved or rejected.
  - The audio player is abstract: what it is asked to do is recorded, and its
    events are methods the environment calls.
  - The classes keep the invariant that items are played in the order they
    were queued, one at a time, and that each promise is settled at most once.
- **Engine** (`engine.dfy`). The Docker controller for the local engine
  (`controlContainer` and the flag `isContainerRunning`), the tier choice of
  `generateVoicevoxAudio`, and the startup check.
  - Every HTTP request is replaced by its outcome, given as input.
  - Each call reports the result and the trace of outside calls it made.
- **Dictionary** (`dictionary.dfy`). `applyDictionary`: keys are stably sorted
  longest first, and each key then replaces its occurrences literally and
  globally.
- **OCR cleanup** (`ocr_cleanup.dfy`). `cleanOCRText`: trimming, removal of
  zero-width characters and URLs, fixed misreading corrections, and collapsing
  runs of `w`.
- **Quote lines** (`quote_lines.dfy`). Recognising a "Make it a Quote" image,
  and the rules A to D that drop its branding, signature, handle and
  display-name lines.
- **Limits** (`limits.dfy`). The 200-character cap on spoken text, the
  2000-character cap on the reply, and the splitting of the `/dict list` reply
  into chunks of at most 1900 characters.
- **Shared JavaScript semantics** (`jstext.dfy`). The whitespace set that
  `String.prototype.trim` and `\s` use, and literal global replacement.

The two copies differ in a few places, and the model takes the copy as a
parameter (`Variant`, `guardFinal`). Where they agree, one definition models
both and the table cites both.

- `dist_unified/index.js:115` also accepts "Fake Quote Maker". Any text it
  matches also matches the shared "Quote Maker" alternative, so both copies
  classify images the same way (`QuoteLines.QuoteDetectionAgrees`).
- `dist_unified/index.js:185` also drops a line that reads `(Fake)`.
- Both copies drop lines that start with `|`: `index.js:162` reads `^[-—|]`,
  like `dist_unified/index.js:188`.
- `cleanOCRText` is written as successive reassignments in one copy and as one
  chained expression in the other. The replacements and their order are the
  same, so one function models both.
- The final push of the chunk loop is guarded in one copy and not in the
  other. The chunk being built is never empty at that point, so both give the
  same chunks (`Limits.ChunkEntries`).
- At `index.js:159` the line filter calls `getLineText`, which that file never
  defines. The model takes a line's text to be the join of its words, as
  `dist_unified/index.js:175` does.

## Model

| member | source | states |
|---|---|---|
| JsText.TrimStart | index.js:33 | the result is the suffix left after dropping leading whitespace: everything dropped is whitespace, and it does not start with whitespace |
| JsText.TrimEnd | index.js:50 | the result is the prefix left after dropping trailing whitespace: everything dropped is whitespace, and it does not end with whitespace |
| JsText.TrimSpec | dist_unified/index.js:37 | `trim` returns a slice of its input that neither starts nor ends with whitespace; only whitespace is cut on either side |
| JsText.TrimEnds | dist_unified/index.js:66 | the trimmed string neither starts nor ends with whitespace |
| JsText.TrimIdempotent | dist_unified/index.js:66 | trimming twice gives the same string as trimming once |
| JsText.ReplaceAllChars | dist_unified/index.js:517 | every character of a global replacement comes from the text or from the replacement |
| JsText.ReplaceAbsent | dist_unified/index.js:517 | replacing a key that does not occur leaves the text unchanged |
| JsText.ReplaceSelf | dist_unified/index.js:517 | replacing a key by itself leaves the text unchanged |
| JsText.ReplaceAllLength | dist_unified/index.js:516-517 | replacing a non-empty key by text no longer than it never lengthens the text, and by text no shorter never shortens it |
| JsText.ReplaceFirst | dist_unified/index.js:516-517 | matching is left to right and never overlaps: the text before the first occurrence of the key is kept, that occurrence becomes the replacement, and scanning resumes right after it |
| JsText.SubsequenceOfSuffix | index.js:37 | what is kept from a suffix of a text is also kept, in order, from the whole text |
| Dictionary.InsertByLengthCount | dist_unified/index.js:510 | inserting one entry adds exactly that entry (as a multiset), and puts either it or the old first entry in front |
| Dictionary.LongestFirstCons | dist_unified/index.js:510 | a sequence with a first entry is longest-first exactly when no later key is longer than the first key and the rest is longest-first |
| Dictionary.InsertKeysAtMost | dist_unified/index.js:510 | inserting an entry no longer than a bound into entries no longer than that bound keeps every key within it |
| Dictionary.InsertByLengthOrdered | dist_unified/index.js:510 | inserting into a longest-first sequence gives a longest-first sequence |
| Dictionary.InsertByLengthFacts | dist_unified/index.js:510 | inserting one entry adds exactly that entry (as a multiset) and keeps a longest-first order longest-first |
| Dictionary.SortByKeyLength | dist_unified/index.js:510 | the sorted keys are as many as the dictionary entries |
| Dictionary.SortByKeyLengthFacts | dist_unified/index.js:510 | the key sort is a permutation of the dictionary, with no key shorter than a key after it |
| Dictionary.InsertKeepsLengthClasses | dist_unified/index.js:510 | inserting an entry keeps the relative order of the entries whose keys have a given length |
| Dictionary.SortIsStable | index.js:440 | the sort is stable: entries with keys of equal length keep their dictionary order |
| Dictionary.ApplyDictionary | dist_unified/index.js:505-520 | the loop returns empty text unchanged, applies every key's replacement in sorted order otherwise, and is the identity for an empty dictionary |
| Dictionary.ApplyIdentityEntries | index.js:442-447 | replacements that map each key to itself change nothing |
| Dictionary.IdentityDictionary | index.js:435-449 | a dictionary whose every reading equals its word leaves every text unchanged |
| Dictionary.ApplyAbsentEntries | index.js:442-447 | replacements whose keys do not occur in the text change nothing |
| Dictionary.NoWordOccurs | dist_unified/index.js:505-520 | text that contains none of the dictionary's words comes back unchanged |
| OcrCleanup.RemoveZeroWidthChars | dist_unified/index.js:40 | removing U+200B to U+200D and U+FEFF keeps only characters of the text, none of them zero-width |
| OcrCleanup.SchemeLengthMeans | dist_unified/index.js:43 | a URL is recognised exactly where the text starts with `https://` or `http://`, and the scheme length says which |
| OcrCleanup.NonSpaceRun | dist_unified/index.js:43 | `\S+` consumes the longest run of non-whitespace characters: everything consumed is non-whitespace and the next character, if any, is whitespace |
| OcrCleanup.RemoveUrls | dist_unified/index.js:43 | removing URLs never lengthens the text |
| OcrCleanup.RemoveUrlsChars | index.js:37 | every character left after removing URLs occurs in the text |
| OcrCleanup.RemoveUrlsSubsequence | dist_unified/index.js:43 | the text left after removing URLs is an in-order subsequence of the original: only deletions happen |
| OcrCleanup.RemoveUrlsHead | dist_unified/index.js:43 | the leading non-whitespace run of the result is also a prefix of the input, so removal never joins characters into a new leading word |
| OcrCleanup.UrlAtAgrees | dist_unified/index.js:43 | whether a URL starts at the front depends only on the leading non-whitespace run |
| OcrCleanup.RemoveUrlsSpaceFront | dist_unified/index.js:43 | a text starting with whitespace keeps that whitespace character in front |
| OcrCleanup.RemoveUrlsAfterUrl | dist_unified/index.js:43 | after a URL is removed, the rest starts with whitespace or is empty, since `\S+` took the whole run |
| OcrCleanup.RemoveUrlsLeavesNone | index.js:37 | no `http://` or `https://` URL starts at any position of the result: removal is complete, and never creates a new URL by joining pieces |
| OcrCleanup.ReplaceAfterChars | dist_unified/index.js:46-47 | every character of the result comes from the text or from the replacement |
| OcrCleanup.ReplaceAfterFirst | dist_unified/index.js:46-47 | at the first place where a character of the class is followed by the pattern, that character is kept, the pattern becomes the replacement, and scanning resumes after it; the text before is unchanged |
| OcrCleanup.ReplaceAfterAbsent | dist_unified/index.js:64 | when no character of the class is followed by the pattern, the text is unchanged |
| OcrCleanup.LeadW | dist_unified/index.js:51 | the number of leading `w`/`W` characters: all of them are `w`/`W`, and the next character is not |
| OcrCleanup.CollapseW | dist_unified/index.js:51 | collapsing runs of `w` never lengthens the text |
| OcrCleanup.CollapseWChars | index.js:41 | collapsing runs of `w` adds no character except `w` |
| OcrCleanup.CollapseLeadW | index.js:41 | after collapsing, a leading run of three or more `w`/`W` has become exactly three; shorter runs are unchanged |
| OcrCleanup.CollapseRunsShort | dist_unified/index.js:51 | after collapsing, no suffix starts with four `w`/`W` characters |
| OcrCleanup.CollapseIdempotent | dist_unified/index.js:51 | collapsing twice gives the same text as collapsing once |
| OcrCleanup.StripLeadingNoise | dist_unified/index.js:54 | `^[0°]+` removal returns a suffix of the text that does not start with `0` or `°` |
| OcrCleanup.RunsShortMeansNoRunOf4 | index.js:41 | the suffix-by-suffix statement is equivalent to "no position starts four `w`/`W` characters" |
| OcrCleanup.ReplaceAllRunsShort | dist_unified/index.js:58-62 | a literal replacement by text without `w` creates no run of four `w` and does not lengthen the leading run |
| OcrCleanup.ReplaceAfterRunsShort | dist_unified/index.js:64 | a replacement after a non-`w` character, by text without `w`, creates no run of four `w` |
| OcrCleanup.TrimChars | dist_unified/index.js:66 | trimming only deletes characters |
| OcrCleanup.EarlyFixesNoZeroWidth | dist_unified/index.js:40-51 | after the replacements up to the `w` collapse, no zero-width character is left |
| OcrCleanup.LateFixesChars | dist_unified/index.js:54-64 | the later replacements add only characters of their fixed replacements |
| OcrCleanup.EarlyFixesRunsShort | dist_unified/index.js:40-51 | after the `w` collapse, no run of four `w` exists |
| OcrCleanup.LateFixesRunsShort | index.js:45-48 | the replacements after the `w` collapse create no run of four `w` |
| OcrCleanup.TrimRunsShort | index.js:50 | trimming creates no run of four `w` |
| OcrCleanup.CleanOcrTextTrimmed | index.js:29-50 | `cleanOCRText` returns a string with no leading or trailing whitespace |
| OcrCleanup.CleanOcrTextNoZeroWidth | index.js:36 | the output of `cleanOCRText` holds no U+200B to U+200D or U+FEFF character |
| OcrCleanup.LateConstantsNoZeroWidth | index.js:46-48 | the fixed replacement strings hold no zero-width character |
| OcrCleanup.CleanOcrTextNoRunOf4 | index.js:41 | the output of `cleanOCRText` holds no run of four or more `w`/`W` characters |
| QuoteLines.FakeImpliesQuoteMaker | dist_unified/index.js:115 | text that matches `Fake\s*Quote\s*Maker` also matches `Quote\s*Maker` |
| QuoteLines.QuoteDetectionAgrees | index.js:99 | the two copies' quote-image checks agree on every text |
| QuoteLines.FilterLines | index.js:159-167 | the filter returns at most as many lines as it is given |
| QuoteLines.FilterLinesLoop | dist_unified/index.js:177-204 | the loop's `validLines` is the filter's result: the lines whose verdict is to keep them, in order |
| QuoteLines.OrdinaryImageKeepsAllLines | index.js:160 | for an image that is not a quote image, the filter returns every line unchanged |
| QuoteLines.SelectIndices | dist_unified/index.js:203 | the selected lines are exactly the lines whose verdict is true, at strictly increasing positions |
| QuoteLines.FilterIsOrderedSelection | index.js:159-167 | the filter returns an order-preserving subsequence that keeps a line exactly when rules A to D let it through |
| QuoteLines.KeptLinesAreClean | index.js:161-163 | of a quote image, no kept line matches the branding, starts with `-`, `—` or `|`, or starts with `@` |
| QuoteLines.FilterVariantsAgree | dist_unified/index.js:182-200 | without a `(Fake)` line, both copies' filters give the same lines |
| Limits.Ellipsize | dist_unified/index.js:904-905 | the result fits the limit; shorter text is unchanged; longer text becomes its first limit-3 characters and `...` |
| Limits.EllipsizeIdempotent | index.js:703 | truncating twice gives the same text as truncating once |
| Limits.SpeechText | dist_unified/index.js:915 | a segment over 200 characters becomes its first 197 and `...`, exactly 200; shorter segments are unchanged; only empty text becomes empty |
| Limits.ReplyMessage | index.js:692-695 | the reply is `文章：` and the text when that fits in 2000 characters; otherwise exactly 2000 characters, ending in `...` |
| Limits.SpokenSegments | index.js:700-706 | the segments spoken are at most as many as given, each non-empty and at most 200 characters |
| Limits.NonEmptyIndices | dist_unified/index.js:911-921 | the positions of the segments that are spoken: as many as at most the segments, each a valid position |
| Limits.NonEmptyIndicesFacts | dist_unified/index.js:911-921 | the positions are strictly increasing, and a position is listed exactly when its segment is not empty |
| Limits.SpokenSegmentsAt | index.js:700-706 | the j-th spoken text is the 200-character form of the j-th non-empty segment |
| Limits.SpokenSegmentsSelect | dist_unified/index.js:911-921 | the loop speaks, in order, the 200-character form of every non-empty segment and of nothing else, skipping exactly the empty ones |
| Limits.FormatEntry | dist_unified/index.js:979 | a listed line is the word, then ` -> `, then the reading, and nothing else, so its length is theirs plus four |
| Limits.ChunksFrom | index.js:772-778 | at least one chunk is produced, and the first starts with the chunk being built |
| Limits.ChunkEntries | dist_unified/index.js:984-993 | the chunk loop, with or without the final guard, returns the chunks of the entries |
| Limits.Chunks | index.js:770-779 | the chunk loop produces at least one chunk, and the first opens with the header `登録単語一覧:` |
| Limits.ListReply | dist_unified/index.js:979-993 | `/dict list` replies at least once; an empty dictionary gets exactly the notice `辞書は空です。`; otherwise the reply is the chunks of the formatted entries |
| Limits.ListReplyContents | index.js:765-779 | for a non-empty dictionary the first message opens with the header, the messages joined are the header and every entry as `word -> reading` with its newline, and every message fits in 1900 characters exactly when every entry's line is under 1900 characters |
| Limits.ChunksFromConcat | index.js:770-779 | the chunks joined are the chunk being built followed by every entry and its newline |
| Limits.ChunksConcat | index.js:770-779 | nothing is lost or added: the chunks joined are the header followed by every entry and its newline |
| Limits.ChunksFromBounded | dist_unified/index.js:987-991 | every chunk fits in 1900 characters exactly when every entry is under 1900 characters |
| Limits.ChunksBounded | index.js:773 | every chunk fits in 1900 characters exactly when no entry is longer than 1899 characters |
| Limits.ChunksFromGreedy | dist_unified/index.js:987-989 | no chunk is empty, and each chunk after the first was started because the previous chunk plus the next entry and newline would have exceeded 1900 characters |
| Limits.ChunksGreedy | index.js:773-776 | the first chunk starts with the header, no chunk is empty, and each later chunk was started because appending its first entry to the previous chunk would have exceeded 1900 characters |
| Limits.ChunkCuts | index.js:772-778 | there are cut positions such that the first chunk is the chunk being built plus the entries before the first cut, each later chunk is exactly the entries between its cut and the next, each cut is where the previous chunk plus that entry overflows, and the first chunk, once it holds an entry, and every later chunk holding more than one entry fit in 1900 characters |
| Limits.ChunksBreakBetweenEntries | dist_unified/index.js:984-993 | the chunks break only between whole entries, at strictly increasing positions: the first is the header and the entries before the first break, each later one the entries from its break to the next, a break happens only where appending would pass 1900 characters, and the first chunk, once it holds an entry, and every later chunk holding more than one entry fit in 1900 characters |
| Engine.ParseAction | dist_unified/index.js:248 | only `start` and `stop` name an action |
| Engine.ControlStep | dist_unified/index.js:247-277 | a request is made only when the action differs from the flag; success or 304 sets the flag to whether the action was `start`; any other error leaves it unchanged; the 5 s wait follows only a successful start |
| Engine.ControlIdempotent | index.js:214-215 | repeating an action that did not fail makes no request and changes nothing |
| Engine.LocalPathFacts | dist_unified/index.js:324-351 | the fallback always queries and synthesises only after a good query; it starts the engine only when the flag says it is down; a failed start is swallowed; it never stops the engine or calls the external service |
| Engine.RouteLowPointsLocal | dist_unified/index.js:288-290 | with points known and below 1000, the external service is never tried and the local engine is queried |
| Engine.RouteExternalFirst | dist_unified/index.js:284-302 | otherwise the external service is tried first, after a stop issued exactly when the points are at least 1000 and the flag says running |
| Engine.RouteResult | index.js:242-287 | the external stream is returned exactly when it is tried and succeeds; the local engine is reached exactly when it is not; the local stream is returned exactly when both local requests succeed |
| Engine.FailedStartSwallowed | dist_unified/index.js:326-328 | when the fallback's start fails, the query, and after a good query the synthesis, are still attempted |
| Engine.StartupCheck | dist_unified/index.js:529-537 | a stop is issued at startup exactly when more than 1000 points are known and the flag says running |
| Engine.ThresholdsDifferOnlyAt1000 | index.js:251-256 | the router and the startup check disagree about stopping a running engine at exactly 1000 points and nowhere else |
| Engine.Controller.constructor | dist_unified/index.js:231 | the flag starts out "running" and no request has been made |
| Engine.Controller.ControlContainer | index.js:210-240 | the flag and the recorded requests change as one controller step says; an unknown action changes nothing |
| Engine.Controller.GenerateAudio | dist_unified/index.js:279-353 | the result, the trace and the new flag are those of the router, and exactly the Docker requests in the trace are recorded |
| Engine.Controller.LocalFallback | index.js:276-286 | the local step's result, trace and flag are those of the fallback, with its Docker requests recorded |
| Engine.Controller.Startup | index.js:458-465 | the flag and the requests change as the startup check says |
| Playback.Settle | dist_unified/index.js:369-370 | settling changes only a pending promise; a settled promise keeps its outcome |
| Playback.InvInitial | dist_unified/index.js:360-365 | a fresh state satisfies the queue invariant |
| Playback.InvStart | index.js:334-337 | taking the head of the queue to play keeps the invariant |
| Playback.InvPush | index.js:356-360 | queuing a new pending item keeps the invariant |
| Playback.InvFinish | index.js:303-306 | settling the current item and clearing it keeps the invariant |
| Playback.InvDrop | index.js:556 | discarding the queue keeps the invariant, with the discarded items pending forever |
| Playback.GuildPlayer.constructor | dist_unified/index.js:359-365 | the fresh state has an empty queue, is not playing and has no current item |
| Playback.GuildPlayer.ProcessQueue | dist_unified/index.js:391-404 | on an empty queue it only clears `isPlaying` and plays nothing; otherwise it removes exactly the head, makes it current, sets `isPlaying` and plays it |
| Playback.GuildPlayer.Enqueue | dist_unified/index.js:422-432 | the item is appended with a pending promise; it is played at once only when nothing was playing, and the current item is never replaced |
| Playback.GuildPlayer.OnIdle | dist_unified/index.js:367-374 | the current item is resolved, then the queue advances as in `processQueue` |
| Playback.GuildPlayer.OnError | dist_unified/index.js:376-384 | the current item is rejected, then the queue advances as in `processQueue`, so a failed item does not stall the ones behind it |
| Playback.GuildPlayer.StopAll | dist_unified/index.js:656-663 | the queue is emptied and its items are never settled; the player is stopped only if it is playing |
| Playback.GuildPlayer.Skip | dist_unified/index.js:668-673 | the player is stopped only if it is playing; the queue is untouched |
| Playback.Registry.constructor | index.js:289 | no guild has a state yet |
| Playback.Registry.GetGuildAudioPlayer | index.js:291-323 | a state is created only for a guild that has none; later calls return the same state |
| Playback.Registry.PlayAudio | dist_unified/index.js:407-433 | without a connection it fails and changes nothing; otherwise it returns the guild's next item number, keeps an existing guild state and creates a new, fresh one only if missing, marks the item pending, and either appends it to the queue (when something plays, with the current item and player calls unchanged) or plays it at once (when idle, with the queue empty and one `play` call added) |
| Playback.Registry.StopCommand | index.js:554-571 | exactly `ss`, `ｓｓ`, `s` and `ｓ` are handled; the guild state is kept or, if missing, freshly created; `ss`/`ｓｓ` empty the queue, stop the player only if it plays, and react ⏹️; `s`/`ｓ` keep the queue, stop the player only if it plays, and react ⏭️ only then; promises, the current item and the playing flag are untouched until the player reports; any other message changes nothing |
| Playback.Registry.StopAllCommand | dist_unified/index.js:656-663 | the guild's state is kept or freshly created, its queue is emptied, a stop call is added only when something is playing, and nothing else of the state changes |
| Playback.Registry.SkipCommand | dist_unified/index.js:668-673 | the guild's state is kept or freshly created, the queue is kept, a stop call is added and ⏭️ returned only when something is playing, and nothing else of the state changes |

## Left out

- Discord glue is not modelled: the client, command registration, event
  routing, replies and reactions other than the `s`/`ss` answer, auto-read
  state and voice-state handling. The undeclared `isMention` in the message
  handler of `dist_unified/index.js` is part of this glue.
- The network and other processes are not modelled. Requests to the external
  VOICEVOX service, the local engine, the Docker socket and Google Vision are
  replaced by their outcomes, given as inputs. Audio streams and the
  `speakerId` parameter carry no information in the model.
- The points query is taken to give `Some(points)` or `None` (failed). A
  response without a numeric `points` field is not modelled. In the source,
  such a response makes the router stop a running engine and try the external
  service, while the startup check leaves the engine alone.
- Engine.Controller.GenerateAudio: the stop request in the router is not
  awaited in the source. The model treats it as done before the external
  attempt and ignores interleavings with other calls.
- Engine.Controller.ControlContainer: the 5 s wait after a successful start is
  recorded only as the `waited` result. Timers are not modelled.
- Floating-point OCR geometry is not modelled: the spatial filtering, size
  estimates, the reading-order sort and line grouping. The line filter takes
  the already grouped line texts.
- Dictionary persistence (`loadDictionary` and `saveDictionary`, file and
  JSON handling) is not modelled. The dictionary is the sequence of its
  entries in `Object.keys` order.
- Dictionary.ApplyDictionary: replacement values are taken literally. `$`
  patterns in a reading, which `String.prototype.replace` would expand, are
  not modelled.
- JavaScript strings are UTF-16 code units; the model's strings are sequences
  of Unicode scalar values. Lengths, and so the 30-, 200-, 1900- and
  2000-character limits, differ for characters outside the Basic Multilingual
  Plane.
- Playback: voice-connection subscription (`connection.subscribe`) and the
  audio library's own state are not modelled. `Idle` and `error` are events
  the environment invokes, and the resource is named by its item number.
- Limits.SpokenSegments: a failed synthesis or playback throws out of the
  segment loop, so the remaining segments are not spoken. The `try` at
  `index.js:688` and `dist_unified/index.js:899` wraps the whole loop; the
  model gives the segments spoken when every call succeeds.
- Playback.Registry.StopCommand: the audio library may report `Idle`
  synchronously inside `stop()`. The model records the stop call and leaves
  the `Idle` event to a later `OnIdle` call, so the item is settled and the
  queue advances there.
- Playback.Registry.PlayAudio: returns the item's number, whose promise lives
  in the guild state, instead of a promise object.
- Guild state is never removed and pending items are never rejected when the
  bot leaves a channel. The source has no such path, so neither does the
  model.
- `reproduce_issue.js` is not part of this model. It is a debugging script
  that reads a fixed image, calls Vision, and uses a text cleaner the bot
  does not use.
