# YouTube assistant bot core, modelled in Dafny

The bot takes a YouTube link, fetches the video's transcript, summarizes it and
stores a per-user session. It then answers questions about the video and
translates the summary on request. Every message is rate-limited per user.

This project models the deterministic part of that bot as pure Dafny
functions, and proves what each part promises:

- `chunking.dfy`: the word-window chunker (`chunk_text`).
- `qa_engine.dfy`: the keyword ranker (`_find_relevant_chunk`) and the
  question-answering flow (`answer_question`).
- `rate_limiter.dfy`: the sliding-window rate limiter (`RateLimiter`,
  `check_rate_limit`).
- `session_store.dfy`: the session store (`SessionManager`). It is an
  in-memory map in front of a durable table with expiring rows.
- `helpers.dfy`: truncation, numbered lists, sentence splitting and sentence
  packing.
- `validators.dfy`: the link, blank-input, question and language validators.
- `transcript.dfy`: video-id extraction (`extract_video_id`).
- `settings.dfy`: configuration loading, `Config.validate` and
  `Config.to_dict`.
- `handlers.dfy`: message routing (`handle_message`) and the three handlers
  for links, translation requests and questions.
- `text.dfy`: the Python string operations the code relies on: `split`,
  `join`, `strip`, `lower`, `in`, `split(sep)`, slicing and `str(int)`.
- `errors.dfy`: the exception hierarchy, as one datatype.
- `wrappers.dfy`: `Option` and `Result`.

How the outside world is modelled:

- Time is an integer number of microseconds, passed in as `now`.
- The transcript fetch, the summarizer, the translator and the language model
  are function-valued parameters that may fail.
- Every call made to those services is recorded in the result, and so is
  every reply the bot sends or edits. So "this path never asks the model" is
  a statement about the result.
- A failing durable table is a boolean flag on each store operation. When the
  flag is set, the table is left as it was.

## Model

| member | source | states |
|---|---|---|
| Chunking.ChunkText | core/chunking.py:8-44 | An empty text gives no chunks. A text with fewer words than the chunk size comes back whole, as the original string rather than re-joined. For a longer text, an overlap equal to the chunk size makes `range` raise and the text comes back whole, and a larger overlap gives an empty range and no chunks. The window case is `Chunking.ChunkTextClosedForm`. |
| Chunking.StartIsProduct | core/chunking.py:34 | Window k starts at word k * step, the k-th value of `range(0, N, step)`. |
| Chunking.WindowSlicesClosedForm | core/chunking.py:34-35 | Over a non-empty word list there are ceil(N / step) windows. Window k is the non-empty run of words from k * step up to chunk-size further, cut at the end. |
| Chunking.ChunkTextClosedForm | core/chunking.py:31-37 | A long text has ceil(N / step) chunks. Chunk k is words k * step up to min(k * step + chunkSize, N), joined with single spaces. The blank-chunk filter drops nothing. |
| Chunking.ChunkTextCount | core/chunking.py:31-37 | A long text has exactly ceil(N / step) chunks. |
| Chunking.DefaultChunkingOf800Words | core/chunking.py:8-37 | With the defaults (800 words, 100 overlap), an 800-word transcript gives exactly two chunks. |
| Chunking.ChunkWords | core/chunking.py:34-37 | Every chunk of a long text holds between 1 and chunkSize words. |
| Chunking.ChunkCoverage | core/chunking.py:34-35 | With a non-negative overlap, every word index of a long text lies inside some chunk's window. |
| Chunking.ChunkOverlap | core/chunking.py:32-35 | When chunk k is full size, its last `overlap` words are the first `overlap` words of chunk k + 1. |
| Text.SplitJoin | core/chunking.py:35 | Round trip: joining words with single spaces and splitting on whitespace gives back the words. This is why a chunk re-splits into its window. |
| QaEngine.KeywordHits | core/qa_engine.py:75 | The hit count is at most the number of keywords. It is zero exactly when no keyword occurs in the chunk, and full exactly when every keyword occurs. |
| QaEngine.Keywords | core/qa_engine.py:69 | The keywords are non-empty words without whitespace. There are none exactly when the question is blank. |
| QaEngine.Score | core/qa_engine.py:72-75 | A chunk's score is at most the number of keywords. It is zero exactly when no keyword occurs in the lower-cased chunk, so a blank question scores zero everywhere. |
| QaEngine.TwoKeywordHits | core/qa_engine.py:75 | Hits add up keyword by keyword. |
| QaEngine.KeywordsMatchSubstrings | core/qa_engine.py:69-75 | Keywords match as substrings: the question "cat" scores 1 against "concatenate". |
| QaEngine.BestIndex | core/qa_engine.py:80-81 | The chunk a stable descending sort puts first holds the maximal score, and every earlier chunk scores strictly less. |
| QaEngine.EarliestBestUnique | core/qa_engine.py:80-81 | Only one index can be the earliest maximum, so the choice is determined by the question and the chunks. |
| QaEngine.FindRelevantChunk | core/qa_engine.py:57-83 | There is no result exactly when every chunk scores 0, including when there are no chunks. Otherwise the result is the earliest chunk with the maximal score. |
| QaEngine.RelevantChunkSharesKeyword | core/qa_engine.py:79-81 | A chosen chunk contains at least one of the question's lower-cased words. |
| QaEngine.RelevantChunkIsBest | core/qa_engine.py:80-81 | No chunk scores higher than the chosen one. |
| QaEngine.BlankQuestionHasNoMatch | core/qa_engine.py:69-83 | A whitespace-only question has no keywords, so no chunk is chosen. |
| QaEngine.RankTwoZeroOne | core/qa_engine.py:72-81 | For three lower-case chunks with hits 2, 0 and 1, the scores are [2, 0, 1] and the first chunk is chosen. |
| QaEngine.PricingModelExample | core/qa_engine.py:69-81 | The question "pricing model" scores 2, 0 and 1 against three sample chunks, and the first chunk is chosen. |
| QaEngine.QaPrompt | core/prompts.py:15-26 | The filled prompt holds the context right after the fixed head, and ends with the question and a line break. |
| QaEngine.QaPromptInjective | core/qa_engine.py:43 | For the same question, different contexts give different prompts. |
| QaEngine.AnswerQuestion | core/qa_engine.py:27-54 | An empty question is rejected with a `ModelError` before the chunks are looked at. No chunks gives the fixed "no transcript" answer without a model call. A question that no chunk matches gets "This topic is not covered in the video." without a model call. At most one prompt is ever sent, and any other failure of a non-empty question comes from that one model call. |
| QaEngine.ModelAskedIffRelevant | core/qa_engine.py:27-47 | The model is asked exactly when the question is non-empty and some chunk shares a keyword with it. |
| QaEngine.AnswerComesFromBestChunk | core/qa_engine.py:36-54 | The one prompt carries the best chunk as context. A successful answer is the model's reply; a model failure becomes a `ModelError` with the failure's message. |
| QaEngine.BlankQuestionNotCovered | core/qa_engine.py:36-40 | A non-empty whitespace-only question is answered "not covered" without asking the model. |
| Text.IntToStringInjective | bot/rate_limiter.py:35 | Distinct integer ids print differently, so two users never share a key. |
| RateLimiter.KeysDistinct | bot/rate_limiter.py:35-37 | Distinct users have distinct keys, so their histories never mix. |
| RateLimiter.Prune | bot/rate_limiter.py:40-43 | The kept instants are exactly the ones strictly newer than the window start, with their multiplicities. |
| RateLimiter.PruneKeepsRecent | bot/rate_limiter.py:40-43 | Pruning keeps everything when every instant is inside the window. |
| RateLimiter.PruneDropsStale | bot/rate_limiter.py:40-43 | Pruning drops everything when every instant is outside the window. An instant exactly one minute old is outside. |
| RateLimiter.PruneAscendingIsSuffix | bot/rate_limiter.py:40-43 | On an ascending history, pruning removes a prefix. |
| RateLimiter.IsAllowed | bot/rate_limiter.py:21-52 | A request is allowed exactly when the pruned history holds fewer than the limit. The user's stored history becomes the pruned history, with `now` appended at its end when allowed. The key is always present afterwards. No other user's entry is created, removed or changed. |
| RateLimiter.IsAllowedHistory | bot/rate_limiter.py:31-52 | Counted instant by instant, the history afterwards holds exactly the instants of the last minute, plus `now` once when allowed. A denied attempt is not recorded. |
| RateLimiter.IsAllowedKeepsAscending | bot/rate_limiter.py:40-51 | With a clock that never runs backwards, the stored history stays in ascending order, so pruning it always drops a prefix. |
| RateLimiter.OtherUsersUnaffected | bot/rate_limiter.py:35-52 | A request for one user leaves every other user's history as it was. |
| RateLimiter.IsAllowedKeepsBound | bot/rate_limiter.py:46-52 | With a non-negative limit, no stored history ever grows beyond the limit. |
| RateLimiter.Burst | bot/rate_limiter.py:31-52 | When all requests and recorded instants fall within one window, request j is allowed exactly when the recorded instants plus the j earlier requests stay below the limit. |
| RateLimiter.ThirtyAllowedThenDenied | bot/rate_limiter.py:18-52 | With the default limit of 30, a new user's thirty requests at one instant are allowed and the thirty-first is denied. |
| RateLimiter.QuietWindowAllows | bot/rate_limiter.py:31-52 | Once a full minute has passed since the user's last recorded instant, a request is allowed again. |
| RateLimiter.GetRemaining | bot/rate_limiter.py:54-59 | The remaining quota is the limit minus the length of the stored, unpruned history, or zero when that is not positive. It is never above the limit. |
| RateLimiter.RemainingMeansAllowed | bot/rate_limiter.py:46-59 | A positive remaining quota guarantees that the next request is allowed. |
| RateLimiter.ZeroRemainingYetAllowed | bot/rate_limiter.py:40-59 | The converse fails: the quota counts stale instants, so a quota of zero can still be followed by an allowed request. |
| RateLimiter.RetrySeconds | bot/rate_limiter.py:74 | The wait is half the limit truncated toward zero, or 1 when that is 0. It is never 0. |
| RateLimiter.CheckRateLimit | bot/rate_limiter.py:66-77 | An error is raised exactly when the request is not allowed. It is a `RateLimitError` saying "Too many requests. Try again in N seconds.", with N computed from the configured limit. The limiter state is the one the request left. |
| RateLimiter.DefaultRetryMessage | bot/rate_limiter.py:74-77 | With the default limit, a denied user is told to wait 15 seconds. |
| SessionStore.Save | services/cache.py:46-82 | Memory always gets the data. A working table replaces the user's row, without the link, expiring `expiryHours` after `now`. A failing table keeps its old rows. Other users are untouched. |
| SessionStore.FromRow | services/cache.py:110-113 | A row reads back as its summary and chunks. The link is lost, because the table has no column for it. |
| SessionStore.Get | services/cache.py:84-122 | A memory entry is returned whatever its age. Otherwise a live row is read back as its summary and chunks, cached, and returned. A failing table or a miss returns nothing and changes nothing. Only the user's own memory entry can change, and the table itself is never changed. |
| SessionStore.GetIdempotent | services/cache.py:94-118 | Reading twice gives the same answer, at any later instant and whatever the table does. |
| SessionStore.SaveThenGet | services/cache.py:54-97 | A saved session reads back at any later instant, whether or not either table call failed. |
| SessionStore.SaveOverwrites | services/cache.py:54-75 | A second successful save replaces the first entirely. |
| SessionStore.FailedSaveLeavesStaleRow | services/cache.py:79-82 | When the second save's table write fails, memory holds the new data while the row keeps the old. |
| SessionStore.MemoryIgnoresExpiry | services/cache.py:96-97 | A memory entry is served any number of hours after it was saved. |
| SessionStore.RestartServesLiveRow | services/cache.py:100-116 | After memory is lost, a saved session is served from its row before expiry, without its link. |
| SessionStore.RestartForgetsExpired | services/cache.py:100-118 | After memory is lost, a session is gone once its expiry instant has been reached. |
| SessionStore.DefaultExpiry | services/cache.py:59-118 | With the default 24 hours, a session read exactly 24 hours later, after memory is lost, is absent. |
| SessionStore.ExpiryBoundary | services/cache.py:103-147 | At exactly its expiry instant, a row is neither served (strict `>`) nor cleaned up (strict `<`). |
| SessionStore.Delete | services/cache.py:124-137 | The memory entry is dropped. Unless the table fails, the row is dropped too. Other users are untouched. |
| SessionStore.DeleteIdempotent | services/cache.py:124-137 | Deleting twice is the same as deleting once. |
| SessionStore.DeleteAbsentNoChange | services/cache.py:126-133 | Deleting a user who has no session changes nothing. |
| SessionStore.DeleteThenGet | services/cache.py:124-133 | After a successful delete the user has no session. |
| SessionStore.FailedDeleteResurrects | services/cache.py:126-137 | A delete whose table call fails only clears memory, so a live row is served again on the next read. |
| SessionStore.CleanupExpired | services/cache.py:139-154 | Exactly the rows that expired strictly before `now` are removed. Memory is not touched. A failing table changes nothing. |
| SessionStore.CleanupPreservesReads | services/cache.py:139-154 | Cleanup never changes what a later read returns. |
| Helpers.SafeTruncate | utils/helpers.py:7-26 | Text within the limit comes back unchanged. Longer text becomes `text[:limit]` followed by the truncation marker. |
| Helpers.TruncatedIsPrefixAndMarker | utils/helpers.py:24-26 | A truncated text is a prefix of the original followed by the marker. |
| Helpers.NegativeLimitDropsTail | utils/helpers.py:24-26 | A negative limit counts from the end, as Python slicing does. |
| Helpers.FormatList | utils/helpers.py:27-40 | The result is empty exactly when the list is. |
| Helpers.FormatListLines | utils/helpers.py:37-40 | When no item contains a line break, splitting the result at line breaks gives one numbered line `"<i+1>. <item>"` per item. |
| Helpers.SplitSentencesStructure | utils/helpers.py:57 | Re-joining the pieces with the whitespace runs between them gives back the text. Every piece but the last ends with `.`, `!` or `?`. No piece contains a terminal followed by whitespace. |
| Helpers.SplitSentences | utils/helpers.py:57 | There is at least one piece. No piece contains a terminal followed by whitespace, and every piece but the last is non-empty and ends with `.`, `!` or `?`. |
| Helpers.PackSentences | utils/helpers.py:59-73 | The chunks are the sentences in order, grouped. Each group is one sentence or fits the limit. Each group was closed only because the next sentence did not fit. No chunk is empty. |
| Helpers.ChunkBySentences | utils/helpers.py:41-73 | An empty text has no chunks. Otherwise the chunks are the text's sentences packed greedily in order, and no chunk is empty. |
| Helpers.ChunkLengths | utils/helpers.py:63-68 | Every chunk is at most `maxLength` long, or is a single sentence. |
| Validators.PatternSearchIffContains | utils/validators.py:21-26 | Because the scheme and `www.` are optional, a link pattern is found exactly when its fixed part occurs. |
| Validators.IsYoutubeUrl | utils/validators.py:9-26 | True exactly for a non-empty text containing `youtu.be/`, `youtube.com/watch` or `youtube.com/embed/` anywhere. |
| Validators.LinkInsideSentence | utils/validators.py:26 | The search is unanchored: a link inside a sentence is recognised. |
| Validators.IsEmpty | utils/validators.py:28-38 | True exactly for an absent or whitespace-only value. |
| Validators.ValidateQuestion | utils/validators.py:41-51 | A valid question has at least three characters. The exact condition is `Validators.ValidateQuestionIff`. |
| Validators.ValidateQuestionIff | utils/validators.py:41-51 | A question is valid exactly when its first and last non-space characters are at least two positions apart, i.e. its stripped length is at least 3. |
| Validators.ValidateLanguage | utils/validators.py:53-67 | A valid language name has at least two characters. The exact condition is `Validators.ValidateLanguageIff`. |
| Validators.ValidateLanguageIff | utils/validators.py:53-67 | A language name is valid exactly when it is a run of two or more letters with only whitespace around it. |
| Validators.TwoWordLanguageRejected | utils/validators.py:66-67 | "New York" is rejected: the inner space is not a letter. |
| Transcript.CaptureAt | core/transcript.py:26 | The pattern matches at a position exactly when one of its alternatives is followed there by eleven id characters. The capture is then an id. |
| Transcript.Search | core/transcript.py:32 | The search finds a capture exactly when the pattern matches somewhere. The capture is eleven id characters. |
| Transcript.SearchLeftmost | core/transcript.py:32-36 | The capture comes from the leftmost matching position. |
| Transcript.SearchContained | core/transcript.py:32-36 | A capture is a piece of the link. |
| Transcript.FirstPattern | core/transcript.py:31-36 | Trying the patterns in order finds something exactly when one of them matches, and the result is that pattern's capture. |
| Transcript.LaterPatternsImplyFirst | core/transcript.py:25-29 | Any match of the short-link or embed pattern contains a match of `/` followed by the same eleven characters. |
| Transcript.FirstPatternDecides | core/transcript.py:25-36 | The result is always the first pattern's: the other two never decide. |
| Transcript.ExtractVideoId | core/transcript.py:19-38 | An empty input fails as an invalid link. A match gives an eleven-character id that occurs in the link. The input fails as "could not extract" exactly when no position matches. |
| Transcript.ShortLinkId | core/transcript.py:26-36 | A short link yields its id. Characters after the eleventh are ignored. |
| Transcript.WatchLinkId | core/transcript.py:26-36 | A watch link yields the id after `v=`, because every earlier slash is followed by a non-id character. |
| Settings.Load | config/settings.py:18-40 | The provider name is lower-cased, with "google" as the default. An unset token stays unset. An unset model name takes its default. |
| Settings.ConfigErrors | config/settings.py:48-62 | Every check runs. A token error is present exactly when the token is missing or empty, and it comes first. A key error is present exactly when the chosen provider lacks its key. An invalid-provider error is present exactly for any other provider. |
| Settings.Validate | config/settings.py:42-69 | Validation passes exactly when the token is set and the chosen provider has its key. Otherwise it fails with a `ConfigurationError` listing every problem. |
| Settings.ValidationMessageLines | config/settings.py:64-69 | The error message splits into the header line, one line per problem, and the footer line. |
| Settings.EmptyEnvironmentErrors | config/settings.py:48-62 | An empty environment fails with exactly two problems: no token and no Google key. |
| Settings.ProviderCaseInsensitive | config/settings.py:21 | Provider names that differ only in letter case validate identically. |
| Settings.ToDict | config/settings.py:71-80 | The public view has exactly five keys: provider, model name, log level, database URL and request timeout. Each carries the matching configuration value. |
| Settings.ToDictHidesSecrets | config/settings.py:72-80 | The public view has no key for the token or either API key, and does not change when any secret changes. |
| Handlers.HandleMessage | bot/handlers.py:18-50 | The rate limit is checked before routing. A denied message gets only the wait notice, and nothing is stored or called. An allowed message gets exactly the outcome of the video handler when it holds a link, else of the translation handler when it starts with "summarize in", else of the question handler. |
| Handlers.HandleYoutubeUrl | bot/handlers.py:53-105 | A blank link gets the invalid-link reply. Otherwise the transcript is fetched first. A failed fetch or summary gets its error reply and changes nothing. When both succeed, the session is saved with the summary, the default chunks and the link, and the summary replaces the processing notice. |
| Handlers.EmptyGuardUnreachable | bot/handlers.py:31-58 | The video handler's blank-input guard can never fire, because a recognised link is never blank. |
| Handlers.FailedVideoKeepsSession | bot/handlers.py:66-75 | A failed fetch or summary leaves the store as it was, so an earlier session is still served. |
| Handlers.QuestionAfterVideo | bot/handlers.py:66-165 | After a processed video, a question from the same user is answered from that video's chunks, whatever the table does. |
| Handlers.HandleTranslation | bot/handlers.py:107-147 | Without a session, or with a blank language, the bot replies and translates nothing. Otherwise it translates the stored summary exactly once, into the parsed language, and the translation or the failure notice follows the "translating" notice. |
| Handlers.LanguageOf | bot/handlers.py:118 | The language never contains "in", and it neither starts nor ends with whitespace. |
| Handlers.LanguageWithoutMarker | bot/handlers.py:118 | Without any "in", the language is the whole text, stripped. |
| Handlers.LanguageAfterLastMarker | bot/handlers.py:118 | The language is the stripped text after the last "in". |
| Handlers.HindiBecomesDi | bot/handlers.py:118 | "Summarize in Hindi" asks for the language "di", because the "in" inside "Hindi" is the last one. |
| Handlers.NoLanguageGiven | bot/handlers.py:118-124 | "Summarize in" with nothing after it gets the example prompt, and nothing is translated. |
| Handlers.HandleQa | bot/handlers.py:150-183 | The missing-session check comes before the blank-question check, and both skip the model. Otherwise the engine answers from the stored chunks: its prompts are the model calls, and its answer or error becomes the one reply. |
| Handlers.IsTranslationRequest | bot/handlers.py:34 | A message is a translation request exactly when its first twelve characters, lower-cased, spell "summarize in". |
| Handlers.SessionCheckedBeforeQuestion | bot/handlers.py:153-161 | Without a stored session, even a blank question gets the no-video reply, and the model is never asked. |
| Handlers.BlankQuestionNotAsked | bot/handlers.py:159-161 | A blank question never reaches the question-answering engine. |

## Behaviour worth knowing

The model follows the code, including where the code does something a reader
might not expect:

- `get_user_data` promises `None` for expired sessions, but a memory hit is
  returned without any expiry check. Only rows read from the table are
  checked.
- An overlap at least as large as the chunk size: equal sizes make `range`
  raise, and the chunker returns the whole text; a larger overlap gives no
  chunks.
- `get_remaining` counts the stored history without pruning it first, so it
  can report zero for a user whose next request is allowed.
- The short-link and embed patterns of `extract_video_id` can never decide
  the result.

## Left out

- Telegram transport, `bot/telegram_bot.py`, `bot/commands.py`, `main.py` and
  `app.py`: I/O plumbing. Replies are recorded as a list instead of being sent,
  and a failure to send is not modelled.
- `services/llm_service.py`, `core/summarizer.py`, `core/language.py` and
  `fetch_transcript`: network wrappers. They are parameters that may fail.
- `services/youtube_service.py`: modelled inline as the fetch parameter
  followed by `chunk_text` with its defaults. It turns unexpected failures into
  a `TranscriptError`, and that wrapping is part of the fetch parameter.
- SQLite, `json` and `datetime`:
  - the durable table is a map;
  - the JSON round trip of the chunks is taken as the identity;
  - both `datetime.now()` calls in one save are the same instant;
  - database initialisation and its `DatabaseError` are not modelled.
- Environment loading and `int()` parsing at import: integer settings arrive
  already parsed.
- Logging: it has no effect on results.
- The `isinstance` checks: Dafny's types already rule out non-string inputs.
  The same goes for a message whose text is absent, which in the code ends in
  the generic "unexpected error" reply of `handle_message`.
- The `BotException` and generic `Exception` branches of `handle_message`:
  the three handlers catch every exception themselves, so only the
  rate-limit error reaches `handle_message`.
- Concurrency and `async`: there is no locking, so everything is sequential.
- Unicode: characters are ASCII. `lower`, `isalpha`, `isspace` and `split`
  use their ASCII behaviour.
- RateLimiter.RetrySeconds: computes `int(m / 60 * 30)` with exact division
  instead of floating point, so the rounding of the float product is not
  modelled.
- Validators.ValidateQuestion: its own contract only bounds the input length.
  The full characterisation is `Validators.ValidateQuestionIff`.
- Validators.ValidateLanguage: its own contract only bounds the input length.
  The full characterisation is `Validators.ValidateLanguageIff`.
- Helpers.FormatList: its own contract only says when the result is empty.
  The line-by-line content is `Helpers.FormatListLines`, stated for items
  without line breaks.
