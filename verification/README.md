# yt_summary pipeline core, in Dafny

This project models the core of a YouTube summariser, a map-reduce pipeline:

1. The transcript text is normalised (`clean_text`).
2. It is cut into overlapping windows of bounded size, snapped to sentence ends where possible (`split_into_chunks`).
3. Each window becomes a chunk record: a 1-based id, its first and last `MM:SS`/`HH:MM:SS` token, and its length.
4. The map stage makes one language-model call per chunk. A failure becomes a record with `success` false, so the batch never aborts.
5. The reduce stage keeps the successful summaries as `[start - end]` blocks and makes one more call. If that call fails, it falls back to a fixed document that holds the blocks verbatim.
6. Two helpers feed the pipeline: a URL parser for video ids and a `[ts] text` transcript formatter.

Modules, one per source file, plus two shared ones:

| module | file | models |
|---|---|---|
| `Wrappers` | wrappers.dfy | `Option` |
| `Strings` | strings.dfy | ASCII whitespace, `str.strip`, `str.join`, `str.split` on one character, `str(n)` and `f"{n:02d}"` |
| `TextProcessing` | text_processing.dfy | `TextProcessor` (src/utils/text_processing.py) |
| `Generation` | generation.dfy | one `generate` call of `BaseLLMProvider` (src/providers/base_provider.py) as a request and an outcome |
| `Chunking` | chunking.dfy | `ChunkingAgent` (src/agents/chunking_agent.py) |
| `Summarization` | summarization.dfy | `SummarizationAgent` (src/agents/summarization_agent.py) |
| `Synthesis` | synthesis.dfy | `SynthesisAgent` (src/agents/synthesis_agent.py) |
| `YouTube` | youtube.dfy | `YouTubeExtractor.extract_video_id` and `format_transcript` (src/utils/youtube_extractor.py) |

The language-model backend is an oracle.
- The outcome of each call is a parameter: `Ok(text)`, or `Err(message)` for an exception.
- The map stage takes one outcome per chunk. Synthesis takes one outcome.
- The methods also return the `Request` they issued, so the contracts can say what each call was sent.

The loops of the source are methods:
- `SplitIntoChunks`
- `ChunkTranscript`
- `SummarizeAllChunks`
- `Synthesize`
- `FormatTranscript`

Each method is proved equal to a specification function, and the properties are proved about that function. The agents hold only settings that are never changed after construction. They are therefore values (`ChunkingAgent`) or are left implicit (the provider), not classes.

`split_into_chunks` has no loop guard of its own. The model states a condition under which it terminates on every text, as the predicate `TextProcessing.SplitTerminates`. For `max_chunk_size >= 1` the condition is exact:
- the text is no longer than `max_chunk_size`;
- or the text is empty;
- or `max_chunk_size >= 1` and `overlap < MinAdvance(max_chunk_size)`.

`MinAdvance(m)` is the least distance one window can move the cursor. It is `m - 199` for `m > 200`, and `min(m, 2)` otherwise. A terminator found by `rfind` lies at most at `end - 2`, so a snapped end is at least `max(end - 199, start + 2)`. The condition is sufficient: `SplitIntoChunks` requires it. For `max_chunk_size >= 1` it is also necessary: for any larger overlap, `CursorStalls` gives a text on which the first window sends the cursor back to 0 or before. At exactly 0 the loop repeats the same window forever. Before 0, Python's negative indices take over, and the model does not follow them. For `max_chunk_size <= 0` the condition only admits texts that fit, although the source can terminate on longer ones too (see "## Left out"). The sizes the command line uses (4000 and 200) satisfy it.

## Model

| member | source | states |
|---|---|---|
| TextProcessing.CollapseWs | src/utils/text_processing.py:21 | `re.sub(r'\s+', ' ', text)`: a non-empty input gives a non-empty result that starts with whitespace exactly when the input does; the only whitespace left is single spaces, never two side by side (non-whitespace kept: `CollapseKeepsNonWs`; each run becomes exactly one space: `RunBecomesSpace`, `WordsStayApart`) |
| TextProcessing.RunBecomesSpace | src/utils/text_processing.py:21 | a whitespace run that ends at a non-whitespace character or at the end of the text becomes exactly one space, and the rest is collapsed on its own |
| TextProcessing.WordCharKept | src/utils/text_processing.py:21 | a non-whitespace character is copied unchanged, and the rest is collapsed on its own |
| TextProcessing.WordsStayApart | src/utils/text_processing.py:21 | two non-whitespace characters with any whitespace run between them come out with exactly one space between them |
| TextProcessing.SqueezeBlankLines | src/utils/text_processing.py:24 | `re.sub(r'\n\s*\n', '\n', text)` written out as a scan; it has no contract of its own, and `SqueezeWithoutNewline` states what it does on the text it receives |
| TextProcessing.CollapseKeepsNonWs | src/utils/text_processing.py:21 | replacing every whitespace run by one space keeps the non-whitespace characters in order |
| TextProcessing.CollapseFixesSpaced | src/utils/text_processing.py:21 | text whose only whitespace is single spaces is left unchanged by the collapse |
| TextProcessing.SqueezeWithoutNewline | src/utils/text_processing.py:24 | the blank-line substitution is the identity on text without a newline, so after line 21 it never changes anything |
| TextProcessing.CleanText | src/utils/text_processing.py:12-26 | `clean_text` as the three steps in source order; it has no contract of its own, and `CleanTextCanonical`, `CleanTextFixesCanonical`, `CleanTextIdempotent` and `CleanBlank` state its properties |
| TextProcessing.CleanTextCanonical | src/utils/text_processing.py:21-26 | cleaned text has no leading or trailing whitespace, no newline, no two adjacent whitespace characters and only spaces as whitespace; it keeps the non-whitespace characters of the input in order; it equals strip of the collapsed text |
| TextProcessing.CleanTextFixesCanonical | src/utils/text_processing.py:21-26 | cleaning text that is already canonical changes nothing |
| TextProcessing.CleanTextIdempotent | src/utils/text_processing.py:21-26 | clean_text(clean_text(x)) == clean_text(x) |
| TextProcessing.CleanBlank | src/utils/text_processing.py:21-26 | an all-whitespace input cleans to the empty string |
| TextProcessing.RFind | src/utils/text_processing.py:58-60 | `str.rfind(sub, lo, hi)`: -1, or a position from which `sub` fits inside `[lo, hi)` (that it is the last occurrence: `RFindIsLast`) |
| TextProcessing.RFindIsLast | src/utils/text_processing.py:58-60 | a position `rfind` returns holds the needle, and no later position of the window holds it |
| TextProcessing.SentenceEnd | src/utils/text_processing.py:57-61 | the maximum of the three `rfind` calls: -1, or a position whose two-character terminator fits inside `[lo, hi)` (that it is the last one: `SentenceEndIsLast`) |
| TextProcessing.SentenceEndIsLast | src/utils/text_processing.py:57-61 | the maximum of the three `rfind`s, unless -1, is a position holding `. `, `! ` or `? `, and no later position of the window holds one |
| TextProcessing.LastTerminatorIsLast | src/utils/text_processing.py:57-61 | the backward scan that specifies the window end reports the last terminator of the window |
| TextProcessing.SentenceEndIsLastTerminator | src/utils/text_processing.py:57-61 | the maximum of the three `rfind`s equals that backward scan |
| TextProcessing.WindowEnd | src/utils/text_processing.py:51-64 | a window's end moves the cursor forward by at least `MinAdvance(max_chunk_size)` and by at most `max_chunk_size` |
| TextProcessing.WindowSnap | src/utils/text_processing.py:54-64 | a snapped end lies one past a `.`/`!`/`?` that is followed by a space, lies in `(max(end-200, start), end-1]`, has no later terminator before the raw end, and the stripped chunk ends with that punctuation; an unsnapped end has no terminator after `start` in the last 200 characters |
| TextProcessing.CursorStalls | src/utils/text_processing.py:50-71 | for every overlap of at least `MinAdvance(max_chunk_size)` there is a text on which the first window sends the cursor back to 0 or before (at exactly 0 the loop repeats forever) |
| TextProcessing.Split | src/utils/text_processing.py:44-73 | a text no longer than `max_chunk_size` gives exactly `[text]`, untrimmed even when empty; a longer text gives chunks that are all non-empty, stripped and at most `max_chunk_size` long |
| TextProcessing.PiecesBounded | src/utils/text_processing.py:66-68 | the stripped pieces of windows no wider than the size are non-empty, stripped and within the size |
| TextProcessing.WindowsEnds | src/utils/text_processing.py:50-71 | windows exist exactly when the cursor is inside the text; the first starts at the cursor; with a non-negative overlap the last reaches the end of the text |
| TextProcessing.WindowsLinked | src/utils/text_processing.py:71 | each non-final window ends inside the text; its successor starts exactly `overlap` characters before that end, and the starts strictly increase |
| TextProcessing.WindowsCover | src/utils/text_processing.py:50-71 | with a non-negative overlap, every index of the text from the cursor on lies in some window |
| TextProcessing.ChunksKeepText | src/utils/text_processing.py:50-73 | with overlap 0, the chunks together hold the non-whitespace characters of the text from the cursor on, in order |
| TextProcessing.SplitKeepsText | src/utils/text_processing.py:44-73 | with overlap 0, no non-whitespace character is lost or reordered by splitting |
| TextProcessing.FindWindowEnd | src/utils/text_processing.py:51-64 | the computed end equals the specification `WindowEnd` |
| TextProcessing.SplitIntoChunks | src/utils/text_processing.py:29-73 | the loop returns exactly `Split(text, max_chunk_size, overlap)` |
| TextProcessing.MatchTimestamp | src/utils/text_processing.py:86 | a match at the head of the text is a clock token of shape 1-2 digits `:` 2 digits, optionally `:` 2 digits; the token is the text right after the optional opening `[` or `(` (offset 1 exactly when the text opens with one, 0 otherwise), and the match consumes the token plus at most one closing character |
| TextProcessing.ExtractTimestamps | src/utils/text_processing.py:75-88 | every token `re.findall` returns is a clock token `H:MM`, `HH:MM`, `H:MM:SS` or `HH:MM:SS` (that the tokens are text of the input, in order: `ExtractedInOrder`) |
| TextProcessing.ExtractedInOrder | src/utils/text_processing.py:86-87 | for every text, the returned tokens occur in it left to right, each starting at or after the end of the one before, brackets excluded |
| TextProcessing.TokenRecognised | src/utils/text_processing.py:86-87 | a clock token at the head of the text, bare or after `[` or `(`, and followed by a character that cannot continue it, comes first; a closing `]` or `)` right after it is consumed with it, and the scan resumes after that |

| TextProcessing.BracketedTokenRecognised | src/utils/text_processing.py:86-87 | for a clock token in brackets at the head of the text, the token without the brackets comes first, followed by the tokens of the rest |
| TextProcessing.SkipNoDigits | src/utils/text_processing.py:86-87 | a prefix without digits contributes no token |
| TextProcessing.TwoStampsInOrder | src/utils/text_processing.py:86-87 | two bracketed tokens separated by digit-free text are returned left to right |
| TextProcessing.DurationFields | src/utils/text_processing.py:100-107 | three fields exactly when the seconds reach 3600, and the last two fields are below 60 |
| TextProcessing.FormatDuration | src/utils/text_processing.py:100-107 | `format_duration` on whole seconds; it has no contract of its own, and `FormatDurationSpelled`, `DurationLength`, `DurationRoundTrip` and `DurationIsToken` state its properties |
| TextProcessing.FormatDurationSpelled | src/utils/text_processing.py:100-107 | the clock string is `HH:MM:SS` from the zero-padded hours, minutes and seconds when there is at least one hour, and `MM:SS` otherwise |
| TextProcessing.DurationLength | src/utils/text_processing.py:100-107 | under an hour the result is 5 characters long; from one hour up to 100 hours it is 8 |
| TextProcessing.FormatIsPaddedFields | src/utils/text_processing.py:104-107 | split at colons, the result is the fields, each zero-padded to two digits |
| TextProcessing.DurationFieldShape | src/utils/text_processing.py:100-107 | `HH:MM:SS` (three fields) exactly when the seconds reach 3600, and `MM:SS` otherwise; the minute and second fields are two digits and below 60 |
| TextProcessing.DurationRoundTrip | src/utils/text_processing.py:90-107 | reading the clock string back gives the original number of seconds |
| TextProcessing.DurationIsToken | src/utils/text_processing.py:104-107 | under 100 hours the formatted duration is a clock token that `extract_timestamps` recognises |
| Chunking.ChunkRecord | src/agents/chunking_agent.py:43-54 | id is index + 1, the text is the piece, the count is its length; the start timestamp is the first token `extract_timestamps` finds in the piece and the end timestamp the last, both `"00:00"` when it finds none |
| Chunking.ChunkRecords | src/agents/chunking_agent.py:42-54 | one record per piece, in order, with ids 1, 2, 3, ..., the piece as text and its length as count, each record being the piece's `ChunkRecord` (so its first and last extracted tokens as start and end) |
| Chunking.TwoStampChunk | src/agents/chunking_agent.py:43-46 | a piece whose only tokens are `[01:20]` and, later, `[03:45]` gets start `01:20` and end `03:45` |
| Chunking.ChunkTranscript | src/agents/chunking_agent.py:21-56 | the loop returns the records of `split_into_chunks(clean_text(transcript))` |
| Chunking.DefaultAgentTerminates | src/agents/chunking_agent.py:10 | the default sizes 4000 and 200 meet the termination condition for every transcript |
| Chunking.BlankTranscript | src/agents/chunking_agent.py:31-54 | an empty or blank transcript gives exactly one record, with empty text, count 0 and both timestamps `"00:00"` (none when the size is negative) |
| Chunking.ChunkStartsAtLeadingStamp | src/agents/chunking_agent.py:44-45 | a chunk that opens with a bracketed token starts at that token |
| Chunking.GetChunkSummary | src/agents/chunking_agent.py:58-75 | chunk count, total of the counts, floor average (0 for none), first record's start and last record's end (`"00:00"` for none) |
| Chunking.StatsOfLongTranscript | src/agents/chunking_agent.py:67-72 | for a transcript longer than the chunk size, the total is at most one chunk size per chunk, and the average lies between 1 and the chunk size |
| Chunking.TotalBounded | src/agents/chunking_agent.py:67 | counts bounded by a width sum to at most that width per record |
| Chunking.TotalAtLeastCount | src/agents/chunking_agent.py:67 | positive counts sum to at least the number of records |
| Summarization.UserPrompt | src/agents/summarization_agent.py:36-43 | the prompt embeds the start timestamp, the end timestamp and the full chunk text, at fixed offsets |
| Summarization.ChunkRequest | src/agents/summarization_agent.py:45-51 | the call carries the fixed system prompt and 500 tokens, and its prompt contains the chunk text |
| Summarization.SummarizeChunk | src/agents/summarization_agent.py:27-68 | id and timestamps are copied; `success` holds exactly when the call returned; the summary is the stripped reply, or `"Error: "` and the message |
| Summarization.MapStage | src/agents/summarization_agent.py:70-85 | one result per chunk; result i is chunk i summarised with its own outcome |
| Summarization.SummarizeAllChunks | src/agents/summarization_agent.py:70-85 | the loop returns the map stage, and the i-th call is made for chunk i |
| Summarization.MapStageAligned | src/agents/summarization_agent.py:79-85 | result i carries the id and timestamps of chunk i |
| Summarization.FailureIsolated | src/agents/summarization_agent.py:81-83 | changing one chunk's outcome changes that chunk's result only |
| Summarization.SuccessCountIsOkCount | src/agents/summarization_agent.py:53-68 | the number of successes is the number of calls that returned |
| Summarization.SuccessCountAppend | src/agents/synthesis_agent.py:121 | the success count of a concatenation is the sum of the counts |
| Summarization.OneFailureCostsOne | src/agents/summarization_agent.py:45-68 | turning one returned call into a failed one lowers the number of successes by exactly one, whatever the other calls do |

| Synthesis.Block | src/agents/synthesis_agent.py:65-68 | a block opens with `[start - end]` and a newline, holds the summary verbatim right after it, and ends with one newline |
| Synthesis.Successful | src/agents/synthesis_agent.py:63-64 | keeps as many entries as succeeded, and every entry kept succeeded |
| Synthesis.SuccessfulAppend | src/agents/synthesis_agent.py:63-64 | filtering keeps input order: the filter of a concatenation is the concatenation of the filters |
| Synthesis.FailedSummaryIgnored | src/agents/synthesis_agent.py:62-70 | a failed summary anywhere in the list changes neither the kept summaries nor the combined text |
| Synthesis.SuccessfulMembers | src/agents/synthesis_agent.py:63-64 | an entry is kept exactly when it is in the input and succeeded |
| Synthesis.Blocks | src/agents/synthesis_agent.py:62-68 | block i is the block of the i-th successful entry |
| Synthesis.Combined | src/agents/synthesis_agent.py:70 | the blocks joined by newlines; it has no contract of its own, and `FallbackHoldsSummary`, `FallbackInOrder` and `FallbackWithoutSuccesses` state what it holds |
| Synthesis.SynthesisPrompt | src/agents/synthesis_agent.py:72-81 | the prompt embeds the URL (or `N/A`), the duration (or `N/A`) and the combined blocks |
| Synthesis.SynthesisRequest | src/agents/synthesis_agent.py:83-89 | the call carries the fixed system prompt and 2000 tokens, and its prompt contains the combined blocks |
| Synthesis.Fallback | src/agents/synthesis_agent.py:93-97 | the fallback is non-empty; it holds the error message after its fixed head and the combined blocks after the chunk-summary heading |
| Synthesis.SynthesisDocument | src/agents/synthesis_agent.py:83-97 | the stripped reply, or the fallback over the combined blocks when the call failed; it has no contract of its own and is what `Synthesize` is proved to return |
| Synthesis.Synthesize | src/agents/synthesis_agent.py:47-97 | exactly one call, made with the combined blocks of the successful entries; the result is the stripped reply, or the fallback document |
| Synthesis.FallbackHoldsSummary | src/agents/synthesis_agent.py:95-96 | every successful summary occurs verbatim in the fallback |
| Synthesis.FallbackInOrder | src/agents/synthesis_agent.py:95-96 | successive successful summaries occur in the fallback in input order, without overlapping |
| Synthesis.FallbackWithoutSuccesses | src/agents/synthesis_agent.py:70-96 | with no success the combined text is empty and the fallback is its fixed head, the message and the heading |
| Synthesis.CreateStructuredSummary | src/agents/synthesis_agent.py:99-122 | `N/A` for a missing url or id and 0 for a missing duration; `chunk_count` is the input length; `successful_chunks` counts successes over the unfiltered list and is at most `chunk_count`, whatever the synthesis outcome |
| YouTube.CaptureLength | src/utils/youtube_extractor.py:29-31 | the greedy capture stops at the first `&`, newline, `?` or `#`, and what it takes holds none of them |
| YouTube.MatchAt | src/utils/youtube_extractor.py:29-31 | one alternative tried at one position: a capture it returns is non-empty and holds no character that stops the capture group (which alternative matched: `MatchAtOccurs`) |
| YouTube.MatchAtOccurs | src/utils/youtube_extractor.py:29-31 | a match at a position is one of the pattern's literal prefixes followed by a non-empty clean capture |
| YouTube.SearchFrom | src/utils/youtube_extractor.py:35 | `re.search`: a clean capture, or no match at any position |
| YouTube.FirstPatternMatch | src/utils/youtube_extractor.py:28-37 | the patterns are tried in list order; no result means no pattern is found anywhere |
| YouTube.ExtractVideoId | src/utils/youtube_extractor.py:19-43 | a returned id is non-empty and holds no `&`, `?` or `#` |
| YouTube.WatchUrlRoundTrip | src/utils/youtube_extractor.py:29-37 | `PRE youtube.com/watch?v=ID` followed by nothing or by `&`, `?`, `#` or a newline gives back ID, provided PRE holds no `y` (so no `youtube.com/watch?v=` or `youtu.be/` match can start before the prefix) |
| YouTube.ShortUrlRoundTrip | src/utils/youtube_extractor.py:29-37 | `PRE youtu.be/ID` followed by nothing or by `&`, `?`, `#` or a newline gives back ID, provided PRE holds no `y` (the search is leftmost, so an earlier watch or short URL would win) |
| YouTube.EmbedUrlRoundTrip | src/utils/youtube_extractor.py:28-37 | `...youtube.com/embed/ID` gives back ID whenever the watch/short pattern is found nowhere in the URL and no `y` precedes the embed prefix (the id itself may hold any id character) |
| YouTube.EmbedUrlWithoutY | src/utils/youtube_extractor.py:28-37 | in particular an embed URL with no `y` outside `youtube.com/embed/` gives back its id |
| YouTube.BareIdReturned | src/utils/youtube_extractor.py:40-41 | exactly 11 id characters come back unchanged |
| YouTube.NoPatternWithoutDot | src/utils/youtube_extractor.py:28-37 | a string without `.` matches no URL pattern |
| YouTube.TrailingNewlineAccepted | src/utils/youtube_extractor.py:40-41 | as written, 11 id characters followed by a newline come back newline included; the corrected version returns none |
| YouTube.ExtractVideoIdStrict | src/utils/youtube_extractor.py:19-43 | corrected: every id is non-empty and holds no `&`, `?`, `#` or newline, and a bare id is exactly 11 id characters |
| YouTube.StrictAgreesElsewhere | src/utils/youtube_extractor.py:40-43 | the corrected and the as-written versions agree on every other input |
| YouTube.FormatTranscript | src/utils/youtube_extractor.py:131-158 | the loop joins the lines with newlines, line i being `[ts] ` and the stripped text of segment i; an empty transcript gives `""` |
| YouTube.LineHasNoNewline | src/utils/youtube_extractor.py:143-156 | a line has no newline when its segment's text has none |
| YouTube.TranscriptLinesRoundTrip | src/utils/youtube_extractor.py:156-158 | with no newline in any segment, splitting the result at newlines gives back the lines |
| YouTube.LineStampRecognised | src/utils/youtube_extractor.py:147-156 | for starts under 100 hours, `extract_timestamps` reads each line's bracketed timestamp back first |
| YouTube.TranscriptLine | src/utils/youtube_extractor.py:143-156 | one `[ts] text` line; it has no contract of its own, and `StampedLine`, `LineHasNoNewline` and `LineStampRecognised` state its properties |
| YouTube.StampedLine | src/utils/youtube_extractor.py:156 | a line `[ts] text` with a clock token `ts` yields `ts` first, then the tokens of the text |
| YouTube.PatternsInOrder | src/utils/youtube_extractor.py:28-37 | the pattern search tries the watch/short pattern, then the embed pattern, then the legacy pattern, and returns the first capture found |
| Strings.Strip | src/utils/text_processing.py:26 | `strip` gives the empty string exactly for blank input, and otherwise neither starts nor ends with whitespace (that only the two ends are removed: `StripIsInfix`) |
| Strings.StripIsInfix | src/utils/text_processing.py:26 | the result of `strip` is a slice of the input with only whitespace before it and after it |
| Strings.StripKeepsNonWs | src/utils/text_processing.py:26 | stripping removes only whitespace |
| Strings.Join | src/utils/youtube_extractor.py:158 | `sep.join(parts)`; it has no contract of its own, and `SplitJoin` and `JoinOccurs` state its properties |
| Strings.SplitOn | src/utils/youtube_extractor.py:158 | `str.split` on one character, the reading used to take joined lines apart again; it always returns at least one part |
| Strings.SplitJoin | src/utils/youtube_extractor.py:158 | splitting a join at its one-character separator gives back the parts when no part holds the separator |
| Strings.Decimal | src/utils/text_processing.py:105-107 | `str(n)`: a non-empty string of digits, one digit exactly below 10 and at most two exactly below 100 |
| Strings.DecimalRoundTrip | src/utils/text_processing.py:105-107 | `str(n)` reads back as n |
| Strings.Pad2 | src/utils/text_processing.py:105-107 | `f"{n:02d}"`: digits, at least two of them, exactly two below 100 |
| Strings.Pad2Value | src/utils/text_processing.py:105-107 | the two-digit padded form reads back as n |

## Left out

- Floating point: the `temperature` arguments (0.3 and 0.4) are not part of a `Request`. Segment starts and metadata durations are whole seconds (`nat`). For a non-negative start, `int(x // 3600)` and the other conversions of the source give the same fields as the floor of the seconds would.
- Synthesis.DurationText: renders a duration as a decimal integer. The source prints whatever the metadata holds, which is a float sum in practice (`123.4`).
- The language-model providers (network clients, environment lookup, `is_available`, `get_model_name`): each call's outcome is a parameter. The backend is assumed to be consulted once per call, and nothing else about it is modelled.
- Prompt wording: the two system prompts are cut to their first sentence. The user prompts and the fallback are verbatim.
- Whitespace: the regular expression class `\s` and `str.strip()` are both modelled as six ASCII characters (space, tab, newline, carriage return, form feed, vertical tab). In Python both also treat the ASCII separators `\x1c` to `\x1f` and the Unicode whitespace characters as whitespace. `\d` is modelled as ASCII digits, and Python's Unicode class is wider.
- TextProcessing.SplitIntoChunks and Chunking.ChunkTranscript: require `SplitTerminates`. With `max_chunk_size >= 1`, outside it the first window can send the cursor back to 0 or before (`CursorStalls`). At exactly 0 the source loops forever, which a total model cannot return from.
- TextProcessing.SplitTerminates: for `max_chunk_size <= 0` it admits only texts that fit. The source also terminates on some longer texts. For example, with `max_chunk_size` 0 and overlap -1 on `"abc"`, every window is empty, the cursor moves on by 1 each time, and the result is `[]`. These sizes are not modelled, because a non-positive size makes the source slice and search with Python's negative indices.
- A negative cursor is not modelled. Once `end - overlap` drops below 0, Python reads the negative slice and `rfind` bounds as counted from the end of the text. `CursorStalls` stops at the first window that gets there.
- TextProcessing.WindowsEnds: reaches the end of the text only for a non-negative overlap. With a negative overlap the source skips characters between windows, and coverage does not hold.
- TextProcessing.ChunksKeepText and TextProcessing.SplitKeepsText: are stated for overlap 0 only. With a positive overlap the shared characters appear twice.
- `get_transcript`, `get_video_metadata` (network access, retries with sleeps) and the command-line entry point in src/main.py are not part of this model.

## Findings

| source | as written | input that shows it | evidently intended | confidence | as-written member | corrected member |
|---|---|---|---|---|---|---|
| src/utils/youtube_extractor.py:40-41 | the bare-id test (modelled by YouTube.ExtractVideoId) accepts an 11-character id followed by a newline, because Python's `$` also matches before a final newline, and then returns the whole input | `"dQw4w9WgXcQ\n"` returns `"dQw4w9WgXcQ\n"`, 12 characters with a newline, as the video id | only an input of exactly 11 id characters is a bare id | medium, not executed | YouTube.TrailingNewlineAccepted | YouTube.ExtractVideoIdStrict |
