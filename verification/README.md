# Meeting-transcript summariser: the text-processing core

A Dafny model of the summarisation stage of `summarize_text.py`. The stage
turns a meeting transcript into a plain-text report in six steps:

- it cleans the transcript (`clean_text`);
- it splits the text into sentences after `.`, `!` or `?`;
- it packs the sentences greedily into chunks of at most 1024 words
  (`split_into_chunks`);
- it has the BART model summarise each chunk, and joins the summaries with a
  space;
- it picks out the key point sentences by keyword (`extract_key_points`);
- it lays everything out as a report (`format_summary`).

When anything raises, the result is instead a fallback report that lists the
first ten key points (`create_basic_summary`).

Modules, in dependency order:

| file | module | what it holds |
|---|---|---|
| text.dfy | `Options`, `Text` | `Option`; ASCII whitespace; `strip`, `str.split()`, `' '.join`, `lower`, substring search; cutting a report into lines for the parsers |
| seqs.dfy | `Seqs` | list comprehension filters, subsequences, flattening |
| cleaning.dfy | `Cleaning` | the three regex rewrites of `clean_text` |
| sentences.dfy | `Sentences` | `re.split(r'(?<=[.!?])\s+', text)` |
| chunking.dfy | `Chunking` | the packing loop, and an independent group-by-group definition proved equal to it |
| keypoints.dfy | `KeyPoints` | the keyword filter and the two vocabularies |
| report.dfy | `Report` | both report layouts, and parsers that read a report back |
| summarizer.dfy | `Summarizer` | `generate_summary`, with the model and the clock as parameters |

Each operation is written the way the source computes it: the regexes as
scans, the chunking as the loop with its accumulators, and the reports as
repeated string appends. Each operation is then related to an independent
description of its result:

- the shape of cleaned text;
- the inverse of the sentence split;
- the unique greedy partition of the sentences;
- the multiset and order of the key points;
- a parser for each report layout.

Three behaviours of the code are easy to misread:

- **Collapsing.** Only periods are collapsed, so `"!!"` becomes `"! ! "`.
  Cleaned text can therefore hold whitespace before a mark, but only right
  after another mark (`SpaceBeforePunctOnlyAfterPunct`).
- **The fallback's input.** The fallback lists the key points of `text` as it
  is bound when the failure happens: the raw text before
  `summarize_text.py:99`, the cleaned text after it. A failure to load the
  model therefore lists the key points of the raw text, and a failure while
  summarising lists those of the cleaned text.
- **The trailing space.** Cleaned text keeps the space after its final `.`,
  `!` or `?`. The sentences of cleaned text end in an empty sentence exactly
  when the text is empty or ends in one of those three and a space
  (`Sentences.SplitTrailingSpace`, for every input).

## Model

| member | source | states |
|---|---|---|
| Text.Span | summarize_text.py:11 | the length of the longest prefix of a class: every character in it belongs to the class, and the next one does not |
| Text.Strip | summarize_text.py:53 | `strip()` leaves no whitespace at either end, and removes nothing but whitespace around the result |
| Text.StripRecovers | summarize_text.py:53 | stripping whitespace padding off a string with no whitespace at its ends gives that string back |
| Text.StripAvoids | summarize_text.py:53 | stripping adds no character |
| Text.Words | summarize_text.py:26 | `str.split()` gives nonempty words that hold no whitespace |
| Text.WordsAppend | summarize_text.py:26 | the words of a concatenation are the words of its parts when the second part starts with whitespace |
| Text.WordsStep | summarize_text.py:26 | leading whitespace is skipped and the first word is taken whole |
| Text.WordCountJoin | summarize_text.py:26-34 | the word count of sentences joined by a space is the sum of their word counts |
| Text.SumWordCountsAppend | summarize_text.py:26-34 | word counts add up over a concatenation of sentence lists |
| Text.JoinAvoids | summarize_text.py:29 | a character in neither the parts nor the separator is absent from their join |
| Text.ContainsIffOccurs | summarize_text.py:55 | the substring test `k in s` holds exactly when `k` occurs at some position of `s` |
| Seqs.Filter | summarize_text.py:52-56 | a list comprehension filter keeps only qualifying items and never grows the list |
| Seqs.FilterIsSubsequence | summarize_text.py:52-56 | the filter keeps its items in their original order |
| Seqs.FilterCount | summarize_text.py:52-56 | the filter keeps a qualifying value exactly as often as it occurs, and any other value never |
| Cleaning.CollapseRuns | summarize_text.py:11-13 | a run rewrite (`re.sub(r'\s+', ' ', s)`, `re.sub(r'\.+', '.', s)`) is no longer than its input, is empty exactly when the input is, and holds nothing but the replacement and characters of the input outside the class |
| Cleaning.CollapseRunsSplice | summarize_text.py:11-13 | a maximal run between two non-run characters (or the ends) is replaced by exactly one replacement character, and the text on either side is rewritten independently |
| Cleaning.CollapseRunsKeeps | summarize_text.py:11-13 | the characters of any class disjoint from the run class and not containing the replacement are kept, in order, and none is added |
| Cleaning.CollapseRunsFixed | summarize_text.py:11-13 | text whose run characters are already the replacement and never adjacent is left unchanged |
| Cleaning.CollapseRunsNoAdjacent | summarize_text.py:13 | after collapsing, no two class characters are adjacent |
| Cleaning.SpacePunct | summarize_text.py:15 | after `re.sub(r'\s*([.,!?])\s*', r'\1 ', s)` every mark of `.,!?` is followed by a space |
| Cleaning.SpacePunctPlainPrefix | summarize_text.py:15 | text without marks that does not end in whitespace passes through the rewrite unchanged, whatever follows it, so whitespace away from the marks is kept |
| Cleaning.SpacePunctAtMark | summarize_text.py:15 | a mark with the whitespace on both sides of it becomes the mark and one space, and the rewrite of what follows is independent of what came before |
| Cleaning.SpacePunctKeeps | summarize_text.py:15 | the rewrite only moves whitespace: every mark and every other non-whitespace character is kept, in order, with nothing added |
| Cleaning.SqueezeSpacesShape | summarize_text.py:11 | `re.sub(r'\s+', ' ', text).strip()` uses only single plain spaces and has none at either end |
| Cleaning.SqueezeSpacesKeeps | summarize_text.py:11 | squeezing keeps every non-whitespace character, in order |
| Cleaning.SqueezeSpacesWords | summarize_text.py:11 | squeezing leaves `str.split()` of the text unchanged |
| Cleaning.CleanText | summarize_text.py:8-16 | cleaned text uses only the plain space as whitespace, never two spaces in a row, and does not start with one; no two periods are adjacent; every mark is followed by a space; whitespace stands before a mark only right after another mark; a trailing space follows a final mark |
| Cleaning.CleanTextKeeps | summarize_text.py:8-16 | the characters of cleaned text other than whitespace and periods are those of the input, in order |
| Cleaning.CleanTextNonSpace | summarize_text.py:8-16 | the non-whitespace characters of cleaned text are those of the input after period runs collapse; on input without adjacent periods they are exactly the input's |
| Cleaning.CleanTextPlain | summarize_text.py:8-16 | text without `.`, `,`, `!` or `?` cleans to its words joined by single spaces |
| Cleaning.CleanTextOneLine | summarize_text.py:11 | cleaned text holds no line break |
| Cleaning.CleanTextIdempotent | summarize_text.py:8-16 | cleaning cleaned text changes nothing |
| Cleaning.CleanFixedPoint | summarize_text.py:8-16 | any text of the shape cleaning produces is left unchanged by it |
| Sentences.FirstBreak | summarize_text.py:20 | the leftmost whitespace position that follows a terminator |
| Sentences.SplitSentences | summarize_text.py:20 | the split gives at least one piece; no piece contains a split point; every piece but the last ends in a terminator; every piece but the first starts with a non-whitespace character; the first piece is a prefix of the text |
| Sentences.SplitNoBreak | summarize_text.py:20 | text without a split point is a single sentence |
| Sentences.JoinSplitSentences | summarize_text.py:20 | on single-spaced text, joining the sentences with a space gives the text back |
| Sentences.SplitJoinSentences | summarize_text.py:20 | splitting sentences joined by a space gives the sentences back |
| Sentences.SplitAvoids | summarize_text.py:49 | a character absent from the text is absent from every sentence |
| Sentences.SplitWeave | summarize_text.py:20 | the split only drops whitespace: putting a nonempty whitespace run back between each two neighbouring sentences gives the text back |
| Sentences.SplitLastEmpty | summarize_text.py:20 | the last sentence is empty exactly when the text is empty or ends in whitespace after a terminator (with something before it) |
| Sentences.SplitTrailingSpace | summarize_text.py:15-20 | the sentences of cleaned text end in an empty one exactly when the text is empty or ends in `.`, `!` or `?` followed by a space |
| Chunking.PackSentences | summarize_text.py:25-37 | the loop never changes a chunk it has closed, closes at most one chunk per sentence plus the open one, and adds one whenever a sentence or an open chunk remains |
| Chunking.SplitIntoChunks | summarize_text.py:18-39 | there is always at least one chunk |
| Chunking.ChunksAreGroups | summarize_text.py:18-39 | the loop's chunks are the greedy groups of the sentences, each joined by a space |
| Chunking.PackGroupsStart | summarize_text.py:21-37 | the loop with its accumulators computes the same chunks as the group-by-group definition |
| Chunking.FitCountBounds | summarize_text.py:26-34 | the prefix a chunk takes fits the budget, and one more sentence would not fit |
| Chunking.GroupsGreedy | summarize_text.py:25-37 | the groups partition the sentences in order; none is empty; each fits the limit or is a single sentence; each is closed only because the next sentence would overflow it |
| Chunking.GroupsUnique | summarize_text.py:25-37 | a grouping satisfies those rules exactly when it is the loop's grouping |
| Chunking.FirstGroupLength | summarize_text.py:25-34 | in any greedy partition the first group takes the first sentence and then as many more as fit |
| Chunking.ChunksJoinSentences | summarize_text.py:29-37 | the chunks joined by a space equal the sentences joined by a space: no sentence is dropped, repeated or moved |
| Chunking.ChunksRejoin | summarize_text.py:20-37 | on single-spaced text such as cleaned text, the chunks joined by a space are the text |
| Chunking.ChunkBound | summarize_text.py:26-34 | a chunk has at most `max_length` words unless it is a single sentence of the text |
| Chunking.ChunksOfEmpty | summarize_text.py:20-39 | the empty text gives the single empty chunk |
| Text.Lower | summarize_text.py:55 | lower-casing keeps the length, leaves no capital letter, turns each capital into the small letter at the same place in the alphabet, and changes no other character |
| Text.JoinAppend | summarize_text.py:29 | joining two nonempty lists is joining each and putting the separator between |
| KeyPoints.IsKeyPointIff | summarize_text.py:43-55 | a sentence is a key point exactly when one of the twenty keywords occurs at some position of its lower-cased text |
| KeyPoints.IsActionItemIff | summarize_text.py:79 | a key point is an action item exactly when one of the seven action words occurs at some position of its lower-cased text |
| KeyPoints.AnyContainedIff | summarize_text.py:55 | `any(k in s for k in words)` holds exactly when some word of the list occurs in `s` |
| KeyPoints.StripAll | summarize_text.py:52-53 | each sentence is stripped, position by position |
| KeyPoints.ExtractKeyPoints | summarize_text.py:41-58 | every key point mentions a keyword, is nonempty, and starts and ends with a non-whitespace character |
| KeyPoints.KeyPointNonEmpty | summarize_text.py:43-55 | a sentence that mentions a keyword is not empty |
| KeyPoints.KeyPointsInOrder | summarize_text.py:49-58 | the key points keep the order of the stripped sentences |
| KeyPoints.KeyPointsCount | summarize_text.py:49-58 | a stripped sentence appears among the key points as often as it occurs when it mentions a keyword, and never otherwise |
| KeyPoints.KeyPointsAvoid | summarize_text.py:49-58 | a character absent from the text is absent from every key point |
| KeyPoints.KeyPointIgnoresCase | summarize_text.py:55 | keyword matching ignores letter case |
| KeyPoints.KeywordInsideWord | summarize_text.py:55 | keywords match inside longer words: `"The planet is round."` is a key point because of `plan` |
| Report.ActionItems | summarize_text.py:79 | the action items are the key points that mention an action word, in order, each kept as often as it occurs |
| Report.AppendLines | summarize_text.py:74-75 | the append loop adds one prefixed, newline-ended line per item, in order |
| Report.FormatSummary | summarize_text.py:60-85 | the report is, line by line, the header, the overview, the bulleted key points, and the action section only when there are action items |
| Report.CreateBasicSummary | summarize_text.py:126-139 | the fallback report is, line by line, its header and the first ten key points as bullets |
| Report.FirstPoints | summarize_text.py:136 | `key_points[:10]` is the first ten points, or all of them when there are fewer |
| Report.SummaryOpensWithTitle | summarize_text.py:64 | a full report opens with its title line |
| Report.BasicOpensWithTitle | summarize_text.py:130 | a fallback report opens with the fallback title line |
| Report.Repeat | summarize_text.py:67 | `'=' * 50` is fifty `=` characters |
| Report.Prefixed | summarize_text.py:74-83 | each line is its item with the prefix in front |
| Report.TakePrefixedOf | summarize_text.py:74-83 | reading prefixed lines back, up to the first line without the prefix, gives the items |
| Report.ParseSummarySound | summarize_text.py:60-85 | a text the full-report parser accepts is exactly the report of what it read |
| Report.ParseSummaryLines | summarize_text.py:60-85 | a full report of one-line fields reads back as those fields |
| Report.FormatSummaryRoundTrip | summarize_text.py:60-85 | `format_summary` output reads back as its timestamp, overview and key points, plus the action items picked from those key points |
| Report.ParseBasicSound | summarize_text.py:126-139 | a text the fallback parser accepts is exactly the fallback report of what it read |
| Report.ParseBasicLines | summarize_text.py:126-139 | a fallback report of one-line fields reads back as those fields |
| Report.CreateBasicRoundTrip | summarize_text.py:126-139 | the fallback report of one-line text reads back as the timestamp and the first min(10, n) key points, in order |
| Report.LayoutsDistinct | summarize_text.py:64-139 | a fallback report never reads as a full report, and a full report never reads as a fallback one |
| Summarizer.ChunksFor | summarize_text.py:99-102 | the model is always given at least one chunk |
| Summarizer.SummarizeChunks | summarize_text.py:105-109 | the loop succeeds exactly when every call succeeds, and then gives one summary per chunk, in chunk order |
| Summarizer.SummarizeFails | summarize_text.py:105-109 | one failing call fails the whole loop |
| Summarizer.GenerateSummary | summarize_text.py:87-124 | the report opens with the full title line when the model loaded and every chunk was summarised, and with the fallback title line otherwise |
| Summarizer.GenerateWithoutModel | summarize_text.py:87-124 | when the model cannot be loaded, the report is the fallback over the raw text |
| Summarizer.GenerateNoModelLines | summarize_text.py:87-139 | when the model cannot be loaded, the report is, line by line, the fallback header and the first ten key points of the raw text, whatever the text holds |
| Summarizer.GenerateFallsBack | summarize_text.py:99-124 | when the loop fails, the report is exactly the fallback report of the cleaned text; no partial summary survives |
| Summarizer.GenerateFormats | summarize_text.py:99-118 | when every chunk succeeds, the report is `format_summary` of the chunk summaries joined by a space and the key points of the cleaned text, whatever the summaries hold |
| Summarizer.GenerateChunkFails | summarize_text.py:99-124 | when any chunk fails, the report reads back as the fallback over the cleaned text |
| Summarizer.GenerateSucceeds | summarize_text.py:99-118 | when every chunk succeeds, the report reads back as the chunk summaries joined by a space, the key points of the cleaned text, and their action items |
| Summarizer.GenerateFullIff | summarize_text.py:87-124 | the report is a full one exactly when the model loaded and every chunk was summarised |
| Summarizer.ModelReadsWholeText | summarize_text.py:99-102 | the chunks the model reads, joined by a space, are the whole cleaned text, and each is within the word limit or is a single sentence |

## Left out

- Printing, reading the input file, writing the report, and the command-line entry point (`summarize_text`, lines 141-176) are I/O and are not modelled.
- Loading the BART pipeline and running it are calls into a library that is not part of this model. The loaded pipeline is a parameter (`Option<Model>`, `None` when loading raised). A call is a function from the chunk and the generation settings to `Option<string>`, `None` when it raised. The device choice (`torch.cuda.is_available()`) does not affect the text and is dropped.
- `datetime.now()` is a parameter, the timestamp string. `generate_summary` reads the clock once inside `format_summary` or `create_basic_summary`, so one parameter per report is faithful.
- Python's `\s`, `str.split()`, `strip()` and `lower()` are modelled on ASCII only. Whitespace is the set `isspace` accepts below 128 (tab, line feed, vertical tab, form feed, carriage return, the four separators 28-31, and space). Full Unicode case mapping can change a string's length and is not modelled.
- Exceptions other than a failed load or a failed model call, such as running out of memory, are not modelled.
- Report.FormatSummaryRoundTrip: requires the timestamp, the overview and the key points to hold no line break, because a report is read back line by line. Key points of cleaned text always meet this (`Summarizer.CleanPointsOneLine`).
- Report.CreateBasicRoundTrip: requires the text and the timestamp to hold no line break, for the same reason. `Report.CreateBasicSummary` states the lines of the fallback report for any text.
- Summarizer.GenerateWithoutModel: inherits the one-line requirement of `Report.CreateBasicRoundTrip` on the raw text. `Summarizer.GenerateNoModelLines` states the same fallback for any text, as a list of lines rather than through the parser.
- Summarizer.GenerateSucceeds: requires each chunk summary to be on one line, because the report is read back line by line. `Summarizer.GenerateFormats` states the success path for any model output, as the `format_summary` text rather than through the parser.
- Summarizer.GenerateFullIff: requires that the model writes each summary on one line.
- Chunking.ChunksRejoin: requires single-spaced text. On other text only `Chunking.ChunksJoinSentences` holds, because the split drops whole whitespace runs.
- Sentences.JoinSplitSentences: requires single-spaced text, for the same reason.
