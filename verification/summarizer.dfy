/**
 `generate_summary`: clean the text, cut it into chunks, summarise each chunk
 with the BART model, join the chunk summaries with a space and lay them out
 with the key points of the cleaned text. Any exception falls back to the
 basic report. Loading the model and running it are outside the model: the
 loaded pipeline is a parameter, `None` when loading raised, and a call that
 raises returns `None`.

 The fallback reads the text under the name `text`, which is rebound to the
 cleaned text once the pipeline has loaded. A failure to load therefore lists
 the key points of the raw text, and a failure while summarising lists those
 of the cleaned text.
 */
module Summarizer {
  import opened Options
  import opened Text
  import opened Cleaning
  import opened Sentences
  import opened Chunking
  import opened KeyPoints
  import opened Report

  /** The keyword arguments of each summariser call. */
  datatype GenerationConfig = GenerationConfig(maxLength: nat, minLength: nat, doSample: bool)

  /** `max_length=150, min_length=50, do_sample=False`. */
  const BartConfig: GenerationConfig := GenerationConfig(150, 50, false)

  /** A loaded pipeline: the `summary_text` of its first result, or `None`
      when the call raises. */
  type Model = (string, GenerationConfig) -> Option<string>

  /** The chunks handed to the model: the cleaned text cut at the default
      limit of 1024 words. */
  function ChunksFor(text: string): (r: seq<string>)
    ensures |r| >= 1
  {
    SplitIntoChunks(CleanText(text), DefaultMaxLength)
  }

  /** The loop over the chunks: one summary per chunk in chunk order, or
      `None` as soon as a call raises. */
  function SummarizeChunks(model: Model, chunks: seq<string>): (r: Option<seq<string>>)
    ensures r.Some? <==> forall i :: 0 <= i < |chunks| ==> model(chunks[i], BartConfig).Some?
    ensures r.Some? ==> |r.value| == |chunks|
    ensures r.Some? ==> forall i :: 0 <= i < |chunks| ==> r.value[i] == model(chunks[i], BartConfig).value
  {
    if chunks == [] then Some([])
    else
      match model(chunks[0], BartConfig)
      case None => None
      case Some(s) =>
        var rest := SummarizeChunks(model, chunks[1..]);
        assert forall i :: 1 <= i < |chunks| ==> chunks[i] == chunks[1..][i - 1];
        if rest.None? then None else Some([s] + rest.value)
  }

  /** One failing chunk fails the whole loop. */
  lemma SummarizeFails(model: Model, chunks: seq<string>, i: nat)
    requires i < |chunks| && model(chunks[i], BartConfig).None?
    ensures SummarizeChunks(model, chunks).None?
  {
  }

  /** `generate_summary(text)` with the loaded pipeline and the clock reading
      passed in. */
  function GenerateSummary(text: string, loaded: Option<Model>, timestamp: string): (r: string)
    ensures loaded.Some? && AllSummarised(loaded.value, ChunksFor(text)) ==> StartsWith(r, Title + "\n")
    ensures !(loaded.Some? && AllSummarised(loaded.value, ChunksFor(text))) ==> StartsWith(r, FallbackTitle + "\n")
  {
    if loaded.None? then
      BasicOpensWithTitle(Fallback(text, timestamp));
      CreateBasicSummary(text, timestamp)
    else
      var cleaned := CleanText(text);
      var summaries := SummarizeChunks(loaded.value, ChunksFor(text));
      if summaries.None? then
        BasicOpensWithTitle(Fallback(cleaned, timestamp));
        CreateBasicSummary(cleaned, timestamp)
      else
        var points := ExtractKeyPoints(cleaned);
        SummaryOpensWithTitle(Summary(timestamp, Join(summaries.value, " "), points, ActionItems(points)));
        FormatSummary(timestamp, Join(summaries.value, " "), points)
  }

  /** Without a model the report is the fallback over the raw text: its first
      ten key points under the timestamp. */
  lemma GenerateWithoutModel(text: string, timestamp: string)
    requires OneLine(text) && OneLine(timestamp)
    ensures ParseBasic(GenerateSummary(text, None, timestamp)) == Some(Fallback(text, timestamp))
  {
    CreateBasicRoundTrip(text, timestamp);
  }

  /** Without a model the report is, line by line, the fallback over the raw
      text, whatever the text holds. */
  lemma GenerateNoModelLines(text: string, timestamp: string)
    ensures GenerateSummary(text, None, timestamp) == Unlines(BasicLines(Fallback(text, timestamp)))
  {
  }

  /** A failed loop hands the cleaned text to the fallback. */
  lemma GenerateFallsBack(text: string, model: Model, timestamp: string)
    requires SummarizeChunks(model, ChunksFor(text)).None?
    ensures GenerateSummary(text, Some(model), timestamp) == CreateBasicSummary(CleanText(text), timestamp)
  {
  }

  /** When a chunk fails the report is the fallback over the cleaned text. */
  lemma GenerateChunkFails(text: string, model: Model, timestamp: string, i: nat)
    requires OneLine(timestamp)
    requires i < |ChunksFor(text)| && model(ChunksFor(text)[i], BartConfig).None?
    ensures ParseBasic(GenerateSummary(text, Some(model), timestamp)) == Some(Fallback(CleanText(text), timestamp))
  {
    SummarizeFails(model, ChunksFor(text), i);
    GenerateFallsBack(text, model, timestamp);
    CleanTextOneLine(text);
    CreateBasicRoundTrip(CleanText(text), timestamp);
  }

  /** When every chunk succeeds the report is the full one: the chunk
      summaries joined by a space as the overview, the key points of the
      cleaned text, and the action items among them. */
  lemma GenerateSucceeds(text: string, model: Model, timestamp: string, summaries: seq<string>)
    requires OneLine(timestamp)
    requires SummarizeChunks(model, ChunksFor(text)) == Some(summaries)
    requires AllOneLine(summaries)
    ensures var points := ExtractKeyPoints(CleanText(text));
      ParseSummary(GenerateSummary(text, Some(model), timestamp))
        == Some(Summary(timestamp, Join(summaries, " "), points, ActionItems(points)))
  {
    GenerateFormats(text, model, timestamp, summaries);
    CleanPointsOneLine(text);
    OverviewOneLine(summaries);
    FormatSummaryRoundTrip(timestamp, Join(summaries, " "), ExtractKeyPoints(CleanText(text)));
  }

  /** One-line chunk summaries give a one-line overview. */
  lemma OverviewOneLine(summaries: seq<string>)
    requires AllOneLine(summaries)
    ensures OneLine(Join(summaries, " "))
  {
    JoinAvoids(summaries, " ", '\n');
  }

  /** When every chunk succeeds the report is `format_summary` of the chunk
      summaries joined by a space and the key points of the cleaned text,
      whatever the summaries hold. */
  lemma GenerateFormats(text: string, model: Model, timestamp: string, summaries: seq<string>)
    requires SummarizeChunks(model, ChunksFor(text)) == Some(summaries)
    ensures GenerateSummary(text, Some(model), timestamp)
      == FormatSummary(timestamp, Join(summaries, " "), ExtractKeyPoints(CleanText(text)))
  {
  }

  /** The key points of cleaned text hold no line break. */
  lemma CleanPointsOneLine(text: string)
    ensures AllOneLine(ExtractKeyPoints(CleanText(text)))
  {
    CleanTextOneLine(text);
    KeyPointsAvoid(CleanText(text), '\n');
  }

  /** Every chunk summarised. */
  predicate AllSummarised(model: Model, chunks: seq<string>) {
    forall i :: 0 <= i < |chunks| ==> model(chunks[i], BartConfig).Some?
  }

  /** The report is a full one exactly when the model loaded and every chunk
      was summarised, provided the model writes each summary on one line. */
  lemma GenerateFullIff(text: string, loaded: Option<Model>, timestamp: string)
    requires OneLine(timestamp)
    requires loaded.Some? ==> forall c :: loaded.value(c, BartConfig).Some? ==> OneLine(loaded.value(c, BartConfig).value)
    ensures ParseSummary(GenerateSummary(text, loaded, timestamp)).Some?
      <==> loaded.Some? && AllSummarised(loaded.value, ChunksFor(text))
  {
    if loaded.None? {
      LayoutsDistinct(Summary("", "", [], []), Fallback(text, timestamp));
    } else {
      var model := loaded.value;
      var summaries := SummarizeChunks(model, ChunksFor(text));
      if summaries.None? {
        GenerateFallsBack(text, model, timestamp);
        LayoutsDistinct(Summary("", "", [], []), Fallback(CleanText(text), timestamp));
      } else {
        SummariesOneLine(model, ChunksFor(text));
        GenerateSucceeds(text, model, timestamp, summaries.value);
      }
    }
  }

  /** A model that writes one-line summaries gives one-line chunk summaries. */
  lemma SummariesOneLine(model: Model, chunks: seq<string>)
    requires forall c :: model(c, BartConfig).Some? ==> OneLine(model(c, BartConfig).value)
    requires SummarizeChunks(model, chunks).Some?
    ensures AllOneLine(SummarizeChunks(model, chunks).value)
  {
    var summaries := SummarizeChunks(model, chunks).value;
    forall i | 0 <= i < |summaries|
      ensures OneLine(summaries[i])
    {
      assert summaries[i] == model(chunks[i], BartConfig).value;
    }
  }

  /** Together the chunks the model reads are the whole cleaned text. */
  lemma ModelReadsWholeText(text: string)
    ensures Join(ChunksFor(text), " ") == CleanText(text)
    ensures forall i :: 0 <= i < |ChunksFor(text)| ==>
      (WordCount(ChunksFor(text)[i]) <= DefaultMaxLength || ChunksFor(text)[i] in SplitSentences(CleanText(text)))
  {
    ChunksRejoin(CleanText(text), DefaultMaxLength);
    forall i | 0 <= i < |ChunksFor(text)|
      ensures WordCount(ChunksFor(text)[i]) <= DefaultMaxLength
        || ChunksFor(text)[i] in SplitSentences(CleanText(text))
    {
      ChunkBound(CleanText(text), DefaultMaxLength, i);
    }
  }
}
