/**
 * The reduce stage (`SynthesisAgent` in src/agents/synthesis_agent.py): the
 * successful chunk summaries become `[start - end]` blocks, joined into one
 * prompt for a single `generate` call; if that call fails, a fixed fallback
 * document carries the blocks verbatim.  The outcome of the call is supplied
 * as a value.
 */
module Synthesis {
  import opened Wrappers
  import opened Strings
  import opened Generation
  import opened Summarization

  /** The fixed instructions of the synthesis call (only their first sentence is kept here). */
  const SynthesisSystemPrompt: string := "You are an expert at creating comprehensive video summaries."

  /** The token budget of the final summary. */
  const SynthesisMaxTokens: nat := 2000

  /** The metadata keys the agent reads; any of them may be missing. */
  datatype VideoMetadata = VideoMetadata(url: Option<string>, videoId: Option<string>, duration: Option<nat>)

  /** The dictionary `create_structured_summary` returns. */
  datatype StructuredSummary = StructuredSummary(
    videoUrl: string,
    videoId: string,
    duration: nat,
    summary: string,
    chunkCount: nat,
    successfulChunks: nat)

  // ================================================================ blocks

  /** The fixed text around a block's fields. */
  const BlockOpen: string := "["
  const BlockSeparator: string := " - "
  const BlockClose: string := "]\n"
  const BlockEnd: string := "\n"

  /** The block of one summary: its time range in brackets, then its text. */
  function Block(s: ChunkSummary): (block: string)
    ensures OccursAt(block, "[" + s.startTimestamp + " - " + s.endTimestamp + "]\n", 0)
    ensures OccursAt(block, s.summary, BlockSummaryOffset(s))
    ensures block[|block| - 1] == '\n'
    ensures |block| == BlockSummaryOffset(s) + |s.summary| + 1
  {
    OccursInTemplate(BlockOpen, s.startTimestamp, BlockSeparator, s.endTimestamp, BlockClose, s.summary, BlockEnd);
    BlockOpen + s.startTimestamp + BlockSeparator + s.endTimestamp + BlockClose + s.summary + BlockEnd
  }

  /** Where the summary text starts inside its block. */
  function BlockSummaryOffset(s: ChunkSummary): nat {
    |BlockOpen| + |s.startTimestamp| + |BlockSeparator| + |s.endTimestamp| + |BlockClose|
  }

  /** The successful summaries, in input order. */
  function Successful(summaries: seq<ChunkSummary>): (kept: seq<ChunkSummary>)
    ensures |kept| == SuccessCount(summaries) <= |summaries|
    ensures forall i :: 0 <= i < |kept| ==> kept[i].success
  {
    if summaries == [] then []
    else
      var last := summaries[|summaries| - 1];
      Successful(summaries[..|summaries| - 1]) + (if last.success then [last] else [])
  }

  /** Filtering commutes with concatenation, so the kept summaries keep their relative order. */
  lemma {:induction false} SuccessfulAppend(a: seq<ChunkSummary>, b: seq<ChunkSummary>)
    ensures Successful(a + b) == Successful(a) + Successful(b)
    decreases |b|
  {
    if b == [] {
      assert a + b == a;
    } else {
      assert (a + b)[..|a + b| - 1] == a + b[..|b| - 1];
      SuccessfulAppend(a, b[..|b| - 1]);
    }
  }

  /** A failed summary contributes nothing: dropping it leaves the kept list and the combined text unchanged. */
  lemma FailedSummaryIgnored(a: seq<ChunkSummary>, x: ChunkSummary, b: seq<ChunkSummary>)
    requires !x.success
    ensures Successful(a + [x] + b) == Successful(a + b)
    ensures Combined(a + [x] + b) == Combined(a + b)
  {
    SuccessfulAppend(a + [x], b);
    SuccessfulAppend(a, [x]);
    SuccessfulAppend(a, b);
    assert [x][..0] == [];
    assert Successful([x]) == [];
  }

  /** A summary is kept exactly when it succeeded. */
  lemma {:induction false} SuccessfulMembers(summaries: seq<ChunkSummary>, s: ChunkSummary)
    ensures s in Successful(summaries) <==> s in summaries && s.success
  {
    if summaries != [] {
      SuccessfulMembers(summaries[..|summaries| - 1], s);
      assert summaries == summaries[..|summaries| - 1] + [summaries[|summaries| - 1]];
    }
  }

  /** The blocks of the successful summaries, in order. */
  function Blocks(summaries: seq<ChunkSummary>): (blocks: seq<string>)
    ensures var kept := Successful(summaries);
            |blocks| == |kept| && forall i :: 0 <= i < |kept| ==> blocks[i] == Block(kept[i])
  {
    var kept := Successful(summaries);
    seq(|kept|, i requires 0 <= i < |kept| => Block(kept[i]))
  }

  /** `combined_summaries`: the blocks joined with newlines. */
  function Combined(summaries: seq<ChunkSummary>): string {
    Join(Blocks(summaries), "\n")
  }

  // ================================================================ the call and its fallback

  /** The fixed text around the fields of the synthesis prompt. */
  const SynthesisHead: string := "Here are summaries of different parts of a YouTube video:\n\nVideo URL: "
  const DurationLabel: string := "\nDuration: "
  const SummariesHeading: string := " seconds\n\nChunk Summaries:\n"
  const SynthesisClosing: string :=
    "\n\nCreate a comprehensive, hierarchical summary of this entire video following the structure specified in the system prompt. \nOrganize the content logically by topics, include timestamps, use both bullet points and narrative paragraphs."

  /** A missing metadata value is shown as `N/A`. */
  const NotAvailable: string := "N/A"

  /** The duration as the prompt shows it. */
  function DurationText(metadata: VideoMetadata): string {
    match metadata.duration
    case Some(d) => Decimal(d)
    case None => NotAvailable
  }

  /** The synthesis prompt: the URL, the duration and the combined blocks. */
  function SynthesisPrompt(combined: string, metadata: VideoMetadata): (prompt: string)
    ensures var url := metadata.url.GetOr(NotAvailable);
            var afterUrl := |SynthesisHead| + |url| + |DurationLabel|;
            && OccursAt(prompt, url, |SynthesisHead|)
            && OccursAt(prompt, DurationText(metadata), afterUrl)
            && OccursAt(prompt, combined, afterUrl + |DurationText(metadata)| + |SummariesHeading|)
  {
    var url := metadata.url.GetOr(NotAvailable);
    OccursInTemplate(SynthesisHead, url, DurationLabel, DurationText(metadata), SummariesHeading, combined, SynthesisClosing);
    SynthesisHead + url + DurationLabel + DurationText(metadata) + SummariesHeading + combined + SynthesisClosing
  }

  /** The one `generate` call of the reduce stage. */
  function SynthesisRequest(combined: string, metadata: VideoMetadata): (request: Request)
    ensures request.systemPrompt == SynthesisSystemPrompt && request.maxTokens == SynthesisMaxTokens
    ensures Contains(request.prompt, combined)
  {
    var url := metadata.url.GetOr(NotAvailable);
    var prompt := SynthesisPrompt(combined, metadata);
    assert OccursAt(prompt, combined, |SynthesisHead| + |url| + |DurationLabel| + |DurationText(metadata)| + |SummariesHeading|);
    Request(prompt, SynthesisSystemPrompt, SynthesisMaxTokens)
  }

  const FallbackHead: string := "# Video Summary\n\n## Error\nFailed to synthesize final summary: "
  const FallbackMiddle: string := "\n\n## Chunk Summaries\n\n"

  /** What comes before the combined blocks in the fallback document. */
  function FallbackPrefix(message: string): string {
    FallbackHead + message + FallbackMiddle
  }

  /** The document returned when the call fails: a heading, the error, then the blocks. */
  function Fallback(message: string, combined: string): (document: string)
    ensures document != []
    ensures OccursAt(document, message, |FallbackHead|)
    ensures OccursAt(document, combined, |FallbackPrefix(message)|)
  {
    OccursInTemplate(FallbackHead, message, FallbackMiddle, combined, [], [], []);
    assert FallbackHead + message + FallbackMiddle + combined + [] + [] + [] == FallbackPrefix(message) + combined;
    FallbackPrefix(message) + combined
  }

  /** What `synthesize` returns given the outcome of its one call. */
  function SynthesisDocument(summaries: seq<ChunkSummary>, reply: Outcome): string {
    match reply
    case Ok(text) => Strip(text)
    case Err(message) => Fallback(message, Combined(summaries))
  }

  /**
   * `synthesize`: the filtering loop over the summaries, the join, and the one
   * call; returns the document and the request made.
   */
  method Synthesize(chunkSummaries: seq<ChunkSummary>, metadata: VideoMetadata, reply: Outcome)
    returns (finalSummary: string, request: Request)
    ensures request == SynthesisRequest(Combined(chunkSummaries), metadata)
    ensures finalSummary == SynthesisDocument(chunkSummaries, reply)
  {
    var summariesText: seq<string> := [];
    var i := 0;
    while i < |chunkSummaries|
      invariant i <= |chunkSummaries|
      invariant summariesText == Blocks(chunkSummaries[..i])
    {
      var summary := chunkSummaries[i];
      if summary.success {
        summariesText := summariesText + [Block(summary)];
      }
      assert chunkSummaries[..i + 1][..i] == chunkSummaries[..i];
      i := i + 1;
    }
    assert chunkSummaries[..i] == chunkSummaries;
    var combinedSummaries := Join(summariesText, "\n");
    request := SynthesisRequest(combinedSummaries, metadata);
    match reply {
      case Ok(text) =>
        finalSummary := Strip(text);
      case Err(message) =>
        finalSummary := Fallback(message, combinedSummaries);
    }
  }

  /** Where the `k`-th kept summary's text starts in the fallback document. */
  function FallbackSummaryOffset(message: string, summaries: seq<ChunkSummary>, k: nat): nat
    requires k < |Successful(summaries)|
  {
    |FallbackPrefix(message)| + (JoinOffset(Blocks(summaries), "\n", k) + BlockSummaryOffset(Successful(summaries)[k]))
  }

  /** The fallback is complete: the `k`-th successful summary's text occurs in it verbatim. */
  lemma FallbackHoldsSummary(message: string, summaries: seq<ChunkSummary>, k: nat)
    requires k < |Successful(summaries)|
    ensures OccursAt(Fallback(message, Combined(summaries)), Successful(summaries)[k].summary,
                     FallbackSummaryOffset(message, summaries, k))
  {
    BlockInFallback(message, Blocks(summaries), Successful(summaries), k);
  }

  /** The text of the `k`-th of some summaries occurs in the fallback built from blocks whose `k`-th is its block. */
  lemma BlockInFallback(message: string, blocks: seq<string>, kept: seq<ChunkSummary>, k: nat)
    requires |blocks| == |kept| && k < |kept|
    requires blocks[k] == Block(kept[k])
    ensures OccursAt(Fallback(message, Join(blocks, "\n")), kept[k].summary,
                     |FallbackPrefix(message)| + (JoinOffset(blocks, "\n", k) + BlockSummaryOffset(kept[k])))
  {
    SummaryInJoin(blocks, kept, k);
    InFallback(message, Join(blocks, "\n"), kept[k].summary, JoinOffset(blocks, "\n", k) + BlockSummaryOffset(kept[k]));
  }

  /** The text of the `k`-th of some summaries occurs in their joined blocks, inside its own block. */
  lemma SummaryInJoin(blocks: seq<string>, kept: seq<ChunkSummary>, k: nat)
    requires |blocks| == |kept| && k < |kept|
    requires blocks[k] == Block(kept[k])
    ensures OccursAt(Join(blocks, "\n"), kept[k].summary, JoinOffset(blocks, "\n", k) + BlockSummaryOffset(kept[k]))
  {
    var block := blocks[k];
    JoinOccurs(blocks, "\n", k);
    assert OccursAt(block, kept[k].summary, BlockSummaryOffset(kept[k]));
    OccursWithin(Join(blocks, "\n"), block, JoinOffset(blocks, "\n", k), kept[k].summary, BlockSummaryOffset(kept[k]));
  }

  /** Whatever occurs in the combined blocks occurs in the fallback, shifted by its prefix. */
  lemma InFallback(message: string, combined: string, needle: string, j: int)
    requires OccursAt(combined, needle, j)
    ensures OccursAt(Fallback(message, combined), needle, |FallbackPrefix(message)| + j)
  {
    OccursWithin(Fallback(message, combined), combined, |FallbackPrefix(message)|, needle, j);
  }

  /** The fallback keeps the order: each successful summary's text ends before the next one's starts. */
  lemma FallbackInOrder(message: string, summaries: seq<ChunkSummary>, k: nat)
    requires k + 1 < |Successful(summaries)|
    ensures FallbackSummaryOffset(message, summaries, k) + |Successful(summaries)[k].summary|
              < FallbackSummaryOffset(message, summaries, k + 1)
  {
    JoinOffsetNext(Blocks(summaries), "\n", k);
  }

  /** The fallback is never empty, even when no chunk succeeded; then it ends with nothing after the heading. */
  lemma FallbackWithoutSuccesses(message: string, summaries: seq<ChunkSummary>)
    requires forall i :: 0 <= i < |summaries| ==> !summaries[i].success
    ensures Combined(summaries) == []
    ensures Fallback(message, Combined(summaries)) == FallbackPrefix(message)
  {
    if Successful(summaries) != [] {
      var s := Successful(summaries)[0];
      SuccessfulMembers(summaries, s);
    }
  }

  // ================================================================ create_structured_summary

  /**
   * `create_structured_summary`: the document with the metadata (missing URL
   * and id shown as `N/A`, missing duration as 0) and the two counts, the
   * successes counted over the unfiltered list.
   */
  method CreateStructuredSummary(chunkSummaries: seq<ChunkSummary>, metadata: VideoMetadata, reply: Outcome)
    returns (result: StructuredSummary, request: Request)
    ensures request == SynthesisRequest(Combined(chunkSummaries), metadata)
    ensures result.summary == SynthesisDocument(chunkSummaries, reply)
    ensures result.videoUrl == metadata.url.GetOr(NotAvailable)
    ensures result.videoId == metadata.videoId.GetOr(NotAvailable)
    ensures result.duration == metadata.duration.GetOr(0)
    ensures result.chunkCount == |chunkSummaries|
    ensures result.successfulChunks == SuccessCount(chunkSummaries) <= result.chunkCount
  {
    var finalSummary;
    finalSummary, request := Synthesize(chunkSummaries, metadata, reply);
    var successful := SuccessCount(chunkSummaries);
    result := StructuredSummary(
      metadata.url.GetOr(NotAvailable),
      metadata.videoId.GetOr(NotAvailable),
      metadata.duration.GetOr(0),
      finalSummary,
      |chunkSummaries|,
      successful);
  }
}
