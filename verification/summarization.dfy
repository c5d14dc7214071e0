/**
 * The map stage (`SummarizationAgent` in src/agents/summarization_agent.py):
 * one `generate` call per chunk, every failure turned into a record with
 * `success` false, so the batch never stops and stays aligned with its input.
 * The outcome of each call is supplied as a value: `replies[i]` is what the
 * call for chunk `i` did.
 */
module Summarization {
  import opened Strings
  import opened Generation
  import opened Chunking

  /** The fixed instructions sent with every chunk (only their first sentence is kept here). */
  const SystemPrompt: string := "You are an expert at summarizing video content."

  /** The token budget of a chunk summary. */
  const ChunkMaxTokens: nat := 500

  /** One result of the map stage: the dictionary `summarize_chunk` returns. */
  datatype ChunkSummary = ChunkSummary(
    chunkId: nat,
    startTimestamp: string,
    endTimestamp: string,
    summary: string,
    success: bool)

  /** The fixed text around the fields of the user prompt. */
  const PromptHead: string := "Summarize this video transcript chunk:\n\nTime Range: "
  const RangeSeparator: string := " - "
  const TranscriptHeading: string := "\n\nTranscript:\n"
  const PromptClosing: string := "\n\nProvide a clear summary highlighting the main topics and key points."

  /** The user prompt for a chunk: its time range, then its full text. */
  function UserPrompt(chunk: Chunk): (prompt: string)
    ensures var afterStart := |PromptHead| + |chunk.startTimestamp| + |RangeSeparator|;
            && OccursAt(prompt, chunk.startTimestamp, |PromptHead|)
            && OccursAt(prompt, chunk.endTimestamp, afterStart)
            && OccursAt(prompt, chunk.text, afterStart + |chunk.endTimestamp| + |TranscriptHeading|)
  {
    OccursInTemplate(PromptHead, chunk.startTimestamp, RangeSeparator, chunk.endTimestamp,
                     TranscriptHeading, chunk.text, PromptClosing);
    PromptHead + chunk.startTimestamp + RangeSeparator + chunk.endTimestamp
      + TranscriptHeading + chunk.text + PromptClosing
  }

  /** The one `generate` call made for a chunk. */
  function ChunkRequest(chunk: Chunk): (request: Request)
    ensures request.systemPrompt == SystemPrompt && request.maxTokens == ChunkMaxTokens
    ensures Contains(request.prompt, chunk.text)
  {
    var p := UserPrompt(chunk);
    assert OccursAt(p, chunk.text, |PromptHead| + |chunk.startTimestamp| + |RangeSeparator| + |chunk.endTimestamp| + |TranscriptHeading|);
    Request(UserPrompt(chunk), SystemPrompt, ChunkMaxTokens)
  }

  /**
   * `summarize_chunk` given the outcome of its one call: the chunk's id and
   * timestamps, then the stripped reply, or `"Error: "` and the message.
   */
  function SummarizeChunk(chunk: Chunk, reply: Outcome): (result: ChunkSummary)
    ensures result.chunkId == chunk.chunkId
    ensures result.startTimestamp == chunk.startTimestamp && result.endTimestamp == chunk.endTimestamp
    ensures result.success <==> reply.Ok?
    ensures reply.Ok? ==> result.summary == Strip(reply.text)
    ensures reply.Err? ==> result.summary == "Error: " + reply.message
  {
    match reply
    case Ok(text) =>
      ChunkSummary(chunk.chunkId, chunk.startTimestamp, chunk.endTimestamp, Strip(text), true)
    case Err(message) =>
      ChunkSummary(chunk.chunkId, chunk.startTimestamp, chunk.endTimestamp, "Error: " + message, false)
  }

  /** The map stage as a value: result `i` is chunk `i` summarised with reply `i`. */
  function MapStage(chunks: seq<Chunk>, replies: seq<Outcome>): (summaries: seq<ChunkSummary>)
    requires |replies| == |chunks|
    ensures |summaries| == |chunks|
    ensures forall i :: 0 <= i < |chunks| ==> summaries[i] == SummarizeChunk(chunks[i], replies[i])
  {
    seq(|chunks|, i requires 0 <= i < |chunks| => SummarizeChunk(chunks[i], replies[i]))
  }

  /**
   * `summarize_all_chunks`: one call per chunk, in order; returns the results
   * and the requests made.
   */
  method SummarizeAllChunks(chunks: seq<Chunk>, replies: seq<Outcome>)
    returns (summaries: seq<ChunkSummary>, requests: seq<Request>)
    requires |replies| == |chunks|
    ensures summaries == MapStage(chunks, replies)
    ensures |requests| == |chunks| && forall i :: 0 <= i < |chunks| ==> requests[i] == ChunkRequest(chunks[i])
  {
    summaries := [];
    requests := [];
    var i := 0;
    while i < |chunks|
      invariant i <= |chunks|
      invariant summaries == MapStage(chunks[..i], replies[..i])
      invariant |requests| == i && forall k :: 0 <= k < i ==> requests[k] == ChunkRequest(chunks[k])
    {
      var chunk := chunks[i];
      requests := requests + [ChunkRequest(chunk)];
      var summary := SummarizeChunk(chunk, replies[i]);
      summaries := summaries + [summary];
      i := i + 1;
    }
    assert chunks[..i] == chunks && replies[..i] == replies;
  }

  /** The number of successful results. */
  function SuccessCount(summaries: seq<ChunkSummary>): nat {
    if summaries == [] then 0
    else SuccessCount(summaries[..|summaries| - 1]) + (if summaries[|summaries| - 1].success then 1 else 0)
  }

  lemma {:induction false} SuccessCountAppend(a: seq<ChunkSummary>, b: seq<ChunkSummary>)
    ensures SuccessCount(a + b) == SuccessCount(a) + SuccessCount(b)
    decreases |b|
  {
    if b == [] {
      assert a + b == a;
    } else {
      assert (a + b)[..|a + b| - 1] == a + b[..|b| - 1];
      SuccessCountAppend(a, b[..|b| - 1]);
    }
  }

  /** The results line up with the chunks: result `i` carries the id and timestamps of chunk `i`. */
  lemma MapStageAligned(chunks: seq<Chunk>, replies: seq<Outcome>)
    requires |replies| == |chunks|
    ensures var summaries := MapStage(chunks, replies);
            forall i :: 0 <= i < |chunks| ==>
              && summaries[i].chunkId == chunks[i].chunkId
              && summaries[i].startTimestamp == chunks[i].startTimestamp
              && summaries[i].endTimestamp == chunks[i].endTimestamp
  {
  }

  /**
   * Failure isolation: changing the reply to one chunk changes that chunk's
   * result only, and the batch still yields one result per chunk.
   */
  lemma FailureIsolated(chunks: seq<Chunk>, replies: seq<Outcome>, j: nat, other: Outcome)
    requires |replies| == |chunks| && j < |chunks|
    ensures var before := MapStage(chunks, replies);
            var after := MapStage(chunks, replies[j := other]);
            && |after| == |before|
            && (forall i :: 0 <= i < |chunks| && i != j ==> after[i] == before[i])
            && after[j] == SummarizeChunk(chunks[j], other)
  {
  }

  /** One call that fails instead of returning costs exactly one success, whatever the others do. */
  lemma OneFailureCostsOne(chunks: seq<Chunk>, replies: seq<Outcome>, j: nat, message: string)
    requires |replies| == |chunks| && j < |chunks| && replies[j].Ok?
    ensures SuccessCount(MapStage(chunks, replies[j := Err(message)])) + 1 == SuccessCount(MapStage(chunks, replies))
  {
    var before := MapStage(chunks, replies);
    var after := MapStage(chunks, replies[j := Err(message)]);
    FailureIsolated(chunks, replies, j, Err(message));
    assert after[..j] == before[..j] && after[j + 1..] == before[j + 1..];
    CountAround(before, j);
    CountAround(after, j);
  }

  /** The count splits around position `j`. */
  lemma CountAround(summaries: seq<ChunkSummary>, j: nat)
    requires j < |summaries|
    ensures SuccessCount(summaries)
            == SuccessCount(summaries[..j]) + (if summaries[j].success then 1 else 0) + SuccessCount(summaries[j + 1..])
  {
    var x := summaries[j];
    assert summaries == summaries[..j] + [x] + summaries[j + 1..];
    SuccessCountAppend(summaries[..j] + [x], summaries[j + 1..]);
    SuccessCountAppend(summaries[..j], [x]);
    assert [x][..0] == [];
  }

  /** The number of calls that returned. */
  function OkCount(replies: seq<Outcome>): nat {
    if replies == [] then 0
    else OkCount(replies[..|replies| - 1]) + (if replies[|replies| - 1].Ok? then 1 else 0)
  }

  /** The successes are exactly the calls that returned: nothing else affects the count. */
  lemma {:induction false} SuccessCountIsOkCount(chunks: seq<Chunk>, replies: seq<Outcome>)
    requires |replies| == |chunks|
    ensures SuccessCount(MapStage(chunks, replies)) == OkCount(replies)
    decreases |chunks|
  {
    var n := |chunks|;
    if n > 0 {
      var summaries := MapStage(chunks, replies);
      var c, r := chunks[..n - 1], replies[..n - 1];
      assert MapStage(c, r) == summaries[..n - 1];
      SuccessCountIsOkCount(c, r);
    }
  }
}
