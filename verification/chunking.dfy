/**
 * The chunk builder (`ChunkingAgent` in src/agents/chunking_agent.py): it
 * cleans a transcript, splits it, and wraps every piece in a record with a
 * 1-based id, its first and last timestamp and its length; and it sums up a
 * list of such records.
 */
module Chunking {
  import opened Strings
  import opened TextProcessing

  /** The timestamp a chunk without any gets. */
  const NoTimestamp: string := "00:00"

  /** The agent's two settings, fixed when it is created. */
  datatype ChunkingAgent = ChunkingAgent(maxChunkSize: int, overlap: int)

  /** The settings the command-line entry point creates the agent with. */
  const DefaultAgent: ChunkingAgent := ChunkingAgent(4000, 200)

  /** One chunk record: the dictionary `chunk_transcript` appends. */
  datatype Chunk = Chunk(chunkId: nat, text: string, startTimestamp: string, endTimestamp: string, charCount: nat)

  /** A timestamp field is a captured token or the sentinel. */
  predicate StampOk(stamp: string) {
    ClockToken(stamp) || stamp == NoTimestamp
  }

  /**
   * The record for the piece at 0-based position `index`: its start is the
   * first token the extractor finds in the piece and its end the last one,
   * both the sentinel when it finds none.
   */
  function ChunkRecord(index: nat, text: string): (c: Chunk)
    ensures c.chunkId == index + 1 && c.text == text && c.charCount == |text|
    ensures StampOk(c.startTimestamp) && StampOk(c.endTimestamp)
    ensures var ts := ExtractTimestamps(text);
            && (ts == [] ==> c.startTimestamp == NoTimestamp && c.endTimestamp == NoTimestamp)
            && (ts != [] ==> c.startTimestamp == ts[0] && c.endTimestamp == ts[|ts| - 1])
  {
    var timestamps := ExtractTimestamps(text);
    var start := if timestamps != [] then timestamps[0] else NoTimestamp;
    var end := if timestamps != [] then timestamps[|timestamps| - 1] else NoTimestamp;
    Chunk(index + 1, text, start, end, |text|)
  }

  /**
   * The records for a list of pieces: one per piece, in order, with ids
   * 1, 2, 3, ..., the piece as text and its length as count.
   */
  function ChunkRecords(pieces: seq<string>): (records: seq<Chunk>)
    ensures |records| == |pieces|
    ensures forall i :: 0 <= i < |records| ==>
              && records[i].chunkId == i + 1
              && records[i].text == pieces[i]
              && records[i].charCount == |pieces[i]|
              && StampOk(records[i].startTimestamp) && StampOk(records[i].endTimestamp)
    ensures forall i :: 0 <= i < |records| ==> records[i] == ChunkRecord(i, pieces[i])
  {
    seq(|pieces|, i requires 0 <= i < |pieces| => ChunkRecord(i, pieces[i]))
  }

  /** What `chunk_transcript` returns, as a value. */
  function Chunks(agent: ChunkingAgent, transcript: string): seq<Chunk>
    requires SplitTerminates(|CleanText(transcript)|, agent.maxChunkSize, agent.overlap)
  {
    ChunkRecords(Split(CleanText(transcript), agent.maxChunkSize, agent.overlap))
  }

  /** `chunk_transcript`: clean, split, then one record per piece in a loop. */
  method ChunkTranscript(agent: ChunkingAgent, transcript: string) returns (chunkData: seq<Chunk>)
    requires SplitTerminates(|CleanText(transcript)|, agent.maxChunkSize, agent.overlap)
    ensures chunkData == Chunks(agent, transcript)
  {
    var cleanedText := CleanText(transcript);
    var chunks := SplitIntoChunks(cleanedText, agent.maxChunkSize, agent.overlap);
    chunkData := [];
    var idx := 0;
    while idx < |chunks|
      invariant idx <= |chunks|
      invariant chunkData == ChunkRecords(chunks[..idx])
    {
      chunkData := chunkData + [ChunkRecord(idx, chunks[idx])];
      RecordsStep(chunks, idx);
      idx := idx + 1;
    }
    assert chunks[..idx] == chunks;
  }

  /** The records of one more piece are the records so far and the record of that piece. */
  lemma RecordsStep(pieces: seq<string>, i: nat)
    requires i < |pieces|
    ensures ChunkRecords(pieces[..i + 1]) == ChunkRecords(pieces[..i]) + [ChunkRecord(i, pieces[i])]
  {
    assert pieces[..i + 1][..i] == pieces[..i];
  }

  /** The default agent's sizes satisfy the termination condition for every transcript. */
  lemma DefaultAgentTerminates(transcript: string)
    ensures SplitTerminates(|CleanText(transcript)|, DefaultAgent.maxChunkSize, DefaultAgent.overlap)
  {
  }

  /**
   * An empty or blank transcript gives exactly one record with empty text,
   * count 0 and both timestamps the sentinel (none at all when the size is
   * negative, since the empty text then skips both branches).
   */
  lemma BlankTranscript(agent: ChunkingAgent, transcript: string)
    requires AllWs(transcript)
    ensures CleanText(transcript) == []
    ensures agent.maxChunkSize >= 0 ==> Chunks(agent, transcript) == [Chunk(1, "", NoTimestamp, NoTimestamp, 0)]
    ensures agent.maxChunkSize < 0 ==> Chunks(agent, transcript) == []
  {
    CleanBlank(transcript);
    assert ExtractTimestamps("") == [];
  }

  /** A chunk that opens with a bracketed token starts at that token. */
  lemma ChunkStartsAtLeadingStamp(index: nat, ts: string, rest: string)
    requires ClockToken(ts)
    ensures ChunkRecord(index, "[" + ts + "]" + rest).startTimestamp == ts
  {
    BracketedTokenRecognised(ts, rest);
  }

  /**
   * A chunk whose only tokens are `[01:20]` and, later, `[03:45]` starts at
   * 01:20 and ends at 03:45.
   */
  lemma TwoStampChunk(index: nat, before: string, between: string, after: string)
    requires forall i :: 0 <= i < |before| ==> !IsDigit(before[i])
    requires forall i :: 0 <= i < |between| ==> !IsDigit(between[i])
    requires forall i :: 0 <= i < |after| ==> !IsDigit(after[i])
    ensures var c := ChunkRecord(index, before + "[01:20]" + between + "[03:45]" + after);
            c.startTimestamp == "01:20" && c.endTimestamp == "03:45"
  {
    var t1, t2 := "01:20", "03:45";
    assert ClockToken(t1) && ClockToken(t2);
    var tail := "[" + t2 + "]" + after;
    var s := before + "[01:20]" + between + "[03:45]" + after;
    assert s == before + ("[" + t1 + "]" + (between + tail));
    SkipNoDigits(before, "[" + t1 + "]" + (between + tail));
    BracketedTokenRecognised(t1, between + tail);
    SkipNoDigits(between, tail);
    BracketedTokenRecognised(t2, after);
    SkipNoDigits(after, "");
    assert after + "" == after;
    assert ExtractTimestamps(s) == [t1, t2];
  }

  // ================================================================ get_chunk_summary

  /** The statistics `get_chunk_summary` returns. */
  datatype ChunkStats = ChunkStats(
    totalChunks: nat,
    totalCharacters: nat,
    avgChunkSize: nat,
    firstTimestamp: string,
    lastTimestamp: string)

  /** The sum of the records' counts. */
  function TotalCharacters(chunks: seq<Chunk>): nat {
    if chunks == [] then 0 else TotalCharacters(chunks[..|chunks| - 1]) + chunks[|chunks| - 1].charCount
  }

  /** `get_chunk_summary`: counts, total, floor average, first start and last end. */
  function GetChunkSummary(chunks: seq<Chunk>): (stats: ChunkStats)
    ensures stats.totalChunks == |chunks| && stats.totalCharacters == TotalCharacters(chunks)
    ensures chunks == [] ==> stats.avgChunkSize == 0 && stats.firstTimestamp == NoTimestamp && stats.lastTimestamp == NoTimestamp
    ensures chunks != [] ==>
              && stats.avgChunkSize * |chunks| <= stats.totalCharacters < (stats.avgChunkSize + 1) * |chunks|
              && stats.firstTimestamp == chunks[0].startTimestamp
              && stats.lastTimestamp == chunks[|chunks| - 1].endTimestamp
  {
    var totalChars := TotalCharacters(chunks);
    ChunkStats(
      |chunks|,
      totalChars,
      if chunks != [] then totalChars / |chunks| else 0,
      if chunks != [] then chunks[0].startTimestamp else NoTimestamp,
      if chunks != [] then chunks[|chunks| - 1].endTimestamp else NoTimestamp)
  }

  /** Counts bounded by `width` add up to at most `width` per record. */
  lemma {:induction false} TotalBounded(chunks: seq<Chunk>, width: nat)
    requires forall i :: 0 <= i < |chunks| ==> chunks[i].charCount <= width
    ensures TotalCharacters(chunks) <= |chunks| * width
  {
    if chunks != [] {
      TotalBounded(chunks[..|chunks| - 1], width);
    }
  }

  /** Counts of at least one add up to at least one per record. */
  lemma {:induction false} TotalAtLeastCount(chunks: seq<Chunk>)
    requires forall i :: 0 <= i < |chunks| ==> chunks[i].charCount >= 1
    ensures TotalCharacters(chunks) >= |chunks|
  {
    if chunks != [] {
      TotalAtLeastCount(chunks[..|chunks| - 1]);
    }
  }

  /**
   * For a transcript longer than the chunk size, the average chunk size lies
   * between 1 and the chunk size and the total is at most one chunk size per
   * chunk.
   */
  lemma StatsOfLongTranscript(agent: ChunkingAgent, transcript: string)
    requires SplitTerminates(|CleanText(transcript)|, agent.maxChunkSize, agent.overlap)
    requires |CleanText(transcript)| > agent.maxChunkSize >= 0
    ensures var stats := GetChunkSummary(Chunks(agent, transcript));
            && stats.totalCharacters <= stats.totalChunks * agent.maxChunkSize
            && (stats.totalChunks > 0 ==> 1 <= stats.avgChunkSize <= agent.maxChunkSize)
  {
    var records := Chunks(agent, transcript);
    var pieces := Split(CleanText(transcript), agent.maxChunkSize, agent.overlap);
    assert forall i :: 0 <= i < |records| ==> 1 <= records[i].charCount <= agent.maxChunkSize;
    TotalBounded(records, agent.maxChunkSize);
    TotalAtLeastCount(records);
    if records != [] {
      FloorAverageBetween(TotalCharacters(records), |records|, 1, agent.maxChunkSize);
    }
  }

  /** A floor average of values between `lo` and `hi` lies between them too. */
  lemma FloorAverageBetween(total: nat, n: nat, lo: nat, hi: nat)
    requires n > 0 && n * lo <= total <= n * hi
    ensures lo <= total / n <= hi
  {
    var q := total / n;
    assert q * n <= total < (q + 1) * n;
    ProductOrder(q, hi, n);
    ProductOrder(lo, q + 1, n);
  }

  /** Products with the same positive factor are ordered like the other factors. */
  lemma ProductOrder(a: int, b: int, n: int)
    requires n > 0
    ensures a * n <= b * n <==> a <= b
    ensures a * n < b * n <==> a < b
  {
    assert b * n - a * n == (b - a) * n;
  }
}
