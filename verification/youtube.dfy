/**
 * The two pure helpers of `YouTubeExtractor` (src/utils/youtube_extractor.py):
 * `extract_video_id`, a first-match search over three URL patterns with a
 * bare-id fallback, and `format_transcript`, which renders timed segments as
 * `[ts] text` lines.
 */
module YouTube {
  import opened Wrappers
  import opened Strings
  import opened TextProcessing

  // ================================================================ extract_video_id

  /** The characters the capture `[^&\n?#]+` stops at. */
  predicate StopsCapture(c: char) {
    c == '&' || c == '\n' || c == '?' || c == '#'
  }

  /** A capture: non-empty, without any character that stops it. */
  predicate CleanCapture(id: string) {
    id != [] && forall i :: 0 <= i < |id| ==> !StopsCapture(id[i])
  }

  /** The characters of a bare video id, `[a-zA-Z0-9_-]`. */
  predicate IdChar(c: char) {
    ('a' <= c <= 'z') || ('A' <= c <= 'Z') || ('0' <= c <= '9') || c == '_' || c == '-'
  }

  /** The literal text each URL pattern requires before its capture, in list order. */
  const WatchPrefix: string := "youtube.com/watch?v="
  const ShortPrefix: string := "youtu.be/"
  const EmbedPrefix: string := "youtube.com/embed/"
  const LegacyPrefix: string := "youtube.com/v/"

  /** The three patterns, each as its alternatives. */
  const Patterns: seq<seq<string>> := [[WatchPrefix, ShortPrefix], [EmbedPrefix], [LegacyPrefix]]

  /** How many characters from `j` on the greedy capture takes. */
  function CaptureLength(s: string, j: nat): (n: nat)
    ensures n > 0 ==> j + n <= |s| && CleanCapture(s[j..j + n])
    ensures j + n < |s| ==> StopsCapture(s[j + n])
    decreases |s| - j
  {
    if j < |s| && !StopsCapture(s[j]) then
      var n := 1 + CaptureLength(s, j + 1);
      assert s[j..j + n] == [s[j]] + s[j + 1..j + n];
      n
    else 0
  }

  /** The pattern with these alternatives matched at `i`: the first alternative that fits, and its capture. */
  function MatchAt(s: string, alternatives: seq<string>, i: nat): (capture: Option<string>)
    ensures capture.Some? ==> CleanCapture(capture.value)
  {
    if alternatives == [] then None
    else
      var p := alternatives[0];
      var n := if OccursAt(s, p, i) then CaptureLength(s, i + |p|) else 0;
      if n > 0 then Some(s[i + |p|..i + |p| + n])
      else MatchAt(s, alternatives[1..], i)
  }

  /** A match is one of the alternatives followed by the capture, found at `i`. */
  lemma {:induction false} MatchAtOccurs(s: string, alternatives: seq<string>, i: nat)
    ensures var capture := MatchAt(s, alternatives, i);
            capture.Some? ==>
              exists k :: 0 <= k < |alternatives| && OccursAt(s, alternatives[k] + capture.value, i)
  {
    var capture := MatchAt(s, alternatives, i);
    if alternatives != [] && capture.Some? {
      var p := alternatives[0];
      var n := if OccursAt(s, p, i) then CaptureLength(s, i + |p|) else 0;
      if n > 0 {
        var c := s[i + |p|..i + |p| + n];
        assert s[i..i + |p| + n] == p + c by { assert s[i..i + |p|] == p; }
        assert OccursAt(s, alternatives[0] + c, i);
      } else {
        MatchAtOccurs(s, alternatives[1..], i);
        var k :| 0 <= k < |alternatives[1..]| && OccursAt(s, alternatives[1..][k] + capture.value, i);
        assert OccursAt(s, alternatives[k + 1] + capture.value, i);
      }
    }
  }

  /** Python's `re.search`: the leftmost position from `i` on where the pattern matches. */
  function SearchFrom(s: string, alternatives: seq<string>, i: nat): (capture: Option<string>)
    ensures capture.Some? ==> CleanCapture(capture.value)
    ensures capture.None? ==> forall j :: i <= j <= |s| ==> MatchAt(s, alternatives, j).None?
    decreases |s| - i
  {
    var here := MatchAt(s, alternatives, i);
    if here.Some? then here
    else if i >= |s| then None
    else SearchFrom(s, alternatives, i + 1)
  }

  /** The bare-id test `re.match(r'^[a-zA-Z0-9_-]{11}$', url)`; Python's `$` also matches before a final newline. */
  predicate BareIdAsWritten(url: string) {
    && (|url| == 11 || (|url| == 12 && url[11] == '\n'))
    && forall i :: 0 <= i < 11 ==> IdChar(url[i])
  }

  /** The first pattern, in list order, that matches anywhere in the URL, and its capture. */
  function FirstPatternMatch(url: string, patterns: seq<seq<string>>): (capture: Option<string>)
    ensures capture.Some? ==> CleanCapture(capture.value)
    ensures capture.None? ==> forall k :: 0 <= k < |patterns| ==> SearchFrom(url, patterns[k], 0).None?
  {
    if patterns == [] then None
    else
      var found := SearchFrom(url, patterns[0], 0);
      if found.Some? then found else FirstPatternMatch(url, patterns[1..])
  }

  /**
   * `extract_video_id` as written: the capture of the first URL pattern that
   * matches; failing that, the whole input when it passes the bare-id test;
   * otherwise `None`.
   */
  function ExtractVideoId(url: string): (id: Option<string>)
    ensures id.Some? ==> id.value != [] && forall i :: 0 <= i < |id.value| ==> id.value[i] != '&' && id.value[i] != '?' && id.value[i] != '#'
  {
    var found := FirstPatternMatch(url, Patterns);
    if found.Some? then found
    else if BareIdAsWritten(url) then Some(url)
    else None
  }

  /**
   * `extract_video_id` with the bare-id test anchored at the very end (`\Z`):
   * no result ever holds a newline, and a bare id is exactly 11 id characters.
   */
  function ExtractVideoIdStrict(url: string): (id: Option<string>)
    ensures id.Some? ==> CleanCapture(id.value)
    ensures id.Some? && FirstPatternMatch(url, Patterns).None? ==>
              |id.value| == 11 && forall i :: 0 <= i < 11 ==> IdChar(id.value[i])
  {
    var found := FirstPatternMatch(url, Patterns);
    if found.Some? then found
    else if |url| == 11 && forall i :: 0 <= i < 11 ==> IdChar(url[i]) then Some(url)
    else None
  }

  /** A string that differs from `p` at offset `d` does not hold `p` at `j`. */
  lemma MismatchAt(s: string, p: string, j: nat, d: nat)
    requires d < |p| && (j + d < |s| ==> s[j + d] != p[d])
    ensures !OccursAt(s, p, j)
  {
    if j + |p| <= |s| {
      assert s[j..j + |p|][d] != p[d];
    }
  }

  /** A pattern whose alternatives all fail to occur at `j` does not match there. */
  lemma {:induction false} NoAlternativeAt(s: string, alternatives: seq<string>, j: nat)
    requires forall k :: 0 <= k < |alternatives| ==> !OccursAt(s, alternatives[k], j)
    ensures MatchAt(s, alternatives, j).None?
  {
    if alternatives != [] {
      NoAlternativeAt(s, alternatives[1..], j);
    }
  }

  /** The search over the three patterns, written out in list order. */
  lemma PatternsInOrder(url: string)
    ensures FirstPatternMatch(url, Patterns) ==
              var watch := SearchFrom(url, [WatchPrefix, ShortPrefix], 0);
              var embed := SearchFrom(url, [EmbedPrefix], 0);
              if watch.Some? then watch
              else if embed.Some? then embed
              else SearchFrom(url, [LegacyPrefix], 0)
  {
    var rest := [[EmbedPrefix], [LegacyPrefix]];
    assert Patterns == [[WatchPrefix, ShortPrefix]] + rest;
    assert Patterns[1..] == rest;
    assert rest[1..] == [[LegacyPrefix]];
    assert rest[1..][1..] == [];
    var legacy := SearchFrom(url, [LegacyPrefix], 0);
    assert FirstPatternMatch(url, [[LegacyPrefix]]) == if legacy.Some? then legacy else FirstPatternMatch(url, []);
  }

  /** Every alternative of every pattern holds a `.`, so a string without one matches none. */
  lemma NoPatternWithoutDot(url: string)
    requires forall i :: 0 <= i < |url| ==> url[i] != '.'
    ensures FirstPatternMatch(url, Patterns).None?
  {
    DotlessNoSearch(url);
    PatternsInOrder(url);
  }

  /** No search for a pattern's alternatives succeeds on a string without a `.`. */
  lemma DotlessNoSearch(url: string)
    requires forall i :: 0 <= i < |url| ==> url[i] != '.'
    ensures SearchFrom(url, [WatchPrefix, ShortPrefix], 0).None?
    ensures SearchFrom(url, [EmbedPrefix], 0).None?
    ensures SearchFrom(url, [LegacyPrefix], 0).None?
  {
    forall j | 0 <= j <= |url|
      ensures MatchAt(url, [WatchPrefix, ShortPrefix], j).None?
      ensures MatchAt(url, [EmbedPrefix], j).None?
      ensures MatchAt(url, [LegacyPrefix], j).None?
    {
      NoPatternAtDotless(url, j);
    }
    NoMatchNoSearch(url, [WatchPrefix, ShortPrefix], 0);
    NoMatchNoSearch(url, [EmbedPrefix], 0);
    NoMatchNoSearch(url, [LegacyPrefix], 0);
  }

  lemma NoPatternAtDotless(url: string, j: nat)
    requires forall i :: 0 <= i < |url| ==> url[i] != '.'
    ensures MatchAt(url, [WatchPrefix, ShortPrefix], j).None?
    ensures MatchAt(url, [EmbedPrefix], j).None?
    ensures MatchAt(url, [LegacyPrefix], j).None?
  {
    assert WatchPrefix[7] == '.' && ShortPrefix[5] == '.' && EmbedPrefix[7] == '.' && LegacyPrefix[7] == '.';
    MismatchAt(url, WatchPrefix, j, 7);
    MismatchAt(url, ShortPrefix, j, 5);
    MismatchAt(url, EmbedPrefix, j, 7);
    MismatchAt(url, LegacyPrefix, j, 7);
    NoAlternativeAt(url, [WatchPrefix, ShortPrefix], j);
    NoAlternativeAt(url, [EmbedPrefix], j);
    NoAlternativeAt(url, [LegacyPrefix], j);
  }

  lemma {:induction false} NoMatchNoSearch(s: string, alternatives: seq<string>, i: nat)
    requires i <= |s|
    requires forall j :: i <= j <= |s| ==> MatchAt(s, alternatives, j).None?
    ensures SearchFrom(s, alternatives, i).None?
    decreases |s| - i
  {
    if i < |s| {
      NoMatchNoSearch(s, alternatives, i + 1);
    }
  }

  /** An input of exactly 11 id characters comes back unchanged. */
  lemma BareIdReturned(url: string)
    requires |url| == 11 && forall i :: 0 <= i < 11 ==> IdChar(url[i])
    ensures ExtractVideoId(url) == Some(url)
    ensures ExtractVideoIdStrict(url) == Some(url)
  {
    NoPatternWithoutDot(url);
  }

  /**
   * The as-written bare-id test lets an 11-character id followed by a newline
   * through, and returns it newline included: a 12-character "id".
   */
  lemma TrailingNewlineAccepted(id: string)
    requires |id| == 11 && forall i :: 0 <= i < 11 ==> IdChar(id[i])
    ensures ExtractVideoId(id + "\n") == Some(id + "\n")
    ensures ExtractVideoIdStrict(id + "\n") == None
  {
    var url := id + "\n";
    assert url[11] == '\n';
    assert forall i :: 0 <= i < 11 ==> url[i] == id[i];
    NoPatternWithoutDot(url);
  }

  /** The two versions differ only on an 11-character id followed by a newline. */
  lemma StrictAgreesElsewhere(url: string)
    requires !(|url| == 12 && url[11] == '\n')
    ensures ExtractVideoIdStrict(url) == ExtractVideoId(url)
  {
  }

  /** No alternative of the first pattern can start at a character other than `y`. */
  lemma {:induction false} NoWatchMatchBefore(s: string, pre: string, i: nat)
    requires 'y' !in pre && i <= |pre| <= |s| && s[..|pre|] == pre
    ensures forall j :: i <= j < |pre| ==> MatchAt(s, [WatchPrefix, ShortPrefix], j).None?
  {
    forall j | i <= j < |pre|
      ensures MatchAt(s, [WatchPrefix, ShortPrefix], j).None?
    {
      assert s[j] == pre[j];
      MismatchAt(s, WatchPrefix, j, 0);
      MismatchAt(s, ShortPrefix, j, 0);
      NoAlternativeAt(s, [WatchPrefix, ShortPrefix], j);
    }
  }

  /** What comes after the id ends the capture: nothing, or a stopping character. */
  predicate EndsCapture(tail: string) {
    tail == [] || StopsCapture(tail[0])
  }

  /** The capture that starts where `id` starts is all of `id`. */
  lemma {:induction false} CaptureOfId(s: string, j: nat, id: string, tail: string)
    requires CleanCapture(id) && EndsCapture(tail) && j + |id| + |tail| == |s|
    requires s[j..] == id + tail
    ensures CaptureLength(s, j) == |id|
    decreases |id|
  {
    assert s[j] == (id + tail)[0];
    if |id| > 1 {
      assert s[j + 1..] == id[1..] + tail;
      CaptureOfId(s, j + 1, id[1..], tail);
    } else {
      if j + 1 < |s| {
        assert s[j + 1] == tail[0];
      }
    }
  }

  /** In `pre + p + id + tail`, `p` occurs right after `pre` and the capture after it is `id`. */
  lemma CaptureAfter(s: string, pre: string, p: string, id: string, tail: string)
    requires s == pre + p + id + tail && CleanCapture(id) && EndsCapture(tail)
    ensures OccursAt(s, p, |pre|)
    ensures CaptureLength(s, |pre| + |p|) == |id|
    ensures s[|pre| + |p|..|pre| + |p| + |id|] == id
  {
    var j := |pre|;
    assert s[j..j + |p|] == p;
    assert s[j + |p|..] == id + tail;
    CaptureOfId(s, j + |p|, id, tail);
    assert s[j + |p|..j + |p| + |id|] == id;
  }

  /** Where the first of two alternatives does not occur, the pattern matches as the second alone. */
  lemma SecondAlternative(s: string, a: string, b: string, j: nat)
    requires !OccursAt(s, a, j)
    ensures MatchAt(s, [a, b], j) == MatchAt(s, [b], j)
  {
    assert [a, b][1..] == [b];
  }

  /** A one-alternative pattern that occurs at `j` matches there with the capture after it. */
  lemma SingleMatch(s: string, p: string, j: nat, id: string)
    requires OccursAt(s, p, j) && CaptureLength(s, j + |p|) == |id| > 0
    requires s[j + |p|..j + |p| + |id|] == id
    ensures MatchAt(s, [p], j) == Some(id)
  {
  }

  /** Where `youtu.be/` occurs, `youtube.com/watch?v=` does not: they differ at index 5. */
  lemma ShortIsNotWatch(s: string, j: nat)
    requires OccursAt(s, ShortPrefix, j)
    ensures !OccursAt(s, WatchPrefix, j)
  {
    assert s[j + 5] == s[j..j + |ShortPrefix|][5] == '.';
    MismatchAt(s, WatchPrefix, j, 5);
  }

  /**
   * A watch URL gives back its id: whatever precedes `youtube.com/watch?v=`
   * (the scheme and host, say), as long as it has no `y`.
   */
  lemma WatchUrlRoundTrip(pre: string, id: string, tail: string)
    requires 'y' !in pre && CleanCapture(id) && EndsCapture(tail)
    ensures ExtractVideoId(pre + WatchPrefix + id + tail) == Some(id)
  {
    var s := pre + WatchPrefix + id + tail;
    var j := |pre|;
    assert s[..j] == pre;
    NoWatchMatchBefore(s, pre, 0);
    CaptureAfter(s, pre, WatchPrefix, id, tail);
    assert MatchAt(s, [WatchPrefix, ShortPrefix], j) == Some(id);
    SearchSkips(s, [WatchPrefix, ShortPrefix], 0, j);
    PatternsInOrder(s);
  }

  /** A short URL gives back its id, under the same condition on what precedes `youtu.be/`. */
  lemma ShortUrlRoundTrip(pre: string, id: string, tail: string)
    requires 'y' !in pre && CleanCapture(id) && EndsCapture(tail)
    ensures ExtractVideoId(pre + ShortPrefix + id + tail) == Some(id)
  {
    var s := pre + ShortPrefix + id + tail;
    ShortFound(s, pre, id, tail);
    PatternsInOrder(s);
  }

  /** The first pattern's search finds the id of a short URL, at the end of `pre`. */
  lemma ShortFound(s: string, pre: string, id: string, tail: string)
    requires s == pre + ShortPrefix + id + tail
    requires 'y' !in pre && CleanCapture(id) && EndsCapture(tail)
    ensures SearchFrom(s, [WatchPrefix, ShortPrefix], 0) == Some(id)
  {
    var j := |pre|;
    assert s[..j] == pre;
    NoWatchMatchBefore(s, pre, 0);
    CaptureAfter(s, pre, ShortPrefix, id, tail);
    ShortIsNotWatch(s, j);
    SecondAlternative(s, WatchPrefix, ShortPrefix, j);
    SingleMatch(s, ShortPrefix, j, id);
    SearchSkips(s, [WatchPrefix, ShortPrefix], 0, j);
  }

  /**
   * An embed URL gives back its id once the first pattern is found nowhere
   * in it, and no `y` before `youtube.com/embed/` could start an earlier
   * embed match.
   */
  lemma EmbedUrlRoundTrip(pre: string, id: string, tail: string)
    requires SearchFrom(pre + EmbedPrefix + id + tail, [WatchPrefix, ShortPrefix], 0).None?
    requires 'y' !in pre
    requires CleanCapture(id) && EndsCapture(tail)
    ensures ExtractVideoId(pre + EmbedPrefix + id + tail) == Some(id)
  {
    var s := pre + EmbedPrefix + id + tail;
    EmbedFound(pre, id, tail);
    PatternsInOrder(s);
    assert FirstPatternMatch(s, Patterns) == Some(id);
  }

  /** In particular when no `y` occurs outside the `youtube.com/embed/` text itself. */
  lemma EmbedUrlWithoutY(pre: string, id: string, tail: string)
    requires 'y' !in pre && 'y' !in id && 'y' !in tail
    requires CleanCapture(id) && EndsCapture(tail)
    ensures ExtractVideoId(pre + EmbedPrefix + id + tail) == Some(id)
  {
    NoWatchInEmbedUrl(pre, id, tail);
    EmbedUrlRoundTrip(pre, id, tail);
  }

  lemma NoWatchInEmbedUrl(pre: string, id: string, tail: string)
    requires 'y' !in pre && 'y' !in id && 'y' !in tail
    ensures SearchFrom(pre + EmbedPrefix + id + tail, [WatchPrefix, ShortPrefix], 0).None?
  {
    var s := pre + EmbedPrefix + id + tail;
    var j := |pre|;
    forall q | 0 <= q <= |s| ensures MatchAt(s, [WatchPrefix, ShortPrefix], q).None? {
      NoWatchAt(pre, id, tail, q);
    }
    NoMatchNoSearch(s, [WatchPrefix, ShortPrefix], 0);
  }

  lemma NoWatchAt(pre: string, id: string, tail: string, q: nat)
    requires 'y' !in pre && 'y' !in id && 'y' !in tail
    ensures MatchAt(pre + EmbedPrefix + id + tail, [WatchPrefix, ShortPrefix], q).None?
  {
    var s := pre + EmbedPrefix + id + tail;
    var j := |pre|;
    if q == j {
      assert s[j + 5] == 'b' && s[j + 12] == 'e';
      MismatchAt(s, WatchPrefix, q, 12);
      MismatchAt(s, ShortPrefix, q, 5);
    } else {
      OnlyOneY(pre, id, tail, q);
      MismatchAt(s, WatchPrefix, q, 0);
      MismatchAt(s, ShortPrefix, q, 0);
    }
    NoAlternativeAt(s, [WatchPrefix, ShortPrefix], q);
  }

  lemma EmbedFound(pre: string, id: string, tail: string)
    requires 'y' !in pre && CleanCapture(id) && EndsCapture(tail)
    ensures SearchFrom(pre + EmbedPrefix + id + tail, [EmbedPrefix], 0) == Some(id)
  {
    var s := pre + EmbedPrefix + id + tail;
    var j := |pre|;
    forall q | 0 <= q < j ensures MatchAt(s, [EmbedPrefix], q).None? {
      assert s[q] == pre[q];
      MismatchAt(s, EmbedPrefix, q, 0);
      NoAlternativeAt(s, [EmbedPrefix], q);
    }
    assert s[j..j + |EmbedPrefix|] == EmbedPrefix;
    assert s[j + |EmbedPrefix|..] == id + tail;
    CaptureOfId(s, j + |EmbedPrefix|, id, tail);
    assert s[j + |EmbedPrefix|..j + |EmbedPrefix| + |id|] == id;
    assert MatchAt(s, [EmbedPrefix], j) == Some(id);
    SearchSkips(s, [EmbedPrefix], 0, j);
  }

  /** In such an embed URL the only `y` is the one that opens `youtube.com/embed/`. */
  lemma OnlyOneY(pre: string, id: string, tail: string, q: nat)
    requires 'y' !in pre && 'y' !in id && 'y' !in tail
    requires q != |pre|
    ensures var s := pre + EmbedPrefix + id + tail; q < |s| ==> s[q] != 'y'
  {
    var s := pre + EmbedPrefix + id + tail;
    var e := |pre| + |EmbedPrefix|;
    if q < |pre| {
      assert s[q] == pre[q];
    } else if q < e {
      assert s[q] == EmbedPrefix[q - |pre|];
    } else if q < e + |id| {
      assert s[q] == id[q - e];
    } else if q < |s| {
      assert s[q] == tail[q - e - |id|];
    }
  }

  /** The search skips every position without a match and returns the first match. */
  lemma {:induction false} SearchSkips(s: string, alternatives: seq<string>, i: nat, j: nat)
    requires i <= j <= |s|
    requires forall k :: i <= k < j ==> MatchAt(s, alternatives, k).None?
    requires MatchAt(s, alternatives, j).Some?
    ensures SearchFrom(s, alternatives, i) == MatchAt(s, alternatives, j)
    decreases j - i
  {
    if i < j {
      SearchSkips(s, alternatives, i + 1, j);
    }
  }

  // ================================================================ format_transcript

  /** One timed segment of a transcript; its start is taken in whole seconds. */
  datatype Segment = Segment(text: string, start: nat)

  /** A segment's line: its start as a clock in brackets, a space, and its stripped text. */
  function TranscriptLine(segment: Segment): string {
    "[" + FormatDuration(segment.start) + "] " + Strip(segment.text)
  }

  /** `f` applied to every element, in order. */
  function MapSeq<T, U>(f: T -> U, xs: seq<T>): (ys: seq<U>)
    ensures |ys| == |xs| && forall i :: 0 <= i < |xs| ==> ys[i] == f(xs[i])
  {
    seq(|xs|, i requires 0 <= i < |xs| => f(xs[i]))
  }

  lemma MapSeqSnoc<T, U>(f: T -> U, xs: seq<T>, i: nat)
    requires i < |xs|
    ensures MapSeq(f, xs[..i + 1]) == MapSeq(f, xs[..i]) + [f(xs[i])]
  {
  }

  /** The lines of a transcript: one per segment, in order. */
  function TranscriptLines(transcript: seq<Segment>): seq<string> {
    MapSeq(TranscriptLine, transcript)
  }

  /** `format_transcript`: build the lines in a loop, then join them with newlines. */
  method FormatTranscript(transcript: seq<Segment>) returns (formatted: string)
    ensures formatted == Join(TranscriptLines(transcript), "\n")
    ensures transcript == [] ==> formatted == ""
  {
    var formattedParts: seq<string> := [];
    var i := 0;
    while i < |transcript|
      invariant i <= |transcript|
      invariant formattedParts == TranscriptLines(transcript[..i])
    {
      var segment := transcript[i];
      var text := Strip(segment.text);
      var timestamp := FormatDuration(segment.start);
      MapSeqSnoc(TranscriptLine, transcript, i);
      formattedParts := formattedParts + ["[" + timestamp + "] " + text];
      i := i + 1;
    }
    assert transcript[..i] == transcript;
    formatted := Join(formattedParts, "\n");
  }

  /** A clock string holds only digits and colons. */
  lemma ClockHasNoNewline(seconds: nat)
    ensures '\n' !in FormatDuration(seconds)
  {
    var hours, minutes, secs := seconds / 3600, (seconds % 3600) / 60, seconds % 60;
    FormatDurationSpelled(seconds);
    assert '\n' !in Pad2(hours) && '\n' !in Pad2(minutes) && '\n' !in Pad2(secs);
  }

  /** Stripping keeps a slice of the text, so it adds no newline. */
  lemma StripHasNoNewline(s: string)
    requires '\n' !in s
    ensures '\n' !in Strip(s)
  {
    var t := s[LeadingWs(s)..];
    assert '\n' !in t;
    assert '\n' !in t[..|t| - TrailingWs(t)];
  }

  /** No line holds a newline when its segment's text does not. */
  lemma LineHasNoNewline(segment: Segment)
    requires '\n' !in segment.text
    ensures '\n' !in TranscriptLine(segment)
  {
    ClockHasNoNewline(segment.start);
    StripHasNoNewline(segment.text);
  }

  /**
   * With no newline inside any segment's text, splitting the formatted
   * transcript at newlines gives back its lines.
   */
  lemma TranscriptLinesRoundTrip(transcript: seq<Segment>)
    requires transcript != []
    requires forall i :: 0 <= i < |transcript| ==> '\n' !in transcript[i].text
    ensures SplitOn(Join(TranscriptLines(transcript), "\n"), '\n') == TranscriptLines(transcript)
  {
    var lines := TranscriptLines(transcript);
    forall k | 0 <= k < |lines| ensures '\n' !in lines[k] {
      LineHasNoNewline(transcript[k]);
    }
    SplitJoin(lines, '\n');
  }

  /** Under 100 hours, `extract_timestamps` reads each line's bracketed stamp back first. */
  lemma LineStampRecognised(segment: Segment)
    requires segment.start < 360000
    ensures ExtractTimestamps(TranscriptLine(segment))
            == [FormatDuration(segment.start)] + ExtractTimestamps(" " + Strip(segment.text))
  {
    DurationIsToken(segment.start);
    StampedLine(FormatDuration(segment.start), Strip(segment.text));
  }

  /** A line that opens with a bracketed clock token yields that token first. */
  lemma StampedLine(ts: string, text: string)
    requires ClockToken(ts)
    ensures ExtractTimestamps("[" + ts + "] " + text) == [ts] + ExtractTimestamps(" " + text)
  {
    var rest := " " + text;
    assert "[" + ts + "] " + text == "[" + ts + "]" + rest;
    BracketedTokenRecognised(ts, rest);
  }
}
