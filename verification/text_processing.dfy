/**
 * The text splitter (`TextProcessor` in src/utils/text_processing.py):
 * whitespace normalisation, the overlapping sentence-aware windows, the
 * timestamp scanner and the duration formatter.
 */
module TextProcessing {
  import opened Strings
  import opened Wrappers

  function Max(a: int, b: int): (r: int)
    ensures r >= a && r >= b && (r == a || r == b)
  {
    if a >= b then a else b
  }

  function Min(a: int, b: int): (r: int)
    ensures r <= a && r <= b && (r == a || r == b)
  {
    if a <= b then a else b
  }

  // ================================================================ clean_text

  /** Every whitespace character is a plain space. */
  predicate SpacesOnly(s: string) {
    forall i :: 0 <= i < |s| && IsWs(s[i]) ==> s[i] == ' '
  }

  /** No two whitespace characters stand side by side. */
  predicate NoAdjacentWs(s: string) {
    forall i :: 0 <= i < |s| - 1 ==> !(IsWs(s[i]) && IsWs(s[i + 1]))
  }

  /** The shape of normalised text: trimmed, single spaces, no other whitespace. */
  predicate Canonical(s: string) {
    && Trimmed(s)
    && SpacesOnly(s)
    && NoAdjacentWs(s)
  }

  /** `re.sub(r'\s+', ' ', s)`: each maximal run of whitespace becomes one space. */
  function CollapseWs(s: string): (r: string)
    ensures s != [] ==> r != [] && (IsWs(r[0]) <==> IsWs(s[0]))
    ensures SpacesOnly(r) && NoAdjacentWs(r)
    decreases |s|
  {
    if s == [] then []
    else if IsWs(s[0]) then [' '] + CollapseWs(s[LeadingWs(s)..])
    else [s[0]] + CollapseWs(s[1..])
  }

  lemma {:induction false} CollapseKeepsNonWs(s: string)
    ensures NonWs(CollapseWs(s)) == NonWs(s)
    decreases |s|
  {
    if s == [] {
    } else if IsWs(s[0]) {
      var k := LeadingWs(s);
      CollapseKeepsNonWs(s[k..]);
      assert s == s[..k] + s[k..];
      NonWsAppend(s[..k], s[k..]);
      NonWsOfAllWs(s[..k]);
      NonWsAppend([' '], CollapseWs(s[k..]));
    } else {
      CollapseKeepsNonWs(s[1..]);
      NonWsAppend([s[0]], CollapseWs(s[1..]));
    }
  }

  /**
   * A whitespace run followed by a non-whitespace character (or by nothing)
   * becomes exactly one space, and the collapse goes on after the run.
   */
  lemma RunBecomesSpace(w: string, b: string)
    requires w != [] && AllWs(w)
    requires b == [] || !IsWs(b[0])
    ensures CollapseWs(w + b) == [' '] + CollapseWs(b)
  {
    LeadingWsOfRun(w, b);
    assert (w + b)[|w|..] == b;
  }

  /** A non-whitespace character is copied, and the collapse goes on after it. */
  lemma WordCharKept(c: char, b: string)
    requires !IsWs(c)
    ensures CollapseWs([c] + b) == [c] + CollapseWs(b)
  {
    assert ([c] + b)[1..] == b;
  }

  /** Two words with whitespace between them come out with one space between them. */
  lemma WordsStayApart(x: char, w: string, y: char, rest: string)
    requires !IsWs(x) && !IsWs(y) && w != [] && AllWs(w)
    ensures CollapseWs([x] + w + [y] + rest) == [x, ' ', y] + CollapseWs(rest)
  {
    assert [x] + w + [y] + rest == [x] + (w + ([y] + rest));
    WordCharKept(x, w + ([y] + rest));
    RunBecomesSpace(w, [y] + rest);
    WordCharKept(y, rest);
  }

  /** Text already made of single spaces is left alone by the collapse. */
  lemma {:induction false} CollapseFixesSpaced(s: string)
    requires SpacesOnly(s) && NoAdjacentWs(s)
    ensures CollapseWs(s) == s
  {
    if s != [] {
      if IsWs(s[0]) {
        assert LeadingWs(s) == 1 + LeadingWs(s[1..]);
        assert LeadingWs(s[1..]) == 0;
      }
      CollapseFixesSpaced(s[1..]);
    }
  }

  /** The greatest k in [lo, hi) with s[k] a newline, or -1 when there is none. */
  function LastNewline(s: string, lo: nat, hi: nat): (k: int)
    requires lo <= hi <= |s|
    ensures k == -1 || (lo <= k < hi && s[k] == '\n')
    ensures forall j :: (if k == -1 then lo else k + 1) <= j < hi ==> s[j] != '\n'
    decreases hi
  {
    if hi == lo then -1
    else if s[hi - 1] == '\n' then hi - 1
    else LastNewline(s, lo, hi - 1)
  }

  /**
   * `re.sub(r'\n\s*\n', '\n', s)`: a newline, the whitespace after it and the
   * last newline inside that whitespace become a single newline (the greedy
   * `\s*` backs off to the last newline of the run).
   */
  function SqueezeBlankLines(s: string): string
    decreases |s|
  {
    if s == [] then []
    else if s[0] == '\n' then
      var k := LastNewline(s, 1, 1 + LeadingWs(s[1..]));
      if k == -1 then [s[0]] + SqueezeBlankLines(s[1..])
      else "\n" + SqueezeBlankLines(s[k + 1..])
    else [s[0]] + SqueezeBlankLines(s[1..])
  }

  /** On text without newlines the blank-line squeeze changes nothing. */
  lemma {:induction false} SqueezeWithoutNewline(s: string)
    requires '\n' !in s
    ensures SqueezeBlankLines(s) == s
  {
    if s != [] {
      assert s == [s[0]] + s[1..];
      SqueezeWithoutNewline(s[1..]);
    }
  }

  /** `clean_text`: collapse whitespace runs, squeeze blank lines, strip. */
  function CleanText(text: string): string {
    Strip(SqueezeBlankLines(CollapseWs(text)))
  }

  /** Cleaned text is canonical, newline-free, and keeps every non-whitespace character in order. */
  lemma CleanTextCanonical(text: string)
    ensures Canonical(CleanText(text)) && '\n' !in CleanText(text)
    ensures NonWs(CleanText(text)) == NonWs(text)
    ensures CleanText(text) == Strip(CollapseWs(text))
  {
    var c := CollapseWs(text);
    assert forall i :: 0 <= i < |c| ==> c[i] != '\n';
    SqueezeWithoutNewline(c);
    StripKeepsSpacing(c);
    CollapseKeepsNonWs(text);
    StripKeepsNonWs(c);
  }

  /** Stripping single-spaced text gives canonical text, and adds no newline. */
  lemma StripKeepsSpacing(c: string)
    requires SpacesOnly(c) && NoAdjacentWs(c)
    ensures Canonical(Strip(c)) && ('\n' !in c ==> '\n' !in Strip(c))
  {
    var r := Strip(c);
    var a := LeadingWs(c);
    assert r == c[a..][..|r|];
    assert forall i :: 0 <= i < |r| ==> r[i] == c[a + i];
    assert NoAdjacentWs(r) by {
      forall i | 0 <= i < |r| - 1
        ensures !(IsWs(r[i]) && IsWs(r[i + 1]))
      {
        assert r[i] == c[a + i] && r[i + 1] == c[a + i + 1];
      }
    }
  }

  /** Canonical text is its own cleaning. */
  lemma CleanTextFixesCanonical(s: string)
    requires Canonical(s)
    ensures CleanText(s) == s
  {
    CollapseFixesSpaced(s);
    assert forall i :: 0 <= i < |s| ==> s[i] != '\n';
    SqueezeWithoutNewline(s);
    StripTrimmed(s);
  }

  lemma CleanTextIdempotent(text: string)
    ensures CleanText(CleanText(text)) == CleanText(text)
  {
    CleanTextCanonical(text);
    CleanTextFixesCanonical(CleanText(text));
  }

  lemma NonWsFirst(s: string)
    ensures s != [] && NonWs(s) == [] ==> IsWs(s[0])
  {
  }

  /** Whitespace-only text (the empty text included) cleans to the empty string. */
  lemma CleanBlank(text: string)
    requires AllWs(text)
    ensures CleanText(text) == []
  {
    CleanTextCanonical(text);
    NonWsOfAllWs(text);
    NonWsFirst(CleanText(text));
  }

  // ================================================================ split_into_chunks

  /** How far back from a window's raw end a sentence terminator is looked for. */
  const Lookback: nat := 200

  /**
   * Python's `text.rfind(sub, lo, hi)`: the greatest i >= lo at which `sub`
   * occurs and ends by `hi`, or -1.
   */
  function RFind(text: string, sub: string, lo: nat, hi: int): (r: int)
    requires hi <= |text|
    ensures r == -1 || (lo <= r && r + |sub| <= hi)
    decreases hi - lo
  {
    if hi - |sub| < lo then -1
    else if OccursAt(text, sub, hi - |sub|) then hi - |sub|
    else RFind(text, sub, lo, hi - 1)
  }

  /** `rfind` reports an occurrence, and the last one: none fits in [lo, hi) after it. */
  lemma {:induction false} RFindIsLast(text: string, sub: string, lo: nat, hi: int)
    requires hi <= |text|
    ensures var r := RFind(text, sub, lo, hi);
            r != -1 ==> OccursAt(text, sub, r)
    ensures var r := RFind(text, sub, lo, hi);
            forall i :: (if r == -1 then lo else r + 1) <= i && i + |sub| <= hi ==> !OccursAt(text, sub, i)
    decreases hi - lo
  {
    if hi - |sub| >= lo && !OccursAt(text, sub, hi - |sub|) {
      RFindIsLast(text, sub, lo, hi - 1);
    }
  }

  /** A sentence terminator starts at `i`: one of the three patterns the splitter looks for. */
  predicate TerminatorAt(text: string, i: int) {
    OccursAt(text, ". ", i) || OccursAt(text, "! ", i) || OccursAt(text, "? ", i)
  }

  lemma TerminatorChars(text: string, i: int)
    requires TerminatorAt(text, i)
    ensures 0 <= i && i + 1 < |text| && text[i + 1] == ' '
    ensures text[i] == '.' || text[i] == '!' || text[i] == '?'
  {
    assert text[i..i + 2][0] == text[i] && text[i..i + 2][1] == text[i + 1];
  }

  /** `max` of the three `rfind` calls: the last terminator inside [lo, hi), or -1. */
  function SentenceEnd(text: string, lo: nat, hi: int): (r: int)
    requires hi <= |text|
    ensures r == -1 || (lo <= r && r + 2 <= hi)
  {
    Max(Max(RFind(text, ". ", lo, hi), RFind(text, "! ", lo, hi)), RFind(text, "? ", lo, hi))
  }

  /** `SentenceEnd` reports a terminator, and no terminator fits in [lo, hi) after it. */
  lemma SentenceEndIsLast(text: string, lo: nat, hi: int)
    requires hi <= |text|
    ensures var r := SentenceEnd(text, lo, hi);
            r != -1 ==> TerminatorAt(text, r)
    ensures var r := SentenceEnd(text, lo, hi);
            forall i :: (if r == -1 then lo else r + 1) <= i && i + 2 <= hi ==> !TerminatorAt(text, i)
  {
    RFindIsLast(text, ". ", lo, hi);
    RFindIsLast(text, "! ", lo, hi);
    RFindIsLast(text, "? ", lo, hi);
  }

  /**
   * The last terminator inside [lo, hi), or -1: what `SentenceEnd` computes,
   * stated as one scan down from `hi` (see `SentenceEndIsLastTerminator`).
   */
  function LastTerminator(text: string, lo: nat, hi: int): (r: int)
    requires hi <= |text|
    ensures r == -1 || (lo <= r && r + 2 <= hi && TerminatorAt(text, r))
    decreases hi - lo
  {
    if hi - 2 < lo then -1
    else if TerminatorAt(text, hi - 2) then hi - 2
    else LastTerminator(text, lo, hi - 1)
  }

  lemma {:induction false} LastTerminatorIsLast(text: string, lo: nat, hi: int)
    requires hi <= |text|
    ensures var r := LastTerminator(text, lo, hi);
            forall i :: (if r == -1 then lo else r + 1) <= i && i + 2 <= hi ==> !TerminatorAt(text, i)
    decreases hi - lo
  {
    if hi - 2 >= lo && !TerminatorAt(text, hi - 2) {
      LastTerminatorIsLast(text, lo, hi - 1);
    }
  }

  /** The maximum of the three `rfind`s is the last terminator in the range. */
  lemma SentenceEndIsLastTerminator(text: string, lo: nat, hi: int)
    requires hi <= |text|
    ensures SentenceEnd(text, lo, hi) == LastTerminator(text, lo, hi)
  {
    var a := SentenceEnd(text, lo, hi);
    var b := LastTerminator(text, lo, hi);
    SentenceEndIsLast(text, lo, hi);
    LastTerminatorIsLast(text, lo, hi);
    if a != -1 {
      assert TerminatorAt(text, a);
    }
    if b != -1 {
      assert TerminatorAt(text, b);
    }
  }

  /**
   * The least distance any window end lies beyond its start: a snapped end is
   * at least two past the start and at most `Lookback - 1` short of the raw end.
   */
  function MinAdvance(maxChunkSize: int): int {
    if maxChunkSize > Lookback then maxChunkSize - Lookback + 1
    else if maxChunkSize < 2 then maxChunkSize
    else 2
  }

  /**
   * Sizes under which `split_into_chunks` terminates on every text of the
   * given length: short input returns at once, empty input never enters the
   * loop, and otherwise every window must move the cursor forward by more
   * than the overlap. A non-positive size is admitted only for text that
   * fits.
   */
  predicate SplitTerminates(textLength: nat, maxChunkSize: int, overlap: int) {
    || textLength <= maxChunkSize
    || textLength == 0
    || (1 <= maxChunkSize && overlap < MinAdvance(maxChunkSize))
  }

  /** `n` copies of the letter `a`: text without any sentence terminator. */
  function Letters(n: nat): (r: string)
    ensures |r| == n && forall i :: 0 <= i < n ==> r[i] == 'a'
  {
    seq(n, _ => 'a')
  }

  /**
   * A text of length `maxChunkSize + 1` whose first window ends exactly
   * `MinAdvance(maxChunkSize)` characters in: a lone `. ` placed as late as
   * the snap allows.
   */
  function StallText(maxChunkSize: int): (text: string)
    requires 1 <= maxChunkSize
    ensures |text| == maxChunkSize + 1
  {
    if maxChunkSize < 3 then Letters(maxChunkSize + 1)
    else Letters(MinAdvance(maxChunkSize) - 1) + ". " + Letters(maxChunkSize - MinAdvance(maxChunkSize))
  }

  /** The end of the window that starts at `start`, snapped to a sentence end where one is found. */
  function WindowEnd(text: string, maxChunkSize: int, start: nat): (end: int)
    requires start < |text| && 1 <= maxChunkSize
    ensures start + MinAdvance(maxChunkSize) <= end <= start + maxChunkSize
  {
    var end := start + maxChunkSize;
    if end < |text| then
      var sentenceEnd := LastTerminator(text, Max(end - Lookback, start), end);
      if sentenceEnd > start then sentenceEnd + 1 else end
    else end
  }

  /**
   * For a positive size the bound in `SplitTerminates` is exact: for every
   * larger overlap there is a text on which the first window moves the
   * cursor back to 0 (the loop then repeats that window forever) or before.
   */
  lemma CursorStalls(maxChunkSize: int, overlap: int)
    requires 1 <= maxChunkSize && overlap >= MinAdvance(maxChunkSize)
    ensures var text := StallText(maxChunkSize);
            var end := WindowEnd(text, maxChunkSize, 0);
            |text| > maxChunkSize && end < |text| && end - overlap <= 0
  {
    var text := StallText(maxChunkSize);
    var m := maxChunkSize;
    var lo := Max(m - Lookback, 0);
    var r := LastTerminator(text, lo, m);
    var end := WindowEnd(text, m, 0);
    if m < 3 {
      if r != -1 {
        TerminatorChars(text, r);
      }
      assert end == m;
    } else {
      var p := MinAdvance(m) - 1;
      assert text[p] == '.' && text[p + 1] == ' ';
      assert forall i :: 0 <= i < |text| && i != p && i != p + 1 ==> text[i] == 'a';
      assert text[p..p + 2] == ". ";
      assert lo == p || (m <= Lookback && lo == 0 && p == 1);
      assert TerminatorAt(text, p);
      LastTerminatorIsLast(text, lo, m);
      if r != -1 {
        TerminatorChars(text, r);
      }
      assert r == p;
      assert end == MinAdvance(m);
    }
  }

  /** A window `[lo, hi)` of the text; the final window's `hi` may lie past the end of the text. */
  datatype Window = Window(lo: nat, hi: int)

  /** The windows the loop visits when its cursor is at `start`. */
  function WindowsFrom(text: string, maxChunkSize: int, overlap: int, start: nat): (ws: seq<Window>)
    requires 1 <= maxChunkSize && overlap < MinAdvance(maxChunkSize)
    ensures forall i :: 0 <= i < |ws| ==> start <= ws[i].lo < |text| && ws[i].lo < ws[i].hi <= ws[i].lo + maxChunkSize
    decreases |text| - start
  {
    if start >= |text| then []
    else
      var end := WindowEnd(text, maxChunkSize, start);
      var next := if end < |text| then end - overlap else |text|;
      [Window(start, end)] + WindowsFrom(text, maxChunkSize, overlap, next)
  }

  /** What a window emits: `text[lo:hi].strip()` (the slice stops at the end of the text). */
  function Piece(text: string, w: Window): string
    requires w.lo < |text| && w.lo < w.hi
  {
    Strip(text[w.lo..Min(w.hi, |text|)])
  }

  /** The non-empty pieces of the windows, in order. */
  function Pieces(text: string, ws: seq<Window>): seq<string>
    requires forall i :: 0 <= i < |ws| ==> ws[i].lo < |text| && ws[i].lo < ws[i].hi
  {
    if ws == [] then []
    else
      var p := Piece(text, ws[0]);
      (if p == [] then [] else [p]) + Pieces(text, ws[1..])
  }

  /** The chunks still to come when the cursor is at `start`. */
  function ChunksFrom(text: string, maxChunkSize: int, overlap: int, start: nat): seq<string>
    requires 1 <= maxChunkSize && overlap < MinAdvance(maxChunkSize)
  {
    Pieces(text, WindowsFrom(text, maxChunkSize, overlap, start))
  }

  /**
   * `split_into_chunks(text, maxChunkSize, overlap)` as a value: short text
   * comes back whole and untrimmed; otherwise every chunk is a non-empty,
   * trimmed string of at most `maxChunkSize` characters.
   */
  function Split(text: string, maxChunkSize: int, overlap: int): (chunks: seq<string>)
    requires SplitTerminates(|text|, maxChunkSize, overlap)
    ensures |text| <= maxChunkSize ==> chunks == [text]
    ensures |text| > maxChunkSize ==> BoundedChunks(chunks, maxChunkSize)
  {
    if |text| <= maxChunkSize then [text]
    else if text == [] then []
    else
      PiecesBounded(text, WindowsFrom(text, maxChunkSize, overlap, 0), maxChunkSize);
      ChunksFrom(text, maxChunkSize, overlap, 0)
  }

  /** Every chunk is non-empty, trimmed and at most `width` characters long. */
  predicate BoundedChunks(chunks: seq<string>, width: int) {
    forall i :: 0 <= i < |chunks| ==> 0 < |chunks[i]| <= width && Trimmed(chunks[i])
  }

  /** Pieces of windows no wider than `width` are non-empty, trimmed and no longer than `width`. */
  lemma {:induction false} PiecesBounded(text: string, ws: seq<Window>, width: int)
    requires forall i :: 0 <= i < |ws| ==> ws[i].lo < |text| && ws[i].lo < ws[i].hi <= ws[i].lo + width
    ensures BoundedChunks(Pieces(text, ws), width)
  {
    if ws != [] {
      var rest := ws[1..];
      PiecesBounded(text, rest, width);
      assert ws == [ws[0]] + rest;
      PiecesCons(text, ws[0], rest);
      var p := Piece(text, ws[0]);
      PieceBounded(text, ws[0], width);
      BoundedCons(if p == [] then [] else [p], Pieces(text, rest), width);
    }
  }

  lemma PieceBounded(text: string, w: Window, width: int)
    requires w.lo < |text| && w.lo < w.hi <= w.lo + width
    ensures var p := Piece(text, w);
            p != [] ==> 0 < |p| <= width && Trimmed(p)
  {
  }

  lemma BoundedCons(head: seq<string>, rest: seq<string>, width: int)
    requires BoundedChunks(head, width) && BoundedChunks(rest, width)
    ensures BoundedChunks(head + rest, width)
  {
    forall i | 0 <= i < |head + rest|
      ensures 0 < |(head + rest)[i]| <= width && Trimmed((head + rest)[i])
    {
      if i < |head| {
        assert (head + rest)[i] == head[i];
      } else {
        assert (head + rest)[i] == rest[i - |head|];
      }
    }
  }

  /**
   * The ends of the window chain from `start`: there are windows exactly when
   * `start` lies inside the text, the first starts at `start`, and, unless the
   * overlap is negative (a gap the code does not rule out), the last window
   * reaches the end of the text.
   */
  predicate ChainEnds(text: string, overlap: int, start: nat, ws: seq<Window>) {
    && (ws != [] <==> start < |text|)
    && (ws != [] ==> ws[0].lo == start)
    && (ws != [] && overlap >= 0 ==> ws[|ws| - 1].hi >= |text|)
  }

  /**
   * The links of the window chain: each non-final window ends inside the
   * text and its successor starts `overlap` characters before that end, so
   * the cursor strictly increases.
   */
  predicate ChainLinks(text: string, overlap: int, ws: seq<Window>) {
    forall i :: 0 <= i < |ws| - 1 ==>
      ws[i].hi < |text| && ws[i + 1].lo == ws[i].hi - overlap && ws[i].lo < ws[i + 1].lo
  }

  lemma {:induction false} WindowsEnds(text: string, maxChunkSize: int, overlap: int, start: nat)
    requires 1 <= maxChunkSize && overlap < MinAdvance(maxChunkSize)
    ensures ChainEnds(text, overlap, start, WindowsFrom(text, maxChunkSize, overlap, start))
    decreases |text| - start
  {
    if start < |text| {
      var ws := WindowsFrom(text, maxChunkSize, overlap, start);
      var end := WindowEnd(text, maxChunkSize, start);
      var next := if end < |text| then end - overlap else |text|;
      var rest := WindowsFrom(text, maxChunkSize, overlap, next);
      assert ws == [Window(start, end)] + rest;
      WindowsEnds(text, maxChunkSize, overlap, next);
      if rest != [] {
        assert ws[|ws| - 1] == rest[|rest| - 1];
      } else if overlap >= 0 {
        assert end >= |text|;
      }
    }
  }

  lemma {:induction false} WindowsLinked(text: string, maxChunkSize: int, overlap: int, start: nat)
    requires 1 <= maxChunkSize && overlap < MinAdvance(maxChunkSize)
    ensures ChainLinks(text, overlap, WindowsFrom(text, maxChunkSize, overlap, start))
    decreases |text| - start
  {
    if start < |text| {
      var ws := WindowsFrom(text, maxChunkSize, overlap, start);
      var end := WindowEnd(text, maxChunkSize, start);
      var next := if end < |text| then end - overlap else |text|;
      var rest := WindowsFrom(text, maxChunkSize, overlap, next);
      assert ws == [Window(start, end)] + rest;
      WindowsLinked(text, maxChunkSize, overlap, next);
      WindowsEnds(text, maxChunkSize, overlap, next);
      LinksCons(text, overlap, Window(start, end), rest);
    }
  }

  /** A window followed by a linked chain is linked when it leads into the chain's first window. */
  lemma LinksCons(text: string, overlap: int, w: Window, rest: seq<Window>)
    requires ChainLinks(text, overlap, rest)
    requires rest != [] ==> w.hi < |text| && rest[0].lo == w.hi - overlap && w.lo < rest[0].lo
    ensures ChainLinks(text, overlap, [w] + rest)
  {
    var ws := [w] + rest;
    forall i | 0 <= i < |ws| - 1
      ensures ws[i].hi < |text| && ws[i + 1].lo == ws[i].hi - overlap && ws[i].lo < ws[i + 1].lo
    {
      assert ws[i + 1] == rest[i];
      if i > 0 {
        assert ws[i] == rest[i - 1];
      }
    }
  }

  /** Some window contains index `k`. */
  ghost predicate Covered(ws: seq<Window>, k: int) {
    exists i :: 0 <= i < |ws| && ws[i].lo <= k < ws[i].hi
  }

  /** With a non-negative overlap the windows from `start` cover every later index of the text. */
  lemma {:induction false} WindowsCover(text: string, maxChunkSize: int, overlap: int, start: nat, k: int)
    requires 1 <= maxChunkSize && 0 <= overlap < MinAdvance(maxChunkSize)
    requires start <= k < |text|
    ensures Covered(WindowsFrom(text, maxChunkSize, overlap, start), k)
    decreases |text| - start
  {
    var ws := WindowsFrom(text, maxChunkSize, overlap, start);
    var end := WindowEnd(text, maxChunkSize, start);
    var next := if end < |text| then end - overlap else |text|;
    var rest := WindowsFrom(text, maxChunkSize, overlap, next);
    assert ws == [Window(start, end)] + rest;
    if k < end {
      assert ws[0].lo <= k < ws[0].hi;
    } else {
      WindowsCover(text, maxChunkSize, overlap, next, k);
      CoveredCons(Window(start, end), rest, k);
    }
  }

  /** A window put in front of a chain keeps every index the chain covers covered. */
  lemma CoveredCons(w: Window, rest: seq<Window>, k: int)
    requires Covered(rest, k)
    ensures Covered([w] + rest, k)
  {
    var i :| 0 <= i < |rest| && rest[i].lo <= k < rest[i].hi;
    assert ([w] + rest)[i + 1] == rest[i];
  }

  /**
   * Where a window ends when the text goes on past its raw end `start +
   * maxChunkSize`: either just after the last `.`, `!` or `?` followed by a
   * space that lies after `start` within the look-back range, and then the
   * emitted chunk ends with that punctuation; or, when there is no such
   * terminator, at the raw end.
   */
  lemma WindowSnap(text: string, maxChunkSize: int, start: nat)
    requires 1 <= maxChunkSize && start + maxChunkSize < |text|
    ensures var end := WindowEnd(text, maxChunkSize, start);
            var raw := start + maxChunkSize;
            && (end < raw ==>
                  && Max(raw - Lookback, start) < end <= raw - 1
                  && TerminatorAt(text, end - 1)
                  && (text[end - 1] == '.' || text[end - 1] == '!' || text[end - 1] == '?')
                  && text[end] == ' '
                  && (forall i :: end <= i && i + 2 <= raw ==> !TerminatorAt(text, i))
                  && Strip(text[start..end]) != []
                  && Strip(text[start..end])[|Strip(text[start..end])| - 1] == text[end - 1])
            && (end == raw ==>
                  forall i :: Max(raw - Lookback, start + 1) <= i && i + 2 <= raw ==> !TerminatorAt(text, i))
  {
    var end := WindowEnd(text, maxChunkSize, start);
    SnapPosition(text, maxChunkSize, start);
    if end < start + maxChunkSize {
      TerminatorChars(text, end - 1);
      assert text[start..end][end - start - 1] == text[end - 1];
      StripKeepsLast(text[start..end]);
    }
  }

  /** Where a snapped end lies, and that nothing the search could find lies after the position it reports. */
  lemma SnapPosition(text: string, maxChunkSize: int, start: nat)
    requires 1 <= maxChunkSize && start + maxChunkSize < |text|
    ensures var end := WindowEnd(text, maxChunkSize, start);
            var raw := start + maxChunkSize;
            && (end < raw ==>
                  && Max(raw - Lookback, start) < end <= raw - 1
                  && TerminatorAt(text, end - 1)
                  && (forall i :: end <= i && i + 2 <= raw ==> !TerminatorAt(text, i)))
            && (end == raw ==>
                  forall i :: Max(raw - Lookback, start + 1) <= i && i + 2 <= raw ==> !TerminatorAt(text, i))
  {
    var raw := start + maxChunkSize;
    var lo := Max(raw - Lookback, start);
    LastTerminatorIsLast(text, lo, raw);
  }

  /**
   * Without overlap the windows tile the text: the chunks from `start`, put
   * end to end, hold exactly the non-whitespace characters of the rest of the
   * text, in order.
   */
  lemma {:induction false} ChunksKeepText(text: string, maxChunkSize: int, start: nat)
    requires 1 <= maxChunkSize && 0 < MinAdvance(maxChunkSize) && start <= |text|
    ensures NonWs(Join(ChunksFrom(text, maxChunkSize, 0, start), "")) == NonWs(text[start..])
    decreases |text| - start
  {
    if start < |text| {
      var end := WindowEnd(text, maxChunkSize, start);
      var next := if end < |text| then end else |text|;
      PiecesStep(text, maxChunkSize, 0, start, end, next);
      ChunksKeepText(text, maxChunkSize, next);
      assert next == Min(end, |text|);
      var p := Strip(text[start..next]);
      var rest := ChunksFrom(text, maxChunkSize, 0, next);
      calc {
        NonWs(Join(ChunksFrom(text, maxChunkSize, 0, start), ""));
        { EmittedText(ChunksFrom(text, maxChunkSize, 0, start), p, rest); }
        NonWs(p) + NonWs(Join(rest, ""));
        { StripKeepsNonWs(text[start..next]); }
        NonWs(text[start..next]) + NonWs(text[next..]);
        { NonWsSplitAt(text, start, next); }
        NonWs(text[start..]);
      }
    } else {
      assert ChunksFrom(text, maxChunkSize, 0, start) == [];
    }
  }

  lemma EmittedText(chunks: seq<string>, p: string, rest: seq<string>)
    requires chunks == (if p == [] then [] else [p]) + rest
    ensures NonWs(Join(chunks, "")) == NonWs(p) + NonWs(Join(rest, ""))
  {
    if p == [] {
      assert chunks == rest;
    } else {
      JoinConcatCons(p, rest);
      NonWsAppend(p, Join(rest, ""));
    }
  }

  /** With no overlap `split_into_chunks` loses and duplicates no non-whitespace character. */
  lemma SplitKeepsText(text: string, maxChunkSize: int)
    requires SplitTerminates(|text|, maxChunkSize, 0)
    ensures NonWs(Join(Split(text, maxChunkSize, 0), "")) == NonWs(text)
  {
    if |text| > maxChunkSize && text != [] {
      ChunksKeepText(text, maxChunkSize, 0);
      assert text[0..] == text;
    }
  }

  /** The chunks from `start` are the piece of the window at `start`, if non-empty, then those from `next`. */
  lemma PiecesStep(text: string, maxChunkSize: int, overlap: int, start: nat, end: int, next: nat)
    requires 1 <= maxChunkSize && overlap < MinAdvance(maxChunkSize) && start < |text|
    requires end == WindowEnd(text, maxChunkSize, start)
    requires next == if end < |text| then end - overlap else |text|
    ensures start < end
    ensures ChunksFrom(text, maxChunkSize, overlap, start)
            == (if Strip(text[start..Min(end, |text|)]) == [] then [] else [Strip(text[start..Min(end, |text|)])])
               + ChunksFrom(text, maxChunkSize, overlap, next)
  {
    var w := Window(start, end);
    var rest := WindowsFrom(text, maxChunkSize, overlap, next);
    WindowsStep(text, maxChunkSize, overlap, start, end, next);
    PiecesCons(text, w, rest);
    assert Piece(text, w) == Strip(text[start..Min(end, |text|)]);
  }

  /** The windows from `start`: the one at `start`, then those from the next cursor. */
  lemma WindowsStep(text: string, maxChunkSize: int, overlap: int, start: nat, end: int, next: nat)
    requires 1 <= maxChunkSize && overlap < MinAdvance(maxChunkSize) && start < |text|
    requires end == WindowEnd(text, maxChunkSize, start)
    requires next == if end < |text| then end - overlap else |text|
    ensures WindowsFrom(text, maxChunkSize, overlap, start)
            == [Window(start, end)] + WindowsFrom(text, maxChunkSize, overlap, next)
  {
  }

  /** The pieces of a window followed by more windows: that window's piece, if non-empty, then theirs. */
  lemma PiecesCons(text: string, w: Window, rest: seq<Window>)
    requires w.lo < |text| && w.lo < w.hi
    requires forall i :: 0 <= i < |rest| ==> rest[i].lo < |text| && rest[i].lo < rest[i].hi
    ensures Pieces(text, [w] + rest) == (if Piece(text, w) == [] then [] else [Piece(text, w)]) + Pieces(text, rest)
  {
    assert ([w] + rest)[0] == w;
    assert ([w] + rest)[1..] == rest;
  }

  /**
   * One turn of the loop: the window at `start` contributes its piece, if
   * non-empty, and the cursor moves to `next`; what is emitted so far plus
   * what is still to come stays the same.
   */
  lemma SplitStep(text: string, maxChunkSize: int, overlap: int, start: nat, end: int, next: nat,
                  before: seq<string>, after: seq<string>)
    requires 1 <= maxChunkSize && overlap < MinAdvance(maxChunkSize) && start < |text|
    requires end == WindowEnd(text, maxChunkSize, start)
    requires next == if end < |text| then end - overlap else |text|
    requires start < end
    requires var p := Strip(text[start..Min(end, |text|)]);
             after == if p == [] then before else before + [p]
    ensures start < next
    ensures after + ChunksFrom(text, maxChunkSize, overlap, next) == before + ChunksFrom(text, maxChunkSize, overlap, start)
  {
    PiecesStep(text, maxChunkSize, overlap, start, end, next);
    var p := Strip(text[start..Min(end, |text|)]);
    EmitStep(before, p, ChunksFrom(text, maxChunkSize, overlap, next));
  }

  lemma EmitStep(before: seq<string>, p: string, rest: seq<string>)
    ensures (if p == [] then before else before + [p]) + rest == before + ((if p == [] then [] else [p]) + rest)
  {
  }

  /**
   * The body of the splitter's loop up to the slice: the raw end, snapped back
   * to just after the last sentence terminator in the look-back range.
   */
  method FindWindowEnd(text: string, maxChunkSize: int, start: nat) returns (end: int)
    requires start < |text| && 1 <= maxChunkSize
    ensures end == WindowEnd(text, maxChunkSize, start)
  {
    end := start + maxChunkSize;
    if end < |text| {
      var searchStart := Max(end - Lookback, start);
      var sentenceEnd := SentenceEnd(text, searchStart, end);
      WindowEndBySentenceEnd(text, maxChunkSize, start, searchStart, end);
      if sentenceEnd > start {
        end := sentenceEnd + 1;
      }
    }
  }

  /** A window end that is not at the end of the text is the one the three `rfind`s give. */
  lemma WindowEndBySentenceEnd(text: string, maxChunkSize: int, start: nat, lo: nat, raw: int)
    requires 1 <= maxChunkSize && raw == start + maxChunkSize < |text| && lo == Max(raw - Lookback, start)
    ensures WindowEnd(text, maxChunkSize, start) == if SentenceEnd(text, lo, raw) > start then SentenceEnd(text, lo, raw) + 1 else raw
  {
    var e := LastTerminator(text, lo, raw);
    assert WindowEnd(text, maxChunkSize, start) == if e > start then e + 1 else raw;
    SentenceEndIsLastTerminator(text, lo, raw);
  }

  /** `split_into_chunks`: the loop over the cursor `start`. */
  method SplitIntoChunks(text: string, maxChunkSize: int, overlap: int) returns (chunks: seq<string>)
    requires SplitTerminates(|text|, maxChunkSize, overlap)
    ensures chunks == Split(text, maxChunkSize, overlap)
  {
    if |text| <= maxChunkSize {
      return [text];
    }
    chunks := [];
    var start: nat := 0;
    while start < |text|
      invariant text == [] ==> chunks == []
      invariant text != [] ==>
                  chunks + ChunksFrom(text, maxChunkSize, overlap, start) == ChunksFrom(text, maxChunkSize, overlap, 0)
      decreases |text| - start
    {
      var end := FindWindowEnd(text, maxChunkSize, start);
      var next := if end < |text| then end - overlap else |text|;
      ghost var before := chunks;
      var chunk := Strip(text[start..Min(end, |text|)]);
      if chunk != [] {
        chunks := chunks + [chunk];
      }
      SplitStep(text, maxChunkSize, overlap, start, end, next, before, chunks);
      start := next;
    }
    if text != [] {
      assert ChunksFrom(text, maxChunkSize, overlap, start) == [];
      assert chunks == chunks + [];
    }
  }

  // ================================================================ extract_timestamps

  /** A colon followed by two digits starts at `p` in `t`. */
  predicate ColonPair(t: string, p: int) {
    0 <= p && p + 3 <= |t| && t[p] == ':' && IsDigit(t[p + 1]) && IsDigit(t[p + 2])
  }

  /** `tok` is `H:MM`, `HH:MM`, `H:MM:SS` or `HH:MM:SS` with an hour field of `h` digits. */
  predicate ClockShapeWith(tok: string, h: nat) {
    && 1 <= h <= 2 && h <= |tok| && AllDigits(tok[..h]) && ColonPair(tok, h)
    && (|tok| == h + 3 || (|tok| == h + 6 && ColonPair(tok, h + 3)))
  }

  /** What the capture group `\d{1,2}:\d{2}(?::\d{2})?` can capture. */
  predicate ClockToken(tok: string) {
    ClockShapeWith(tok, 1) || ClockShapeWith(tok, 2)
  }

  /**
   * The length of the capture group matched at the front of `t`, or `None`:
   * two hour digits are tried before one, and the optional seconds field is
   * taken whenever it is there.
   */
  function ClockLength(t: string): (n: Option<nat>)
    ensures n.Some? ==> n.value <= |t| && ClockToken(t[..n.value])
  {
    var h := if 2 <= |t| && IsDigit(t[0]) && IsDigit(t[1]) && ColonPair(t, 2) then 2
             else if 1 <= |t| && IsDigit(t[0]) && ColonPair(t, 1) then 1
             else 0;
    if h == 0 then None
    else
      var n := if ColonPair(t, h + 3) then h + 6 else h + 3;
      assert t[..n][..h] == t[..h];
      assert ColonPair(t[..n], h) by { assert t[..n][h..h + 3] == t[h..h + 3]; }
      assert n == h + 6 ==> ColonPair(t[..n], h + 3) by { assert n == h + 6 ==> t[..n][h + 3..h + 6] == t[h + 3..h + 6]; }
      Some(n)
  }

  /** One match of the pattern at the front of `s`: the captured token and how much was consumed. */
  datatype TimestampMatch = TimestampMatch(token: string, consumed: nat)

  /** 1 when `s` opens with a bracket the pattern may skip, 0 otherwise. */
  function OpeningBracket(s: string): (j: nat)
    ensures j <= |s|
  {
    if |s| > 0 && (s[0] == '[' || s[0] == '(') then 1 else 0
  }

  /**
   * The pattern `[\[\(]?(\d{1,2}:\d{2}(?::\d{2})?)[\]\)]?` tried at the front
   * of `s`: an optional opening bracket, the token, an optional closing one.
   */
  function MatchTimestamp(s: string): (m: Option<TimestampMatch>)
    ensures m.Some? ==>
              && ClockToken(m.value.token)
              && 0 < |m.value.token| <= m.value.consumed <= |s|
              && var j := OpeningBracket(s);
                 && OccursAt(s, m.value.token, j)
                 && j + |m.value.token| <= m.value.consumed <= j + |m.value.token| + 1
  {
    var j := OpeningBracket(s);
    match ClockLength(s[j..])
    case None => None
    case Some(n) =>
      var k := j + n;
      var close := if k < |s| && (s[k] == ']' || s[k] == ')') then 1 else 0;
      assert s[j..][..n] == s[j..k];
      Some(TimestampMatch(s[j..k], k + close))
  }

  /** Python's `re.findall` with that pattern: every captured token, left to right. */
  function FindTimestamps(s: string): (tokens: seq<string>)
    ensures forall i :: 0 <= i < |tokens| ==> ClockToken(tokens[i])
    decreases |s|
  {
    if s == [] then []
    else
      match MatchTimestamp(s)
      case Some(m) => [m.token] + FindTimestamps(s[m.consumed..])
      case None => FindTimestamps(s[1..])
  }

  /**
   * `extract_timestamps(text)`: the scan above applied to the whole text.
   * The scan is kept under its own name so that its recursive definition
   * is unfolded only in the lemmas below that walk through it; everywhere
   * else the agents' code sees this non-recursive entry point and the
   * lemmas' results about it.
   */
  function ExtractTimestamps(text: string): (tokens: seq<string>)
    ensures forall i :: 0 <= i < |tokens| ==> ClockToken(tokens[i])
  {
    FindTimestamps(text)
  }

  /**
   * `tokens` occur in `s` one after the other, the first at or after `from`,
   * each starting at or after the end of the one before.
   */
  ghost predicate OccurInOrder(s: string, tokens: seq<string>, from: int)
    decreases |tokens|
  {
    tokens == [] ||
    exists p :: from <= p && OccursAt(s, tokens[0], p) && OccurInOrder(s, tokens[1..], p + |tokens[0]|)
  }

  /** Every token the extractor returns is text of `s`, left to right, without overlaps. */
  lemma ExtractedInOrder(s: string)
    ensures OccurInOrder(s, ExtractTimestamps(s), 0)
  {
    ScanInOrder(s, 0);
    assert s[0..] == s;
  }

  /** The scan of the suffix from `k` finds its tokens at or after `k`, in order. */
  lemma {:induction false} ScanInOrder(s: string, k: nat)
    requires k <= |s|
    ensures OccurInOrder(s, FindTimestamps(s[k..]), k)
    decreases |s| - k
  {
    if k < |s| {
      var m := MatchTimestamp(s[k..]);
      if m.Some? {
        var c := k + m.value.consumed;
        ScanOfMatch(s, k, m.value);
        ScanInOrder(s, c);
        var p := MatchedTokenOccurs(s, k, m.value);
        ConsInOrder(s, m.value.token, FindTimestamps(s[c..]), p, k, c);
      } else {
        ScanOfNoMatch(s, k);
        ScanInOrder(s, k + 1);
        InOrderFromEarlier(s, FindTimestamps(s[k + 1..]), k + 1, k);
      }
    }
  }

  /** Without a match at `k` the scan moves on by one character. */
  lemma ScanOfNoMatch(s: string, k: nat)
    requires k < |s| && MatchTimestamp(s[k..]).None?
    ensures FindTimestamps(s[k..]) == FindTimestamps(s[k + 1..])
  {
    assert s[k..][1..] == s[k + 1..];
  }

  /** Where the token of a match at `k` lies in `s`: at `p`, ending by the end of the match. */
  lemma MatchedTokenOccurs(s: string, k: nat, m: TimestampMatch) returns (p: nat)
    requires k < |s| && MatchTimestamp(s[k..]) == Some(m)
    ensures k <= p && p + |m.token| <= k + m.consumed <= |s| && OccursAt(s, m.token, p)
  {
    var t := s[k..];
    var j := OpeningBracket(t);
    p := k + j;
    assert s[p..p + |m.token|] == t[j..j + |m.token|];
  }

  /** The scan from `k` after one match: its token, then the scan after the match. */
  lemma ScanOfMatch(s: string, k: nat, m: TimestampMatch)
    requires k < |s| && MatchTimestamp(s[k..]) == Some(m)
    ensures m.consumed <= |s| - k
    ensures FindTimestamps(s[k..]) == [m.token] + FindTimestamps(s[k + m.consumed..])
  {
    assert s[k..][m.consumed..] == s[k + m.consumed..];
  }

  /** A token at `p`, followed in order by `rest`, puts `[token] + rest` in order from any `from <= p`. */
  lemma ConsInOrder(s: string, token: string, rest: seq<string>, p: int, from: int, after: int)
    requires from <= p && OccursAt(s, token, p) && p + |token| <= after
    requires OccurInOrder(s, rest, after)
    ensures OccurInOrder(s, [token] + rest, from)
  {
    InOrderFromEarlier(s, rest, after, p + |token|);
    var tokens := [token] + rest;
    assert tokens[0] == token && tokens[1..] == rest;
  }

  /** Tokens in order from a position are in order from any earlier one. */
  lemma InOrderFromEarlier(s: string, tokens: seq<string>, from: int, earlier: int)
    requires earlier <= from && OccurInOrder(s, tokens, from)
    ensures OccurInOrder(s, tokens, earlier)
  {
    if tokens != [] {
      var p :| from <= p && OccursAt(s, tokens[0], p) && OccurInOrder(s, tokens[1..], p + |tokens[0]|);
      assert earlier <= p;
    }
  }

  /** Neither a digit nor a colon: a character that ends a token. */
  predicate TokenBoundary(c: char) {
    !IsDigit(c) && c != ':'
  }

  /** A token followed by a boundary (or nothing) is matched in full. */
  lemma ClockLengthOfToken(tok: string, rest: string)
    requires ClockToken(tok)
    requires rest == [] || TokenBoundary(rest[0])
    ensures ClockLength(tok + rest) == Some(|tok|)
  {
    var t := tok + rest;
    assert t[..|tok|] == tok;
    if ClockShapeWith(tok, 2) {
      assert tok[..2][0] == tok[0] && tok[..2][1] == tok[1];
      assert ColonPair(t, 2);
    } else {
      assert tok[..1][0] == tok[0];
      assert IsDigit(t[0]) && t[1] == ':' && ColonPair(t, 1);
    }
  }

  /** A bracketed token is one match, brackets included. */
  lemma MatchBracketed(ts: string, rest: string)
    requires ClockToken(ts)
    ensures MatchTimestamp("[" + ts + "]" + rest) == Some(TimestampMatch(ts, |ts| + 2))
  {
    var s := "[" + ts + "]" + rest;
    assert s[1..] == ts + ("]" + rest);
    ClockLengthOfToken(ts, "]" + rest);
    assert s[1..1 + |ts|] == ts;
  }

  /** `extract_timestamps` reads `[ts]` back as `ts`, then carries on after the bracket. */
  lemma BracketedTokenRecognised(ts: string, rest: string)
    requires ClockToken(ts)
    ensures FindTimestamps("[" + ts + "]" + rest) == [ts] + FindTimestamps(rest)
  {
    MatchBracketed(ts, rest);
    var s := "[" + ts + "]" + rest;
    assert s[|ts| + 2..] == rest;
  }

  /** 1 when `s` opens with a bracket the pattern may consume after a token, 0 otherwise. */
  function ClosingBracket(s: string): nat {
    if |s| > 0 && (s[0] == ']' || s[0] == ')') then 1 else 0
  }

  /**
   * A token at the front, bare or after `[` or `(`, and ended by a boundary,
   * is read as that token; a closing `]` or `)` right after it is consumed
   * with it.
   */
  lemma TokenRecognised(opening: string, ts: string, rest: string)
    requires opening == "" || opening == "[" || opening == "("
    requires ClockToken(ts)
    requires rest == [] || TokenBoundary(rest[0])
    ensures FindTimestamps(opening + ts + rest) == [ts] + FindTimestamps(rest[ClosingBracket(rest)..])
  {
    var s := opening + ts + rest;
    var n := |opening| + |ts| + ClosingBracket(rest);
    MatchTokenAtFront(opening, ts, rest);
    assert s[|opening| + |ts|..] == rest;
    assert s[n..] == rest[ClosingBracket(rest)..];
  }

  /** The single match behind `TokenRecognised`. */
  lemma MatchTokenAtFront(opening: string, ts: string, rest: string)
    requires opening == "" || opening == "[" || opening == "("
    requires ClockToken(ts)
    requires rest == [] || TokenBoundary(rest[0])
    ensures MatchTimestamp(opening + ts + rest) == Some(TimestampMatch(ts, |opening| + |ts| + ClosingBracket(rest)))
  {
    var s := opening + ts + rest;
    if opening == "" {
      assert s == ts + rest;
      TokenOpensWithDigit(ts);
      assert OpeningBracket(s) == 0;
      assert s[0..] == ts + rest;
    } else {
      assert s[0] == opening[0];
      assert OpeningBracket(s) == 1;
      assert s[1..] == ts + rest;
    }
    MatchAfterOpening(s, ts, rest);
  }

  /** A clock token starts with a digit. */
  lemma TokenOpensWithDigit(ts: string)
    requires ClockToken(ts)
    ensures IsDigit(ts[0])
  {
    if ClockShapeWith(ts, 2) {
      assert ts[..2][0] == ts[0];
    } else {
      assert ts[..1][0] == ts[0];
    }
  }

  /** After the optional opening bracket, a token ended by a boundary is the match. */
  lemma MatchAfterOpening(s: string, ts: string, rest: string)
    requires ClockToken(ts)
    requires rest == [] || TokenBoundary(rest[0])
    requires s[OpeningBracket(s)..] == ts + rest
    ensures MatchTimestamp(s) == Some(TimestampMatch(ts, OpeningBracket(s) + |ts| + ClosingBracket(rest)))
  {
    var j := OpeningBracket(s);
    ClockLengthOfToken(ts, rest);
    assert s[j..j + |ts|] == ts;
    assert s[j + |ts|..] == rest;
  }

  /** No match starts at a non-digit unless it is an opening bracket right before a digit. */
  lemma NoMatchAt(s: string)
    requires s != [] && !IsDigit(s[0])
    requires s[0] == '[' || s[0] == '(' ==> |s| > 1 && !IsDigit(s[1])
    ensures MatchTimestamp(s) == None
  {
  }

  /**
   * After a lone opening bracket there is a match exactly when a clock starts
   * right behind it, and then it is the match without the bracket, one
   * character longer.
   */
  lemma BracketShiftsMatch(c: char, b: string)
    requires c == '[' || c == '('
    ensures ClockLength(b).None? ==> MatchTimestamp([c] + b).None?
    ensures ClockLength(b).Some? ==>
              && MatchTimestamp(b).Some?
              && MatchTimestamp([c] + b) == Some(TimestampMatch(MatchTimestamp(b).value.token, MatchTimestamp(b).value.consumed + 1))
  {
    var s := [c] + b;
    assert s[1..] == b;
    match ClockLength(b)
    case None =>
    case Some(n) =>
      var close := if n < |b| && (b[n] == ']' || b[n] == ')') then 1 else 0;
      assert MatchTimestamp(b) == Some(TimestampMatch(b[..n], n + close));
      assert s[1..1 + n] == b[..n];
  }

  /** A lone opening bracket changes nothing: the match after it captures the same token. */
  lemma OpeningBracketSkipped(c: char, b: string)
    requires c == '[' || c == '('
    ensures FindTimestamps([c] + b) == FindTimestamps(b)
  {
    var s := [c] + b;
    BracketShiftsMatch(c, b);
    assert s[0..] == s && b[0..] == b && s[1..] == b;
    if ClockLength(b).None? {
      ScanOfNoMatch(s, 0);
    } else {
      var m := MatchTimestamp(b).value;
      ScanOfMatch(s, 0, TimestampMatch(m.token, m.consumed + 1));
      ScanOfMatch(b, 0, m);
      assert s[m.consumed + 1..] == b[m.consumed..];
    }
  }

  /** `OpeningBracketSkipped` for a one-character string. */
  lemma LoneBracketSkipped(a: string, b: string)
    requires |a| == 1 && (a[0] == '[' || a[0] == '(')
    ensures FindTimestamps(a + b) == FindTimestamps(b)
  {
    OpeningBracketSkipped(a[0], b);
    assert a + b == [a[0]] + b;
  }

  /** Text without digits in front of `b` adds no token and hides none of `b`'s. */
  lemma {:induction false} SkipNoDigits(a: string, b: string)
    requires forall i :: 0 <= i < |a| ==> !IsDigit(a[i])
    ensures FindTimestamps(a + b) == FindTimestamps(b)
  {
    if a == [] {
      assert a + b == b;
    } else if |a| == 1 && (a[0] == '[' || a[0] == '(') {
      LoneBracketSkipped(a, b);
    } else {
      SkipFirst(a, b);
      SkipNoDigits(a[1..], b);
    }
  }

  /** A non-digit that does not open a bracketed token adds nothing. */
  lemma SkipFirst(a: string, b: string)
    requires a != [] && forall i :: 0 <= i < |a| ==> !IsDigit(a[i])
    requires !(|a| == 1 && (a[0] == '[' || a[0] == '('))
    ensures FindTimestamps(a + b) == FindTimestamps(a[1..] + b)
  {
    var s := a + b;
    assert s[0] == a[0] && (|a| > 1 ==> s[1] == a[1]);
    NoMatchAt(s);
    ScanOfNoMatch(s, 0);
    assert s[0..] == s && s[1..] == a[1..] + b;
  }

  /** Two bracketed stamps with digit-free text between them yield both, in order. */
  lemma TwoStampsInOrder(t1: string, between: string, t2: string)
    requires ClockToken(t1) && ClockToken(t2)
    requires forall i :: 0 <= i < |between| ==> !IsDigit(between[i])
    ensures ExtractTimestamps("[" + t1 + "]" + between + "[" + t2 + "]") == [t1, t2]
  {
    var tail := "[" + t2 + "]";
    var s := "[" + t1 + "]" + between + "[" + t2 + "]";
    assert s == "[" + t1 + "]" + (between + tail);
    assert tail == "[" + t2 + "]" + "";
    calc {
      FindTimestamps(s);
      { BracketedTokenRecognised(t1, between + tail); }
      [t1] + FindTimestamps(between + tail);
      { SkipNoDigits(between, tail); }
      [t1] + FindTimestamps(tail);
      { BracketedTokenRecognised(t2, ""); }
      [t1] + ([t2] + FindTimestamps(""));
      [t1, t2];
    }
  }

  // ================================================================ format_duration

  /** The clock fields of a whole number of seconds: hours only when there is at least one. */
  function DurationFields(seconds: nat): (fields: seq<nat>)
    ensures |fields| == (if seconds >= 3600 then 3 else 2)
    ensures fields[|fields| - 1] < 60 && fields[|fields| - 2] < 60
  {
    var hours := seconds / 3600;
    var minutes := (seconds % 3600) / 60;
    var secs := seconds % 60;
    if hours > 0 then [hours, minutes, secs] else [minutes, secs]
  }

  /**
   * `format_duration(seconds)` for whole seconds: the clock fields, each
   * zero-padded to two digits, joined with colons.
   */
  function FormatDuration(seconds: nat): string {
    Join(Padded(DurationFields(seconds)), ":")
  }

  /**
   * The clock string as the source spells it out: `HH:MM:SS` when there is
   * at least one hour, `MM:SS` otherwise.
   */
  lemma FormatDurationSpelled(seconds: nat)
    ensures var hours := seconds / 3600;
            var minutes := (seconds % 3600) / 60;
            var secs := seconds % 60;
            FormatDuration(seconds)
              == if hours > 0 then Pad2(hours) + ":" + Pad2(minutes) + ":" + Pad2(secs)
                 else Pad2(minutes) + ":" + Pad2(secs)
  {
    var parts := Padded(DurationFields(seconds));
    if |parts| == 3 {
      var a, b, c := parts[0], parts[1], parts[2];
      assert parts[1..] == [b, c] && [b, c][1..] == [c];
      calc {
        Join(parts, ":");
        a + ":" + Join([b, c], ":");
        a + ":" + (b + ":" + c);
        a + ":" + b + ":" + c;
      }
    } else {
      var a, b := parts[0], parts[1];
      assert parts[1..] == [b];
      assert Join(parts, ":") == a + ":" + b;
    }
  }

  /** Five characters under an hour, eight from one hour up to 100 hours. */
  lemma DurationLength(seconds: nat)
    ensures seconds < 3600 ==> |FormatDuration(seconds)| == 5
    ensures 3600 <= seconds < 360000 ==> |FormatDuration(seconds)| == 8
  {
    FormatDurationSpelled(seconds);
  }

  /** Reading a clock string back: two or three colon-separated decimal fields. */
  function ParseDuration(clock: string): (seconds: Option<nat>)
    ensures seconds.Some? ==> |SplitOn(clock, ':')| in {2, 3}
  {
    ParseFields(SplitOn(clock, ':'))
  }

  /** Two or three non-empty decimal fields, weighed by 3600, 60 and 1. */
  function ParseFields(f: seq<string>): (seconds: Option<nat>)
    ensures seconds.Some? ==> |f| in {2, 3}
  {
    if (|f| == 2 || |f| == 3) && forall i :: 0 <= i < |f| ==> f[i] != [] && AllDigits(f[i]) then
      if |f| == 3 then Some(DecimalValue(f[0]) * 3600 + DecimalValue(f[1]) * 60 + DecimalValue(f[2]))
      else Some(DecimalValue(f[0]) * 60 + DecimalValue(f[1]))
    else None
  }

  lemma DigitsHaveNoColon(s: string)
    requires AllDigits(s)
    ensures ':' !in s
  {
    assert forall i :: 0 <= i < |s| ==> s[i] != ':';
  }

  /** Each field zero-padded to two digits. */
  function Padded(fields: seq<nat>): (parts: seq<string>)
    ensures |parts| == |fields|
    ensures forall i :: 0 <= i < |parts| ==> parts[i] == Pad2(fields[i])
  {
    if fields == [] then [] else [Pad2(fields[0])] + Padded(fields[1..])
  }

  /** The formatted duration is its fields, zero-padded and joined with colons. */
  lemma FormatIsPaddedFields(seconds: nat)
    ensures SplitOn(FormatDuration(seconds), ':') == Padded(DurationFields(seconds))
  {
    var parts := Padded(DurationFields(seconds));
    forall k | 0 <= k < |parts| ensures ':' !in parts[k] {
      DigitsHaveNoColon(parts[k]);
    }
    SplitJoin(parts, ':');
  }

  /** The fields weighed by 3600, 60 and 1 add back up to the seconds. */
  lemma FieldsAddUp(seconds: nat)
    ensures var f := DurationFields(seconds);
            seconds == if |f| == 3 then f[0] * 3600 + f[1] * 60 + f[2] else f[0] * 60 + f[1]
  {
    var r := seconds % 3600;
    assert seconds == seconds / 3600 * 3600 + r;
    assert r == r / 60 * 60 + r % 60;
    assert r % 60 == seconds % 60;
  }

  /** `format_duration` loses nothing: reading its output back gives the seconds. */
  lemma DurationRoundTrip(seconds: nat)
    ensures ParseDuration(FormatDuration(seconds)) == Some(seconds)
  {
    FormatIsPaddedFields(seconds);
    ParsePadded(DurationFields(seconds));
    FieldsAddUp(seconds);
  }

  /** Two or three padded fields parse back to their weighted sum. */
  lemma ParsePadded(fields: seq<nat>)
    requires |fields| == 2 || |fields| == 3
    ensures ParseFields(Padded(fields))
            == Some(if |fields| == 3 then fields[0] * 3600 + fields[1] * 60 + fields[2] else fields[0] * 60 + fields[1])
  {
    PaddedReadBack(fields);
    ParseDecimalFields(Padded(fields), fields);
  }

  /** Non-empty decimal fields parse to the weighted sum of their values. */
  lemma ParseDecimalFields(f: seq<string>, values: seq<nat>)
    requires |f| == |values| && (|f| == 2 || |f| == 3)
    requires forall i :: 0 <= i < |f| ==> f[i] != [] && AllDigits(f[i]) && DecimalValue(f[i]) == values[i]
    ensures ParseFields(f)
            == Some(if |f| == 3 then values[0] * 3600 + values[1] * 60 + values[2] else values[0] * 60 + values[1])
  {
  }

  lemma PaddedReadBack(fields: seq<nat>)
    ensures var parts := Padded(fields);
            forall i :: 0 <= i < |parts| ==> parts[i] != [] && AllDigits(parts[i]) && DecimalValue(parts[i]) == fields[i]
  {
    forall i | 0 <= i < |fields| ensures DecimalValue(Pad2(fields[i])) == fields[i] {
      Pad2Value(fields[i]);
    }
  }

  /**
   * `format_duration` has three fields exactly from one hour on, and its
   * minute and second fields are two digits below 60.
   */
  lemma DurationFieldShape(seconds: nat)
    ensures var f := SplitOn(FormatDuration(seconds), ':');
            && (|f| == 3 <==> seconds >= 3600)
            && |f[|f| - 1]| == 2 && |f[|f| - 2]| == 2
            && AllDigits(f[|f| - 1]) && DecimalValue(f[|f| - 1]) < 60
            && AllDigits(f[|f| - 2]) && DecimalValue(f[|f| - 2]) < 60
  {
    FormatIsPaddedFields(seconds);
    var fields := DurationFields(seconds);
    var n := |fields|;
    Pad2Value(fields[n - 1]);
    Pad2Value(fields[n - 2]);
  }

  /** Under 100 hours a formatted duration is a token `extract_timestamps` captures. */
  lemma DurationIsToken(seconds: nat)
    requires seconds < 360000
    ensures ClockToken(FormatDuration(seconds))
  {
    var r := FormatDuration(seconds);
    var minutes := (seconds % 3600) / 60;
    var secs := seconds % 60;
    FormatDurationSpelled(seconds);
    if seconds >= 3600 {
      var hours := seconds / 3600;
      assert r == Pad2(hours) + ":" + Pad2(minutes) + ":" + Pad2(secs);
      assert r[..2] == Pad2(hours);
      assert r[3] == Pad2(minutes)[0] && r[4] == Pad2(minutes)[1];
      assert r[6] == Pad2(secs)[0] && r[7] == Pad2(secs)[1];
      assert ClockShapeWith(r, 2);
    } else {
      assert r == Pad2(minutes) + ":" + Pad2(secs);
      assert r[..2] == Pad2(minutes);
      assert r[3] == Pad2(secs)[0] && r[4] == Pad2(secs)[1];
      assert ClockShapeWith(r, 2);
    }
  }
}
