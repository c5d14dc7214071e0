/**
 * Python's built-in string operations as the pipeline uses them: whitespace,
 * `str.strip`, `str.join`, `str.split` on one character, substring search and
 * the decimal rendering behind `f"{n:02d}"`.  Strings are sequences of
 * characters; whitespace is the ASCII set.
 */
module Strings {

  /** ASCII whitespace: what `\s` and `str.strip()` remove in this model. */
  predicate IsWs(c: char) {
    c == ' ' || c == '\t' || c == '\n' || c == '\r' || c == '\U{000B}' || c == '\U{000C}'
  }

  predicate AllWs(s: string) {
    forall i :: 0 <= i < |s| ==> IsWs(s[i])
  }

  predicate IsDigit(c: char) {
    '0' <= c <= '9'
  }

  predicate AllDigits(s: string) {
    forall i :: 0 <= i < |s| ==> IsDigit(s[i])
  }

  /** `needle` occurs in `hay` starting at index `i`. */
  predicate OccursAt(hay: string, needle: string, i: int) {
    0 <= i && i + |needle| <= |hay| && hay[i..i + |needle|] == needle
  }

  /** Python's `needle in hay`. */
  ghost predicate Contains(hay: string, needle: string) {
    exists i :: OccursAt(hay, needle, i)
  }

  lemma OccursInConcat(a: string, b: string, c: string)
    ensures OccursAt(a + b + c, b, |a|)
    ensures Contains(a + b + c, b)
  {
    assert (a + b + c)[|a|..|a| + |b|] == b;
    assert OccursAt(a + b + c, b, |a|);
  }

  /** Where the three filled-in fields of a template `a x b y c z d` lie. */
  lemma OccursInTemplate(a: string, x: string, b: string, y: string, c: string, z: string, d: string)
    ensures var t := a + x + b + y + c + z + d;
            && OccursAt(t, x, |a|)
            && OccursAt(t, y, |a| + |x| + |b|)
            && OccursAt(t, z, |a| + |x| + |b| + |y| + |c|)
  {
    var t := a + x + b + y + c + z + d;
    var i, j, k := |a|, |a| + |x| + |b|, |a| + |x| + |b| + |y| + |c|;
    assert t[i..i + |x|] == x;
    assert t[j..j + |y|] == y;
    assert t[k..k + |z|] == z;
  }

  /** An occurrence inside an occurrence is an occurrence. */
  lemma OccursWithin(hay: string, mid: string, i: int, needle: string, j: int)
    requires OccursAt(hay, mid, i) && OccursAt(mid, needle, j)
    ensures OccursAt(hay, needle, i + j)
  {
    assert mid == hay[i..i + |mid|];
    forall k | 0 <= k < |needle|
      ensures hay[i + j..i + j + |needle|][k] == needle[k]
    {
      assert hay[i + j + k] == mid[j + k];
    }
  }

  // ---------------------------------------------------------------- strip

  /** Number of whitespace characters at the front of `s`. */
  function LeadingWs(s: string): (k: nat)
    ensures k <= |s|
    ensures AllWs(s[..k])
    ensures k < |s| ==> !IsWs(s[k])
  {
    if s != [] && IsWs(s[0]) then 1 + LeadingWs(s[1..]) else 0
  }

  /** Number of whitespace characters at the back of `s`. */
  function TrailingWs(s: string): (k: nat)
    ensures k <= |s|
    ensures AllWs(s[|s| - k..])
    ensures k < |s| ==> !IsWs(s[|s| - 1 - k])
  {
    if s != [] && IsWs(s[|s| - 1]) then 1 + TrailingWs(s[..|s| - 1]) else 0
  }

  /** Python's `s.strip()`: `s` without its leading and trailing whitespace. */
  function Strip(s: string): (r: string)
    ensures |r| <= |s|
    ensures r == [] <==> AllWs(s)
    ensures r != [] ==> !IsWs(r[0]) && !IsWs(r[|r| - 1])
  {
    var t := s[LeadingWs(s)..];
    StripEnds(s, t);
    t[..|t| - TrailingWs(t)]
  }

  /** The facts behind `Strip`'s contract, about the slice it returns. */
  lemma StripEnds(s: string, t: string)
    requires t == s[LeadingWs(s)..]
    ensures var r := t[..|t| - TrailingWs(t)];
            && (r == [] <==> AllWs(s))
            && (r != [] ==> !IsWs(r[0]) && !IsWs(r[|r| - 1]))
  {
    var a := LeadingWs(s);
    var n := |t| - TrailingWs(t);
    if n == 0 {
      BlankAfterLeading(s, a);
    } else {
      assert t[0] == s[a];
      assert t[..n][0] == t[0] && t[..n][n - 1] == t[n - 1];
    }
  }

  /** A string whose rest after the leading whitespace is blank is blank. */
  lemma BlankAfterLeading(s: string, a: nat)
    requires a == LeadingWs(s) && AllWs(s[a..])
    ensures AllWs(s)
  {
    assert s == s[..a] + s[a..];
  }

  /** The whitespace at the front of a run followed by a non-whitespace character is the run. */
  lemma {:induction false} LeadingWsOfRun(w: string, b: string)
    requires AllWs(w)
    requires b == [] || !IsWs(b[0])
    ensures LeadingWs(w + b) == |w|
  {
    if w != [] {
      assert (w + b)[1..] == w[1..] + b;
      LeadingWsOfRun(w[1..], b);
    } else {
      assert w + b == b;
    }
  }

  /**
   * `strip` removes whitespace at the two ends and nothing else: its result
   * is a slice of the input with only whitespace before and after it.
   */
  lemma StripIsInfix(s: string)
    ensures exists a, b :: 0 <= a <= b <= |s| && Strip(s) == s[a..b] && AllWs(s[..a]) && AllWs(s[b..])
  {
    var a := LeadingWs(s);
    var t := s[a..];
    var b := a + |t| - TrailingWs(t);
    assert t[..|t| - TrailingWs(t)] == s[a..b];
    assert t[|t| - TrailingWs(t)..] == s[b..];
    assert Strip(s) == s[a..b] && AllWs(s[..a]) && AllWs(s[b..]);
  }

  /** Neither starts nor ends with whitespace. */
  predicate Trimmed(s: string) {
    s == [] || (!IsWs(s[0]) && !IsWs(s[|s| - 1]))
  }

  /** A trimmed string is its own strip. */
  lemma StripTrimmed(s: string)
    requires Trimmed(s)
    ensures Strip(s) == s
  {
  }

  /** Stripping never removes a final non-whitespace character. */
  lemma StripKeepsLast(s: string)
    requires s != [] && !IsWs(s[|s| - 1])
    ensures Strip(s) != [] && Strip(s)[|Strip(s)| - 1] == s[|s| - 1]
  {
    var t := s[LeadingWs(s)..];
    assert t != [] && t[|t| - 1] == s[|s| - 1];
    assert TrailingWs(t) == 0;
  }

  /** The non-whitespace characters of `s`, in order. */
  function NonWs(s: string): string {
    if s == [] then [] else (if IsWs(s[0]) then [] else [s[0]]) + NonWs(s[1..])
  }

  lemma {:induction false} NonWsAppend(a: string, b: string)
    ensures NonWs(a + b) == NonWs(a) + NonWs(b)
  {
    if a == [] {
      assert a + b == b;
    } else {
      assert (a + b)[1..] == a[1..] + b;
      NonWsAppend(a[1..], b);
    }
  }

  lemma NonWsSplitAt(s: string, i: nat, j: nat)
    requires i <= j <= |s|
    ensures NonWs(s[i..]) == NonWs(s[i..j]) + NonWs(s[j..])
  {
    assert s[i..] == s[i..j] + s[j..];
    NonWsAppend(s[i..j], s[j..]);
  }

  lemma {:induction false} NonWsOfAllWs(s: string)
    requires AllWs(s)
    ensures NonWs(s) == []
  {
    if s != [] {
      NonWsOfAllWs(s[1..]);
    }
  }

  /** Whitespace in front of or behind a string adds no non-whitespace character. */
  lemma NonWsPadded(a: string, b: string, c: string)
    requires AllWs(a) && AllWs(c)
    ensures NonWs(a + b + c) == NonWs(b)
  {
    NonWsAppend(a + b, c);
    NonWsAppend(a, b);
    NonWsOfAllWs(a);
    NonWsOfAllWs(c);
  }

  /** `strip` removes whitespace only: the non-whitespace characters survive, in order. */
  lemma StripKeepsNonWs(s: string)
    ensures NonWs(Strip(s)) == NonWs(s)
  {
    var k := LeadingWs(s);
    var t := s[k..];
    var j := |t| - TrailingWs(t);
    assert Strip(s) == t[..j];
    assert s == s[..k] + t[..j] + t[j..];
    NonWsPadded(s[..k], t[..j], t[j..]);
  }

  // ---------------------------------------------------------------- join and split

  /** Python's `sep.join(parts)`. */
  function Join(parts: seq<string>, sep: string): string {
    if |parts| == 0 then []
    else if |parts| == 1 then parts[0]
    else parts[0] + sep + Join(parts[1..], sep)
  }

  /** `"".join` takes the parts one after the other. */
  lemma JoinConcatCons(p: string, rest: seq<string>)
    ensures Join([p] + rest, "") == p + Join(rest, "")
  {
    if rest == [] {
      assert [p] + rest == [p];
    } else {
      assert ([p] + rest)[1..] == rest;
    }
  }

  /** Where `parts[k]` starts inside `Join(parts, sep)`. */
  function JoinOffset(parts: seq<string>, sep: string, k: nat): nat
    requires k < |parts|
  {
    if k == 0 then 0 else |parts[0]| + |sep| + JoinOffset(parts[1..], sep, k - 1)
  }

  /** Consecutive parts lie one after the other, a separator apart. */
  lemma {:induction false} JoinOffsetNext(parts: seq<string>, sep: string, k: nat)
    requires k + 1 < |parts|
    ensures JoinOffset(parts, sep, k + 1) == JoinOffset(parts, sep, k) + |parts[k]| + |sep|
  {
    if k > 0 {
      JoinOffsetNext(parts[1..], sep, k - 1);
    }
  }

  /** Every part occurs verbatim in the joined string, at its offset. */
  lemma {:induction false} JoinOccurs(parts: seq<string>, sep: string, k: nat)
    requires k < |parts|
    ensures OccursAt(Join(parts, sep), parts[k], JoinOffset(parts, sep, k))
  {
    if |parts| > 1 {
      var rest := Join(parts[1..], sep);
      assert Join(parts, sep) == parts[0] + sep + rest;
      if k == 0 {
        assert Join(parts, sep)[..|parts[0]|] == parts[0];
      } else {
        JoinOccurs(parts[1..], sep, k - 1);
        var head := parts[0] + sep;
        assert Join(parts, sep) == head + rest + [];
        OccursInConcat(head, rest, []);
        OccursWithin(Join(parts, sep), rest, |head|, parts[k], JoinOffset(parts[1..], sep, k - 1));
      }
    }
  }

  /** The first index of `c` in `s`. */
  function IndexOf(s: string, c: char): (i: nat)
    requires c in s
    ensures i < |s| && s[i] == c && c !in s[..i]
  {
    if s[0] == c then 0 else 1 + IndexOf(s[1..], c)
  }

  lemma {:induction false} IndexOfAfter(a: string, c: char, b: string)
    requires c !in a
    ensures c in a + [c] + b && IndexOf(a + [c] + b, c) == |a|
  {
    if a != [] {
      assert (a + [c] + b)[1..] == a[1..] + [c] + b;
      IndexOfAfter(a[1..], c, b);
    }
  }

  /** Python's `s.split(c)` for a one-character separator. */
  function SplitOn(s: string, c: char): (parts: seq<string>)
    ensures |parts| >= 1
    decreases |s|
  {
    if c !in s then [s]
    else
      var i := IndexOf(s, c);
      [s[..i]] + SplitOn(s[i + 1..], c)
  }

  /** Splitting undoes joining when no part contains the separator. */
  lemma {:induction false} SplitJoin(parts: seq<string>, c: char)
    requires |parts| >= 1
    requires forall k :: 0 <= k < |parts| ==> c !in parts[k]
    ensures SplitOn(Join(parts, [c]), c) == parts
  {
    if |parts| == 1 {
      assert c !in parts[0];
    } else {
      var tail := parts[1..];
      assert forall k :: 0 <= k < |tail| ==> c !in tail[k] by {
        forall k | 0 <= k < |tail| ensures c !in tail[k] {
          assert tail[k] == parts[k + 1];
        }
      }
      var rest := Join(tail, [c]);
      SplitJoin(tail, c);
      SplitAtFirst(parts[0], c, rest);
      assert Join(parts, [c]) == parts[0] + [c] + rest;
      assert parts == [parts[0]] + tail;
    }
  }

  /** Splitting at the first separator yields the text before it, then the split of the rest. */
  lemma SplitAtFirst(a: string, c: char, b: string)
    requires c !in a
    ensures SplitOn(a + [c] + b, c) == [a] + SplitOn(b, c)
  {
    var s := a + [c] + b;
    IndexOfAfter(a, c, b);
    assert s[..|a|] == a;
    assert s[|a| + 1..] == b;
  }

  // ---------------------------------------------------------------- decimal numbers

  function DigitChar(d: nat): (c: char)
    requires d < 10
    ensures IsDigit(c)
  {
    ('0' as int + d) as char
  }

  function DigitValue(c: char): nat
    requires IsDigit(c)
  {
    c as int - '0' as int
  }

  /** Python's `str(n)` for a natural number. */
  function Decimal(n: nat): (r: string)
    ensures |r| >= 1 && AllDigits(r)
    ensures n < 10 <==> |r| == 1
    ensures n < 100 <==> |r| <= 2
  {
    if n < 10 then [DigitChar(n)] else Decimal(n / 10) + [DigitChar(n % 10)]
  }

  /** The number a string of decimal digits denotes (Python's `int(s)`). */
  function DecimalValue(s: string): nat
    requires AllDigits(s)
  {
    if s == [] then 0 else 10 * DecimalValue(s[..|s| - 1]) + DigitValue(s[|s| - 1])
  }

  lemma {:induction false} DecimalRoundTrip(n: nat)
    ensures DecimalValue(Decimal(n)) == n
  {
    if n >= 10 {
      var s := Decimal(n);
      assert s[..|s| - 1] == Decimal(n / 10);
      DecimalRoundTrip(n / 10);
    }
  }

  /** Python's `f"{n:02d}"`: the decimal digits of `n`, padded with zeros to two. */
  function Pad2(n: nat): (r: string)
    ensures AllDigits(r) && |r| >= 2
    ensures n < 100 <==> |r| == 2
  {
    if n < 10 then "0" + Decimal(n) else Decimal(n)
  }

  lemma Pad2Value(n: nat)
    ensures DecimalValue(Pad2(n)) == n
  {
    DecimalRoundTrip(n);
    if n < 10 {
      var r := Pad2(n);
      assert r[..1] == "0";
    }
  }
}
