/**
 * The SRT document model: blocks of an index line, a timecode line and text
 * lines, parsed from text by a line scanner that skips what it cannot use,
 * and serialised back to text.
 */
module Srt {
  import opened Strings

  /** One subtitle block. */
  datatype SrtBlock = SrtBlock(index: nat, timecode: string, lines: seq<string>)

  /** SrtBlock.text(): the lines joined by line feeds. */
  function Text(b: SrtBlock): string
  {
    Join(b.lines, "\n")
  }

  /** Splitting the text of a block with at least one unbroken line gives its lines back. */
  lemma TextSplit(b: SrtBlock)
    requires |b.lines| >= 1
    requires forall k :: 0 <= k < |b.lines| ==> '\n' !in b.lines[k]
    ensures Split(Text(b), '\n') == b.lines
  {
    SplitJoin(b.lines, '\n');
  }

  // ---------------------------------------------------------------- TIME_RE

  /** The shape of one stamp: 'd' stands for a digit, any other character for itself. */
  const StampShape := "dd:dd:dd,ddd"

  // The matcher of TIME_RE reads s by position, from p onwards.

  /** \d{2}:\d{2}:\d{2},\d{3} on the twelve characters from p. */
  predicate StampAt(s: string, p: nat)
  {
    p + |StampShape| <= |s| &&
    forall j :: 0 <= j < |StampShape| ==>
      if StampShape[j] == 'd' then IsDigit(s[p + j]) else s[p + j] == StampShape[j]
  }

  /** `.*$` from p: no line feed, except that a single final line feed is allowed. */
  predicate RestFrom(s: string, p: nat)
  {
    forall q :: p <= q < |s| - 1 ==> s[q] != '\n'
  }

  /** `\s*\d{2}:\d{2}:\d{2},\d{3}.*$` from p: whitespace, the end stamp, the rest of the line. */
  predicate EndFrom(s: string, p: nat)
    decreases |s| - p
  {
    p < |s| &&
    if IsSpace(s[p]) then EndFrom(s, p + 1) else StampAt(s, p) && RestFrom(s, p + 12)
  }

  /** `\s*-->` from p, followed by EndFrom. */
  predicate ArrowFrom(s: string, p: nat)
    decreases |s| - p
  {
    p < |s| &&
    if IsSpace(s[p]) then ArrowFrom(s, p + 1)
    else p + 3 <= |s| && s[p] == '-' && s[p + 1] == '-' && s[p + 2] == '>' && EndFrom(s, p + 3)
  }

  /**
   * TIME_RE.match(s), for `^\d{2}:\d{2}:\d{2},\d{3}\s*-->\s*\d{2}:\d{2}:\d{2},\d{3}.*$`.
   * Each \s* is followed by a character that is not whitespace, so the greedy
   * match, which takes all the whitespace there is, is the only one, and the
   * matcher never has to backtrack.
   */
  predicate MatchesTime(s: string)
  {
    StampAt(s, 0) && ArrowFrom(s, 12)
  }

  // The same pattern read as its parts: the pieces a matching line is made of.

  /** \d{2}:\d{2}:\d{2},\d{3}, on exactly twelve characters. */
  predicate IsStamp(s: string)
  {
    |s| == |StampShape| &&
    forall i :: 0 <= i < |s| ==> if StampShape[i] == 'd' then IsDigit(s[i]) else s[i] == StampShape[i]
  }

  /** `.*$` on a whole string. */
  predicate RestOfLine(r: string)
  {
    forall i :: 0 <= i < |r| - 1 ==> r[i] != '\n'
  }

  /** The end of the pattern on a whole string. */
  predicate EndPart(s: string)
    decreases |s|
  {
    s != [] &&
    if IsSpace(s[0]) then EndPart(s[1..]) else |s| >= 12 && IsStamp(s[..12]) && RestOfLine(s[12..])
  }

  /** `\s*-->` followed by EndPart, on a whole string. */
  predicate ArrowPart(s: string)
    decreases |s|
  {
    s != [] &&
    if IsSpace(s[0]) then ArrowPart(s[1..]) else |s| >= 3 && s[..3] == "-->" && EndPart(s[3..])
  }

  lemma StampAtAgrees(s: string, p: nat)
    requires p + 12 <= |s|
    ensures StampAt(s, p) <==> IsStamp(s[p..][..12])
  {
    var t := s[p..][..12];
    assert forall j :: 0 <= j < 12 ==> t[j] == s[p + j];
  }

  lemma RestFromAgrees(s: string, p: nat)
    requires p <= |s|
    ensures RestFrom(s, p) <==> RestOfLine(s[p..])
  {
    var t := s[p..];
    if RestFrom(s, p) {
      forall i | 0 <= i < |t| - 1 ensures t[i] != '\n' {
        assert t[i] == s[p + i];
      }
    }
    if RestOfLine(t) {
      forall q | p <= q < |s| - 1 ensures s[q] != '\n' {
        assert s[q] == t[q - p];
      }
    }
  }

  lemma {:induction false} EndFromAgrees(s: string, p: nat)
    requires p <= |s|
    ensures EndFrom(s, p) <==> EndPart(s[p..])
    decreases |s| - p
  {
    if p < |s| {
      IndexShift(s, p, 0, p);
      if IsSpace(s[p]) {
        SuffixShift(s, p, 1, p + 1);
        EndFromAgrees(s, p + 1);
      } else if p + 12 <= |s| {
        StampAtAgrees(s, p);
        SuffixShift(s, p, 12, p + 12);
        RestFromAgrees(s, p + 12);
      }
    }
  }

  lemma {:induction false} ArrowFromAgrees(s: string, p: nat)
    requires p <= |s|
    ensures ArrowFrom(s, p) <==> ArrowPart(s[p..])
    decreases |s| - p
  {
    if p < |s| {
      IndexShift(s, p, 0, p);
      if IsSpace(s[p]) {
        SuffixShift(s, p, 1, p + 1);
        ArrowFromAgrees(s, p + 1);
      } else if p + 3 <= |s| {
        assert s[p..][..3] == [s[p], s[p + 1], s[p + 2]];
        SuffixShift(s, p, 3, p + 3);
        EndFromAgrees(s, p + 3);
      }
    }
  }

  /** The matcher accepts exactly the strings that read as the parts of the pattern. */
  lemma MatchesTimeAgrees(s: string)
    ensures MatchesTime(s) <==> |s| >= 12 && IsStamp(s[..12]) && ArrowPart(s[12..])
  {
    if |s| >= 12 {
      assert s[0..] == s;
      StampAtAgrees(s, 0);
      ArrowFromAgrees(s, 12);
    }
  }

  lemma {:induction false} EndPartAfterSpaces(w: string, x: string)
    requires IsBlank(w)
    ensures EndPart(w + x) <==> EndPart(x)
    decreases |w|
  {
    if w != [] {
      assert (w + x)[1..] == w[1..] + x;
      EndPartAfterSpaces(w[1..], x);
    } else {
      assert w + x == x;
    }
  }

  lemma {:induction false} ArrowPartAfterSpaces(w: string, x: string)
    requires IsBlank(w)
    ensures ArrowPart(w + x) <==> ArrowPart(x)
    decreases |w|
  {
    if w != [] {
      assert (w + x)[1..] == w[1..] + x;
      ArrowPartAfterSpaces(w[1..], x);
    } else {
      assert w + x == x;
    }
  }

  /** The pattern accepts a start stamp, whitespace, the arrow, whitespace, an end stamp and a rest of line. */
  lemma TimecodeFromParts(a: string, w1: string, w2: string, b: string, rest: string)
    requires IsStamp(a) && IsStamp(b) && IsBlank(w1) && IsBlank(w2) && RestOfLine(rest)
    ensures MatchesTime(a + w1 + "-->" + w2 + b + rest)
  {
    var e := b + rest;
    PrefixSplit(b, rest, 12);
    EndPartAfterSpaces(w2, e);
    var arrow := "-->" + (w2 + e);
    PrefixSplit("-->", w2 + e, 3);
    ArrowPartAfterSpaces(w1, arrow);
    PrefixSplit(a, w1 + arrow, 12);
    Regroup6(a, w1, "-->", w2, b, rest);
    MatchesTimeAgrees(a + w1 + "-->" + w2 + b + rest);
  }

  /** Proof helper (models nothing): the two halves of a concatenation split at the first's length. */
  lemma PrefixSplit<T>(x: seq<T>, y: seq<T>, n: nat)
    requires |x| == n > 0
    ensures (x + y)[..n] == x && (x + y)[n..] == y && (x + y)[0] == x[0]
  {
  }

  /** Proof helper (models nothing): six-part concatenation regrouped to the right. */
  lemma Regroup6<T>(a: seq<T>, b: seq<T>, c: seq<T>, d: seq<T>, e: seq<T>, f: seq<T>)
    ensures a + b + c + d + e + f == a + (b + (c + (d + (e + f))))
  {
  }

  lemma {:induction false} EndPartSplits(s: string)
    requires EndPart(s)
    ensures exists w: string, b: string, rest: string ::
      IsBlank(w) && IsStamp(b) && RestOfLine(rest) && s == w + b + rest
    decreases |s|
  {
    if IsSpace(s[0]) {
      EndPartSplits(s[1..]);
      var w, b, rest :| IsBlank(w) && IsStamp(b) && RestOfLine(rest) && s[1..] == w + b + rest;
      SpaceOnto(s, w, b, rest);
    } else {
      NothingBefore(s, 12);
    }
  }

  lemma {:induction false} ArrowPartSplits(s: string)
    requires ArrowPart(s)
    ensures exists w: string, e: string :: IsBlank(w) && EndPart(e) && s == w + "-->" + e
    decreases |s|
  {
    if IsSpace(s[0]) {
      ArrowPartSplits(s[1..]);
      var w, e :| IsBlank(w) && EndPart(e) && s[1..] == w + "-->" + e;
      SpaceOnto(s, w, "-->", e);
    } else {
      NothingBefore(s, 3);
    }
  }

  /** Proof helper (models nothing): a leading space joins the whitespace run that follows it. */
  lemma SpaceOnto(s: string, w: string, b: string, rest: string)
    requires s != [] && IsSpace(s[0]) && IsBlank(w) && s[1..] == w + b + rest
    ensures IsBlank([s[0]] + w) && s == [s[0]] + w + b + rest
  {
    assert s == [s[0]] + s[1..];
  }

  /** Proof helper (models nothing): an empty whitespace run in front of a split of s at n. */
  lemma NothingBefore(s: string, n: nat)
    requires n <= |s|
    ensures IsBlank([]) && s == [] + s[..n] + s[n..]
  {
    assert s == s[..n] + s[n..];
  }

  /** Proof helper (models nothing): a timecode split after its first stamp, regrouped into its six parts. */
  lemma Regroup(s: string, w1: string, e: string, w2: string, b: string, rest: string)
    requires |s| >= 12 && s[12..] == w1 + "-->" + e && e == w2 + b + rest
    ensures s == s[..12] + w1 + "-->" + w2 + b + rest
  {
    assert s == s[..12] + s[12..];
  }

  /** Every string the pattern accepts is made of exactly those parts. */
  lemma TimecodeParts(s: string)
    requires MatchesTime(s)
    ensures exists a: string, w1: string, w2: string, b: string, rest: string ::
      IsStamp(a) && IsStamp(b) && IsBlank(w1) && IsBlank(w2) && RestOfLine(rest) &&
      s == a + w1 + "-->" + w2 + b + rest
  {
    MatchesTimeAgrees(s);
    ArrowPartSplits(s[12..]);
    var w1, e :| IsBlank(w1) && EndPart(e) && s[12..] == w1 + "-->" + e;
    EndPartSplits(e);
    var w2, b, rest :| IsBlank(w2) && IsStamp(b) && RestOfLine(rest) && e == w2 + b + rest;
    Regroup(s, w1, e, w2, b, rest);
  }

  // ---------------------------------------------------------------- parse_srt

  /** text.replace("\r\n", "\n").replace("\r", "\n"). */
  function Normalize(text: string): (r: string)
    ensures '\r' !in r
  {
    var once := Replace(text, "\r\n", "\n");
    ReplaceRemoves(once, '\r', '\n');
    Replace(once, "\r", "\n")
  }

  /** The lines the scanner walks over. */
  function Lines(text: string): (r: seq<string>)
    ensures |r| >= 1
    ensures forall k :: 0 <= k < |r| ==> NoLineBreak(r[k])
  {
    SplitAvoids(Normalize(text), '\n', '\r');
    Split(Normalize(text), '\n')
  }

  /** The number of leading blank lines. */
  function LeadingBlank(ls: seq<string>): (j: nat)
    ensures j <= |ls|
    ensures forall k :: 0 <= k < j ==> IsBlank(ls[k])
    ensures j < |ls| ==> !IsBlank(ls[j])
  {
    if ls != [] && IsBlank(ls[0]) then 1 + LeadingBlank(ls[1..]) else 0
  }

  /** The number of leading lines that are not blank. */
  function LeadingText(ls: seq<string>): (j: nat)
    ensures j <= |ls|
    ensures forall k :: 0 <= k < j ==> !IsBlank(ls[k])
    ensures j < |ls| ==> IsBlank(ls[j])
  {
    if ls != [] && !IsBlank(ls[0]) then 1 + LeadingText(ls[1..]) else 0
  }

  /** LeadingBlank is the only count with its two properties. */
  lemma {:induction false} LeadingBlankExact(ls: seq<string>, j: nat)
    requires j <= |ls|
    requires forall k :: 0 <= k < j ==> IsBlank(ls[k])
    requires j < |ls| ==> !IsBlank(ls[j])
    ensures LeadingBlank(ls) == j
    decreases j
  {
    if j > 0 {
      LeadingBlankExact(ls[1..], j - 1);
    }
  }

  /** LeadingText is the only count with its two properties. */
  lemma {:induction false} LeadingTextExact(ls: seq<string>, j: nat)
    requires j <= |ls|
    requires forall k :: 0 <= k < j ==> !IsBlank(ls[k])
    requires j < |ls| ==> IsBlank(ls[j])
    ensures LeadingText(ls) == j
    decreases j
  {
    if j > 0 {
      LeadingTextExact(ls[1..], j - 1);
    }
  }

  /** The scanner of parse_srt on the lines not yet consumed: skip the blank lines, then read a block. */
  function ParseLines(ls: seq<string>): seq<SrtBlock>
    decreases |ls|, 2
  {
    var j := LeadingBlank(ls);
    if j == |ls| then [] else ParseBlock(ls[j..])
  }

  /**
   * One step of the scanner from a line that is not blank: a line whose stripped
   * form is not all digits is dropped; an index line on the last line ends the scan;
   * an index line followed by a line that does not match TIME_RE once stripped is
   * dropped with that line; otherwise the lines up to the next blank line (or the
   * end) are the text of a block, and that blank line is consumed.
   */
  function ParseBlock(ls: seq<string>): seq<SrtBlock>
    decreases |ls|, 1
  {
    if ls == [] then []
    else if !AllDigits(Strip(ls[0])) then ParseLines(ls[1..])
    else if |ls| == 1 then []
    else if !MatchesTime(Strip(ls[1])) then ParseLines(ls[2..])
    else
      var k := 2 + LeadingText(ls[2..]);
      [SrtBlock(DecimalValue(Strip(ls[0])), Strip(ls[1]), ls[2..k])] + ParseAfter(ls, k)
  }

  /** What the scanner gives after a block whose text ends before ls[k]: the blank line ls[k] is consumed. */
  function ParseAfter(ls: seq<string>, k: nat): seq<SrtBlock>
    requires k <= |ls|
    decreases |ls|, 0
  {
    if k < |ls| then ParseLines(ls[k + 1..]) else []
  }

  /** parse_srt(text). */
  function Parse(text: string): seq<SrtBlock>
  {
    ParseLines(Lines(text))
  }

  /** What write_srt needs for its lines to be read back: no line breaks, nothing empty. */
  predicate Printable(b: SrtBlock)
  {
    && b.timecode != [] && NoLineBreak(b.timecode)
    && forall k :: 0 <= k < |b.lines| ==> b.lines[k] != [] && NoLineBreak(b.lines[k])
  }

  predicate AllPrintable(bs: seq<SrtBlock>)
  {
    forall k :: 0 <= k < |bs| ==> Printable(bs[k])
  }

  /** What every parsed block satisfies: a trimmed timecode matching TIME_RE, unbroken non-blank lines. */
  predicate WellFormed(b: SrtBlock)
  {
    && Printable(b)
    && Strip(b.timecode) == b.timecode
    && MatchesTime(b.timecode)
    && forall k :: 0 <= k < |b.lines| ==> !IsBlank(b.lines[k])
  }

  predicate AllWellFormed(bs: seq<SrtBlock>)
  {
    forall k :: 0 <= k < |bs| ==> WellFormed(bs[k])
  }

  lemma {:induction false} ParseLinesWellFormed(ls: seq<string>)
    requires forall k :: 0 <= k < |ls| ==> NoLineBreak(ls[k])
    ensures AllWellFormed(ParseLines(ls))
    decreases |ls|, 1
  {
    var j := LeadingBlank(ls);
    if j < |ls| {
      ParseBlockWellFormed(ls[j..]);
    }
  }

  lemma {:induction false} ParseBlockWellFormed(ls: seq<string>)
    requires forall k :: 0 <= k < |ls| ==> NoLineBreak(ls[k])
    ensures AllWellFormed(ParseBlock(ls))
    decreases |ls|, 0
  {
    if ls == [] {
    } else if !AllDigits(Strip(ls[0])) {
      ParseLinesWellFormed(ls[1..]);
    } else if |ls| == 1 {
    } else if !MatchesTime(Strip(ls[1])) {
      ParseLinesWellFormed(ls[2..]);
    } else {
      var t := LeadingText(ls[2..]);
      if 2 + t < |ls| {
        ParseLinesWellFormed(ls[2 + t + 1..]);
      }
      BlockWellFormed(ls, t);
    }
  }

  /** The block read from ls is well formed, and so is what follows it when that is. */
  lemma BlockWellFormed(ls: seq<string>, t: nat)
    requires forall k :: 0 <= k < |ls| ==> NoLineBreak(ls[k])
    requires 2 + t <= |ls| && AllDigits(Strip(ls[0])) && MatchesTime(Strip(ls[1]))
    requires LeadingText(ls[2..]) == t
    requires AllWellFormed(ParseAfter(ls, 2 + t))
    ensures AllWellFormed(ParseBlock(ls))
  {
    ReadBlockWellFormed(DecimalValue(Strip(ls[0])), ls[1], ls[2..2 + t]);
    AllWellFormedCons(SrtBlock(DecimalValue(Strip(ls[0])), Strip(ls[1]), ls[2..2 + t]), ParseAfter(ls, 2 + t));
    BlockAt(ls, t);
  }

  lemma ReadBlockWellFormed(index: nat, timeLine: string, text: seq<string>)
    requires NoLineBreak(timeLine) && MatchesTime(Strip(timeLine))
    requires forall k :: 0 <= k < |text| ==> !IsBlank(text[k]) && NoLineBreak(text[k])
    ensures WellFormed(SrtBlock(index, Strip(timeLine), text))
  {
    StripIdempotent(timeLine);
    StripNoLineBreak(timeLine);
  }

  /** Proof helper (models nothing): well-formedness of a list with one more block in front. */
  lemma AllWellFormedCons(b: SrtBlock, tail: seq<SrtBlock>)
    requires WellFormed(b) && AllWellFormed(tail)
    ensures AllWellFormed([b] + tail)
  {
    AllCons(WellFormed, b, tail);
  }

  /** Proof helper (models nothing): a property of every element survives putting one more in front. */
  lemma AllCons<T>(P: T -> bool, b: T, tail: seq<T>)
    requires P(b) && forall k :: 0 <= k < |tail| ==> P(tail[k])
    ensures forall k :: 0 <= k < |[b] + tail| ==> P(([b] + tail)[k])
  {
    forall k | 0 <= k < |[b] + tail| ensures P(([b] + tail)[k]) {
      if k > 0 {
        assert ([b] + tail)[k] == tail[k - 1];
      }
    }
  }

  /** Proof helper (models nothing): a property of every element holds in every suffix. */
  lemma AllSuffix<T>(P: T -> bool, s: seq<T>, n: nat)
    requires n <= |s| && forall k :: 0 <= k < |s| ==> P(s[k])
    ensures forall k :: 0 <= k < |s[n..]| ==> P(s[n..][k])
  {
    forall k | 0 <= k < |s[n..]| ensures P(s[n..][k]) {
      assert s[n..][k] == s[n + k];
    }
  }

  /** Every block of parse_srt(text) has a trimmed timecode matching TIME_RE and unbroken, non-blank text lines. */
  lemma ParseWellFormed(text: string)
    ensures AllWellFormed(Parse(text))
  {
    ParseLinesWellFormed(Lines(text));
  }

  /** After the blank lines lines[from..to] the scanner reads a block at `to`, or stops at the end. */
  lemma SkipBlankLines(lines: seq<string>, from: nat, to: nat)
    requires from <= to <= |lines|
    requires forall k :: from <= k < to ==> IsBlank(lines[k])
    requires to < |lines| ==> !IsBlank(lines[to])
    ensures ParseLines(lines[from..]) == if to == |lines| then [] else ParseBlock(lines[to..])
  {
    LeadingBlankExact(lines[from..], to - from);
    assert lines[from..][to - from..] == lines[to..];
  }

  /** The text lines lines[from..to] end at a blank line or at the end. */
  lemma TextLinesRun(lines: seq<string>, from: nat, to: nat)
    requires from <= to <= |lines|
    requires forall k :: from <= k < to ==> !IsBlank(lines[k])
    requires to < |lines| ==> IsBlank(lines[to])
    ensures LeadingText(lines[from..]) == to - from
  {
    LeadingTextExact(lines[from..], to - from);
  }

  /**
   * Reading from lines[start..] gives the blocks `found`, then whatever the scan from
   * `next` gives (nothing when `next` is past the end).
   */
  predicate ScanResumes(lines: seq<string>, start: nat, found: seq<SrtBlock>, next: nat)
    requires start <= |lines|
  {
    ParseBlock(lines[start..]) == found + (if next <= |lines| then ParseLines(lines[next..]) else [])
  }

  /** A line whose stripped form is not all digits is dropped. */
  lemma NonIndexStep(lines: seq<string>, i: nat)
    requires i < |lines| && !AllDigits(Strip(lines[i]))
    ensures ScanResumes(lines, i, [], i + 1)
  {
    assert lines[i..][1..] == lines[i + 1..];
  }

  /** An index on the last line ends the scan. */
  lemma IndexAtEnd(lines: seq<string>, i: nat)
    requires i + 1 == |lines| && AllDigits(Strip(lines[i]))
    ensures ScanResumes(lines, i, [], |lines| + 1)
  {
  }

  /** An index line followed by a line that is not a timecode: both are dropped. */
  lemma BadTimecodeStep(lines: seq<string>, i: nat)
    requires i + 1 < |lines| && AllDigits(Strip(lines[i])) && !MatchesTime(Strip(lines[i + 1]))
    ensures ScanResumes(lines, i, [], i + 2)
  {
    assert lines[i..][2..] == lines[i + 2..];
  }

  /** An index line, a timecode line and `t` text lines, where a blank line or the end follows, make one block. */
  lemma BlockAt(ls: seq<string>, t: nat)
    requires 2 + t <= |ls|
    requires AllDigits(Strip(ls[0])) && MatchesTime(Strip(ls[1]))
    requires LeadingText(ls[2..]) == t
    ensures ParseBlock(ls) ==
      [SrtBlock(DecimalValue(Strip(ls[0])), Strip(ls[1]), ls[2..2 + t])] + ParseAfter(ls, 2 + t)
  {
  }

  lemma BlockStep(lines: seq<string>, i: nat, to: nat, found: seq<SrtBlock>, next: nat)
    requires i + 2 <= to <= |lines| && next == to + 1
    requires AllDigits(Strip(lines[i])) && MatchesTime(Strip(lines[i + 1]))
    requires forall k :: i + 2 <= k < to ==> !IsBlank(lines[k])
    requires to < |lines| ==> IsBlank(lines[to])
    requires found == [SrtBlock(DecimalValue(Strip(lines[i])), Strip(lines[i + 1]), lines[i + 2..to])]
    ensures ScanResumes(lines, i, found, next)
  {
    var here := lines[i..];
    var t := to - i - 2;
    SliceShift(lines, i, 2, 2 + t, i + 2, to);
    SuffixShift(lines, i, 2, i + 2);
    if next <= |lines| {
      SuffixShift(lines, i, 2 + t + 1, next);
    }
    IndexShift(lines, i, 0, i);
    IndexShift(lines, i, 1, i + 1);
    TextLinesRun(lines, i + 2, to);
    assert ParseAfter(here, 2 + t) == if next <= |lines| then ParseLines(lines[next..]) else [];
    assert found == [SrtBlock(DecimalValue(Strip(here[0])), Strip(here[1]), here[2..2 + t])];
    BlockAt(here, t);
  }

  /** Proof helper (models nothing): indexing into a suffix is indexing the whole at an offset. */
  lemma IndexShift<T>(s: seq<T>, i: nat, a: nat, c: nat)
    requires i + a < |s| && c == i + a
    ensures s[i..][a] == s[c]
  {
  }

  /** Proof helper (models nothing): head and tail of a list with one element in front. */
  lemma ConsParts<T>(x: T, xs: seq<T>)
    ensures ([x] + xs)[0] == x && ([x] + xs)[1..] == xs
  {
  }

  /** Proof helper (models nothing): a slice of a suffix is a slice of the whole at an offset. */
  lemma SliceShift<T>(s: seq<T>, i: nat, a: nat, b: nat, c: nat, d: nat)
    requires i <= |s| && a <= b <= |s| - i && c == i + a && d == i + b
    ensures s[i..][a..b] == s[c..d]
  {
  }

  /** Proof helper (models nothing): a suffix of a suffix is a suffix of the whole. */
  lemma SuffixShift<T>(s: seq<T>, i: nat, a: nat, c: nat)
    requires i <= |s| && a <= |s| - i && c == i + a
    ensures s[i..][a..] == s[c..]
  {
  }

  /** The inner loop of parse_srt that steps over blank lines. */
  method SkipBlank(lines: seq<string>, from: nat) returns (to: nat)
    requires from <= |lines|
    ensures from <= to <= |lines|
    ensures forall k :: from <= k < to ==> IsBlank(lines[k])
    ensures to < |lines| ==> !IsBlank(lines[to])
  {
    to := from;
    while to < |lines| && IsBlank(lines[to])
      invariant from <= to <= |lines|
      invariant forall k :: from <= k < to ==> IsBlank(lines[k])
    {
      to := to + 1;
    }
  }

  /** The inner loop of parse_srt that collects the text lines of a block, up to a blank line or the end. */
  method CollectText(lines: seq<string>, from: nat) returns (textLines: seq<string>, to: nat)
    requires from <= |lines|
    ensures from <= to <= |lines|
    ensures forall k :: from <= k < to ==> !IsBlank(lines[k])
    ensures to < |lines| ==> IsBlank(lines[to])
    ensures textLines == lines[from..to]
  {
    textLines := [];
    to := from;
    while to < |lines| && !IsBlank(lines[to])
      invariant from <= to <= |lines|
      invariant forall k :: from <= k < to ==> !IsBlank(lines[k])
      invariant textLines == lines[from..to]
    {
      textLines := textLines + [lines[to]];
      to := to + 1;
    }
  }

  /**
   * The body of the scanning loop of parse_srt from a line that is not blank: the
   * block it reads, if any (at most one), and where scanning goes on (`|lines| + 1`
   * when an index on the last line ends the scan).
   */
  method ReadBlock(lines: seq<string>, start: nat) returns (found: seq<SrtBlock>, next: nat)
    requires start < |lines|
    ensures start < next <= |lines| + 1 && |found| <= 1
    ensures ScanResumes(lines, start, found, next)
  {
    var n := |lines|;
    found := [];
    var idxLine := Strip(lines[start]);
    if !AllDigits(idxLine) {
      NonIndexStep(lines, start);
      next := start + 1;
      return;
    }
    var index := DecimalValue(idxLine);
    if start + 1 >= n {
      IndexAtEnd(lines, start);
      next := n + 1;
      return;
    }
    var timecode := Strip(lines[start + 1]);
    if !MatchesTime(timecode) {
      BadTimecodeStep(lines, start);
      next := start + 2;
      return;
    }
    var textLines, to := CollectText(lines, start + 2);
    found := [SrtBlock(index, timecode, textLines)];
    next := to + 1;
    BlockStep(lines, start, to, found, next);
  }

  /** The cursor-driven scanner of parse_srt. */
  method ParseSrt(text: string) returns (blocks: seq<SrtBlock>)
    ensures blocks == Parse(text)
    ensures AllWellFormed(blocks)
  {
    var lines := Split(Normalize(text), '\n');
    ghost var all := ParseLines(lines);
    blocks := [];
    var i := 0;
    var n := |lines|;
    while i < n
      invariant 0 <= i <= n + 1
      invariant i <= n ==> blocks + ParseLines(lines[i..]) == all
      invariant i > n ==> blocks == all
      decreases n + 1 - i
    {
      ghost var start := i;
      i := SkipBlank(lines, i);
      SkipBlankLines(lines, start, i);
      if i >= n {
        assert blocks + [] == blocks;
        break;
      }
      var found;
      found, i := ReadBlock(lines, i);
      ghost var later := if i <= n then ParseLines(lines[i..]) else [];
      AppendAssoc(blocks, found, later);
      blocks := blocks + found;
      if i > n {
        assert blocks + [] == blocks;
      }
    }
    assert lines == Lines(text);
    ParseWellFormed(text);
  }

  /** Lines whose stripped form is never all digits yield no block: fully malformed input gives []. */
  lemma {:induction false} NoIndexNoBlocks(ls: seq<string>)
    requires forall k :: 0 <= k < |ls| ==> !AllDigits(Strip(ls[k]))
    ensures ParseLines(ls) == []
    decreases |ls|
  {
    var j := LeadingBlank(ls);
    if j < |ls| {
      SkipNonIndex(ls, j);
      NoIndexSuffix(ls, j + 1);
      NoIndexNoBlocks(ls[j + 1..]);
    }
  }

  lemma NoIndexSuffix(ls: seq<string>, n: nat)
    requires n <= |ls| && forall k :: 0 <= k < |ls| ==> !AllDigits(Strip(ls[k]))
    ensures forall k :: 0 <= k < |ls[n..]| ==> !AllDigits(Strip(ls[n..][k]))
  {
    forall k | 0 <= k < |ls[n..]| ensures !AllDigits(Strip(ls[n..][k])) {
      assert ls[n..][k] == ls[n + k];
    }
  }

  /** The first line that is not blank is dropped when it is not an index. */
  lemma SkipNonIndex(ls: seq<string>, j: nat)
    requires j == LeadingBlank(ls) < |ls| && !AllDigits(Strip(ls[j]))
    ensures ParseLines(ls) == ParseLines(ls[j + 1..])
  {
    assert ls[0..] == ls;
    SkipBlankLines(ls, 0, j);
    NonIndexStep(ls, j);
    assert [] + ParseLines(ls[j + 1..]) == ParseLines(ls[j + 1..]);
  }

  /** Empty input and input with no index line give no blocks. */
  lemma ParseWithoutIndex(text: string)
    requires forall k :: 0 <= k < |Lines(text)| ==> !AllDigits(Strip(Lines(text)[k]))
    ensures Parse(text) == []
  {
    NoIndexNoBlocks(Lines(text));
  }

  lemma ParseEmpty()
    ensures Parse("") == []
  {
    assert Normalize("") == "";
    assert Lines("") == [""];
  }

  /** Prepending one unbroken line and a line feed adds that line in front of the lines. */
  lemma LinesCons(l: string, rest: string)
    requires NoLineBreak(l)
    ensures Lines(l + "\n" + rest) == [l] + Lines(rest)
  {
    var a := l + "\n";
    assert '\r' !in a;
    assert l + "\n" + rest == a + rest;
    ReplaceSkips(a, rest, "\r\n", "\n");
    ReplaceSkips(a, Replace(rest, "\r\n", "\n"), "\r", "\n");
    assert Normalize(l + "\n" + rest) == l + ['\n'] + Normalize(rest);
    SplitAfter(l, '\n', Normalize(rest));
  }

  /** A blank line in front changes nothing. */
  lemma BlankLineSkipped(l: string, ls: seq<string>)
    requires IsBlank(l)
    ensures ParseLines([l] + ls) == ParseLines(ls)
  {
    var s := [l] + ls;
    ConsParts(l, ls);
    var j := LeadingBlank(ls);
    assert LeadingBlank(s) == 1 + j;
    SuffixShift(s, 1, j, 1 + j);
  }

  /** A line that is not an index is skipped: scanning resumes on the next line. */
  lemma NonIndexLineSkipped(l: string, rest: string)
    requires NoLineBreak(l)
    requires !AllDigits(Strip(l))
    ensures Parse(l + "\n" + rest) == Parse(rest)
  {
    LinesCons(l, rest);
    var ls := [l] + Lines(rest);
    if IsBlank(l) {
      BlankLineSkipped(l, Lines(rest));
    } else {
      LeadingBlankExact(ls, 0);
      assert ls[0..] == ls;
      assert ParseLines(ls) == ParseBlock(ls);
      assert ls[1..] == Lines(rest);
      assert ParseBlock(ls) == ParseLines(Lines(rest));
    }
  }

  /** An index line followed by a line that is not a timecode: both are dropped. */
  lemma BadTimecodeDropsIndex(d: string, t: string, rest: string)
    requires NoLineBreak(d) && NoLineBreak(t)
    requires AllDigits(Strip(d))
    requires !MatchesTime(Strip(t))
    ensures Parse(d + "\n" + (t + "\n" + rest)) == Parse(rest)
  {
    var ls := [d] + ([t] + Lines(rest));
    assert Lines(d + "\n" + (t + "\n" + rest)) == ls by {
      LinesCons(t, rest);
      LinesCons(d, t + "\n" + rest);
    }
    assert ParseLines(ls) == ParseBlock(ls) by {
      assert !IsBlank(d);
      LeadingBlankExact(ls, 0);
      assert ls[0..] == ls;
    }
    assert ls[1..] == [t] + Lines(rest);
    assert ls[1..][1..] == Lines(rest);
    assert ParseBlock(ls) == ParseLines(Lines(rest));
  }

  /** Lines separated by CR LF, or by a lone CR, parse exactly as when separated by LF. */
  lemma LineEndingsAgree(ls: seq<string>)
    requires |ls| >= 1
    requires forall k :: 0 <= k < |ls| ==> NoLineBreak(ls[k])
    ensures Parse(Join(ls, "\r\n")) == Parse(Join(ls, "\n"))
    ensures Parse(Join(ls, "\r")) == Parse(Join(ls, "\n"))
  {
    var lf := Join(ls, "\n");
    JoinAvoids(ls, "\n", '\r');
    ReplaceAbsent(lf, "\r\n", "\n", 0);
    ReplaceAbsent(lf, "\r", "\n", 0);
    assert Normalize(lf) == lf;

    ReplaceJoin(ls, "\r\n", "\n");
    assert Normalize(Join(ls, "\r\n")) == lf;

    var cr := Join(ls, "\r");
    JoinAvoids(ls, "\r", '\n');
    ReplaceAbsent(cr, "\r\n", "\n", 1);
    ReplaceJoin(ls, "\r", "\n");
    assert Normalize(cr) == lf;
  }

  // ---------------------------------------------------------------- write_srt

  /** The output lines of one block: index, timecode, text lines, a blank separator. */
  function BlockLines(b: SrtBlock): seq<string>
  {
    [NatToString(b.index), b.timecode] + b.lines + [""]
  }

  function OutLines(bs: seq<SrtBlock>): seq<string>
  {
    if bs == [] then [] else BlockLines(bs[0]) + OutLines(bs[1..])
  }

  lemma {:induction false} OutLinesSnoc(bs: seq<SrtBlock>, b: SrtBlock)
    ensures OutLines(bs + [b]) == OutLines(bs) + BlockLines(b)
  {
    if bs == [] {
      assert ([] + [b])[1..] == [];
      assert [b] == [] + [b];
    } else {
      assert (bs + [b])[1..] == bs[1..] + [b];
      OutLinesSnoc(bs[1..], b);
    }
  }

  /** The text write_srt puts in the file: "\n".join(out_lines).rstrip("\n") + "\n". */
  function Serialize(bs: seq<SrtBlock>): (r: string)
    ensures |r| >= 1 && r[|r| - 1] == '\n'
    ensures |r| >= 2 ==> r[|r| - 2] != '\n'
    ensures bs == [] ==> r == "\n"
  {
    TrimTrailingNewlines(Join(OutLines(bs), "\n")) + "\n"
  }

  /** write_srt without the file: builds out_lines block by block and renders them. */
  method WriteSrt(blocks: seq<SrtBlock>) returns (content: string)
    ensures content == Serialize(blocks)
  {
    var outLines: seq<string> := [];
    for i := 0 to |blocks|
      invariant outLines == OutLines(blocks[..i])
    {
      var b := blocks[i];
      outLines := outLines + [NatToString(b.index)];
      outLines := outLines + [b.timecode];
      outLines := outLines + b.lines;
      outLines := outLines + [""];
      assert blocks[..i + 1] == blocks[..i] + [b];
      OutLinesSnoc(blocks[..i], b);
    }
    assert blocks[..|blocks|] == blocks;
    content := TrimTrailingNewlines(Join(outLines, "\n")) + "\n";
  }

  // ---------------------------------------------------------------- round trip

  lemma {:induction false} OutLinesNoBreak(bs: seq<SrtBlock>)
    requires AllPrintable(bs)
    ensures forall k :: 0 <= k < |OutLines(bs)| ==> NoLineBreak(OutLines(bs)[k])
  {
    if bs != [] {
      OutLinesNoBreak(bs[1..]);
      var d := NatToString(bs[0].index);
      assert NoLineBreak(d);
    }
  }

  /** The output lines end in the blank separator, after a line that is not empty. */
  lemma {:induction false} OutLinesEnd(bs: seq<SrtBlock>)
    requires bs != [] && AllPrintable(bs)
    ensures var o := OutLines(bs);
      |o| >= 3 && o[|o| - 1] == "" && o[|o| - 2] != [] && '\n' !in o[|o| - 2]
  {
    var o := OutLines(bs);
    if |bs| == 1 {
      assert bs[1..] == [];
      assert o == BlockLines(bs[0]);
      var b := bs[0];
      assert Printable(b);
      if b.lines != [] {
        assert o[|o| - 2] == b.lines[|b.lines| - 1];
      } else {
        assert o[|o| - 2] == b.timecode;
      }
    } else {
      OutLinesEnd(bs[1..]);
      var o' := OutLines(bs[1..]);
      assert o[|o| - 1] == o'[|o'| - 1] && o[|o| - 2] == o'[|o'| - 2];
    }
  }

  /** For printable blocks the trailing rstrip removes only the last separator. */
  lemma SerializeJoins(bs: seq<SrtBlock>)
    requires bs != [] && AllPrintable(bs)
    ensures Serialize(bs) == Join(OutLines(bs), "\n")
  {
    var o := OutLines(bs);
    OutLinesEnd(bs);
    var front := o[..|o| - 1];
    assert o == front + [""];
    JoinSnoc(front, "", "\n");
    var j := Join(front, "\n");
    var last := front[|front| - 1];
    assert front == front[..|front| - 1] + [last];
    JoinSnoc(front[..|front| - 1], last, "\n");
    assert j[|j| - 1] == last[|last| - 1];
    assert Join(o, "\n") == j + "\n";
    assert (j + "\n")[..|j|] == j;
  }

  /** The lines the scanner sees in a serialised document are its output lines. */
  lemma LinesOfSerialize(bs: seq<SrtBlock>)
    requires bs != [] && AllPrintable(bs)
    ensures Lines(Serialize(bs)) == OutLines(bs)
  {
    SerializeJoins(bs);
    var o := OutLines(bs);
    var s := Join(o, "\n");
    OutLinesNoBreak(bs);
    JoinAvoids(o, "\n", '\r');
    ReplaceAbsent(s, "\r\n", "\n", 0);
    ReplaceAbsent(s, "\r", "\n", 0);
    OutLinesEnd(bs);
    SplitJoin(o, '\n');
  }

  /** One well-formed block in front of any lines is read back as itself. */
  lemma ParseBlockLines(b: SrtBlock, rest: seq<string>)
    requires WellFormed(b)
    ensures ParseLines(BlockLines(b) + rest) == [b] + ParseLines(rest)
  {
    var ls := BlockLines(b) + rest;
    var t := |b.lines|;
    BlockLinesShape(b, rest);
    StripUnchanged(NatToString(b.index));
    DecimalOfNatToString(b.index);
    LeadingBlankExact(ls, 0);
    LeadingTextExact(ls[2..], t);
    assert ParseAfter(ls, 2 + t) == ParseLines(rest);
    BlockAt(ls, t);
  }

  /** Where the parts of a block sit in its output lines. */
  lemma BlockLinesShape(b: SrtBlock, rest: seq<string>)
    ensures |BlockLines(b) + rest| >= 3 + |b.lines|
    ensures (BlockLines(b) + rest)[0] == NatToString(b.index)
    ensures (BlockLines(b) + rest)[1] == b.timecode
    ensures (BlockLines(b) + rest)[0..] == BlockLines(b) + rest
    ensures (BlockLines(b) + rest)[2..] == b.lines + [""] + rest
    ensures (BlockLines(b) + rest)[2..2 + |b.lines|] == b.lines
    ensures (BlockLines(b) + rest)[2 + |b.lines| + 1..] == rest
  {
  }

  lemma {:induction false} ParseOutLines(bs: seq<SrtBlock>)
    requires AllWellFormed(bs)
    ensures ParseLines(OutLines(bs)) == bs
  {
    if bs != [] {
      var tail := bs[1..];
      AllSuffix(WellFormed, bs, 1);
      ParseOutLines(tail);
      assert OutLines(bs) == BlockLines(bs[0]) + OutLines(tail);
      ParseBlockLines(bs[0], OutLines(tail));
      assert [bs[0]] + tail == bs;
    }
  }

  /** Serialising well-formed blocks and parsing the text gives the same blocks, indices included. */
  lemma ParseSerialize(bs: seq<SrtBlock>)
    requires AllWellFormed(bs)
    ensures Parse(Serialize(bs)) == bs
  {
    if bs == [] {
      assert Normalize("\n") == "\n";
      assert Split("\n", '\n') == ["", ""];
      assert LeadingBlank(["", ""]) == 2;
    } else {
      assert AllPrintable(bs);
      LinesOfSerialize(bs);
      ParseOutLines(bs);
    }
  }

  /** parse_srt(write_srt(parse_srt(x))) == parse_srt(x), on index, timecode and lines. */
  lemma RoundTrip(text: string)
    ensures Parse(Serialize(Parse(text))) == Parse(text)
  {
    ParseWellFormed(text);
    ParseSerialize(Parse(text));
  }
}
