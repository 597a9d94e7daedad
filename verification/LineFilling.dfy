/**
 * Greedy line filling: `wrapParagraph` of codegen/src/util/string.ts and the row packing loop of
 * codegen/src/mom/common/generate-element.ts.
 */
module LineFilling {

  // ---- Splits into lines ----------------------------------------------------------------

  /** What is filled into lines, with its limit: the segments of a paragraph or the properties of an element. */
  datatype Fits =
    | ParagraphFits(segments: seq<string>, wrapWidth: int, padding: nat, wrapPrefix: nat)
    | RowFits(properties: seq<NonEmpty>)
  {
    /** Whether the segments or properties `from` to `to` fit on line number `line`. */
    predicate Holds(line: nat, from: nat, to: nat) {
      match this
      case ParagraphFits(segments, wrapWidth, padding, wrapPrefix) =>
        from <= to <= |segments| && LineLength(segments, padding, wrapPrefix, line, from, to) <= wrapWidth
      case RowFits(properties) =>
        from <= to <= |properties| && |Join(properties[from..to])| < ROW_LIMIT
    }
  }

  /** Where line `j` starts when the lines end at the positions `ends`. */
  function Start(ends: seq<nat>, j: nat): nat
    requires j <= |ends|
  {
    if j == 0 then 0 else ends[j - 1]
  }

  predicate NonEmptyLine(ends: seq<nat>, j: nat, n: nat)
    requires j < |ends|
  {
    Start(ends, j) < ends[j] <= n
  }

  /** An order-preserving split of `n` segments into non-empty lines. */
  ghost predicate IsSplit(ends: seq<nat>, n: nat) {
    && (forall j :: 0 <= j < |ends| ==> NonEmptyLine(ends, j, n))
    && Start(ends, |ends|) == n
  }

  predicate LineAllowed(fits: Fits, ends: seq<nat>, j: nat)
    requires j < |ends|
  {
    ends[j] == Start(ends, j) + 1 || fits.Holds(j, Start(ends, j), ends[j])
  }

  /** Each line fits, or consists of one segment. */
  ghost predicate Allowed(fits: Fits, ends: seq<nat>, n: nat) {
    IsSplit(ends, n) && forall j :: 0 <= j < |ends| ==> LineAllowed(fits, ends, j)
  }

  predicate LineFull(fits: Fits, ends: seq<nat>, j: nat)
    requires j < |ends|
  {
    !fits.Holds(j, Start(ends, j), ends[j] + 1)
  }

  /** In addition no line has room for the first segment of the next one. */
  ghost predicate Greedy(fits: Fits, ends: seq<nat>, n: nat) {
    Allowed(fits, ends, n) && forall j :: 0 <= j < |ends| - 1 ==> LineFull(fits, ends, j)
  }

  /** A part of what fits on a line fits on it as well. */
  ghost predicate Shrinks(fits: Fits) {
    forall j: nat, a: nat, b: nat, c: nat, d: nat :: a <= b < c <= d && fits.Holds(j, a, d) ==> fits.Holds(j, b, c)
  }

  /** After as many lines, greedy filling is never behind. */
  lemma {:induction false} StaysAhead(fits: Fits, greedy: seq<nat>, other: seq<nat>, n: nat, j: nat)
    requires Shrinks(fits) && Greedy(fits, greedy, n) && Allowed(fits, other, n)
    requires j < |greedy| && j < |other|
    ensures greedy[j] >= other[j]
  {
    if j == 0 {
    } else {
      StaysAhead(fits, greedy, other, n, j - 1);
    }
    assert NonEmptyLine(greedy, j, n) && NonEmptyLine(other, j, n) && LineAllowed(fits, other, j);
    if j < |greedy| - 1 {
      assert LineFull(fits, greedy, j);
    }
  }

  /** Greedy filling needs the fewest lines. */
  lemma GreedyIsOptimal(fits: Fits, greedy: seq<nat>, other: seq<nat>, n: nat)
    requires Shrinks(fits) && Greedy(fits, greedy, n) && Allowed(fits, other, n)
    ensures |greedy| <= |other|
  {
    var k := |other|;
    if k < |greedy| {
      assert NonEmptyLine(greedy, k, n);
      if k > 0 {
        StaysAhead(fits, greedy, other, n, k - 1);
      }
    }
  }

  /** There is one greedy filling. */
  lemma GreedyIsUnique(fits: Fits, a: seq<nat>, b: seq<nat>, n: nat)
    requires Shrinks(fits) && Greedy(fits, a, n) && Greedy(fits, b, n)
    ensures a == b
  {
    GreedyIsOptimal(fits, a, b, n);
    GreedyIsOptimal(fits, b, a, n);
    forall j | 0 <= j < |a| ensures a[j] == b[j] {
      StaysAhead(fits, a, b, n, j);
      StaysAhead(fits, b, a, n, j);
    }
  }

  /** All lines are allowed and full; the next line starts at `n`. */
  ghost predicate Filled(fits: Fits, ends: seq<nat>, n: nat) {
    Allowed(fits, ends, n) && forall j :: 0 <= j < |ends| ==> LineFull(fits, ends, j)
  }

  /** Ending the current line. */
  lemma EndLine(fits: Fits, ends: seq<nat>, from: nat, to: nat)
    requires Filled(fits, ends, from) && from < to && (to == from + 1 || fits.Holds(|ends|, from, to))
    ensures Greedy(fits, ends + [to], to)
    ensures LineFull(fits, ends + [to], |ends|) ==> Filled(fits, ends + [to], to)
  {
    var more := ends + [to];
    forall j | 0 <= j < |more| ensures NonEmptyLine(more, j, to) && LineAllowed(fits, more, j) {
      if j < |ends| {
        assert NonEmptyLine(ends, j, from) && LineAllowed(fits, ends, j);
      }
    }
    forall j | 0 <= j < |ends| ensures LineFull(fits, more, j) {
      assert LineFull(fits, ends, j);
    }
  }

  // ---- Segments -------------------------------------------------------------------------

  function Concat(segments: seq<string>): string {
    if segments == [] then "" else Concat(segments[..|segments| - 1]) + segments[|segments| - 1]
  }

  function Spaces(n: nat): (s: string)
    ensures |s| == n && forall i :: 0 <= i < n ==> s[i] == ' '
  {
    seq(n, _ => ' ')
  }

  lemma {:induction false} ConcatAppend(a: seq<string>, b: seq<string>)
    ensures Concat(a + b) == Concat(a) + Concat(b)
  {
    if b == [] {
      assert a + b == a;
    } else {
      assert (a + b)[..|a + b| - 1] == a + b[..|b| - 1];
      ConcatAppend(a, b[..|b| - 1]);
    }
  }

  /** Shorter stretches of segments have shorter texts. */
  lemma ConcatMonotone(segments: seq<string>, a: nat, b: nat, c: nat, d: nat)
    requires a <= b <= c <= d <= |segments|
    ensures |Concat(segments[b..c])| <= |Concat(segments[a..d])|
  {
    assert segments[a..d] == segments[a..b] + (segments[b..c] + segments[c..d]);
    ConcatAppend(segments[a..b], segments[b..c] + segments[c..d]);
    ConcatAppend(segments[b..c], segments[c..d]);
  }

  /** The text of the segments `from` to `to`. */
  function Stretch(segments: seq<string>, from: nat, to: nat): string
    requires from <= to <= |segments|
  {
    Concat(segments[from..to])
  }

  /** The lines of a split, with `first` in front of the first line and `rest` in front of the others. */
  function Lines(segments: seq<string>, ends: seq<nat>, first: string, rest: string): (r: seq<string>)
    ensures |r| == |ends|
  {
    if ends == [] then []
    else
      var j := |ends| - 1;
      var from, to := Start(ends, j), ends[j];
      Lines(segments, ends[..j], first, rest) +
      [(if j == 0 then first else rest) + if from <= to <= |segments| then Stretch(segments, from, to) else ""]
  }

  lemma SplitFront(ends: seq<nat>, n: nat)
    requires IsSplit(ends, n) && ends != []
    ensures IsSplit(ends[..|ends| - 1], Start(ends, |ends| - 1)) && Start(ends, |ends| - 1) < n == ends[|ends| - 1]
  {
    var k := |ends| - 1;
    var front := ends[..k];
    assert NonEmptyLine(ends, k, n);
    forall j | 0 <= j < k ensures NonEmptyLine(front, j, Start(ends, k)) {
      Ascending(ends, n, j, k - 1);
      assert NonEmptyLine(ends, j, n);
    }
  }

  lemma {:induction false} Ascending(ends: seq<nat>, n: nat, i: nat, j: nat)
    requires IsSplit(ends, n) && i <= j < |ends|
    ensures ends[i] <= ends[j]
  {
    if i == j {
    } else {
      assert NonEmptyLine(ends, j, n);
      Ascending(ends, n, i, j - 1);
    }
  }

  /** Without what was put in front, the lines are all segments in order. */
  lemma {:induction false} NothingLost(segments: seq<string>, ends: seq<nat>, n: nat)
    requires IsSplit(ends, n) && n <= |segments|
    ensures Concat(Lines(segments, ends, "", "")) == Concat(segments[..n])
  {
    if ends == [] {
    } else {
      var k := |ends| - 1;
      var from := Start(ends, k);
      SplitFront(ends, n);
      NothingLost(segments, ends[..k], from);
      assert segments[..n] == segments[..from] + segments[from..n];
      ConcatAppend(segments[..from], segments[from..n]);
      var front := Lines(segments, ends[..k], "", "");
      assert "" + Stretch(segments, from, n) == Stretch(segments, from, n);
      assert Lines(segments, ends, "", "") == front + [Stretch(segments, from, n)];
      assert (front + [Stretch(segments, from, n)])[..|front|] == front;
    }
  }

  // ---- Paragraphs -----------------------------------------------------------------------

  /** The length of a line of a paragraph as `wrapParagraph` counts it. */
  function LineLength(segments: seq<string>, padding: nat, wrapPrefix: nat, line: nat, from: nat, to: nat): nat
    requires from <= to <= |segments|
  {
    padding + (if line == 0 then 0 else wrapPrefix) + |Stretch(segments, from, to)|
  }

  lemma ParagraphShrinks(segments: seq<string>, wrapWidth: int, padding: nat, wrapPrefix: nat)
    ensures Shrinks(ParagraphFits(segments, wrapWidth, padding, wrapPrefix))
  {
    var fits := ParagraphFits(segments, wrapWidth, padding, wrapPrefix);
    forall j: nat, a: nat, b: nat, c: nat, d: nat | a <= b < c <= d && fits.Holds(j, a, d) ensures fits.Holds(j, b, c) {
      ConcatMonotone(segments, a, b, c, d);
    }
  }

  function Hanging(prefixWidth: nat): nat {
    if prefixWidth > 0 then prefixWidth + 1 else 0
  }

  function Separator(before: seq<string>, pushed: bool): seq<string> {
    if before != [] && pushed then [""] else []
  }

  /** A blank line if other text precedes, and then a greedy split of the paragraph, padded and indented. */
  ghost predicate Wrapped(segments: seq<string>, wrapWidth: int, padding: nat, hanging: nat, ends: seq<nat>,
                          before: seq<string>, after: seq<string>)
  {
    && Greedy(ParagraphFits(segments, wrapWidth, padding, hanging), ends, |segments|)
    && after == before + Separator(before, segments != [])
              + Lines(segments, ends, Spaces(padding), Spaces(padding) + Spaces(hanging))
  }

  /** The pieces of a line that is being filled and its length. */
  ghost predicate InLine(segments: seq<string>, padding: nat, wrapPrefix: string, number: nat, from: nat, to: nat,
                         line: seq<string>, length: nat)
  {
    && from < to <= |segments| && line != []
    && Concat(line) == (if number == 0 then Spaces(padding) else Spaces(padding) + wrapPrefix) + Stretch(segments, from, to)
    && length == LineLength(segments, padding, |wrapPrefix|, number, from, to)
  }

  /** What goes in front of the next segment. */
  function NewLinePrefix(line: seq<string>, padding: nat, wrapPrefix: string, needWrapPrefix: bool): string {
    (if line == [] then Spaces(padding) else "") + (if needWrapPrefix then wrapPrefix else "")
  }

  lemma StretchNext(segments: seq<string>, from: nat, i: nat)
    requires from <= i < |segments|
    ensures Stretch(segments, from, i + 1) == Stretch(segments, from, i) + segments[i]
  {
    assert segments[from..i + 1][..i - from] == segments[from..i];
  }

  /** The line after one more segment. */
  lemma Extended(segments: seq<string>, padding: nat, wrapPrefix: string, number: nat, from: nat, i: nat,
                 line: seq<string>, length: nat, line': seq<string>, length': nat)
    requires i < |segments| && line' != [] && InLine(segments, padding, wrapPrefix, number, from, i, line, length)
    requires Concat(line') == Concat(line) + segments[i] && length' == length + |segments[i]|
    ensures InLine(segments, padding, wrapPrefix, number, from, i + 1, line', length')
  {
    StretchNext(segments, from, i);
    var before := if number == 0 then Spaces(padding) else Spaces(padding) + wrapPrefix;
    Associative(before, Stretch(segments, from, i), segments[i]);
  }

  lemma Associative(a: string, b: string, c: string)
    ensures (a + b) + c == a + (b + c)
  {
  }

  /** A line with its first segment. */
  lemma Begun(segments: seq<string>, padding: nat, wrapPrefix: string, number: nat, i: nat, line': seq<string>, length': nat)
    requires i < |segments| && line' != []
    requires var before := Spaces(padding) + if number > 0 then wrapPrefix else "";
             Concat(line') == before + segments[i] && length' == |before| + |segments[i]|
    ensures InLine(segments, padding, wrapPrefix, number, i, i + 1, line', length')
  {
    StretchNext(segments, i, i);
    assert Stretch(segments, i, i) == "" && Stretch(segments, i, i + 1) == segments[i];
    assert number == 0 ==> Spaces(padding) + "" == Spaces(padding);
  }

  /** The lines written so far: text before, a blank line if needed, and the lines that have ended. */
  ghost predicate Written(before: seq<string>, now: seq<string>, segments: seq<string>, ends: seq<nat>, padding: nat, wrapPrefix: string) {
    now == before + Separator(before, ends != []) + Lines(segments, ends, Spaces(padding), Spaces(padding) + wrapPrefix)
  }

  lemma WrittenNext(before: seq<string>, now: seq<string>, next: seq<string>, segments: seq<string>, ends: seq<nat>,
                    padding: nat, wrapPrefix: string, from: nat, to: nat, line: seq<string>, length: nat)
    requires Written(before, now, segments, ends, padding, wrapPrefix)
    requires from == Start(ends, |ends|) && InLine(segments, padding, wrapPrefix, |ends|, from, to, line, length)
    requires next == now + (if ends == [] && now != [] then [""] else []) + [Concat(line)]
    ensures Written(before, next, segments, ends + [to], padding, wrapPrefix)
  {
    assert (ends + [to])[..|ends|] == ends;
  }

  /** What `wrapParagraph` is called for; `before` are the lines that are there already. */
  datatype Job = Job(segments: seq<string>, wrapWidth: int, padding: nat, wrapPrefix: string, before: seq<string>) {
    function Fits(): Fits {
      ParagraphFits(segments, wrapWidth, padding, |wrapPrefix|)
    }
  }

  /** The lines that have ended, and the line that starts at segment `from` and is being filled. */
  datatype State = State(lines: seq<string>, ends: seq<nat>, from: nat, line: seq<string>, length: nat)

  datatype Part = Split | Text | Open

  /** What holds in front of segment `i` of the lines that have ended, their text and the open line. */
  ghost predicate FillingPart(part: Part, job: Job, s: State, i: nat) {
    match part
    case Split => Filled(job.Fits(), s.ends, s.from)
    case Text => Written(job.before, s.lines, job.segments, s.ends, job.padding, job.wrapPrefix)
    case Open =>
      if s.from == i then s.line == [] && s.length == 0 && (i > 0 <==> s.ends != [])
      else
        && InLine(job.segments, job.padding, job.wrapPrefix, |s.ends|, s.from, i, s.line, s.length)
        && (i == s.from + 1 || job.Fits().Holds(|s.ends|, s.from, i))
  }

  ghost predicate Filling(job: Job, s: State, i: nat) {
    forall part :: FillingPart(part, job, s, i)
  }

  lemma NothingFilled(job: Job)
    ensures Filling(job, State(job.before, [], 0, [], 0), 0)
  {
  }

  /** The text after ending the open line. */
  ghost predicate Ended(s: State, lines: seq<string>) {
    lines == s.lines + (if s.ends == [] && s.lines != [] then [""] else []) + [Concat(s.line)]
  }

  lemma SplitEnds(job: Job, s: State, i: nat)
    requires FillingPart(Split, job, s, i) && FillingPart(Open, job, s, i) && s.from != i
    requires i < |job.segments| && s.length + |job.segments[i]| > job.wrapWidth
    ensures Filled(job.Fits(), s.ends + [i], i)
  {
    StretchNext(job.segments, s.from, i);
    EndLine(job.Fits(), s.ends, s.from, i);
  }

  lemma TextEnds(job: Job, s: State, i: nat, lines: seq<string>)
    requires FillingPart(Split, job, s, i) && FillingPart(Text, job, s, i) && FillingPart(Open, job, s, i)
    requires s.from != i && Ended(s, lines)
    ensures Written(job.before, lines, job.segments, s.ends + [i], job.padding, job.wrapPrefix)
  {
    WrittenNext(job.before, s.lines, lines, job.segments, s.ends, job.padding, job.wrapPrefix, s.from, i, s.line, s.length);
  }

  /** Ending a line that has no room for the next segment. */
  lemma LineEnds(job: Job, s: State, i: nat, lines: seq<string>)
    requires Filling(job, s, i) && Ended(s, lines)
    requires i < |job.segments| && s.length != 0 && s.length + |job.segments[i]| > job.wrapWidth
    ensures Filling(job, State(lines, s.ends + [i], i, [], 0), i)
  {
    assert FillingPart(Split, job, s, i) && FillingPart(Text, job, s, i) && FillingPart(Open, job, s, i);
    SplitEnds(job, s, i);
    TextEnds(job, s, i, lines);
  }

  /** `line` is the open line with segment `i` added. */
  ghost predicate Grown(job: Job, s: State, i: nat, line: seq<string>, length: nat)
    requires i < |job.segments|
  {
    var prefix := NewLinePrefix(s.line, job.padding, job.wrapPrefix, s.from == i && s.ends != []);
    && line != []
    && Concat(line) == Concat(s.line) + prefix + job.segments[i]
    && length == s.length + |prefix| + |job.segments[i]|
  }

  lemma NewLineGrows(job: Job, s: State, i: nat, line: seq<string>, length: nat)
    requires FillingPart(Open, job, s, i) && i < |job.segments| && s.from == i && Grown(job, s, i, line, length)
    ensures FillingPart(Open, job, s.(line := line, length := length), i + 1)
  {
    var prefix := NewLinePrefix(s.line, job.padding, job.wrapPrefix, s.ends != []);
    assert Concat(s.line) + prefix == prefix;
    Begun(job.segments, job.padding, job.wrapPrefix, |s.ends|, i, line, length);
  }

  lemma OpenLineGrows(job: Job, s: State, i: nat, line: seq<string>, length: nat)
    requires FillingPart(Open, job, s, i) && i < |job.segments| && s.from != i && Grown(job, s, i, line, length)
    requires (i > 0 ==> job.segments[i - 1] != "") && (s.length == 0 || s.length + |job.segments[i]| <= job.wrapWidth)
    ensures FillingPart(Open, job, s.(line := line, length := length), i + 1)
  {
    assert NewLinePrefix(s.line, job.padding, job.wrapPrefix, false) == "" && Concat(s.line) + "" == Concat(s.line);
    Extended(job.segments, job.padding, job.wrapPrefix, |s.ends|, s.from, i, s.line, s.length, line, length);
    StretchNext(job.segments, s.from, i - 1);
    assert s.length > 0;
  }

  /** Adding a segment to a line that is new or has room for it. */
  lemma LineGrows(job: Job, s: State, i: nat, line: seq<string>, length: nat)
    requires Filling(job, s, i) && i < |job.segments| && forall k :: 0 <= k < |job.segments| ==> job.segments[k] != ""
    requires (s.length == 0 || s.length + |job.segments[i]| <= job.wrapWidth) && Grown(job, s, i, line, length)
    ensures Filling(job, s.(line := line, length := length), i + 1)
  {
    var t := s.(line := line, length := length);
    assert FillingPart(Split, job, s, i) && FillingPart(Text, job, s, i) && FillingPart(Open, job, s, i);
    if s.from == i {
      NewLineGrows(job, s, i, line, length);
    } else {
      OpenLineGrows(job, s, i, line, length);
    }
    assert FillingPart(Split, job, t, i + 1) && FillingPart(Text, job, t, i + 1);
  }

  /** Ending the last line. */
  lemma LastLineEnds(job: Job, s: State, lines: seq<string>)
    requires Filling(job, s, |job.segments|) && Ended(s, lines) && s.line != []
    ensures Greedy(job.Fits(), s.ends + [|job.segments|], |job.segments|)
    ensures Written(job.before, lines, job.segments, s.ends + [|job.segments|], job.padding, job.wrapPrefix)
  {
    var n := |job.segments|;
    assert FillingPart(Split, job, s, n) && FillingPart(Text, job, s, n) && FillingPart(Open, job, s, n);
    EndLine(job.Fits(), s.ends, s.from, n);
    TextEnds(job, s, n, lines);
  }

  class Formatter {
    var lines: seq<string>

    constructor ()
      ensures lines == []
    {
      lines := [];
    }

    /** Wraps one paragraph, given as its non-empty segments with their trailing white space. */
    method WrapParagraph(segments: seq<string>, wrapWidth: int, padding: nat, prefixWidth: nat)
      returns (ghost ends: seq<nat>)
      requires forall i :: 0 <= i < |segments| ==> segments[i] != ""
      modifies this
      ensures Wrapped(segments, wrapWidth, padding, Hanging(prefixWidth), ends, old(lines), lines)
    {
      ends := [];
      if segments == [] {
        return;
      }
      var wrapPrefix := if prefixWidth > 0 then Spaces(prefixWidth + 1) else "";
      assert wrapPrefix == Spaces(Hanging(prefixWidth));
      ghost var job := Job(segments, wrapWidth, padding, wrapPrefix, lines);
      ghost var s := State(lines, [], 0, [], 0);
      NothingFilled(job);
      var line: seq<string>, length: nat := [], 0;
      var pushedOne, needWrapPrefix := false, false;
      for i := 0 to |segments|
        invariant Filling(job, s, i) && s.lines == lines && s.line == line && s.length == length
        invariant pushedOne == (s.ends != []) && !needWrapPrefix && (line == [] <==> i == 0)
        invariant if i == 0 then s.from == 0 && s.ends == [] && length == 0 else s.from < i
      {
        if length != 0 && length + |segments[i]| > wrapWidth {
          AddLine(Concat(line), pushedOne);
          LineEnds(job, s, i, lines);
          s := State(lines, s.ends + [i], i, [], 0);
          pushedOne := true;
          line, length := [], 0;
          needWrapPrefix := true;
        }
        line, length := AddSegment(line, length, padding, wrapPrefix, needWrapPrefix, segments[i]);
        LineGrows(job, s, i, line, length);
        s := s.(line := line, length := length);
        needWrapPrefix := false;
      }
      if line != [] {
        AddLine(Concat(line), pushedOne);
        LastLineEnds(job, s, lines);
        ends := s.ends + [|segments|];
      }
    }

    /** Adds a segment, behind the padding and the wrap prefix if the line is new. */
    method AddSegment(line: seq<string>, length: nat, padding: nat, wrapPrefix: string, needWrapPrefix: bool, s: string)
      returns (line': seq<string>, length': nat)
      requires line == [] ==> length == 0
      ensures line' != [] && Concat(line') == Concat(line) + NewLinePrefix(line, padding, wrapPrefix, needWrapPrefix) + s
      ensures length' == length + |NewLinePrefix(line, padding, wrapPrefix, needWrapPrefix)| + |s|
    {
      line', length' := line, length;
      if line' == [] && padding != 0 {
        line' := line' + [Spaces(padding)];
        length' := length' + padding;
      }
      assert Concat(line') == Concat(line) + if line == [] then Spaces(padding) else "";
      if needWrapPrefix {
        ConcatAppend(line', [wrapPrefix]);
        line' := line' + [wrapPrefix];
        length' := length' + |wrapPrefix|;
      }
      ConcatAppend(line', [s]);
      line' := line' + [s];
      length' := length' + |s|;
    }

    method AddLine(line: string, pushedOne: bool)
      modifies this
      ensures lines == old(lines) + (if !pushedOne && old(lines) != [] then [""] else []) + [line]
    {
      if !pushedOne {
        if lines != [] {
          lines := lines + [""];
        }
      }
      lines := lines + [line];
    }
  }

  /**
   * Every order-preserving split of the paragraph whose lines are one segment or within the limit
   * has at least as many lines; and no segment is lost, added or moved.
   */
  lemma WrappingIsOptimal(segments: seq<string>, wrapWidth: int, padding: nat, hanging: nat, ends: seq<nat>,
                          before: seq<string>, after: seq<string>, other: seq<nat>)
    requires Wrapped(segments, wrapWidth, padding, hanging, ends, before, after)
    requires Allowed(ParagraphFits(segments, wrapWidth, padding, hanging), other, |segments|)
    ensures |ends| <= |other|
    ensures |after| == |before| + |Separator(before, segments != [])| + |ends|
    ensures Concat(Lines(segments, ends, "", "")) == Concat(segments)
  {
    ParagraphShrinks(segments, wrapWidth, padding, hanging);
    GreedyIsOptimal(ParagraphFits(segments, wrapWidth, padding, hanging), ends, other, |segments|);
    NothingLost(segments, ends, |segments|);
    assert segments[..|segments|] == segments;
  }

  // ---- Rows of properties ---------------------------------------------------------------

  type NonEmpty = s: string | s != "" witness "x"

  const ROW_LIMIT := 100

  function Join(parts: seq<NonEmpty>): string {
    if parts == [] then ""
    else if |parts| == 1 then parts[0]
    else Join(parts[..|parts| - 1]) + ", " + parts[|parts| - 1]
  }

  /** The joined properties of each row. */
  function Rows(properties: seq<NonEmpty>, ends: seq<nat>): (r: seq<string>)
    ensures |r| == |ends|
  {
    if ends == [] then []
    else
      var j := |ends| - 1;
      var from, to := Start(ends, j), ends[j];
      Rows(properties, ends[..j]) + [if from <= to <= |properties| then Join(properties[from..to]) else ""]
  }

  lemma RowsNext(properties: seq<NonEmpty>, ends: seq<nat>, from: nat, to: nat)
    requires from == Start(ends, |ends|) && from <= to <= |properties|
    ensures Rows(properties, ends + [to]) == Rows(properties, ends) + [Join(properties[from..to])]
  {
    assert (ends + [to])[..|ends|] == ends;
  }

  lemma {:induction false} JoinDropsEnd(parts: seq<NonEmpty>, n: nat)
    requires n <= |parts|
    ensures |Join(parts[..n])| <= |Join(parts)|
  {
    if n < |parts| {
      var front := parts[..|parts| - 1];
      JoinDropsEnd(front, n);
      assert front[..n] == parts[..n];
    } else {
      assert parts[..n] == parts;
    }
  }

  lemma {:induction false} JoinDropsStart(parts: seq<NonEmpty>, n: nat)
    requires n <= |parts|
    ensures |Join(parts[n..])| <= |Join(parts)|
  {
    if n == |parts| {
    } else {
      var front := parts[..|parts| - 1];
      JoinDropsStart(front, n);
      assert parts[n..][..|parts| - n - 1] == front[n..];
    }
  }

  lemma RowShrinks(properties: seq<NonEmpty>)
    ensures Shrinks(RowFits(properties))
  {
    var fits := RowFits(properties);
    forall j: nat, a: nat, b: nat, c: nat, d: nat | a <= b < c <= d && fits.Holds(j, a, d) ensures fits.Holds(j, b, c) {
      JoinDropsEnd(properties[a..d], c - a);
      assert properties[a..d][..c - a] == properties[a..c];
      JoinDropsStart(properties[a..c], b - a);
      assert properties[a..c][b - a..] == properties[b..c];
    }
  }

  lemma JoinNext(properties: seq<NonEmpty>, from: nat, i: nat)
    requires from <= i < |properties|
    ensures |Join(properties[from..i + 1])|
         == |Join(properties[from..i])| + (if from == i then 0 else 2) + |properties[i]|
    ensures from < i ==> Join(properties[from..i]) != ""
  {
    assert properties[from..i + 1][..i - from] == properties[from..i];
  }

  /** The state of the packing in front of property `i`: the rows that have ended, and the row that is being filled. */
  ghost predicate Packing(properties: seq<NonEmpty>, rows: seq<string>, ends: seq<nat>, from: nat, i: nat,
                          row: seq<NonEmpty>, length: nat)
  {
    from <= i <= |properties| && forall part :: PackingPart(part, properties, rows, ends, from, i, row, length)
  }

  /** The split and the text of the rows that have ended, and the open row. */
  ghost predicate PackingPart(part: Part, properties: seq<NonEmpty>, rows: seq<string>, ends: seq<nat>, from: nat, i: nat,
                              row: seq<NonEmpty>, length: nat)
    requires from <= i <= |properties|
  {
    match part
    case Split => Filled(RowFits(properties), ends, from)
    case Text => rows == Rows(properties, ends)
    case Open =>
      && row == properties[from..i] && length == |Join(row)|
      && (i > 0 ==> from < i && (i == from + 1 || RowFits(properties).Holds(|ends|, from, i)))
  }

  lemma NothingPacked(properties: seq<NonEmpty>)
    ensures Packing(properties, [], [], 0, 0, [], 0)
  {
  }

  lemma RowSplitEnds(properties: seq<NonEmpty>, ends: seq<nat>, from: nat, i: nat)
    requires from < i < |properties| && Filled(RowFits(properties), ends, from)
    requires i == from + 1 || RowFits(properties).Holds(|ends|, from, i)
    requires |Join(properties[from..i])| + |properties[i]| + 2 >= ROW_LIMIT
    ensures Filled(RowFits(properties), ends + [i], i)
  {
    JoinNext(properties, from, i);
    EndLine(RowFits(properties), ends, from, i);
  }

  /** A property that makes the row reach the limit starts a new one. */
  lemma RowEnds(properties: seq<NonEmpty>, rows: seq<string>, ends: seq<nat>, from: nat, i: nat, row: seq<NonEmpty>, length: nat)
    requires Packing(properties, rows, ends, from, i, row, length) && i < |properties| && row != []
    requires length + |properties[i]| + 2 >= ROW_LIMIT
    ensures Packing(properties, rows + [Join(row)], ends + [i], i, i + 1, [properties[i]], |properties[i]|)
  {
    assert PackingPart(Split, properties, rows, ends, from, i, row, length);
    assert PackingPart(Text, properties, rows, ends, from, i, row, length);
    assert PackingPart(Open, properties, rows, ends, from, i, row, length);
    RowSplitEnds(properties, ends, from, i);
    RowsNext(properties, ends, from, i);
    RowBegins(properties, rows + [Join(row)], ends + [i], i);
  }

  lemma RowBegins(properties: seq<NonEmpty>, rows: seq<string>, ends: seq<nat>, i: nat)
    requires i < |properties|
    ensures PackingPart(Open, properties, rows, ends, i, i + 1, [properties[i]], |properties[i]|)
  {
    assert properties[i..i + 1] == [properties[i]];
  }

  /** Any other property is added to the row. */
  lemma RowGrows(properties: seq<NonEmpty>, rows: seq<string>, ends: seq<nat>, from: nat, i: nat, row: seq<NonEmpty>, length: nat,
                 length': nat)
    requires Packing(properties, rows, ends, from, i, row, length) && i < |properties|
    requires length' == length + |properties[i]| + (if length != 0 then 2 else 0) && (row == [] || length' < ROW_LIMIT)
    ensures Packing(properties, rows, ends, from, i + 1, row + [properties[i]], length')
  {
    var n, more := i + 1, row + [properties[i]];
    assert PackingPart(Open, properties, rows, ends, from, i, row, length);
    OpenRowGrows(properties, ends, from, i, row, more, length');
    forall part ensures PackingPart(part, properties, rows, ends, from, n, more, length') {
      assert PackingPart(part, properties, rows, ends, from, i, row, length);
    }
  }

  lemma OpenRowGrows(properties: seq<NonEmpty>, ends: seq<nat>, from: nat, i: nat, row: seq<NonEmpty>, more: seq<NonEmpty>, length': nat)
    requires from <= i < |properties| && row == properties[from..i] && more == row + [properties[i]]
    requires length' == |Join(row)| + |properties[i]| + (if |Join(row)| != 0 then 2 else 0) && (row == [] || length' < ROW_LIMIT)
    ensures more == properties[from..i + 1] && length' == |Join(more)|
    ensures i == from || RowFits(properties).Holds(|ends|, from, i + 1)
  {
    JoinNext(properties, from, i);
    assert more == properties[from..i + 1];
  }

  lemma LastRowEnds(properties: seq<NonEmpty>, rows: seq<string>, ends: seq<nat>, from: nat, row: seq<NonEmpty>, length: nat)
    requires Packing(properties, rows, ends, from, |properties|, row, length) && row != []
    ensures Greedy(RowFits(properties), ends + [|properties|], |properties|)
    ensures rows + [Join(row)] == Rows(properties, ends + [|properties|])
  {
    var n := |properties|;
    assert PackingPart(Split, properties, rows, ends, from, n, row, length);
    assert PackingPart(Text, properties, rows, ends, from, n, row, length);
    assert PackingPart(Open, properties, rows, ends, from, n, row, length);
    EndLine(RowFits(properties), ends, from, n);
    RowsNext(properties, ends, from, n);
  }

  lemma NoRows(properties: seq<NonEmpty>)
    requires properties == []
    ensures Greedy(RowFits(properties), [], 0) && Rows(properties, []) == []
  {
  }

  /** Packs properties into rows.  `ends` tells where the rows end. */
  method PackRows(properties: seq<NonEmpty>) returns (rows: seq<string>, ghost ends: seq<nat>)
    ensures Greedy(RowFits(properties), ends, |properties|)
    ensures rows == Rows(properties, ends)
    ensures forall other :: Allowed(RowFits(properties), other, |properties|) ==> |rows| <= |other|
  {
    rows, ends := [], [];
    ghost var from: nat := 0;
    var row: seq<NonEmpty>, length: nat := [], 0;
    NothingPacked(properties);
    for i := 0 to |properties|
      invariant Packing(properties, rows, ends, from, i, row, length)
      invariant (row == [] <==> i == 0) && (length == 0 <==> i == 0) && (i == 0 ==> rows == [] && ends == [])
    {
      var property := properties[i];
      ghost var length0 := length;
      length := length + |property| + if length != 0 then 2 else 0;
      if row != [] && length >= ROW_LIMIT {
        RowEnds(properties, rows, ends, from, i, row, length0);
        rows := rows + [Join(row)];
        ends, from := ends + [i], i;
        row := [property];
        length := |property|;
      } else {
        RowGrows(properties, rows, ends, from, i, row, length0, length);
        row := row + [property];
      }
    }
    if row != [] {
      LastRowEnds(properties, rows, ends, from, row, length);
      rows := rows + [Join(row)];
      ends := ends + [|properties|];
    } else {
      NoRows(properties);
    }
    PackingIsMinimal(properties, ends);
  }

  lemma PackingIsMinimal(properties: seq<NonEmpty>, ends: seq<nat>)
    requires Greedy(RowFits(properties), ends, |properties|)
    ensures forall other :: Allowed(RowFits(properties), other, |properties|) ==> |Rows(properties, ends)| <= |other|
  {
    forall other | Allowed(RowFits(properties), other, |properties|) ensures |Rows(properties, ends)| <= |other| {
      PackingIsOptimal(properties, ends, other);
    }
  }

  /** Every order-preserving split into rows that are one property or below the limit has at least as many rows. */
  lemma PackingIsOptimal(properties: seq<NonEmpty>, ends: seq<nat>, other: seq<nat>)
    requires Greedy(RowFits(properties), ends, |properties|) && Allowed(RowFits(properties), other, |properties|)
    ensures |Rows(properties, ends)| <= |other|
  {
    RowShrinks(properties);
    GreedyIsOptimal(RowFits(properties), ends, other, |properties|);
  }

  // ---- Joined text ----------------------------------------------------------------------

  /** Where a part starts in the joined text: behind the earlier parts and a comma and a space after each of them. */
  function Offset(parts: seq<NonEmpty>, i: nat): nat
    requires i <= |parts|
  {
    if i == 0 then 0 else Offset(parts, i - 1) + |parts[i - 1]| + 2
  }

  lemma {:induction false} OffsetFront(parts: seq<NonEmpty>, n: nat, i: nat)
    requires i <= n <= |parts|
    ensures Offset(parts[..n], i) == Offset(parts, i)
  {
    if i == 0 {
    } else {
      OffsetFront(parts, n, i - 1);
    }
  }

  /** The joined text ends where its last part does. */
  lemma {:induction false} JoinLengthIs(parts: seq<NonEmpty>)
    ensures |Join(parts)| == if parts == [] then 0 else Offset(parts, |parts|) - 2
  {
    if |parts| <= 1 {
    } else {
      var n := |parts| - 1;
      JoinLengthIs(parts[..n]);
      OffsetFront(parts, n, n);
    }
  }

  lemma {:induction false} OffsetRises(parts: seq<NonEmpty>, i: nat, j: nat)
    requires i < j <= |parts|
    ensures Offset(parts, i) + |parts[i]| + 2 <= Offset(parts, j)
  {
    if j == i + 1 {
    } else {
      OffsetRises(parts, i, j - 1);
    }
  }

  /** The parts stand in the joined text in order, with ", " between them and nothing else. */
  lemma {:induction false} JoinedAt(parts: seq<NonEmpty>, i: nat)
    requires i < |parts|
    ensures var at := Offset(parts, i);
            && at + |parts[i]| <= |Join(parts)| && Join(parts)[at..at + |parts[i]|] == parts[i]
            && (if i == |parts| - 1 then at + |parts[i]| == |Join(parts)|
                else at + |parts[i]| + 2 <= |Join(parts)| && Join(parts)[at + |parts[i]|..at + |parts[i]| + 2] == ", ")
  {
    JoinLengthIs(parts);
    var n := |parts| - 1;
    var at := Offset(parts, i);
    OffsetRises(parts, i, |parts|);
    if n == 0 {
    } else {
      var front := parts[..n];
      JoinLengthIs(front);
      OffsetFront(parts, n, n);
      OffsetFront(parts, n, i);
      var text := Join(front);
      assert Join(parts) == text + ", " + parts[n];
      if i < n {
        JoinedAt(front, i);
        assert Join(parts)[at..at + |parts[i]|] == text[at..at + |parts[i]|];
      }
    }
  }

  // ---- The limits -----------------------------------------------------------------------

  /** Each row is made of the properties between two ends. */
  lemma {:induction false} RowIs(properties: seq<NonEmpty>, ends: seq<nat>, j: nat)
    requires IsSplit(ends, |properties|) && j < |ends|
    ensures var from := if j == 0 then 0 else ends[j - 1];
            from < ends[j] <= |properties| && Rows(properties, ends)[j] == Join(properties[from..ends[j]])
  {
    assert NonEmptyLine(ends, j, |properties|);
    RowAt(properties, ends, j, Start(ends, j), ends[j]);
  }

  lemma {:induction false} RowAt(properties: seq<NonEmpty>, ends: seq<nat>, j: nat, from: nat, to: nat)
    requires j < |ends| && from == Start(ends, j) && to == ends[j] && from <= to <= |properties|
    ensures Rows(properties, ends)[j] == Join(properties[from..to])
  {
    RowsFront(properties, ends, j + 1);
    LastRow(properties, ends[..j + 1], from, to);
  }

  lemma {:induction false} LastRow(properties: seq<NonEmpty>, ends: seq<nat>, from: nat, to: nat)
    requires ends != [] && Start(ends, |ends| - 1) == from && ends[|ends| - 1] == to && from <= to <= |properties|
    ensures Rows(properties, ends)[|ends| - 1] == Join(properties[from..to])
  {
  }

  lemma {:induction false} RowsFront(properties: seq<NonEmpty>, ends: seq<nat>, n: nat)
    requires n <= |ends|
    ensures Rows(properties, ends[..n]) == Rows(properties, ends)[..n]
  {
    if n == |ends| {
      assert ends[..n] == ends;
    } else {
      var front := ends[..|ends| - 1];
      RowsFront(properties, front, n);
      assert front[..n] == ends[..n];
    }
  }

  /** A row is shorter than 100 characters or holds one property, and has no room for the next one. */
  lemma RowWithinLimit(properties: seq<NonEmpty>, ends: seq<nat>, j: nat)
    requires Greedy(RowFits(properties), ends, |properties|) && j < |ends|
    ensures var from, to := Start(ends, j), ends[j];
            && from < to <= |properties|
            && (to == from + 1 || |Join(properties[from..to])| < 100)
            && (j < |ends| - 1 ==> to < |properties| && |Join(properties[from..to + 1])| >= 100)
  {
    assert NonEmptyLine(ends, j, |properties|) && LineAllowed(RowFits(properties), ends, j);
    if j < |ends| - 1 {
      assert NonEmptyLine(ends, j + 1, |properties|) && LineFull(RowFits(properties), ends, j);
    }
  }
}
