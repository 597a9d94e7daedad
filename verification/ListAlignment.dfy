/**
 * Alignment of list items: `wrapParagraph` of codegen/src/util/string.ts on the levels that
 * `detectStructure` finds.
 */
module ListAlignment {
  import opened LineFilling
  import TextStructure

  // ---- Alignment of list items ------------------------------------------------------------

  /** The text of a line: what follows the list prefix on the first line, all segments on the others. */
  function TextOf(segments: seq<string>, ends: seq<nat>, j: nat): string
    requires j < |ends|
  {
    var from := if j == 0 then 1 else Start(ends, j);
    if from <= ends[j] <= |segments| then Stretch(segments, from, ends[j]) else ""
  }

  /** The text makes up the line from a column on. */
  predicate StartsAt(line: string, text: string, column: nat) {
    column <= |line| && line[column..] == text
  }

  /** Line `j` of the paragraph that was appended to `before`. */
  function LineOf(after: seq<string>, ends: seq<nat>, j: nat): string
    requires j < |ends| <= |after|
  {
    after[|after| - |ends| + j]
  }

  /** Later lines do not change an earlier one. */
  lemma {:induction false} LinesTake(segments: seq<string>, ends: seq<nat>, n: nat, first: string, rest: string, j: nat)
    requires j < n <= |ends|
    ensures Lines(segments, ends[..n], first, rest)[j] == Lines(segments, ends[..j + 1], first, rest)[j]
  {
    if n == j + 1 {
    } else {
      LinesTake(segments, ends, n - 1, first, rest, j);
      LinesFront(segments, ends[..n], ends[..n - 1], first, rest, j);
    }
  }

  lemma {:induction false} LinesFront(segments: seq<string>, ends: seq<nat>, front: seq<nat>, first: string, rest: string, j: nat)
    requires ends != [] && front == ends[..|ends| - 1] && j < |front|
    ensures Lines(segments, ends, first, rest)[j] == Lines(segments, front, first, rest)[j]
  {
  }

  lemma {:induction false} LinesLast(segments: seq<string>, ends: seq<nat>, first: string, rest: string)
    requires ends != [] && Start(ends, |ends| - 1) <= ends[|ends| - 1] <= |segments|
    ensures var j := |ends| - 1;
            Lines(segments, ends, first, rest)[j] == (if j == 0 then first else rest) + Stretch(segments, Start(ends, j), ends[j])
  {
  }

  lemma {:induction false} LinesAt(segments: seq<string>, ends: seq<nat>, first: string, rest: string, j: nat)
    requires j < |ends| && Start(ends, j) <= ends[j] <= |segments|
    ensures Lines(segments, ends, first, rest)[j] == (if j == 0 then first else rest) + Stretch(segments, Start(ends, j), ends[j])
  {
    var front := ends[..j + 1];
    assert ends[..|ends|] == ends && front[j] == ends[j] && Start(front, j) == Start(ends, j);
    LinesTake(segments, ends, |ends|, first, rest, j);
    LinesLast(segments, front, first, rest);
  }

  /** The lines of a wrapped paragraph. */
  lemma WrappedLine(segments: seq<string>, wrapWidth: int, padding: nat, hanging: nat, ends: seq<nat>,
                    before: seq<string>, after: seq<string>, j: nat)
    requires Wrapped(segments, wrapWidth, padding, hanging, ends, before, after) && j < |ends|
    ensures Start(ends, j) < ends[j] <= |segments| && |ends| <= |after|
    ensures LineOf(after, ends, j)
         == Spaces(padding) + (if j == 0 then "" else Spaces(hanging)) + Stretch(segments, Start(ends, j), ends[j])
  {
    assert NonEmptyLine(ends, j, |segments|);
    LinesAt(segments, ends, Spaces(padding), Spaces(padding) + Spaces(hanging), j);
    Behind(before + Separator(before, segments != []), Lines(segments, ends, Spaces(padding), Spaces(padding) + Spaces(hanging)), after, j);
    assert Spaces(padding) + "" == Spaces(padding);
  }

  lemma Behind(front: seq<string>, lines: seq<string>, after: seq<string>, j: nat)
    requires after == front + lines && j < |lines|
    ensures |lines| <= |after| && after[|after| - |lines| + j] == lines[j]
  {
  }

  /**
   * Every line is its segments behind the padding, and in a list every line but the first behind as
   * many more spaces as the widest prefix has, and one.
   */
  lemma LineIs(segments: seq<string>, wrapWidth: int, padding: nat, prefixWidth: nat, ends: seq<nat>,
               before: seq<string>, after: seq<string>, j: nat)
    requires Wrapped(segments, wrapWidth, padding, Hanging(prefixWidth), ends, before, after) && j < |ends|
    ensures Start(ends, j) < ends[j] <= |segments| && |ends| <= |after|
    ensures var line := LineOf(after, ends, j);
            var indent := padding + if j > 0 && prefixWidth > 0 then prefixWidth + 1 else 0;
            && indent <= |line| && (forall c :: 0 <= c < indent ==> line[c] == ' ')
            && line[indent..] == Stretch(segments, Start(ends, j), ends[j])
  {
    WrappedLine(segments, wrapWidth, padding, Hanging(prefixWidth), ends, before, after, j);
  }

  /**
   * A line of the output is no longer than the limit or holds one segment, and is longer than the
   * limit with the first segment of the next line.
   */
  lemma LineWithinLimit(segments: seq<string>, wrapWidth: int, padding: nat, hanging: nat, ends: seq<nat>,
                        before: seq<string>, after: seq<string>, j: nat)
    requires Wrapped(segments, wrapWidth, padding, hanging, ends, before, after) && j < |ends|
    ensures |ends| <= |after| && Start(ends, j) < ends[j] <= |segments|
    ensures ends[j] == Start(ends, j) + 1 || |LineOf(after, ends, j)| <= wrapWidth
    ensures j < |ends| - 1 ==> ends[j] < |segments| && |LineOf(after, ends, j) + segments[ends[j]]| > wrapWidth
  {
    var fits := ParagraphFits(segments, wrapWidth, padding, hanging);
    WrappedLine(segments, wrapWidth, padding, hanging, ends, before, after, j);
    assert LineAllowed(fits, ends, j);
    if j < |ends| - 1 {
      assert NonEmptyLine(ends, j + 1, |segments|) && LineFull(fits, ends, j);
      StretchNext(segments, Start(ends, j), ends[j]);
    }
  }

  /** What was there stays in front; a blank line follows it if there was any text and there are segments. */
  lemma BlankLineIff(segments: seq<string>, wrapWidth: int, padding: nat, hanging: nat, ends: seq<nat>,
                     before: seq<string>, after: seq<string>)
    requires Wrapped(segments, wrapWidth, padding, hanging, ends, before, after)
    ensures before <= after
    ensures |after| == |before| + |ends| + if before != [] && segments != [] then 1 else 0
    ensures before != [] && segments != [] ==> after[|before|] == ""
  {
    var lines := Lines(segments, ends, Spaces(padding), Spaces(padding) + Spaces(hanging));
    assert after == before + (Separator(before, segments != []) + lines);
  }

  lemma StretchFirst(segments: seq<string>, to: nat)
    requires 0 < to <= |segments|
    ensures Stretch(segments, 0, to) == segments[0] + Stretch(segments, 1, to)
  {
    assert segments[0..to] == [segments[0]] + segments[1..to];
    ConcatAppend([segments[0]], segments[1..to]);
    assert Concat([segments[0]]) == segments[0] by {
      assert [segments[0]][..0] == [];
    }
  }

  /** The first line has its text behind the list prefix as it is, the others have it behind the hanging indent. */
  lemma TextStarts(segments: seq<string>, wrapWidth: int, padding: nat, hanging: nat, ends: seq<nat>,
                   before: seq<string>, after: seq<string>, j: nat)
    requires Wrapped(segments, wrapWidth, padding, hanging, ends, before, after) && j < |ends|
    ensures segments != [] && |ends| <= |after|
    ensures StartsAt(LineOf(after, ends, j), TextOf(segments, ends, j), padding + if j == 0 then |segments[0]| else hanging)
  {
    WrappedLine(segments, wrapWidth, padding, hanging, ends, before, after, j);
    if j == 0 {
      StretchFirst(segments, ends[0]);
    }
  }

  /** On every line the text starts in the same column as on the first one. */
  ghost predicate Aligned(segments: seq<string>, ends: seq<nat>, after: seq<string>)
    requires |ends| <= |after|
  {
    forall j :: 0 < j < |ends| ==> SameColumn(segments, ends, after, j)
  }

  ghost predicate SameColumn(segments: seq<string>, ends: seq<nat>, after: seq<string>, j: nat)
    requires j < |ends| <= |after|
  {
    exists column: nat ::
      StartsAt(LineOf(after, ends, 0), TextOf(segments, ends, 0), column) &&
      StartsAt(LineOf(after, ends, j), TextOf(segments, ends, j), column)
  }

  lemma SameColumnIff(segments: seq<string>, wrapWidth: int, padding: nat, hanging: nat, ends: seq<nat>,
                      before: seq<string>, after: seq<string>, j: nat)
    requires Wrapped(segments, wrapWidth, padding, hanging, ends, before, after) && 0 < j < |ends|
    ensures segments != [] && |ends| <= |after|
    ensures SameColumn(segments, ends, after, j) <==> |segments[0]| == hanging
  {
    TextStarts(segments, wrapWidth, padding, hanging, ends, before, after, 0);
    TextStarts(segments, wrapWidth, padding, hanging, ends, before, after, j);
    if |segments[0]| == hanging {
      assert StartsAt(LineOf(after, ends, j), TextOf(segments, ends, j), padding + |segments[0]|);
    }
  }

  /**
   * The text of a list item starts in the same column on all of its lines exactly when it has one
   * line, or its prefix with the space behind it is as wide as the indent of the other lines.
   */
  lemma AlignedIff(segments: seq<string>, wrapWidth: int, padding: nat, prefixWidth: nat, ends: seq<nat>,
                   before: seq<string>, after: seq<string>)
    requires Wrapped(segments, wrapWidth, padding, Hanging(prefixWidth), ends, before, after)
    requires prefixWidth > 0 && segments != []
    ensures |ends| <= |after|
    ensures Aligned(segments, ends, after) <==> |ends| == 1 || |segments[0]| == prefixWidth + 1
  {
    forall j | 0 < j < |ends| ensures SameColumn(segments, ends, after, j) <==> |segments[0]| == prefixWidth + 1 {
      SameColumnIff(segments, wrapWidth, padding, Hanging(prefixWidth), ends, before, after, j);
    }
    if |ends| > 1 && Aligned(segments, ends, after) {
      assert SameColumn(segments, ends, after, 1);
    }
  }

  // ---- List items and their level -----------------------------------------------------------

  /**
   * What splitting an item of a list into segments yields: its text in order, first its prefix with
   * the one space behind it.
   */
  ghost predicate SegmentsOf(text: string, segments: seq<string>) {
    && Concat(segments) == text
    && segments != [] && segments[0] == TextStructure.Prefix(text) + (if |segments| > 1 then " " else "")
  }

  /** The widest prefix of a level is that of one of its paragraphs, and no other is wider. */
  lemma {:induction false} MaxPrefixIsMax(entries: seq<TextStructure.Entry>)
    ensures forall i :: 0 <= i < |entries| ==> PrefixOf(entries[i]) <= TextStructure.MaxPrefix(entries)
    ensures TextStructure.MaxPrefix(entries) > 0 ==>
              exists i :: 0 <= i < |entries| && PrefixOf(entries[i]) == TextStructure.MaxPrefix(entries)
  {
    if entries == [] {
    } else {
      var n, widest := |entries| - 1, TextStructure.MaxPrefix(entries);
      var front := entries[..n];
      MaxPrefixIsMax(front);
      assert forall i :: 0 <= i < n ==> entries[i] == front[i];
      if widest > 0 && PrefixOf(entries[n]) != widest {
        var i :| 0 <= i < n && PrefixOf(front[i]) == widest;
        assert PrefixOf(entries[i]) == widest;
      }
    }
  }

  /** The width of the prefix of a paragraph; nested lists have none on this level. */
  function PrefixOf(e: TextStructure.Entry): nat {
    if e.Text? then |TextStructure.Prefix(e.text)| else 0
  }

  /** No paragraph of the level has a wider prefix. */
  ghost predicate Widest(entries: seq<TextStructure.Entry>, e: TextStructure.Entry) {
    forall i :: 0 <= i < |entries| ==> PrefixOf(entries[i]) <= PrefixOf(e)
  }

  lemma WidestIff(s: TextStructure.Structure, depth: nat, k: nat)
    requires TextStructure.Canonical(s, depth) && depth > 0 && k < |s.entries| && s.entries[k].Text?
    ensures Widest(s.entries, s.entries[k]) <==> PrefixOf(s.entries[k]) == s.prefixWidth
  {
    MaxPrefixIsMax(s.entries);
  }

  /**
   * Wrapped with the prefix width of its level, an item of a list that takes more than one line is
   * aligned exactly when its prefix is one of the widest of the level.
   */
  lemma ItemAlignedIff(s: TextStructure.Structure, depth: nat, k: nat, segments: seq<string>, wrapWidth: int, padding: nat,
                       ends: seq<nat>, before: seq<string>, after: seq<string>)
    requires TextStructure.Canonical(s, depth) && depth > 0 && k < |s.entries| && s.entries[k].Text?
    requires s.entries[k].text != "" && SegmentsOf(s.entries[k].text, segments)
    requires Wrapped(segments, wrapWidth, padding, Hanging(s.prefixWidth), ends, before, after)
    ensures |ends| <= |after|
    ensures Aligned(segments, ends, after) <==> |ends| == 1 || Widest(s.entries, s.entries[k])
  {
    MaxPrefixIsMax(s.entries);
    WidestIff(s, depth, k);
    AlignedIff(segments, wrapWidth, padding, s.prefixWidth, ends, before, after);
    if |ends| > 1 {
      assert NonEmptyLine(ends, 0, |segments|) && NonEmptyLine(ends, 1, |segments|);
      assert |segments| > 1;
    }
  }

  lemma PrefixIs(text: string, n: nat)
    requires 0 < n < |text| && text[n] == ' ' && forall i :: 0 <= i < n ==> text[i] != ' '
    ensures TextStructure.Prefix(text) == text[..n]
  {
    RunLengthIs(text, n);
  }

  lemma {:induction false} RunLengthIs(text: string, n: nat)
    requires n < |text| && text[n] == ' ' && forall i :: 0 <= i < n ==> text[i] != ' '
    ensures TextStructure.RunLength(text, c => c != ' ') == n
  {
    if n == 0 {
    } else {
      RunLengthIs(text[1..], n - 1);
    }
  }

  /** The level of the items "1. a b" and "10. c" has prefixes of width 2 and 3. */
  lemma TwoItems(s: TextStructure.Structure)
    requires s.entries == [TextStructure.Text("1. a b"), TextStructure.Text("10. c")] && s.prefixWidth == 3
    ensures TextStructure.Canonical(s, 1) && TextStructure.Prefix("1. a b") == "1." && !Widest(s.entries, s.entries[0])
  {
    var first, second := "1. a b", "10. c";
    PrefixIs(first, 2);
    PrefixIs(second, 3);
    assert first[..2] == "1." && second[..3] == "10.";
    var front := s.entries[..1];
    assert front == [TextStructure.Text(first)] && front[..0] == [];
    assert TextStructure.MaxPrefix(front) == 2;
    assert TextStructure.MaxPrefix(s.entries) == 3;
    assert PrefixOf(s.entries[1]) > PrefixOf(s.entries[0]);
  }

  /** The split of "1. a b" at width 5 with a hanging indent of 4. */
  lemma SplitOfItem(segments: seq<string>, ends: seq<nat>)
    requires segments == ["1. ", "a ", "b"] && Greedy(ParagraphFits(segments, 5, 0, 4), ends, 3)
    ensures ends == [2, 3] && Stretch(segments, 0, 2) == "1. a " && Stretch(segments, 2, 3) == "b"
  {
    var fits, split: seq<nat> := ParagraphFits(segments, 5, 0, 4), [2, 3];
    StretchNext(segments, 0, 0);
    StretchNext(segments, 0, 1);
    StretchNext(segments, 0, 2);
    StretchNext(segments, 2, 2);
    assert Stretch(segments, 0, 0) == "" && Stretch(segments, 2, 2) == "";
    assert Stretch(segments, 0, 2) == "1. a " && Stretch(segments, 2, 3) == "b";
    assert NonEmptyLine(split, 0, 3) && NonEmptyLine(split, 1, 3) && LineAllowed(fits, split, 0) && LineAllowed(fits, split, 1);
    assert LineFull(fits, split, 0);
    ParagraphShrinks(segments, 5, 0, 4);
    GreedyIsUnique(fits, ends, split, 3);
  }

  /** Its two lines. */
  lemma LinesOfItem(segments: seq<string>, ends: seq<nat>, after: seq<string>)
    requires segments == ["1. ", "a ", "b"] && Wrapped(segments, 5, 0, 4, ends, [], after)
    ensures ends == [2, 3] && after == ["1. a ", "    b"]
  {
    SplitOfItem(segments, ends);
    WrappedLine(segments, 5, 0, 4, ends, [], after, 0);
    WrappedLine(segments, 5, 0, 4, ends, [], after, 1);
    assert |after| == 2;
    assert Spaces(0) + "" + "1. a " == "1. a " && Spaces(0) + Spaces(4) + "b" == "    b";
  }

  lemma SegmentsOfItem(segments: seq<string>)
    requires segments == ["1. ", "a ", "b"] && TextStructure.Prefix("1. a b") == "1."
    ensures SegmentsOf("1. a b", segments)
  {
    StretchNext(segments, 0, 0);
    StretchNext(segments, 0, 1);
    StretchNext(segments, 0, 2);
    assert segments[0..3] == segments;
  }

  /**
   * Items "1. a b" and "10. c" at width 5: however the first is wrapped, it takes two lines, whose
   * text starts in columns 3 and 4.
   */
  lemma MisalignedItem(s: TextStructure.Structure, segments: seq<string>, ends: seq<nat>, after: seq<string>)
    requires s.entries == [TextStructure.Text("1. a b"), TextStructure.Text("10. c")] && s.prefixWidth == 3
    requires segments == ["1. ", "a ", "b"] && Wrapped(segments, 5, 0, Hanging(s.prefixWidth), ends, [], after)
    ensures TextStructure.Canonical(s, 1) && SegmentsOf(s.entries[0].text, segments)
    ensures after == ["1. a ", "    b"] && |ends| == |after| && !Aligned(segments, ends, after)
  {
    TwoItems(s);
    SegmentsOfItem(segments);
    LinesOfItem(segments, ends, after);
    ItemAlignedIff(s, 1, 0, segments, 5, 0, ends, [], after);
  }
}
