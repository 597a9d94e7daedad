/** The choice of a layout for comma-delimited blocks: `ExpressionBlock` of codegen/src/util/TsFile.ts. */
module ExpressionLayout {

  const WRAP_WIDTH := 120
  const INDENT: string := "    "

  datatype Layout = None | SingleLine | SingleNested | MultipleLines | Verbose

  // ---- Text -----------------------------------------------------------------------------

  predicate Contains(text: string, part: string) {
    part <= text || (text != "" && Contains(text[1..], part))
  }

  predicate EndsWith(text: string, last: char) {
    text != "" && text[|text| - 1] == last
  }

  predicate IsSpace(c: char) {
    c in " \t\r\n"
  }

  function TrimStart(text: string): string {
    if text != "" && IsSpace(text[0]) then TrimStart(text[1..]) else text
  }

  function TrimEnd(text: string): string {
    if text != "" && IsSpace(text[|text| - 1]) then TrimEnd(text[..|text| - 1]) else text
  }

  function Trim(text: string): string {
    TrimEnd(TrimStart(text))
  }

  predicate Multiline(entry: string) {
    '\n' in entry
  }

  /** The entry contains a comment or an assignment. */
  predicate Commented(entry: string) {
    Contains(entry, "/*") || Contains(entry, "//") || Contains(entry, " = ")
  }

  // ---- The choice -----------------------------------------------------------------------

  /** The length of all entries on one line, with what surrounds them. */
  function Total(adornment: nat, entries: seq<string>): nat {
    if entries == [] then adornment
    else
      Total(adornment, entries[..|entries| - 1]) + |Trim(entries[|entries| - 1])| + if |entries| == 1 then 0 else 2
  }

  function Limit(n: nat): nat {
    if n == 1 then WRAP_WIDTH + |INDENT| else WRAP_WIDTH
  }

  /** The layout of a whole list of entries. */
  ghost function Best(adornment: nat, prefix: string, entries: seq<string>): Layout {
    if entries == [] then None
    else if exists e :: e in entries && Commented(e) then Verbose
    else if exists e :: e in entries && Multiline(e) then
      if |entries| == 1 && !EndsWith(prefix, '{') then SingleNested else Verbose
    else if Total(adornment, entries) < Limit(|entries|) then SingleLine
    else MultipleLines
  }

  method ChooseExpressionLayout(adornment: nat, prefix: string, entries: seq<string>) returns (layout: Layout)
    ensures layout == Best(adornment, prefix, entries)
  {
    var lineLength := adornment;
    layout := None;
    for i := 0 to |entries|
      invariant layout == Best(adornment, prefix, entries[..i])
      invariant layout.None? || layout.SingleLine? ==> lineLength == Total(adornment, entries[..i])
    {
      var entry := entries[i];
      var multiline := Multiline(entry);
      BestNext(adornment, prefix, entries, i);
      if Commented(entry) {
        return Verbose;
      }
      match layout
      case None =>
        if multiline {
          layout := if EndsWith(prefix, '{') then Verbose else SingleNested;
        } else {
          lineLength := lineLength + |Trim(entry)|;
          layout := if lineLength >= WRAP_WIDTH + |INDENT| then MultipleLines else SingleLine;
        }
      case SingleNested =>
        return Verbose;
      case SingleLine =>
        if multiline {
          return Verbose;
        }
        lineLength := lineLength + |Trim(entry)| + 2;
        if lineLength >= WRAP_WIDTH {
          layout := MultipleLines;
        }
      case MultipleLines =>
        if multiline {
          return Verbose;
        }
      case Verbose =>
    }
    assert entries[..|entries|] == entries;
  }

  /** The layout with one more entry, and that it stays verbose once it is. */
  lemma BestNext(adornment: nat, prefix: string, entries: seq<string>, i: nat)
    requires i < |entries|
    ensures var before, after, e := Best(adornment, prefix, entries[..i]), Best(adornment, prefix, entries[..i + 1]), entries[i];
            var total := Total(adornment, entries[..i]);
            && (Commented(e) || before.Verbose? || before.SingleNested? || (!before.None? && Multiline(e)) ==>
                  after.Verbose? && Best(adornment, prefix, entries).Verbose?)
            && (before.None? && !Commented(e) ==>
                  after == if Multiline(e) then if EndsWith(prefix, '{') then Verbose else SingleNested
                           else if total + |Trim(e)| < WRAP_WIDTH + |INDENT| then SingleLine else MultipleLines)
            && (before.SingleLine? && !Commented(e) && !Multiline(e) ==>
                  after == if total + |Trim(e)| + 2 < WRAP_WIDTH then SingleLine else MultipleLines)
            && (before.MultipleLines? && !Commented(e) && !Multiline(e) ==> after.MultipleLines?)
            && Total(adornment, entries[..i + 1]) == total + |Trim(e)| + if i == 0 then 0 else 2
  {
    var front, more := entries[..i], entries[..i + 1];
    assert more == front + [entries[i]] && more[..i] == front;
    assert forall e :: e in more <==> e in front || e == entries[i];
    assert forall e :: e in more ==> e in entries;
    if i == 0 {
      assert Total(adornment, front) == adornment;
    }
  }

  // ---- Single-line rendering --------------------------------------------------------------

  function JoinTrimmed(entries: seq<string>): string {
    if entries == [] then ""
    else if |entries| == 1 then Trim(entries[0])
    else JoinTrimmed(entries[..|entries| - 1]) + ", " + Trim(entries[|entries| - 1])
  }

  predicate IsArrayOrObject(prefix: string) {
    EndsWith(prefix, '[') || EndsWith(prefix, '{')
  }

  /** The lengths around the entries, with two columns for the spaces in an object. */
  function Adornment(linePrefix: string, prefix: string, suffix: string): nat {
    |linePrefix| + |prefix| + |suffix| + if IsArrayOrObject(prefix) then 2 else 0
  }

  function SingleLineText(linePrefix: string, prefix: string, suffix: string, entries: seq<string>): string {
    var line := JoinTrimmed(entries);
    var spaced := if IsArrayOrObject(prefix) && !EndsWith(prefix, '[') && !(line != "" && line[0] == '{') then " " + line + " " else line;
    linePrefix + prefix + spaced + suffix
  }

  lemma {:induction false} JoinLength(adornment: nat, entries: seq<string>)
    requires entries != []
    ensures Total(adornment, entries) == adornment + |JoinTrimmed(entries)|
  {
    if |entries| > 1 {
      JoinLength(adornment, entries[..|entries| - 1]);
    } else {
      assert Total(adornment, entries[..0]) == adornment;
    }
  }

  lemma {:induction false} TrimStartKeeps(text: string, c: char)
    requires c !in text
    ensures c !in TrimStart(text)
  {
    if text != "" && IsSpace(text[0]) {
      TrimStartKeeps(text[1..], c);
    }
  }

  lemma {:induction false} TrimEndKeeps(text: string, c: char)
    requires c !in text
    ensures c !in TrimEnd(text)
  {
    if text != "" && IsSpace(text[|text| - 1]) {
      TrimEndKeeps(text[..|text| - 1], c);
    }
  }

  lemma {:induction false} JoinKeeps(entries: seq<string>)
    requires forall e :: e in entries ==> !Multiline(e)
    ensures !Multiline(JoinTrimmed(entries))
  {
    if entries == [] {
    } else {
      var e := entries[|entries| - 1];
      assert e in entries && !Multiline(e);
      TrimStartKeeps(e, '\n');
      TrimEndKeeps(TrimStart(e), '\n');
      if |entries| > 1 {
        JoinKeeps(entries[..|entries| - 1]);
      }
    }
  }

  /**
   * A block that is laid out on a single line takes fewer than 120 columns, or fewer than 124 with
   * one entry; it is one line, and none of its entries is commented.
   */
  lemma SingleLineFits(linePrefix: string, prefix: string, suffix: string, entries: seq<string>)
    requires !Multiline(linePrefix) && !Multiline(prefix) && !Multiline(suffix)
    requires Best(Adornment(linePrefix, prefix, suffix), prefix, entries).SingleLine?
    ensures var text := SingleLineText(linePrefix, prefix, suffix, entries);
            |text| < (if |entries| == 1 then 124 else 120) && !Multiline(text)
    ensures forall e :: e in entries ==> !Multiline(e) && !Commented(e)
  {
    JoinLength(Adornment(linePrefix, prefix, suffix), entries);
    JoinKeeps(entries);
  }

  /** And it is laid out that way exactly when its entries allow it and the counted length is below the limit. */
  lemma SingleLineIff(adornment: nat, prefix: string, entries: seq<string>)
    requires entries != []
    ensures Best(adornment, prefix, entries).SingleLine? <==>
            && (forall e :: e in entries ==> !Multiline(e) && !Commented(e))
            && adornment + |JoinTrimmed(entries)| < Limit(|entries|)
  {
    JoinLength(adornment, entries);
  }

  // ---- What the parts mean ----------------------------------------------------------------

  /** A text contains another one if it has it at some position. */
  lemma {:induction false} ContainsIff(text: string, part: string)
    ensures Contains(text, part) <==> exists i :: HasAt(text, part, i)
  {
    if part <= text {
      assert HasAt(text, part, 0);
    } else if text == "" {
    } else {
      ContainsIff(text[1..], part);
      if exists i :: HasAt(text[1..], part, i) {
        var i: nat :| HasAt(text[1..], part, i);
        assert text[1..][i..i + |part|] == text[i + 1..i + 1 + |part|];
        assert HasAt(text, part, i + 1);
      }
      if exists i :: HasAt(text, part, i) {
        var i: nat :| HasAt(text, part, i);
        assert text[1..][i - 1..i - 1 + |part|] == text[i..i + |part|];
        assert HasAt(text[1..], part, i - 1);
      }
    }
  }

  predicate HasAt(text: string, part: string, i: nat) {
    i + |part| <= |text| && text[i..i + |part|] == part
  }

  // An entry is commented if the start of a comment, or an assignment, stands somewhere in it.
  lemma CommentedIff(entry: string)
    ensures Commented(entry) <==> exists i :: HasAt(entry, "/*", i) || HasAt(entry, "//", i) || HasAt(entry, " = ", i)
  {
    ContainsIff(entry, "/*");
    ContainsIff(entry, "//");
    ContainsIff(entry, " = ");
  }

  /** The part from `i` to `j` starts and ends without white space, and there is only white space around it. */
  predicate IsTrimmed(text: string, i: nat, j: nat) {
    && i <= j <= |text|
    && (forall k :: 0 <= k < i ==> text[k] in " \t\r\n")
    && (forall k :: j <= k < |text| ==> text[k] in " \t\r\n")
    && (i < j ==> text[i] !in " \t\r\n" && text[j - 1] !in " \t\r\n")
  }

  lemma {:induction false} TrimStartAt(text: string) returns (i: nat)
    ensures i <= |text| && TrimStart(text) == text[i..]
    ensures (forall k :: 0 <= k < i ==> text[k] in " \t\r\n") && (i < |text| ==> text[i] !in " \t\r\n")
  {
    i := 0;
    if text != "" && IsSpace(text[0]) {
      i := TrimStartAt(text[1..]);
      assert text[1..][i..] == text[i + 1..];
      assert forall k :: 0 < k < i + 1 ==> text[k] == text[1..][k - 1];
      i := i + 1;
    }
  }

  lemma {:induction false} TrimEndAt(text: string) returns (j: nat)
    ensures j <= |text| && TrimEnd(text) == text[..j]
    ensures (forall k :: j <= k < |text| ==> text[k] in " \t\r\n") && (j > 0 ==> text[j - 1] !in " \t\r\n")
  {
    j := |text|;
    if text != "" && IsSpace(text[|text| - 1]) {
      j := TrimEndAt(text[..|text| - 1]);
      assert text[..|text| - 1][..j] == text[..j];
      assert forall k :: j <= k < |text| - 1 ==> text[k] == text[..|text| - 1][k];
    }
  }

  /** Trimming leaves the part between the white space at both ends. */
  lemma TrimIs(text: string) returns (i: nat, j: nat)
    ensures IsTrimmed(text, i, j) && Trim(text) == text[i..j]
  {
    i := TrimStartAt(text);
    var rest := text[i..];
    var n := TrimEndAt(rest);
    j := i + n;
    assert rest[..n] == text[i..j];
    assert forall k :: j <= k < |text| ==> text[k] == rest[k - i];
    assert n > 0 ==> rest[n - 1] == text[j - 1];
  }

  /** There is one such part, apart from where an empty one lies. */
  lemma TrimmedOnce(text: string, i: nat, j: nat, m: nat, n: nat)
    requires IsTrimmed(text, i, j) && IsTrimmed(text, m, n)
    ensures text[i..j] == text[m..n]
  {
    if i < j {
      assert text[i] !in " \t\r\n" && text[j - 1] !in " \t\r\n";
      assert m <= i && j <= n;
    }
    if m < n {
      assert text[m] !in " \t\r\n" && text[n - 1] !in " \t\r\n";
      assert i <= m && n <= j;
    }
  }

  /** Where an entry starts in the joined line. */
  function Offset(entries: seq<string>, i: nat): nat
    requires i <= |entries|
  {
    if i == 0 then 0 else Offset(entries, i - 1) + |Trim(entries[i - 1])| + 2
  }

  lemma {:induction false} OffsetFront(entries: seq<string>, n: nat, i: nat)
    requires i <= n <= |entries|
    ensures Offset(entries[..n], i) == Offset(entries, i)
  {
    if i == 0 {
    } else {
      OffsetFront(entries, n, i - 1);
    }
  }

  lemma {:induction false} JoinedLength(entries: seq<string>)
    ensures |JoinTrimmed(entries)| == if entries == [] then 0 else Offset(entries, |entries|) - 2
  {
    if |entries| <= 1 {
    } else {
      var n := |entries| - 1;
      JoinedLength(entries[..n]);
      OffsetFront(entries, n, n);
    }
  }

  lemma {:induction false} OffsetRises(entries: seq<string>, i: nat, j: nat)
    requires i < j <= |entries|
    ensures Offset(entries, i) + |Trim(entries[i])| + 2 <= Offset(entries, j)
  {
    if j == i + 1 {
    } else {
      OffsetRises(entries, i, j - 1);
    }
  }

  /** A part of the front of a text is a part of the text. */
  lemma HasAtFront(front: string, text: string, part: string, i: nat)
    requires front <= text && HasAt(front, part, i)
    ensures HasAt(text, part, i)
  {
    assert text[i..i + |part|] == front[i..i + |part|];
  }

  /** Where the three parts of a concatenation lie. */
  lemma PartsAt(front: string, middle: string, end: string)
    ensures var text := front + middle + end;
            HasAt(text, middle, |front|) && HasAt(text, end, |front| + |middle|)
  {
  }

  predicate PlacedAt(entries: seq<string>, line: string, i: nat, at: nat)
    requires i < |entries|
  {
    var part := Trim(entries[i]);
    HasAt(line, part, at) &&
    if i == |entries| - 1 then at + |part| == |line| else HasAt(line, ", ", at + |part|)
  }

  /** The trimmed entries stand in the joined line in order, with ", " between them and nothing else. */
  lemma {:induction false} JoinedAt(entries: seq<string>, i: nat)
    requires i < |entries|
    ensures PlacedAt(entries, JoinTrimmed(entries), i, Offset(entries, i))
  {
    var n := |entries| - 1;
    if n == 0 {
    } else {
      var front := entries[..n];
      var text := JoinTrimmed(front);
      OffsetFront(entries, n, i);
      JoinedLength(front);
      PartsAt(text, ", ", Trim(entries[n]));
      if i == n {
      } else {
        JoinedAt(front, i);
        JoinedFurther(entries, n, text, i, Offset(entries, i));
      }
    }
  }

  lemma {:induction false} JoinedFurther(entries: seq<string>, n: nat, text: string, i: nat, at: nat)
    requires i < n == |entries| - 1 && PlacedAt(entries[..n], text, i, at)
    ensures PlacedAt(entries, text + ", " + Trim(entries[n]), i, at)
  {
    var line := text + ", " + Trim(entries[n]);
    HasAtFront(text, line, Trim(entries[i]), at);
    PartsAt(text, ", ", Trim(entries[n]));
    if i < n - 1 {
      HasAtFront(text, line, ", ", at + |Trim(entries[i])|);
    }
  }

  /** The joined line stands between single spaces if the prefix opens an object and the line does not. */
  predicate HasSpaces(prefix: string, line: string) {
    EndsWith(prefix, '{') && (line == "" || line[0] != '{')
  }

  /** What a single line consists of, and nothing else. */
  lemma {:induction false} SingleLineIs(linePrefix: string, prefix: string, suffix: string, entries: seq<string>)
    ensures var text, line := SingleLineText(linePrefix, prefix, suffix, entries), JoinTrimmed(entries);
            var gap := if HasSpaces(prefix, line) then 1 else 0;
            var at := |linePrefix| + |prefix| + gap;
            && HasAt(text, linePrefix, 0) && HasAt(text, prefix, |linePrefix|)
            && HasAt(text, line, at) && HasAt(text, suffix, at + |line| + gap)
            && (gap == 1 ==> HasAt(text, " ", at - 1) && HasAt(text, " ", at + |line|))
            && |text| == at + |line| + gap + |suffix|
  {
    var line := JoinTrimmed(entries);
    SpacedParts(linePrefix, prefix, line, suffix, if HasSpaces(prefix, line) then " " else "");
  }

  lemma {:induction false} SpacedParts(linePrefix: string, prefix: string, line: string, suffix: string, gap: string)
    ensures var text := linePrefix + prefix + (gap + line + gap) + suffix;
            var at := |linePrefix| + |prefix| + |gap|;
            && HasAt(text, linePrefix, 0) && HasAt(text, prefix, |linePrefix|)
            && HasAt(text, gap, at - |gap|) && HasAt(text, line, at)
            && HasAt(text, gap, at + |line|) && HasAt(text, suffix, at + |line| + |gap|)
            && |text| == at + |line| + |gap| + |suffix|
  {
  }

  /** The length that is counted exceeds that of the line by the two spaces that an array, or an object in an object, does not get. */
  lemma {:induction false} CountedLength(linePrefix: string, prefix: string, suffix: string, entries: seq<string>)
    ensures var text, line := SingleLineText(linePrefix, prefix, suffix, entries), JoinTrimmed(entries);
            Adornment(linePrefix, prefix, suffix) + |line| == |text| +
              if EndsWith(prefix, '[') || (EndsWith(prefix, '{') && line != "" && line[0] == '{') then 2 else 0
  {
  }

  /** Some entry has more than one line; some entry is commented. */
  ghost predicate AnyMultiline(entries: seq<string>) {
    exists i :: 0 <= i < |entries| && '\n' in entries[i]
  }

  ghost predicate AnyCommented(entries: seq<string>) {
    exists i :: 0 <= i < |entries| && Commented(entries[i])
  }

  lemma {:induction false} AnyIff(entries: seq<string>)
    ensures AnyMultiline(entries) <==> exists e :: e in entries && Multiline(e)
    ensures AnyCommented(entries) <==> exists e :: e in entries && Commented(e)
  {
    forall e | e in entries
      ensures Multiline(e) ==> AnyMultiline(entries)
      ensures Commented(e) ==> AnyCommented(entries)
    {
      var i :| 0 <= i < |entries| && entries[i] == e;
    }
    forall i | 0 <= i < |entries|
      ensures '\n' in entries[i] ==> exists e :: e in entries && Multiline(e)
      ensures Commented(entries[i]) ==> exists e :: e in entries && Commented(e)
    {
      assert entries[i] in entries && (Multiline(entries[i]) <==> '\n' in entries[i]);
    }
  }

  /** The whole choice, by the entries, the last character of the prefix and the length of the joined line. */
  lemma {:induction false} LayoutIff(adornment: nat, prefix: string, entries: seq<string>)
    ensures var layout, single := Best(adornment, prefix, entries), adornment + |JoinTrimmed(entries)|;
            var limit := if |entries| == 1 then 124 else 120;
            && (layout.None? <==> entries == [])
            && (layout.SingleLine? <==> entries != [] && !AnyCommented(entries) && !AnyMultiline(entries) && single < limit)
            && (layout.MultipleLines? <==> entries != [] && !AnyCommented(entries) && !AnyMultiline(entries) && single >= limit)
            && (layout.SingleNested? <==> |entries| == 1 && !AnyCommented(entries) && AnyMultiline(entries) &&
                                          !(prefix != "" && prefix[|prefix| - 1] == '{'))
  {
    AnyIff(entries);
    if entries != [] {
      JoinLength(adornment, entries);
    }
  }
}
