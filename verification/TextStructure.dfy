/** Detection of nested lists in documentation text: codegen/src/util/string.ts. */
module TextStructure {
  import opened Options

  datatype ListType =
    | Bullet(mark: char)
    | Number | LowerRoman | UpperRoman | LowerAlpha | UpperAlpha

  const BULLETS: string := "•◦▪○●‣⁃◘"

  // ---- One paragraph --------------------------------------------------------------------

  predicate IsDigit(c: char) { '0' <= c <= '9' }
  predicate IsLower(c: char) { 'a' <= c <= 'z' }
  predicate IsUpper(c: char) { 'A' <= c <= 'Z' }
  predicate IsLowerRoman(c: char) { c in "ivx" }
  predicate IsUpperRoman(c: char) { c in "IVX" }

  /** The length of the longest prefix of characters of a class. */
  function RunLength(text: string, class_: char -> bool): (n: nat)
    ensures n <= |text|
  {
    if text == [] || !class_(text[0]) then 0 else 1 + RunLength(text[1..], class_)
  }

  /** One or more characters of a class, followed by a full stop. */
  predicate IsEnumerated(text: string, class_: char -> bool) {
    var n := RunLength(text, class_);
    0 < n < |text| && text[n] == '.'
  }

  predicate StartsEnumeration(text: string, first: char) {
    |text| >= 2 && text[0] == first && text[1] == '.'
  }

  predicate IsBullet(text: string) {
    |text| >= 2 && text[0] in BULLETS && text[1] == ' '
  }

  function Enter(listType: ListType, listState: seq<ListType>): seq<ListType> {
    if listType in listState then listState[..Position(listType, listState) + 1] else listState + [listType]
  }

  function Position(listType: ListType, listState: seq<ListType>): (i: nat)
    requires listType in listState
    ensures i < |listState| && listState[i] == listType
    ensures forall j :: 0 <= j < i ==> listState[j] != listType
  {
    if listState[0] == listType then 0 else 1 + Position(listType, listState[1..])
  }

  predicate Continues(text: string, class_: char -> bool, listType: ListType, first: char, listState: seq<ListType>) {
    IsEnumerated(text, class_) && (listType in listState || StartsEnumeration(text, first))
  }

  /** The nesting of lists after a paragraph, outermost first. */
  function Detect(text: string, listState: seq<ListType>): seq<ListType> {
    if IsBullet(text) then Enter(Bullet(text[0]), listState)
    else if Continues(text, IsDigit, Number, '1', listState) then Enter(Number, listState)
    else if Continues(text, IsLowerRoman, LowerRoman, 'i', listState) then Enter(LowerRoman, listState)
    else if Continues(text, IsUpperRoman, UpperRoman, 'I', listState) then Enter(UpperRoman, listState)
    else if Continues(text, IsLower, LowerAlpha, 'a', listState) then Enter(LowerAlpha, listState)
    else if Continues(text, IsUpper, UpperAlpha, 'A', listState) then Enter(UpperAlpha, listState)
    else []
  }

  lemma EnterTwice(listType: ListType, listState: seq<ListType>)
    ensures Enter(listType, Enter(listType, listState)) == Enter(listType, listState)
    ensures listType in Enter(listType, listState)
    ensures |Enter(listType, listState)| <= |listState| + 1
    ensures forall t :: t in Enter(listType, listState) ==> t == listType || t in listState
  {
    var s := Enter(listType, listState);
    assert s[|s| - 1] == listType;
  }

  /** Detecting the same paragraph again changes nothing, and nesting grows by at most one. */
  lemma DetectTwice(text: string, listState: seq<ListType>)
    ensures Detect(text, Detect(text, listState)) == Detect(text, listState)
    ensures |Detect(text, listState)| <= |listState| + 1
  {
    var s := Detect(text, listState);
    if s != [] {
      var t := if IsBullet(text) then Bullet(text[0])
               else if Continues(text, IsDigit, Number, '1', listState) then Number
               else if Continues(text, IsLowerRoman, LowerRoman, 'i', listState) then LowerRoman
               else if Continues(text, IsUpperRoman, UpperRoman, 'I', listState) then UpperRoman
               else if Continues(text, IsLower, LowerAlpha, 'a', listState) then LowerAlpha
               else UpperAlpha;
      EnterTwice(t, listState);
    }
  }

  // ---- What places a paragraph --------------------------------------------------------------

  /** A character of the marks of an enumeration. */
  predicate IsMark(k: ListType, c: char) {
    match k
    case Bullet(_) => false
    case Number => '0' <= c <= '9'
    case LowerRoman => c in "ivx"
    case UpperRoman => c in "IVX"
    case LowerAlpha => 'a' <= c <= 'z'
    case UpperAlpha => 'A' <= c <= 'Z'
  }

  /** The text starts with the bullet and a space, or with marks of the enumeration and a full stop. */
  ghost predicate Marked(text: string, k: ListType) {
    match k
    case Bullet(c) => |text| >= 2 && text[0] == c && text[1] == ' ' && c in "•◦▪○●‣⁃◘"
    case _ => exists n :: 0 < n < |text| && text[n] == '.' && forall i :: 0 <= i < n ==> IsMark(k, text[i])
  }

  /** The text starts with the first mark of the enumeration. */
  predicate IsFirst(text: string, k: ListType) {
    |text| >= 2 && text[1] == '.' &&
    match k
    case Bullet(_) => false
    case Number => text[0] == '1'
    case LowerRoman => text[0] == 'i'
    case UpperRoman => text[0] == 'I'
    case LowerAlpha => text[0] == 'a'
    case UpperAlpha => text[0] == 'A'
  }

  /** The paragraph can be an item of such a list: a bullet always, otherwise of an open list or as the first item. */
  ghost predicate CanJoin(text: string, k: ListType, open: seq<ListType>) {
    Marked(text, k) && (k.Bullet? || k in open || IsFirst(text, k))
  }

  /** Where a mark fits several kinds, the smaller one counts. */
  function Rank(k: ListType): nat {
    match k
    case Bullet(_) => 0
    case Number => 1
    case LowerRoman => 2
    case UpperRoman => 3
    case LowerAlpha => 4
    case UpperAlpha => 5
  }

  ghost predicate Joins(text: string, k: ListType, open: seq<ListType>) {
    CanJoin(text, k, open) && forall m :: CanJoin(text, m, open) ==> Rank(k) <= Rank(m)
  }

  /**
   * The lists that are open at a paragraph, given those open before: none if it is an item of no
   * list; those up to the list that it continues; or one more, which it starts.
   */
  ghost predicate Nests(text: string, open: seq<ListType>, now: seq<ListType>) {
    if now == [] then forall k :: !CanJoin(text, k, open)
    else
      var k := now[|now| - 1];
      Joins(text, k, open) && if k in open then now <= open && k !in now[..|now| - 1] else now == open + [k]
  }

  lemma {:induction false} RunLengthMarks(text: string, class_: char -> bool)
    ensures forall i :: 0 <= i < RunLength(text, class_) ==> class_(text[i])
    ensures RunLength(text, class_) < |text| ==> !class_(text[RunLength(text, class_)])
  {
    if text == "" || !class_(text[0]) {
    } else {
      RunLengthMarks(text[1..], class_);
      assert forall i :: 0 < i < |text| ==> text[i] == text[1..][i - 1];
    }
  }

  lemma EnumeratedIff(text: string, class_: char -> bool, k: ListType)
    requires !k.Bullet? && forall c :: class_(c) <==> IsMark(k, c)
    ensures IsEnumerated(text, class_) <==> Marked(text, k)
  {
    RunLengthMarks(text, class_);
    var r := RunLength(text, class_);
    assert !IsMark(k, '.');
    if n :| 0 < n < |text| && text[n] == '.' && forall i :: 0 <= i < n ==> IsMark(k, text[i]) {
      assert n <= r;
      assert r <= n;
    }
  }

  lemma MarkedIff(text: string)
    ensures IsEnumerated(text, IsDigit) <==> Marked(text, Number)
    ensures IsEnumerated(text, IsLowerRoman) <==> Marked(text, LowerRoman)
    ensures IsEnumerated(text, IsUpperRoman) <==> Marked(text, UpperRoman)
    ensures IsEnumerated(text, IsLower) <==> Marked(text, LowerAlpha)
    ensures IsEnumerated(text, IsUpper) <==> Marked(text, UpperAlpha)
  {
    EnumeratedIff(text, IsDigit, Number);
    EnumeratedIff(text, IsLowerRoman, LowerRoman);
    EnumeratedIff(text, IsUpperRoman, UpperRoman);
    EnumeratedIff(text, IsLower, LowerAlpha);
    EnumeratedIff(text, IsUpper, UpperAlpha);
  }

  /** Entering a list: up to it if it is open, else one more. */
  lemma {:induction false} EnterShape(k: ListType, open: seq<ListType>)
    ensures var now := Enter(k, open);
            && now != [] && now[|now| - 1] == k
            && if k in open then now <= open && k !in now[..|now| - 1] else now == open + [k]
  {
  }

  /** The kind of the list of a paragraph, if it is an item. */
  function KindOf(text: string, open: seq<ListType>): Option<ListType> {
    if IsBullet(text) then Some(Bullet(text[0]))
    else if Continues(text, IsDigit, Number, '1', open) then Some(Number)
    else if Continues(text, IsLowerRoman, LowerRoman, 'i', open) then Some(LowerRoman)
    else if Continues(text, IsUpperRoman, UpperRoman, 'I', open) then Some(UpperRoman)
    else if Continues(text, IsLower, LowerAlpha, 'a', open) then Some(LowerAlpha)
    else if Continues(text, IsUpper, UpperAlpha, 'A', open) then Some(UpperAlpha)
    else None
  }

  lemma DetectByKind(text: string, open: seq<ListType>)
    ensures Detect(text, open) == match KindOf(text, open) case Some(k) => Enter(k, open) case None => []
  {
  }

  /** What can be joined, kind by kind. */
  lemma CanJoinIff(text: string, open: seq<ListType>)
    ensures Continues(text, IsDigit, Number, '1', open) <==> CanJoin(text, Number, open)
    ensures Continues(text, IsLowerRoman, LowerRoman, 'i', open) <==> CanJoin(text, LowerRoman, open)
    ensures Continues(text, IsUpperRoman, UpperRoman, 'I', open) <==> CanJoin(text, UpperRoman, open)
    ensures Continues(text, IsLower, LowerAlpha, 'a', open) <==> CanJoin(text, LowerAlpha, open)
    ensures Continues(text, IsUpper, UpperAlpha, 'A', open) <==> CanJoin(text, UpperAlpha, open)
  {
    MarkedIff(text);
  }

  lemma BulletIff(text: string, open: seq<ListType>, c: char)
    ensures CanJoin(text, Bullet(c), open) <==> IsBullet(text) && c == text[0]
  {
  }

  lemma KindJoins(text: string, open: seq<ListType>)
    ensures match KindOf(text, open)
            case Some(k) => Joins(text, k, open)
            case None => forall k :: !CanJoin(text, k, open)
  {
    CanJoinIff(text, open);
    var kind := KindOf(text, open);
    if kind.Some? && kind.value.Bullet? {
      BulletIff(text, open, text[0]);
    }
    forall m | CanJoin(text, m, open) ensures kind.Some? && Rank(kind.value) <= Rank(m) {
      if m.Bullet? {
        BulletIff(text, open, m.mark);
      }
    }
  }

  /** Detection finds exactly the lists that are open at a paragraph. */
  lemma DetectIff(text: string, open: seq<ListType>, now: seq<ListType>)
    ensures Nests(text, open, now) <==> now == Detect(text, open)
  {
    DetectByKind(text, open);
    KindJoins(text, open);
    var kind := KindOf(text, open);
    if kind.Some? {
      EnterShape(kind.value, open);
    }
    if Nests(text, open, now) {
      NestsOnce(text, open, now, Detect(text, open));
    }
  }

  /** There is one such list of lists. */
  lemma NestsOnce(text: string, open: seq<ListType>, a: seq<ListType>, b: seq<ListType>)
    requires Nests(text, open, a) && Nests(text, open, b)
    ensures a == b
  {
    if a != [] && b != [] {
      var k, m := a[|a| - 1], b[|b| - 1];
      assert Rank(k) == Rank(m) && k == m;
    }
  }

  /** A paragraph without a bullet and without a mark of an enumeration closes all lists. */
  lemma PlainClosesLists(text: string, open: seq<ListType>)
    requires forall k :: !Marked(text, k)
    ensures Detect(text, open) == []
  {
    DetectIff(text, open, []);
  }

  /** The prefix of a paragraph is its text up to the first space, and the whole text if it starts with one. */
  lemma PrefixLaw(text: string)
    ensures var prefix := Prefix(text);
            if text == "" || text[0] == ' ' then prefix == text
            else prefix != "" && prefix <= text && ' ' !in prefix && (|prefix| < |text| ==> text[|prefix|] == ' ')
  {
    RunLengthMarks(text, c => c != ' ');
  }

  // ---- The structure --------------------------------------------------------------------

  datatype Entry = Text(text: string) | Nested(structure: Structure)
  datatype Structure = Structure(prefixWidth: nat, entries: seq<Entry>)

  datatype Placed = Placed(text: string, depth: nat)

  /** The paragraphs of a structure in order, each with its depth. */
  function Flatten(entries: seq<Entry>, depth: nat): seq<Placed> {
    if entries == [] then [] else FlattenEntry(entries[0], depth) + Flatten(entries[1..], depth)
  }

  function FlattenEntry(e: Entry, depth: nat): seq<Placed> {
    match e
    case Text(text) => [Placed(text, depth)]
    case Nested(s) => Flatten(s.entries, depth + 1)
  }

  lemma {:induction false} FlattenAppend(entries: seq<Entry>, e: Entry, depth: nat)
    ensures Flatten(entries + [e], depth) == Flatten(entries, depth) + FlattenEntry(e, depth)
  {
    if entries == [] {
      assert Flatten([], depth) == [] && [e][1..] == [];
    } else {
      assert (entries + [e])[1..] == entries[1..] + [e];
      FlattenAppend(entries[1..], e, depth);
    }
  }

  /** The part of a paragraph in front of its first space. */
  function Prefix(text: string): string {
    var n := RunLength(text, c => c != ' ');
    if 0 < n then text[..n] else text
  }

  function MaxPrefix(entries: seq<Entry>): nat {
    if entries == [] then 0
    else
      var last, front := entries[|entries| - 1], MaxPrefix(entries[..|entries| - 1]);
      if last.Text? && |Prefix(last.text)| > front then |Prefix(last.text)| else front
  }

  /**
   * Lists start with a paragraph, no two lists follow each other directly, and each level knows
   * the width of its longest prefix.
   */
  ghost predicate Canonical(s: Structure, depth: nat)
    decreases s, 1
  {
    && s.prefixWidth == (if depth == 0 then 0 else MaxPrefix(s.entries))
    && CanonicalEntries(s.entries, depth)
  }

  ghost predicate CanonicalEntries(entries: seq<Entry>, depth: nat)
    decreases entries, 0
  {
    && (forall i :: 0 <= i < |entries| - 1 ==> entries[i].Text? || entries[i + 1].Text?)
    && (forall i :: 0 <= i < |entries| ==> CanonicalEntry(entries[i], depth))
  }

  ghost predicate CanonicalEntry(e: Entry, depth: nat)
    decreases e, 0
  {
    match e
    case Text(_) => true
    case Nested(s) => s.entries != [] && s.entries[0].Text? && Canonical(s, depth + 1)
  }

  // ---- Uniqueness -----------------------------------------------------------------------

  /** Every paragraph of a level is at least as deep as the level. */
  lemma {:induction false} FlattenDepths(entries: seq<Entry>, depth: nat)
    ensures forall i :: 0 <= i < |Flatten(entries, depth)| ==> Flatten(entries, depth)[i].depth >= depth
  {
    if entries == [] {
    } else {
      FlattenEntryDepths(entries[0], depth);
      FlattenDepths(entries[1..], depth);
    }
  }

  lemma {:induction false} FlattenEntryDepths(e: Entry, depth: nat)
    ensures forall i :: 0 <= i < |FlattenEntry(e, depth)| ==>
              FlattenEntry(e, depth)[i].depth >= if e.Text? then depth else depth + 1
  {
    match e
    case Text(_) =>
    case Nested(s) => FlattenDepths(s.entries, depth + 1);
  }

  lemma CanonicalRest(entries: seq<Entry>, depth: nat)
    requires CanonicalEntries(entries, depth) && entries != []
    ensures CanonicalEntries(entries[1..], depth)
  {
    var rest := entries[1..];
    forall i | 0 <= i < |rest| - 1 ensures rest[i].Text? || rest[i + 1].Text? {
      assert rest[i] == entries[i + 1] && rest[i + 1] == entries[i + 2];
    }
  }

  /** What follows a leading list is a paragraph of the level itself. */
  lemma AfterNested(entries: seq<Entry>, depth: nat)
    requires CanonicalEntries(entries, depth) && entries != [] && entries[0].Nested?
    ensures var inner, rest := FlattenEntry(entries[0], depth), Flatten(entries[1..], depth);
            && inner != [] && (forall i :: 0 <= i < |inner| ==> inner[i].depth > depth)
            && (rest != [] ==> rest[0].depth == depth)
            && (entries[1..] == [] <==> rest == [])
  {
    FlattenEntryDepths(entries[0], depth);
    var s := entries[0].structure;
    assert CanonicalEntry(entries[0], depth) && FlattenEntry(s.entries[0], depth + 1) != [];
    if |entries| > 1 {
      assert entries[1].Text? && entries[1..][0] == entries[1];
    }
  }

  /** Two leading lists have the same paragraphs, and so do the entries behind them. */
  lemma NestedSplit(a: seq<Entry>, b: seq<Entry>, depth: nat)
    requires CanonicalEntries(a, depth) && CanonicalEntries(b, depth) && Flatten(a, depth) == Flatten(b, depth)
    requires a != [] && b != [] && a[0].Nested? && b[0].Nested?
    ensures FlattenEntry(a[0], depth) == FlattenEntry(b[0], depth)
    ensures Flatten(a[1..], depth) == Flatten(b[1..], depth)
  {
    var f := Flatten(a, depth);
    var na, nb := |FlattenEntry(a[0], depth)|, |FlattenEntry(b[0], depth)|;
    AfterNested(a, depth);
    AfterNested(b, depth);
    assert f[..na] == FlattenEntry(a[0], depth) && f[..nb] == FlattenEntry(b[0], depth);
    assert f[na..] == Flatten(a[1..], depth) && f[nb..] == Flatten(b[1..], depth);
    assert na == nb by {
      assert na < |f| ==> f[na].depth == depth;
      assert nb < |f| ==> f[nb].depth == depth;
    }
  }

  /** Canonical entries are determined by their paragraphs and depths. */
  lemma {:induction false} CanonicalUnique(a: seq<Entry>, b: seq<Entry>, depth: nat)
    requires CanonicalEntries(a, depth) && CanonicalEntries(b, depth)
    requires Flatten(a, depth) == Flatten(b, depth)
    ensures a == b
  {
    if a == [] || b == [] {
      NonEmpty(a, depth);
      NonEmpty(b, depth);
    } else {
      CanonicalRest(a, depth);
      CanonicalRest(b, depth);
      assert CanonicalEntry(a[0], depth) && CanonicalEntry(b[0], depth);
      SameKind(a, b, depth);
      if a[0].Nested? {
        NestedSplit(a, b, depth);
      } else {
        assert Flatten(a, depth)[1..] == Flatten(a[1..], depth) && Flatten(b, depth)[1..] == Flatten(b[1..], depth);
      }
      CanonicalEntryUnique(a[0], b[0], depth);
      CanonicalUnique(a[1..], b[1..], depth);
      assert a == [a[0]] + a[1..] && b == [b[0]] + b[1..];
    }
  }

  lemma {:induction false} CanonicalEntryUnique(a: Entry, b: Entry, depth: nat)
    requires CanonicalEntry(a, depth) && CanonicalEntry(b, depth) && a.Text? == b.Text?
    requires FlattenEntry(a, depth) == FlattenEntry(b, depth)
    ensures a == b
  {
    match a
    case Text(_) =>
    case Nested(s) => CanonicalUnique(s.entries, b.structure.entries, depth + 1);
  }

  lemma SameKind(a: seq<Entry>, b: seq<Entry>, depth: nat)
    requires CanonicalEntries(a, depth) && CanonicalEntries(b, depth) && a != [] && b != []
    requires Flatten(a, depth) == Flatten(b, depth)
    ensures a[0].Text? == b[0].Text?
    ensures a[0].Text? ==> FlattenEntry(a[0], depth) == FlattenEntry(b[0], depth)
  {
    var f := Flatten(a, depth);
    if a[0].Nested? {
      AfterNested(a, depth);
      assert f[0] == FlattenEntry(a[0], depth)[0];
    }
    if b[0].Nested? {
      AfterNested(b, depth);
      assert f[0] == FlattenEntry(b[0], depth)[0];
    }
    if a[0].Text? && b[0].Text? {
      assert FlattenEntry(a[0], depth) == [f[0]] && FlattenEntry(b[0], depth) == [f[0]];
    }
  }

  lemma NonEmpty(a: seq<Entry>, depth: nat)
    requires CanonicalEntries(a, depth)
    ensures Flatten(a, depth) == [] <==> a == []
  {
    if a != [] && a[0].Nested? {
      AfterNested(a, depth);
    }
  }

  // ---- Detection ------------------------------------------------------------------------

  /** The nesting after the first `n` paragraphs, each detected once. */
  function StateAfter(paragraphs: seq<string>, n: nat): seq<ListType>
    requires n <= |paragraphs|
  {
    if n == 0 then [] else Detect(paragraphs[n - 1], StateAfter(paragraphs, n - 1))
  }

  /** A paragraph at the depth of the nesting after it. */
  function PlacedAt(paragraphs: seq<string>, k: nat): Placed
    requires k < |paragraphs|
  {
    Placed(paragraphs[k], |StateAfter(paragraphs, k + 1)|)
  }

  /** Paragraphs `from` to `to`, each at the depth of the nesting after it. */
  function PlacedIn(paragraphs: seq<string>, from: nat, to: nat): (r: seq<Placed>)
    requires from <= to <= |paragraphs|
    ensures |r| == to - from && forall i :: 0 <= i < |r| ==> r[i] == PlacedAt(paragraphs, from + i)
  {
    seq(to - from, i requires 0 <= i < to - from => PlacedAt(paragraphs, from + i))
  }

  lemma PlacedElement(paragraphs: seq<string>, from: nat, to: nat, i: nat, k: nat)
    requires from <= to <= |paragraphs| && i < to - from && k == from + i
    ensures PlacedIn(paragraphs, from, to)[i] == PlacedAt(paragraphs, k)
  {
  }

  lemma PlacedConcat(paragraphs: seq<string>, from: nat, mid: nat, to: nat)
    requires from <= mid <= to <= |paragraphs|
    ensures PlacedIn(paragraphs, from, mid) + PlacedIn(paragraphs, mid, to) == PlacedIn(paragraphs, from, to)
  {
    var n, rest, all := mid - from, PlacedIn(paragraphs, mid, to), PlacedIn(paragraphs, from, to);
    forall i | 0 <= i < to - mid ensures rest[i] == all[n + i] {
      var k := mid + i;
      assert from + (n + i) == k;
      PlacedElement(paragraphs, mid, to, i, k);
      PlacedElement(paragraphs, from, to, n + i, k);
    }
    Concatenated(PlacedIn(paragraphs, from, mid), rest, all);
  }

  lemma Concatenated(a: seq<Placed>, b: seq<Placed>, c: seq<Placed>)
    requires |a| + |b| == |c|
    requires (forall i :: 0 <= i < |a| ==> a[i] == c[i]) && (forall i :: 0 <= i < |b| ==> b[i] == c[|a| + i])
    ensures a + b == c
  {
  }

  lemma PlacedNext(paragraphs: seq<string>, from: nat, to: nat)
    requires from <= to < |paragraphs|
    ensures PlacedIn(paragraphs, from, to + 1) == PlacedIn(paragraphs, from, to) + [PlacedAt(paragraphs, to)]
  {
    Concatenated(PlacedIn(paragraphs, from, to), [PlacedAt(paragraphs, to)], PlacedIn(paragraphs, from, to + 1));
  }

  /** The entries of a level that is complete up to paragraph `to`. */
  ghost predicate LevelOf(paragraphs: seq<string>, level: nat, from: nat, to: nat, s: Structure) {
    && from <= to <= |paragraphs|
    && Canonical(s, level)
    && Flatten(s.entries, level) == PlacedIn(paragraphs, from, to)
    && (level > 0 && s.entries != [] ==> s.entries[0].Text?)
  }

  predicate EndsInText(s: Structure)
    requires s.entries != []
  {
    s.entries[|s.entries| - 1].Text?
  }

  lemma CanonicalAppend(entries: seq<Entry>, e: Entry, depth: nat)
    requires CanonicalEntries(entries, depth) && CanonicalEntry(e, depth)
    requires e.Nested? && entries != [] ==> entries[|entries| - 1].Text?
    ensures CanonicalEntries(entries + [e], depth)
  {
  }

  /** A paragraph of the level itself. */
  lemma AppendText(paragraphs: seq<string>, level: nat, from: nat, to: nat, s: Structure, t: Structure)
    requires LevelOf(paragraphs, level, from, to, s) && to < |paragraphs| && |StateAfter(paragraphs, to + 1)| == level
    requires t.entries == s.entries + [Text(paragraphs[to])]
    requires t.prefixWidth == if level > 0 && |Prefix(paragraphs[to])| > s.prefixWidth then |Prefix(paragraphs[to])| else s.prefixWidth
    ensures LevelOf(paragraphs, level, from, to + 1, t)
  {
    CanonicalAppend(s.entries, Text(paragraphs[to]), level);
    FlattenAppend(s.entries, Text(paragraphs[to]), level);
    PlacedNext(paragraphs, from, to);
    assert t.entries[..|t.entries| - 1] == s.entries;
  }

  /** A list below the level. */
  lemma AppendNested(paragraphs: seq<string>, level: nat, from: nat, mid: nat, to: nat, s: Structure, inner: Structure)
    requires LevelOf(paragraphs, level, from, mid, s) && LevelOf(paragraphs, level + 1, mid, to, inner) && inner.entries != []
    requires s.entries != [] ==> s.entries[|s.entries| - 1].Text?
    requires level > 0 ==> s.entries != []
    ensures LevelOf(paragraphs, level, from, to, s.(entries := s.entries + [Nested(inner)]))
  {
    var entries := s.entries + [Nested(inner)];
    CanonicalAppend(s.entries, Nested(inner), level);
    FlattenAppend(s.entries, Nested(inner), level);
    PlacedConcat(paragraphs, from, mid, to);
    assert entries[..|entries| - 1] == s.entries;
  }

  class StructureDetector {
    const paragraphs: seq<string>
    var listState: seq<ListType>
    var index: nat

    constructor (paragraphs: seq<string>)
      ensures this.paragraphs == paragraphs && listState == [] && index == 0
    {
      this.paragraphs := paragraphs;
      listState, index := [], 0;
    }

    method DetectList(text: string)
      modifies `listState
      ensures listState == Detect(text, old(listState))
    {
      for i := 0 to |BULLETS|
        invariant listState == old(listState)
        invariant forall j :: 0 <= j < i ==> |text| == 0 || text[0] != BULLETS[j] || !(|text| >= 2 && text[1] == ' ')
      {
        if |text| >= 2 && text[0] == BULLETS[i] && text[1] == ' ' {
          EnterList(Bullet(text[0]));
          return;
        }
      }
      var found := DetectEnumeration(text, IsDigit, Number, '1');
      if found { return; }
      found := DetectEnumeration(text, IsLowerRoman, LowerRoman, 'i');
      if found { return; }
      found := DetectEnumeration(text, IsUpperRoman, UpperRoman, 'I');
      if found { return; }
      found := DetectEnumeration(text, IsLower, LowerAlpha, 'a');
      if found { return; }
      found := DetectEnumeration(text, IsUpper, UpperAlpha, 'A');
      if found { return; }
      listState := [];
    }

    method EnterList(listType: ListType)
      modifies `listState
      ensures listState == Enter(listType, old(listState))
    {
      if listType !in listState {
        listState := listState + [listType];
      } else {
        listState := listState[..Position(listType, listState) + 1];
      }
    }

    method DetectEnumeration(text: string, test: char -> bool, listType: ListType, first: char) returns (found: bool)
      modifies `listState
      ensures found == Continues(text, test, listType, first, old(listState))
      ensures listState == if found then Enter(listType, old(listState)) else old(listState)
    {
      if !IsEnumerated(text, test) {
        return false;
      }
      if listType in listState || StartsEnumeration(text, first) {
        EnterList(listType);
        return true;
      }
      return false;
    }

    /** Processes paragraphs from `index` on, as long as they are at this level or deeper. */
    method ProcessLevel() returns (structure: Structure)
      requires index <= |paragraphs|
      requires if listState == [] then StateAfter(paragraphs, index) == [] else AtParagraph()
      modifies this
      ensures LevelOf(paragraphs, |old(listState)|, old(index), index, structure)
      ensures old(listState) != [] ==> structure.entries != [] && old(index) < index
      ensures if index == |paragraphs| then listState == StateAfter(paragraphs, index)
              else AtParagraph() && |listState| < |old(listState)|
      decreases |paragraphs| - index, if listState == [] then 2 else 0
    {
      var level := |listState|;
      structure := Structure(0, []);
      while index < |paragraphs|
        invariant |listState| == level && LevelOf(paragraphs, level, old(index), index, structure)
        invariant listState == StateAfter(paragraphs, index) || (index == old(index) && AtParagraph())
        invariant level > 0 && structure.entries == [] ==> index == old(index) && AtParagraph()
        invariant structure.entries != [] ==> EndsInText(structure) && old(index) < index
        decreases |paragraphs| - index
      {
        DetectNext();
        if |listState| < level {
          break;
        }
        if |listState| > level {
          structure := AddNested(structure, level, old(index));
          if |listState| < level || index >= |paragraphs| {
            break;
          }
        }
        assert |listState| == level;
        structure := AddParagraph(structure, old(index));
      }
    }

    /** The paragraph at `index` was detected. */
    predicate AtParagraph()
      reads this
    {
      index < |paragraphs| && listState == StateAfter(paragraphs, index + 1)
    }

    method DetectNext()
      requires index < |paragraphs| && (listState == StateAfter(paragraphs, index) || AtParagraph())
      modifies `listState
      ensures AtParagraph() && |listState| <= |old(listState)| + 1
      ensures old(AtParagraph()) ==> listState == old(listState)
    {
      DetectTwice(paragraphs[index], StateAfter(paragraphs, index));
      DetectList(paragraphs[index]);
    }

    /** Processes a list below the level. */
    method AddNested(structure: Structure, level: nat, ghost from: nat) returns (extended: Structure)
      requires AtParagraph() && |listState| == level + 1
      requires LevelOf(paragraphs, level, from, index, structure) && (structure.entries != [] ==> EndsInText(structure))
      requires level > 0 ==> structure.entries != []
      modifies this
      ensures old(index) < index && LevelOf(paragraphs, level, from, index, extended)
      ensures if index == |paragraphs| then listState == StateAfter(paragraphs, index)
              else AtParagraph() && |listState| <= level
      decreases |paragraphs| - index, 1
    {
      ghost var start := index;
      var inner := ProcessLevel();
      assert LevelOf(paragraphs, level + 1, start, index, inner);
      AppendNested(paragraphs, level, from, start, index, structure, inner);
      extended := structure.(entries := structure.entries + [Nested(inner)]);
    }

    /** Adds the paragraph at `index` to its level. */
    method AddParagraph(structure: Structure, ghost from: nat) returns (extended: Structure)
      requires AtParagraph() && LevelOf(paragraphs, |listState|, from, index, structure)
      modifies `index
      ensures index == old(index) + 1 && LevelOf(paragraphs, |listState|, from, index, extended)
      ensures index <= |paragraphs| && listState == StateAfter(paragraphs, index)
      ensures extended.entries != [] && EndsInText(extended)
    {
      var text := paragraphs[index];
      extended := structure.(entries := structure.entries + [Text(text)]);
      if |listState| > 0 {
        var prefix := Prefix(text);
        if |prefix| > structure.prefixWidth {
          extended := extended.(prefixWidth := |prefix|);
        }
      }
      AppendText(paragraphs, |listState|, from, index, structure, extended);
      index := index + 1;
    }
  }

  /** The lists that are open before the first paragraph and at each of them. */
  ghost predicate AreNested(paragraphs: seq<string>, states: seq<seq<ListType>>) {
    && |states| == |paragraphs| + 1 && states[0] == []
    && forall k :: 0 <= k < |paragraphs| ==> Nests(paragraphs[k], states[k], states[k + 1])
  }

  /** Each paragraph in turn, as deep as lists are open at it. */
  ghost predicate PlacedBy(paragraphs: seq<string>, states: seq<seq<ListType>>, placed: seq<Placed>)
    requires |states| == |paragraphs| + 1
  {
    |placed| == |paragraphs| && forall k :: 0 <= k < |paragraphs| ==> placed[k] == Placed(paragraphs[k], |states[k + 1]|)
  }

  ghost function StatesOf(paragraphs: seq<string>): (r: seq<seq<ListType>>)
    ensures |r| == |paragraphs| + 1 && forall k :: 0 <= k <= |paragraphs| ==> r[k] == StateAfter(paragraphs, k)
  {
    seq(|paragraphs| + 1, k requires 0 <= k <= |paragraphs| => StateAfter(paragraphs, k))
  }

  lemma StatesNest(paragraphs: seq<string>)
    ensures AreNested(paragraphs, StatesOf(paragraphs))
    ensures PlacedBy(paragraphs, StatesOf(paragraphs), PlacedIn(paragraphs, 0, |paragraphs|))
  {
    var states := StatesOf(paragraphs);
    forall k | 0 <= k < |paragraphs| ensures Nests(paragraphs[k], states[k], states[k + 1]) {
      DetectIff(paragraphs[k], states[k], states[k + 1]);
    }
  }

  /** The lists that are open are determined by the paragraphs. */
  lemma {:induction false} StatesUnique(paragraphs: seq<string>, states: seq<seq<ListType>>, k: nat)
    requires AreNested(paragraphs, states) && k <= |paragraphs|
    ensures states[k] == StateAfter(paragraphs, k)
  {
    if k == 0 {
    } else {
      StatesUnique(paragraphs, states, k - 1);
      DetectIff(paragraphs[k - 1], states[k - 1], states[k]);
    }
  }

  /** The whole text: the only canonical structure with these paragraphs as deep as lists are open at them. */
  method DetectStructure(paragraphs: seq<string>) returns (structure: Structure, ghost states: seq<seq<ListType>>)
    ensures Canonical(structure, 0)
    ensures AreNested(paragraphs, states) && PlacedBy(paragraphs, states, Flatten(structure.entries, 0))
    ensures forall other, nesting ::
              Canonical(other, 0) && AreNested(paragraphs, nesting) && PlacedBy(paragraphs, nesting, Flatten(other.entries, 0))
              ==> other == structure && nesting == states
  {
    if paragraphs == [] {
      structure := Structure(0, []);
    } else {
      var detector := new StructureDetector(paragraphs);
      structure := detector.ProcessLevel();
    }
    states := StatesOf(paragraphs);
    StatesNest(paragraphs);
    forall other, nesting | Canonical(other, 0) && AreNested(paragraphs, nesting) && PlacedBy(paragraphs, nesting, Flatten(other.entries, 0))
      ensures other == structure && nesting == states
    {
      forall k | 0 <= k <= |paragraphs| ensures nesting[k] == states[k] {
        StatesUnique(paragraphs, nesting, k);
      }
      assert nesting == states;
      assert Flatten(other.entries, 0) == Flatten(structure.entries, 0);
      CanonicalUnique(other.entries, structure.entries, 0);
    }
  }
}
