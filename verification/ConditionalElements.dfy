/**
 * Compilation of element conditions to feature bitmaps: codegen/src/clusters/ConditionalElements.ts,
 * for the conditions of packages/matter.js/src/model/logic/cluster-variance/VarianceCondition.ts.
 */
module ConditionalElements {
  import opened Options

  type Model = string

  datatype Condition = Condition(allOf: Option<seq<string>>, anyOf: Option<seq<string>>, not_: Option<string>)

  datatype Component = Component(mandatory: seq<Model>, optional: seq<Model>, condition: Option<Condition>)

  datatype Flag = Flag(name: string, on: bool)

  /** An object that maps feature codes to booleans, with its insertion order. */
  type Bitmap = seq<Flag>

  // ---- Meaning --------------------------------------------------------------------------

  /** What a condition says about the features that are active. */
  predicate Satisfied(c: Condition, features: set<string>) {
    && (c.allOf.Some? ==> forall x :: x in c.allOf.value ==> x in features)
    && (c.anyOf.Some? ==> exists x :: x in c.anyOf.value && x in features)
    && (c.not_.Some? ==> c.not_.value !in features)
  }

  predicate Matches(b: Bitmap, features: set<string>) {
    forall i :: 0 <= i < |b| ==> (b[i].on <==> b[i].name in features)
  }

  predicate MatchesAny(bitmaps: seq<Bitmap>, features: set<string>) {
    exists i :: 0 <= i < |bitmaps| && Matches(bitmaps[i], features)
  }

  // ---- Compilation ----------------------------------------------------------------------

  predicate Unique(b: Bitmap) {
    forall i, j :: 0 <= i < j < |b| ==> b[i].name != b[j].name
  }

  /** Sets a property: in place if the object has it, behind the others if not. */
  function SetFlag(b: Bitmap, name: string, on: bool): Bitmap {
    if b == [] then [Flag(name, on)]
    else if b[0].name == name then [Flag(name, on)] + b[1..]
    else [b[0]] + SetFlag(b[1..], name, on)
  }

  function FromNames(names: seq<string>): Bitmap {
    if names == [] then [] else SetFlag(FromNames(names[..|names| - 1]), names[|names| - 1], true)
  }

  /** Spreads the negated feature, if there is one, over a bitmap. */
  function WithNot(b: Bitmap, not_: Option<string>): Bitmap {
    if not_.Some? then SetFlag(b, not_.value, false) else b
  }

  /** An empty code counts as no negated feature. */
  function Negated(c: Condition): Option<string> {
    if c.not_ == Some("") then None else c.not_
  }

  /** The bitmaps that a condition is translated to. */
  function Compile(c: Condition): seq<Bitmap> {
    CompileAll(c) + (if c.anyOf.Some? then CompileAny(c.anyOf.value, Negated(c)) else [])
  }

  function CompileAll(c: Condition): seq<Bitmap> {
    if c.allOf.Some? then [WithNot(FromNames(c.allOf.value), Negated(c))] else []
  }

  function CompileAny(names: seq<string>, not_: Option<string>): (r: seq<Bitmap>)
    ensures |r| == |names| && forall i :: 0 <= i < |r| ==> r[i] == WithNot([Flag(names[i], true)], not_)
  {
    seq(|names|, i requires 0 <= i < |names| => WithNot([Flag(names[i], true)], not_))
  }

  lemma {:induction false} SetFlagMembers(b: Bitmap, name: string, on: bool)
    requires Unique(b)
    ensures forall f: Flag :: f in SetFlag(b, name, on) <==> f == Flag(name, on) || (f in b && f.name != name)
  {
    if b == [] {
    } else {
      assert forall f :: f in b <==> f == b[0] || f in b[1..];
      if b[0].name == name {
        assert forall f :: f in b[1..] ==> f.name != name;
      } else {
        SetFlagMembers(b[1..], name, on);
      }
    }
  }

  lemma {:induction false} SetFlagUnique(b: Bitmap, name: string, on: bool)
    requires Unique(b)
    ensures Unique(SetFlag(b, name, on))
  {
    if b != [] && b[0].name != name {
      var rest := SetFlag(b[1..], name, on);
      SetFlagUnique(b[1..], name, on);
      SetFlagMembers(b[1..], name, on);
      forall j | 0 <= j < |rest| ensures rest[j].name != b[0].name {
        assert rest[j] in rest;
      }
    }
  }

  lemma {:induction false} FromNamesShape(names: seq<string>)
    ensures Unique(FromNames(names))
    ensures forall f: Flag :: f in FromNames(names) <==> f.on && f.name in names
  {
    if names == [] {
    } else {
      var front := names[..|names| - 1];
      FromNamesShape(front);
      SetFlagMembers(FromNames(front), names[|names| - 1], true);
      SetFlagUnique(FromNames(front), names[|names| - 1], true);
    }
  }

  lemma WithNotMatches(b: Bitmap, not_: Option<string>, features: set<string>)
    requires Unique(b)
    ensures Matches(WithNot(b, not_), features) <==>
            && (forall f :: f in b && Some(f.name) != not_ ==> (f.on <==> f.name in features))
            && (not_.Some? ==> not_.value !in features)
  {
    if not_.Some? {
      SetFlagMembers(b, not_.value, false);
    }
    MatchesMembers(b, features);
    MatchesMembers(WithNot(b, not_), features);
    assert not_.Some? ==> Flag(not_.value, false) in WithNot(b, not_);
  }

  lemma MatchesMembers(b: Bitmap, features: set<string>)
    ensures Matches(b, features) <==> forall f :: f in b ==> (f.on <==> f.name in features)
  {
    assert forall i :: 0 <= i < |b| ==> b[i] in b;
  }

  // ---- When the translation has the meaning of the condition ------------------------------

  ghost predicate SameMeaning(c: Condition) {
    forall features: set<string> :: Satisfied(c, features) <==> MatchesAny(Compile(c), features)
  }

  function Elements(names: seq<string>): set<string> {
    set x | x in names
  }

  /**
   * Either `allOf` or `anyOf` is given, without the negated feature; or both are, and name the same
   * single feature.  An empty negated code is not ignored only where nothing can match.
   */
  predicate WellPosed(c: Condition) {
    if c.not_ == Some("") then c.allOf.None? && c.anyOf == Some([])
    else
    match (c.allOf, c.anyOf)
    case (None, None) => false
    case (Some(all), None) => Names(all, c.not_)
    case (None, Some(any)) => Names(any, c.not_)
    case (Some(all), Some(any)) =>
      Names(all, c.not_) && all != [] && Elements(all) == {all[0]} && Elements(any) == {all[0]}
  }

  /** The negated feature is not among the names. */
  predicate Names(names: seq<string>, not_: Option<string>) {
    not_.Some? ==> not_.value !in names
  }

  lemma AllMatches(c: Condition, features: set<string>)
    requires c.allOf.Some?
    ensures Matches(WithNot(FromNames(c.allOf.value), Negated(c)), features) <==>
            && (forall x :: x in c.allOf.value && Some(x) != Negated(c) ==> x in features)
            && (Negated(c).Some? ==> Negated(c).value !in features)
  {
    FromNamesShape(c.allOf.value);
    WithNotMatches(FromNames(c.allOf.value), Negated(c), features);
    assert forall x :: x in c.allOf.value ==> Flag(x, true) in FromNames(c.allOf.value);
  }

  lemma AnyMatches(names: seq<string>, not_: Option<string>, features: set<string>)
    ensures MatchesAny(CompileAny(names, not_), features) <==>
            (exists x :: x in names && (x in features || Some(x) == not_)) && (not_.Some? ==> not_.value !in features)
  {
    var bitmaps := CompileAny(names, not_);
    forall i | 0 <= i < |names|
      ensures Matches(bitmaps[i], features) <==>
              (names[i] in features || Some(names[i]) == not_) && (not_.Some? ==> not_.value !in features)
    {
      var single := [Flag(names[i], true)];
      WithNotMatches(single, not_, features);
      assert single[0] in single;
    }
    if exists x :: x in names && (x in features || Some(x) == not_) {
      var x :| x in names && (x in features || Some(x) == not_);
      var i :| 0 <= i < |names| && names[i] == x;
    }
  }

  /** What the translation of a condition means. */
  lemma CompiledMeaning(c: Condition, features: set<string>)
    ensures MatchesAny(Compile(c), features) <==>
            && (Negated(c).Some? ==> Negated(c).value !in features)
            && ((c.allOf.Some? && forall x :: x in c.allOf.value && Some(x) != Negated(c) ==> x in features) ||
                (c.anyOf.Some? && exists x :: x in c.anyOf.value && (x in features || Some(x) == Negated(c))))
  {
    var all := CompileAll(c);
    var any := if c.anyOf.Some? then CompileAny(c.anyOf.value, Negated(c)) else [];
    if c.allOf.Some? {
      AllMatches(c, features);
    }
    if c.anyOf.Some? {
      AnyMatches(c.anyOf.value, Negated(c), features);
    }
    MatchesEither(all, any, features);
    assert Compile(c) == all + any;
    assert c.allOf.Some? ==> (MatchesAny(all, features) <==> Matches(all[0], features));
  }

  lemma MatchesEither(a: seq<Bitmap>, b: seq<Bitmap>, features: set<string>)
    ensures MatchesAny(a + b, features) <==> MatchesAny(a, features) || MatchesAny(b, features)
  {
    if MatchesAny(a, features) {
      var i :| 0 <= i < |a| && Matches(a[i], features);
      assert (a + b)[i] == a[i];
    }
    if MatchesAny(b, features) {
      var i :| 0 <= i < |b| && Matches(b[i], features);
      assert (a + b)[|a| + i] == b[i];
    }
  }

  lemma WellPosedMeans(c: Condition, features: set<string>)
    requires WellPosed(c)
    ensures Satisfied(c, features) <==> MatchesAny(Compile(c), features)
  {
    CompiledMeaning(c, features);
    if c.allOf.Some? && c.anyOf.Some? {
      var x := c.allOf.value[0];
      assert forall y :: y in c.allOf.value ==> y in Elements(c.allOf.value);
      assert forall y :: y in c.anyOf.value <==> y in Elements(c.anyOf.value);
      assert x in c.anyOf.value;
    }
  }

  /** A name of `any` that is not the only one of `all`. */
  ghost function Stranger(all: seq<string>, any: seq<string>): (x: string)
    requires all != [] && any != []
    ensures x in any && ((exists y :: y in all && y != x) || (Elements(all) == {all[0]} && Elements(any) == {all[0]}))
  {
    if exists x :: x in any && exists y :: y in all && y != x then
      var x :| x in any && exists y :: y in all && y != x; x
    else
      assert any[0] in any && all[0] in all;
      any[0]
  }

  /** The same for an empty negated code, which the translation ignores. */
  lemma EmptyCodeDiffers(c: Condition) returns (features: set<string>)
    requires c.not_ == Some("") && !WellPosed(c)
    ensures Satisfied(c, features) != MatchesAny(Compile(c), features)
  {
    match (c.allOf, c.anyOf) {
      case (Some(all), _) => features := Elements(all) + {""};
      case (None, Some(any)) =>
        features := {any[0], ""};
        assert any[0] in any;
      case (None, None) => features := {};
    }
    CompiledMeaning(c, features);
  }

  /** Features on which the translation and the condition disagree. */
  lemma IllPosedDiffers(c: Condition) returns (features: set<string>)
    requires !WellPosed(c)
    ensures Satisfied(c, features) != MatchesAny(Compile(c), features)
  {
    if c.not_ == Some("") {
      features := EmptyCodeDiffers(c);
      return;
    }
    match (c.allOf, c.anyOf) {
      case (None, None) => features := {};
      case (Some(all), None) => features := Elements(all) - {c.not_.value};
      case (None, Some(any)) => features := {};
      case (Some(all), Some(any)) =>
        if !Names(all, c.not_) {
          features := Elements(all) - {c.not_.value};
        } else if all == [] || !Names(any, c.not_) {
          features := {};
        } else if any == [] {
          features := Elements(all);
        } else {
          features := {Stranger(all, any)};
        }
    }
    CompiledMeaning(c, features);
  }

  /** The bitmaps of a condition have its meaning for every feature set exactly when it is well posed. */
  lemma SameMeaningIff(c: Condition)
    ensures SameMeaning(c) <==> WellPosed(c)
  {
    if WellPosed(c) {
      forall features: set<string> ensures Satisfied(c, features) <==> MatchesAny(Compile(c), features) {
        WellPosedMeans(c, features);
      }
    } else {
      var features := IllPosedDiffers(c);
    }
  }

  // ---- Names of definitions -------------------------------------------------------------

  function Part(f: Flag): string {
    if f.on then f.name else "NOT_" + f.name
  }

  /** The name under which a bitmap is defined. */
  function NameOf(b: Bitmap): string {
    if b == [] then "" else Part(b[0]) + Tail(b)
  }

  /** The parts behind the first one. */
  function Tail(b: Bitmap): string
    requires b != []
    decreases b, 0
  {
    if |b| == 1 then "" else "_" + NameOf(b[1..])
  }

  /** A feature code without "_" that is not "NOT". */
  predicate Plain(code: string) {
    code != "" && '_' !in code && code != "NOT"
  }

  predicate AllPlain(b: Bitmap) {
    forall f :: f in b ==> Plain(f.name)
  }

  /** The text in front of the first "_" is determined. */
  lemma FirstWord(a: string, b: string, x: string, y: string)
    requires '_' !in a && '_' !in b && a + x == b + y
    requires (x == "" || x[0] == '_') && (y == "" || y[0] == '_')
    ensures a == b && x == y
  {
    var s, r := a + x, b + y;
    assert |a| < |s| ==> s[|a|] == '_';
    assert |b| < |r| ==> r[|b|] == '_';
    assert a == s[..|a|] && b == r[..|b|] && x == s[|a|..] && y == r[|b|..];
  }

  /** The same when both parts are of negated features. */
  lemma FirstNegated(a: string, b: string, x: string, y: string)
    requires '_' !in a && '_' !in b && "NOT_" + a + x == "NOT_" + b + y
    requires (x == "" || x[0] == '_') && (y == "" || y[0] == '_')
    ensures a == b && x == y
  {
    assert ("NOT_" + a + x)[4..] == a + x && ("NOT_" + b + y)[4..] == b + y;
    FirstWord(a, b, x, y);
  }

  /** A plain code is not read as a negated one. */
  lemma PlainIsNotNegated(a: string, b: string, x: string, y: string)
    requires Plain(a) && (x == "" || x[0] == '_')
    ensures a + x != "NOT_" + b + y
  {
    if a + x == "NOT_" + b + y {
      assert "NOT_" + b + y == "NOT" + ("_" + b + y);
      FirstWord(a, "NOT", x, "_" + b + y);
    }
  }

  lemma FirstPart(f: Flag, g: Flag, x: string, y: string)
    requires Plain(f.name) && Plain(g.name) && Part(f) + x == Part(g) + y
    requires (x == "" || x[0] == '_') && (y == "" || y[0] == '_')
    ensures f == g && x == y
  {
    if f.on && g.on {
      FirstWord(f.name, g.name, x, y);
    } else if f.on {
      PlainIsNotNegated(f.name, g.name, x, y);
    } else if g.on {
      PlainIsNotNegated(g.name, f.name, y, x);
    } else {
      FirstNegated(f.name, g.name, x, y);
    }
  }

  lemma NameNonEmpty(b: Bitmap)
    requires AllPlain(b)
    ensures NameOf(b) == "" <==> b == []
  {
    if b != [] {
      assert Part(b[0]) != "" by {
        assert b[0] in b;
      }
    }
  }

  /** Bitmaps over plain codes have different names. */
  lemma {:induction false} NamesDiffer(a: Bitmap, b: Bitmap)
    requires AllPlain(a) && AllPlain(b) && NameOf(a) == NameOf(b)
    ensures a == b
  {
    if a == [] || b == [] {
      NameNonEmpty(a);
      NameNonEmpty(b);
    } else {
      FirstPart(a[0], b[0], Tail(a), Tail(b));
      if |a| > 1 && |b| > 1 {
        assert Tail(a)[1..] == NameOf(a[1..]) && Tail(b)[1..] == NameOf(b[1..]);
        NamesDiffer(a[1..], b[1..]);
      }
      assert a == [a[0]] + a[1..] && b == [b[0]] + b[1..];
    }
  }

  // ---- Exactly when names collide ---------------------------------------------------------

  /** The position of the first "_", or the length. */
  function FirstUnderscore(s: string): (k: nat)
    ensures k <= |s| && '_' !in s[..k] && (k < |s| ==> s[k] == '_')
  {
    if s == "" || s[0] == '_' then 0
    else
      var k := 1 + FirstUnderscore(s[1..]);
      assert s[..k] == [s[0]] + s[1..][..k - 1];
      k
  }

  /** The words of a name, between its "_". */
  function Split(s: string): (r: seq<string>)
    ensures r != []
  {
    var k := FirstUnderscore(s);
    if k == |s| then [s] else [s[..k]] + Split(s[k + 1..])
  }

  function Glue(words: seq<string>): string
    requires words != []
  {
    if |words| == 1 then words[0] else words[0] + "_" + Glue(words[1..])
  }

  lemma {:induction false} GlueSplit(s: string)
    ensures Glue(Split(s)) == s
  {
    var k := FirstUnderscore(s);
    if k == |s| {
      assert s[..k] == s;
    } else {
      GlueSplit(s[k + 1..]);
      GlueMore(s[..k], Split(s[k + 1..]));
      Cut(s, k);
    }
  }

  lemma GlueMore(word: string, words: seq<string>)
    requires words != []
    ensures Glue([word] + words) == word + "_" + Glue(words)
  {
    assert ([word] + words)[1..] == words;
  }

  lemma Cut(s: string, k: nat)
    requires k < |s| && s[k] == '_'
    ensures s == s[..k] + "_" + s[k + 1..]
  {
  }

  lemma FirstUnderscoreIs(s: string, k: nat)
    requires k <= |s| && '_' !in s[..k] && (k < |s| ==> s[k] == '_')
    ensures FirstUnderscore(s) == k
  {
    var f := FirstUnderscore(s);
    assert forall i :: 0 <= i < k ==> s[..k][i] == s[i];
    assert forall i :: 0 <= i < f ==> s[..f][i] == s[i];
  }

  /** Splitting off the first word. */
  lemma SplitFirst(word: string, rest: string)
    requires '_' !in word
    ensures Split(word + "_" + rest) == [word] + Split(rest)
  {
    var s, k := word + "_" + rest, |word|;
    assert s[..k] == word && s[k + 1..] == rest;
    FirstUnderscoreIs(s, k);
  }

  lemma {:induction false} SplitJoined(x: string, y: string)
    ensures Split(x + "_" + y) == Split(x) + Split(y)
    decreases |x|
  {
    var k := FirstUnderscore(x);
    if k == |x| {
      assert x[..k] == x;
      SplitFirst(x, y);
    } else {
      var word, rest := x[..k], x[k + 1..];
      SplitJoined(rest, y);
      SplitFirst(word, rest + "_" + y);
      Rejoined(x, k, y);
      Regroup([word], Split(rest), Split(y));
    }
  }

  lemma Rejoined(x: string, k: nat, y: string)
    requires k < |x| && x[k] == '_'
    ensures x + "_" + y == x[..k] + "_" + (x[k + 1..] + "_" + y)
  {
  }

  lemma Regroup(a: seq<string>, b: seq<string>, c: seq<string>)
    ensures (a + b) + c == a + (b + c)
  {
  }

  /** The words of a feature that is on or off. */
  function FlagWords(f: Flag): seq<string> {
    (if f.on then [] else ["NOT"]) + Split(f.name)
  }

  /** The words of all features of a bitmap. */
  function Words(b: Bitmap): seq<string> {
    if b == [] then [""] else if |b| == 1 then FlagWords(b[0]) else FlagWords(b[0]) + Words(b[1..])
  }

  lemma PartWords(f: Flag)
    ensures Split(Part(f)) == FlagWords(f)
  {
    if f.on {
      assert [] + Split(f.name) == Split(f.name);
    } else {
      SplitFirst("NOT", f.name);
      NegatedName(f.name);
    }
  }

  lemma NegatedName(name: string)
    ensures "NOT_" + name == "NOT" + "_" + name
  {
  }

  lemma {:induction false} NameWords(b: Bitmap)
    ensures Split(NameOf(b)) == Words(b)
  {
    if b == [] {
      assert Split("") == [""];
    } else {
      PartWords(b[0]);
      NameParts(b);
      if |b| > 1 {
        NameWords(b[1..]);
        SplitJoined(Part(b[0]), NameOf(b[1..]));
      }
    }
  }

  lemma NameParts(b: Bitmap)
    requires b != []
    ensures NameOf(b) == if |b| == 1 then Part(b[0]) else Part(b[0]) + "_" + NameOf(b[1..])
  {
  }

  /** For all codes: two bitmaps get the same name exactly when their codes fall into the same words. */
  lemma NamesEqualIff(a: Bitmap, b: Bitmap)
    ensures NameOf(a) == NameOf(b) <==> Words(a) == Words(b)
  {
    NameWords(a);
    NameWords(b);
    GlueSplit(NameOf(a));
    GlueSplit(NameOf(b));
  }

  /** Each kind of code that is not plain makes two bitmaps collide: one with "_", "NOT", and the empty one. */
  lemma NamesCollide(x: string, y: string)
    ensures NameOf([Flag(x + "_" + y, true)]) == NameOf([Flag(x, true), Flag(y, true)])
    ensures NameOf([Flag("NOT", true), Flag(x, true)]) == NameOf([Flag(x, false)])
    ensures NameOf([Flag("", true)]) == NameOf([])
  {
    NameOfTwo(Flag(x, true), Flag(y, true));
    NameOfTwo(Flag("NOT", true), Flag(x, true));
    assert NameOf([Flag(x + "_" + y, true)]) == x + "_" + y + "";
    assert NameOf([Flag(x, false)]) == "NOT_" + x + "";
  }

  lemma NameOfTwo(f: Flag, g: Flag)
    ensures NameOf([f, g]) == Part(f) + "_" + Part(g)
  {
    var b := [f, g];
    assert b[1..] == [g] && NameOf([g]) == Part(g) + "";
  }

  predicate PlainCondition(c: Condition) {
    && (c.allOf.Some? ==> forall x :: x in c.allOf.value ==> Plain(x))
    && (c.anyOf.Some? ==> forall x :: x in c.anyOf.value ==> Plain(x))
    && (Negated(c).Some? ==> Plain(Negated(c).value))
  }

  lemma CompiledPlain(c: Condition, b: Bitmap)
    requires PlainCondition(c) && b in Compile(c)
    ensures AllPlain(b)
  {
    if c.allOf.Some? {
      FromNamesShape(c.allOf.value);
      WithNotPlain(FromNames(c.allOf.value), Negated(c));
    }
    if c.anyOf.Some? {
      forall i | 0 <= i < |c.anyOf.value| ensures AllPlain(WithNot([Flag(c.anyOf.value[i], true)], Negated(c))) {
        WithNotPlain([Flag(c.anyOf.value[i], true)], Negated(c));
      }
    }
  }

  lemma WithNotPlain(b: Bitmap, not_: Option<string>)
    requires AllPlain(b) && Unique(b) && (not_.Some? ==> Plain(not_.value))
    ensures AllPlain(WithNot(b, not_))
  {
    if not_.Some? {
      SetFlagMembers(b, not_.value, false);
    }
  }

  // ---- The class ------------------------------------------------------------------------

  datatype ElementConditions = ElementConditions(optionalIf: Option<seq<string>>, mandatoryIf: Option<seq<string>>)

  datatype Kind = Optional | Mandatory

  function Get(e: ElementConditions, kind: Kind): Option<seq<string>> {
    match kind case Optional => e.optionalIf case Mandatory => e.mandatoryIf
  }

  function Put(e: ElementConditions, kind: Kind, names: seq<string>): ElementConditions {
    match kind case Optional => e.(optionalIf := Some(names)) case Mandatory => e.(mandatoryIf := Some(names))
  }

  function Models(c: Component, kind: Kind): seq<Model> {
    match kind case Optional => c.optional case Mandatory => c.mandatory
  }

  /** `name` is recorded for a model. */
  predicate Recorded(conditions: map<Model, ElementConditions>, m: Model, kind: Kind, name: string) {
    m in conditions && Get(conditions[m], kind).Some? && name in Get(conditions[m], kind).value
  }

  /** Some of the components lists the model and has a condition with a bitmap of this name. */
  ghost predicate Listed(components: seq<Component>, m: Model, kind: Kind, name: string) {
    exists j :: 0 <= j < |components| && ListedBy(components[j], m, kind, name)
  }

  function NamesOf(bitmaps: seq<Bitmap>): (r: seq<string>)
    ensures |r| == |bitmaps| && forall i :: 0 <= i < |r| ==> r[i] == NameOf(bitmaps[i])
  {
    seq(|bitmaps|, i requires 0 <= i < |bitmaps| => NameOf(bitmaps[i]))
  }

  lemma NamesConcat(a: seq<Bitmap>, b: seq<Bitmap>)
    ensures NamesOf(a + b) == NamesOf(a) + NamesOf(b)
  {
  }

  /** The definitions after defining bitmaps one by one. */
  function DefineAll(definitions: map<string, Bitmap>, bitmaps: seq<Bitmap>): map<string, Bitmap> {
    if bitmaps == [] then definitions
    else
      var last := bitmaps[|bitmaps| - 1];
      DefineAll(definitions, bitmaps[..|bitmaps| - 1])[NameOf(last) := last]
  }

  /** Later definitions win, the others stay. */
  lemma {:induction false} DefineAllKeeps(definitions: map<string, Bitmap>, bitmaps: seq<Bitmap>)
    ensures var r := DefineAll(definitions, bitmaps);
            && (forall b :: b in bitmaps ==> NameOf(b) in r)
            && (forall name :: name in definitions ==> name in r)
            && (forall name :: name in r ==>
                  (r[name] in bitmaps && NameOf(r[name]) == name) || (name in definitions && r[name] == definitions[name]))
  {
    if bitmaps == [] {
    } else {
      DefineAllKeeps(definitions, bitmaps[..|bitmaps| - 1]);
      assert bitmaps == bitmaps[..|bitmaps| - 1] + [bitmaps[|bitmaps| - 1]];
    }
  }

  lemma {:induction false} DefineConcat(definitions: map<string, Bitmap>, a: seq<Bitmap>, b: seq<Bitmap>)
    ensures DefineAll(definitions, a + b) == DefineAll(DefineAll(definitions, a), b)
  {
    if b == [] {
      assert a + b == a;
    } else {
      assert (a + b)[..|a + b| - 1] == a + b[..|b| - 1];
      DefineConcat(definitions, a, b[..|b| - 1]);
    }
  }

  /** The names recorded for a model, and what they are defined as, after the components so far. */
  ghost predicate Faithful(components: seq<Component>, definitions: map<string, Bitmap>, conditions: map<Model, ElementConditions>) {
    && (forall m, kind, name :: Recorded(conditions, m, kind, name) <==> Listed(components, m, kind, name))
    && (forall name :: name in definitions ==> NameOf(definitions[name]) == name && Compiled(components, definitions[name]))
    && (forall b :: Compiled(components, b) ==> NameOf(b) in definitions)
  }

  /** `b` is a bitmap of the condition of some component. */
  ghost predicate Compiled(components: seq<Component>, b: Bitmap) {
    exists j :: 0 <= j < |components| && CompiledFor(components[j], b)
  }

  predicate CompiledFor(c: Component, b: Bitmap) {
    c.condition.Some? && b in Compile(c.condition.value)
  }

  /** One more component with a condition. */
  lemma FaithfulNext(before: seq<Component>, c: Component, d0: map<string, Bitmap>, d1: map<string, Bitmap>,
                     c0: map<Model, ElementConditions>, c1: map<Model, ElementConditions>)
    requires Faithful(before, d0, c0) && c.condition.Some? && d1 == DefineAll(d0, Compile(c.condition.value))
    requires forall m, kind, name :: Recorded(c1, m, kind, name) <==>
               Recorded(c0, m, kind, name) || (m in Models(c, kind) && name in NamesOf(Compile(c.condition.value)))
    ensures Faithful(before + [c], d1, c1)
  {
    var all, compiled := before + [c], Compile(c.condition.value);
    DefineAllKeeps(d0, compiled);
    ComponentsNext(before, c);
    forall m, kind, name ensures Recorded(c1, m, kind, name) <==> Listed(all, m, kind, name) {
      NamesOfMembers(compiled, name);
    }
  }

  lemma NamesOfMembers(bitmaps: seq<Bitmap>, name: string)
    ensures name in NamesOf(bitmaps) <==> exists b :: b in bitmaps && NameOf(b) == name
  {
    if name in NamesOf(bitmaps) {
      var i :| 0 <= i < |bitmaps| && NamesOf(bitmaps)[i] == name;
      assert bitmaps[i] in bitmaps;
    }
    if exists b :: b in bitmaps && NameOf(b) == name {
      var b :| b in bitmaps && NameOf(b) == name;
      var i :| 0 <= i < |bitmaps| && bitmaps[i] == b;
      assert NamesOf(bitmaps)[i] == name;
    }
  }

  lemma ComponentsNext(before: seq<Component>, c: Component)
    ensures forall m, kind, name :: Listed(before + [c], m, kind, name) <==> Listed(before, m, kind, name) || ListedBy(c, m, kind, name)
    ensures forall b :: Compiled(before + [c], b) <==> Compiled(before, b) || CompiledFor(c, b)
  {
    var all := before + [c];
    assert all[|before|] == c && forall j :: 0 <= j < |before| ==> all[j] == before[j];
  }

  ghost predicate ListedBy(c: Component, m: Model, kind: Kind, name: string) {
    m in Models(c, kind) && exists b :: CompiledFor(c, b) && NameOf(b) == name
  }

  class ConditionalElements {
    var definitions: map<string, Bitmap>
    var conditions: map<Model, ElementConditions>

    constructor (components: seq<Component>)
      ensures Faithful(components, definitions, conditions)
    {
      definitions, conditions := map[], map[];
      new;
      for i := 0 to |components|
        invariant Faithful(components[..i], definitions, conditions)
      {
        assert components[..i + 1] == components[..i] + [components[i]];
        AddComponent(components[..i], components[i]);
      }
      assert components[..|components|] == components;
    }

    method AddComponent(ghost before: seq<Component>, component: Component)
      requires Faithful(before, definitions, conditions)
      modifies this
      ensures Faithful(before + [component], definitions, conditions)
    {
      if component.condition.Some? {
        var bitmaps := TranslateConditions(component.condition.value);
        AddElements(component.optional, Optional, bitmaps);
        AddElements(component.mandatory, Mandatory, bitmaps);
        FaithfulNext(before, component, old(definitions), definitions, old(conditions), conditions);
      } else {
        ComponentsNext(before, component);
      }
    }

    method AddElements(models: seq<Model>, kind: Kind, bitmaps: seq<string>)
      modifies `conditions
      ensures forall m, k, name :: Recorded(conditions, m, k, name) <==>
                Recorded(old(conditions), m, k, name) || (k == kind && m in models && name in bitmaps)
    {
      for i := 0 to |models|
        invariant forall m, k, name :: Recorded(conditions, m, k, name) <==>
                    Recorded(old(conditions), m, k, name) || (k == kind && m in models[..i] && name in bitmaps)
      {
        var model := models[i];
        assert models[..i + 1] == models[..i] + [model];
        ghost var before := conditions;
        if model !in conditions {
          conditions := conditions[model := Put(ElementConditions(None, None), kind, bitmaps)];
        } else {
          var current := Get(conditions[model], kind);
          conditions := conditions[model := Put(conditions[model], kind, if current.Some? then current.value + bitmaps else bitmaps)];
        }
        assert forall m, k, name :: Recorded(conditions, m, k, name) <==>
          Recorded(before, m, k, name) || (m == model && k == kind && name in bitmaps);
      }
      assert models[..|models|] == models;
    }

    method Define(bitmap: Bitmap) returns (name: string)
      modifies `definitions
      ensures name == NameOf(bitmap) && definitions == old(definitions)[name := bitmap]
    {
      name := NameOf(bitmap);
      definitions := definitions[name := bitmap];
    }

    method TranslateConditions(condition: Condition) returns (bitmaps: seq<string>)
      modifies `definitions
      ensures bitmaps == NamesOf(Compile(condition))
      ensures definitions == DefineAll(old(definitions), Compile(condition))
    {
      ghost var all, compiled := CompileAll(condition), Compile(condition);
      bitmaps := TranslateAll(condition);
      if condition.anyOf.Some? {
        ghost var any := CompileAny(condition.anyOf.value, Negated(condition));
        assert compiled == all + any;
        DefineConcat(old(definitions), all, any);
        NamesConcat(all, any);
        var more := TranslateAny(condition.anyOf.value, Negated(condition));
        bitmaps := bitmaps + more;
      } else {
        assert compiled == all;
      }
    }

    method TranslateAll(condition: Condition) returns (bitmaps: seq<string>)
      modifies `definitions
      ensures bitmaps == NamesOf(CompileAll(condition))
      ensures definitions == DefineAll(old(definitions), CompileAll(condition))
    {
      bitmaps := [];
      if condition.allOf.Some? {
        ghost var bitmap := WithNot(FromNames(condition.allOf.value), Negated(condition));
        assert [bitmap][..0] == [];
        var name := Define(WithNot(FromNames(condition.allOf.value), Negated(condition)));
        bitmaps := [name];
      }
    }

    method TranslateAny(anyOf: seq<string>, not_: Option<string>) returns (bitmaps: seq<string>)
      modifies `definitions
      ensures bitmaps == NamesOf(CompileAny(anyOf, not_))
      ensures definitions == DefineAll(old(definitions), CompileAny(anyOf, not_))
    {
      bitmaps := [];
      ghost var compiled := CompileAny(anyOf, not_);
      for i := 0 to |anyOf|
        invariant bitmaps == NamesOf(compiled[..i])
        invariant definitions == DefineAll(old(definitions), compiled[..i])
      {
        assert compiled[..i + 1][..i] == compiled[..i];
        var name := Define(WithNot([Flag(anyOf[i], true)], not_));
        bitmaps := bitmaps + [name];
      }
      assert compiled[..|anyOf|] == compiled;
    }
  }

  /**
   * With conditions that are well posed and use plain codes: a feature set satisfies the condition
   * of some component that lists a model exactly when it matches one of the definitions that are
   * recorded for that model.
   */
  lemma RecordedMeaning(components: seq<Component>, definitions: map<string, Bitmap>, conditions: map<Model, ElementConditions>,
                        m: Model, kind: Kind, features: set<string>)
    requires Faithful(components, definitions, conditions)
    requires forall j :: 0 <= j < |components| && components[j].condition.Some? ==>
               WellPosed(components[j].condition.value) && PlainCondition(components[j].condition.value)
    ensures (exists j :: 0 <= j < |components| && Applies(components[j], m, kind, features)) <==>
            (exists name :: RecordedMatch(definitions, conditions, m, kind, name, features))
  {
    if exists j :: 0 <= j < |components| && Applies(components[j], m, kind, features) {
      var j :| 0 <= j < |components| && Applies(components[j], m, kind, features);
      var name := AppliesIsRecorded(components, definitions, conditions, m, kind, features, j);
    }
    if exists name :: RecordedMatch(definitions, conditions, m, kind, name, features) {
      var name :| RecordedMatch(definitions, conditions, m, kind, name, features);
      var j := RecordedApplies(components, definitions, conditions, m, kind, features, name);
    }
  }

  /** The component lists the model as mandatory, under a condition that the features satisfy. */
  predicate IsMandatory(c: Component, m: Model, features: set<string>) {
    c.condition.Some? && m in c.mandatory && Satisfied(c.condition.value, features)
  }

  /** One of the bitmaps under which the model is mandatory matches the features. */
  predicate MandatoryBy(definitions: map<string, Bitmap>, conditions: map<Model, ElementConditions>, m: Model, name: string,
                        features: set<string>)
  {
    && m in conditions && conditions[m].mandatoryIf.Some? && name in conditions[m].mandatoryIf.value
    && name in definitions && Matches(definitions[name], features)
  }

  predicate IsOptional(c: Component, m: Model, features: set<string>) {
    c.condition.Some? && m in c.optional && Satisfied(c.condition.value, features)
  }

  predicate OptionalBy(definitions: map<string, Bitmap>, conditions: map<Model, ElementConditions>, m: Model, name: string,
                       features: set<string>)
  {
    && m in conditions && conditions[m].optionalIf.Some? && name in conditions[m].optionalIf.value
    && name in definitions && Matches(definitions[name], features)
  }

  /** The same for mandatory models, with the fields that hold them. */
  lemma MandatoryMeaning(components: seq<Component>, definitions: map<string, Bitmap>, conditions: map<Model, ElementConditions>,
                         m: Model, features: set<string>)
    requires Faithful(components, definitions, conditions)
    requires forall j :: 0 <= j < |components| && components[j].condition.Some? ==>
               WellPosed(components[j].condition.value) && PlainCondition(components[j].condition.value)
    ensures (exists j :: 0 <= j < |components| && IsMandatory(components[j], m, features)) <==>
            (exists name :: MandatoryBy(definitions, conditions, m, name, features))
  {
    RecordedMeaning(components, definitions, conditions, m, Mandatory, features);
    assert forall c :: IsMandatory(c, m, features) <==> Applies(c, m, Mandatory, features);
    assert forall name :: MandatoryBy(definitions, conditions, m, name, features) <==>
                          RecordedMatch(definitions, conditions, m, Mandatory, name, features);
  }

  /** And for optional ones. */
  lemma OptionalMeaning(components: seq<Component>, definitions: map<string, Bitmap>, conditions: map<Model, ElementConditions>,
                        m: Model, features: set<string>)
    requires Faithful(components, definitions, conditions)
    requires forall j :: 0 <= j < |components| && components[j].condition.Some? ==>
               WellPosed(components[j].condition.value) && PlainCondition(components[j].condition.value)
    ensures (exists j :: 0 <= j < |components| && IsOptional(components[j], m, features)) <==>
            (exists name :: OptionalBy(definitions, conditions, m, name, features))
  {
    RecordedMeaning(components, definitions, conditions, m, Optional, features);
    assert forall c :: IsOptional(c, m, features) <==> Applies(c, m, Optional, features);
    assert forall name :: OptionalBy(definitions, conditions, m, name, features) <==>
                          RecordedMatch(definitions, conditions, m, Optional, name, features);
  }

  /** A recorded name whose definition matches the features. */
  predicate RecordedMatch(definitions: map<string, Bitmap>, conditions: map<Model, ElementConditions>, m: Model, kind: Kind,
                          name: string, features: set<string>)
  {
    Recorded(conditions, m, kind, name) && name in definitions && Matches(definitions[name], features)
  }

  lemma AppliesIsRecorded(components: seq<Component>, definitions: map<string, Bitmap>, conditions: map<Model, ElementConditions>,
                          m: Model, kind: Kind, features: set<string>, j: nat) returns (name: string)
    requires Faithful(components, definitions, conditions)
    requires forall i :: 0 <= i < |components| && components[i].condition.Some? ==>
               WellPosed(components[i].condition.value) && PlainCondition(components[i].condition.value)
    requires j < |components| && Applies(components[j], m, kind, features)
    ensures RecordedMatch(definitions, conditions, m, kind, name, features)
  {
    var c := components[j].condition.value;
    WellPosedMeans(c, features);
    var i :| 0 <= i < |Compile(c)| && Matches(Compile(c)[i], features);
    var b := Compile(c)[i];
    name := NameOf(b);
    assert CompiledFor(components[j], b) && ListedBy(components[j], m, kind, name);
    assert Compiled(components, b) && Listed(components, m, kind, name);
    DefinedAs(components, definitions, conditions, b);
  }

  lemma RecordedApplies(components: seq<Component>, definitions: map<string, Bitmap>, conditions: map<Model, ElementConditions>,
                        m: Model, kind: Kind, features: set<string>, name: string) returns (j: nat)
    requires Faithful(components, definitions, conditions)
    requires forall i :: 0 <= i < |components| && components[i].condition.Some? ==>
               WellPosed(components[i].condition.value) && PlainCondition(components[i].condition.value)
    requires RecordedMatch(definitions, conditions, m, kind, name, features)
    ensures j < |components| && Applies(components[j], m, kind, features)
  {
    assert Listed(components, m, kind, name);
    j :| 0 <= j < |components| && ListedBy(components[j], m, kind, name);
    var b :| CompiledFor(components[j], b) && NameOf(b) == name;
    assert Compiled(components, b);
    DefinedAs(components, definitions, conditions, b);
    var c := components[j].condition.value;
    var i :| 0 <= i < |Compile(c)| && Compile(c)[i] == b;
    WellPosedMeans(c, features);
  }

  /** A component lists the model under a condition that the features satisfy. */
  predicate Applies(c: Component, m: Model, kind: Kind, features: set<string>) {
    c.condition.Some? && m in Models(c, kind) && Satisfied(c.condition.value, features)
  }

  /** With plain codes no definition is replaced by another one. */
  lemma DefinedAs(components: seq<Component>, definitions: map<string, Bitmap>, conditions: map<Model, ElementConditions>, b: Bitmap)
    requires Faithful(components, definitions, conditions) && Compiled(components, b)
    requires forall j :: 0 <= j < |components| && components[j].condition.Some? ==> PlainCondition(components[j].condition.value)
    ensures NameOf(b) in definitions && definitions[NameOf(b)] == b
  {
    var d := definitions[NameOf(b)];
    assert Compiled(components, d);
    var i :| 0 <= i < |components| && CompiledFor(components[i], b);
    var j :| 0 <= j < |components| && CompiledFor(components[j], d);
    CompiledPlain(components[i].condition.value, b);
    CompiledPlain(components[j].condition.value, d);
    NamesDiffer(b, d);
  }

  /** A condition with nothing but a negated feature is recorded without any bitmap. */
  lemma NegationAloneIsLost(x: string)
    ensures var c := Condition(None, None, Some(x)); Satisfied(c, {}) && Compile(c) == []
  {
  }
}
