/**
 * Emission of TLV definitions in dependency order: codegen/src/clusters/TlvGenerator.ts over the
 * entry list of TsFile.  Model metadata is abstracted to a graph of local datatypes.
 */
module TlvGenerator {
  import opened Options
  import opened TsFile

  type TypeId = string

  /** One use of a type by an attribute, command, event or field. */
  datatype Ref =
    | Primitive               // boolean, float, integer, any, bytes or string
    | ListOf(entry: Ref)      // array with an entry type
    | Undefined(isObject: bool) // enum, bitmap or object without a defining model
    | Local(id: TypeId)       // enum, bitmap or object defined by this cluster

  datatype Field = Field(omitted: bool, ref: Ref)

  datatype BitField = Flag | Range(enumType: Option<TypeId>) | Unconstrained

  datatype TypeDef =
    | Enum
    | Bitmap(bits: seq<BitField>)
    | Struct(fields: seq<Field>)

  type Graph = map<TypeId, TypeDef>

  /** The generated expression that refers to a type. */
  datatype Expr =
    | PrimitiveTlv
    | NoArguments
    | ArrayTlv(entry: Expr)
    | EnumTlv(id: TypeId)
    | BitmapTlv(id: TypeId)
    | StructTlv(id: TypeId)

  datatype Entry =
    | Raw(text: string)
    | Definition(id: TypeId)
    | Interface(id: TypeId)

  // ---- The type graph -------------------------------------------------------------------

  /** The local type that a reference ends in, through any number of arrays. */
  function Target(r: Ref): (t: Option<TypeId>)
  {
    match r
    case ListOf(e) => Target(e)
    case Local(id) => Some(id)
    case _ => None
  }

  predicate Uses(r: Ref, t: TypeId) {
    Target(r) == Some(t)
  }

  /** `t` is used by a field of `d` that is not omitted, or is the enum of one of its bit ranges. */
  ghost predicate DependsOn(d: TypeDef, t: TypeId) {
    match d
    case Enum => false
    case Bitmap(bits) => exists i :: 0 <= i < |bits| && bits[i] == Range(Some(t))
    case Struct(fields) => exists i :: 0 <= i < |fields| && !fields[i].omitted && Uses(fields[i].ref, t)
  }

  /** A struct whose fields are all omitted; its definition is removed again. */
  predicate Hollow(d: TypeDef) {
    d.Struct? && forall i :: 0 <= i < |d.fields| ==> d.fields[i].omitted
  }

  ghost predicate WellFormed(g: Graph) {
    && (forall a, b :: a in g && DependsOn(g[a], b) ==> b in g)
    && (forall a, b :: a in g && g[a].Bitmap? && DependsOn(g[a], b) ==> g[b].Enum?)
  }

  ghost predicate IsPath(g: Graph, p: seq<TypeId>) {
    && p != []
    && (forall i :: 0 <= i < |p| ==> p[i] in g)
    && (forall i :: 0 <= i < |p| - 1 ==> DependsOn(g[p[i]], p[i + 1]))
  }

  ghost predicate Reaches(g: Graph, a: TypeId, b: TypeId) {
    exists p :: IsPath(g, p) && p[0] == a && p[|p| - 1] == b
  }

  lemma ReachesSelf(g: Graph, a: TypeId)
    requires a in g
    ensures Reaches(g, a, a)
  {
    assert IsPath(g, [a]) && [a][0] == a;
  }

  lemma PathBehind(g: Graph, a: TypeId, p: seq<TypeId>)
    requires a in g && IsPath(g, p) && DependsOn(g[a], p[0])
    ensures IsPath(g, [a] + p)
  {
    var q := [a] + p;
    forall i | 0 <= i < |q| - 1 ensures DependsOn(g[q[i]], q[i + 1]) {
      if i > 0 {
        assert q[i] == p[i - 1] && q[i + 1] == p[i];
      }
    }
  }

  lemma ReachesStep(g: Graph, a: TypeId, b: TypeId, c: TypeId)
    requires a in g && b in g && DependsOn(g[a], b) && Reaches(g, b, c)
    ensures Reaches(g, a, c)
  {
    var p :| IsPath(g, p) && p[0] == b && p[|p| - 1] == c;
    PathBehind(g, a, p);
    var q := [a] + p;
    assert q[0] == a && q[|q| - 1] == c;
  }

  /** What `reference` renders when the types in `defined` were defined before the call. */
  function Render(g: Graph, r: Ref, defined: set<TypeId>): Expr
    requires Target(r).Some? ==> Target(r).value in g
  {
    match r
    case Primitive => PrimitiveTlv
    case ListOf(e) => ArrayTlv(Render(g, e, defined))
    case Undefined(isObject) => if isObject then NoArguments else PrimitiveTlv
    case Local(id) =>
      match g[id]
      case Enum => EnumTlv(id)
      case Bitmap(_) => BitmapTlv(id)
      case Struct(_) => if Hollow(g[id]) && id !in defined then NoArguments else StructTlv(id)
  }

  // ---- The shape of an expression -----------------------------------------------------------

  /** How many arrays surround the entry of a reference. */
  function ArraysOf(r: Ref): nat {
    if r.ListOf? then 1 + ArraysOf(r.entry) else 0
  }

  function Innermost(r: Ref): Ref {
    if r.ListOf? then Innermost(r.entry) else r
  }

  /** How many arrays an expression has around its innermost one. */
  function Wrappers(e: Expr): nat {
    if e.ArrayTlv? then 1 + Wrappers(e.entry) else 0
  }

  function Core(e: Expr): Expr {
    if e.ArrayTlv? then Core(e.entry) else e
  }

  /**
   * What the expression for a reference looks like: as many arrays as the reference has, around the
   * expression for its innermost type, which is that of the kind of the type.
   */
  ghost predicate Shaped(g: Graph, r: Ref, e: Expr) {
    && Wrappers(e) == ArraysOf(r)
    && (Innermost(r).Primitive? || Innermost(r) == Undefined(false) ==> Core(e).PrimitiveTlv?)
    && (Innermost(r) == Undefined(true) ==> Core(e).NoArguments?)
    && (Innermost(r).Local? ==>
          var id := Innermost(r).id;
          && id in g
          && (g[id].Enum? <==> Core(e) == EnumTlv(id))
          && (g[id].Bitmap? <==> Core(e) == BitmapTlv(id))
          && (g[id].Struct? <==> Core(e) == StructTlv(id) || Core(e).NoArguments?)
          && (Core(e).NoArguments? ==> Hollow(g[id])))
  }

  lemma {:induction false} InnermostTarget(r: Ref)
    ensures Target(r) == if Innermost(r).Local? then Some(Innermost(r).id) else None
  {
    if r.ListOf? {
      InnermostTarget(r.entry);
    }
  }

  /** Every reference is rendered in its shape. */
  lemma {:induction false} RenderShaped(g: Graph, r: Ref, defined: set<TypeId>)
    requires Target(r).Some? ==> Target(r).value in g
    ensures Shaped(g, r, Render(g, r, defined))
  {
    if r.ListOf? {
      RenderShaped(g, r.entry, defined);
    }
  }

  ghost predicate AllShaped(g: Graph, refs: seq<Ref>, body: seq<Expr>) {
    |body| == |refs| && forall j :: 0 <= j < |refs| ==> Shaped(g, refs[j], body[j])
  }

  lemma RendersShaped(g: Graph, refs: seq<Ref>, body: seq<Expr>)
    requires Renders(g, refs, body)
    ensures AllShaped(g, refs, body)
  {
    forall j | 0 <= j < |refs| ensures Shaped(g, refs[j], body[j]) {
      assert RendersAt(g, refs, body[j], j);
      RenderShaped(g, refs[j], {});
      if Target(refs[j]).Some? {
        RenderShaped(g, refs[j], {Target(refs[j]).value});
      }
    }
  }

  /** Rendering depends only on whether the type that is referred to was defined before. */
  lemma {:induction false} RenderDepends(g: Graph, r: Ref, d1: set<TypeId>, d2: set<TypeId>)
    requires Target(r).Some? ==> Target(r).value in g && (Target(r).value in d1 <==> Target(r).value in d2)
    ensures Render(g, r, d1) == Render(g, r, d2)
  {
    if r.ListOf? {
      RenderDepends(g, r.entry, d1, d2);
    }
  }

  /** The references of the fields that are not omitted. */
  function Live(fields: seq<Field>): (r: seq<Ref>)
    ensures r == [] <==> forall i :: 0 <= i < |fields| ==> fields[i].omitted
  {
    if fields == [] then []
    else
      var last := fields[|fields| - 1];
      var front := Live(fields[..|fields| - 1]);
      assert forall i :: 0 <= i < |fields| - 1 ==> fields[i] == fields[..|fields| - 1][i];
      if last.omitted then front else front + [last.ref]
  }

  /**
   * One expression for each reference, in order.  A struct without fields is rendered without a
   * name at most by the first reference to it, and by its name from then on.
   */
  ghost predicate Renders(g: Graph, refs: seq<Ref>, body: seq<Expr>) {
    |body| == |refs| && forall j :: 0 <= j < |refs| ==> RendersAt(g, refs, body[j], j)
  }

  ghost predicate RendersAt(g: Graph, refs: seq<Ref>, e: Expr, j: nat)
    requires j < |refs|
  {
    match Target(refs[j])
    case None => e == Render(g, refs[j], {})
    case Some(t) =>
      && t in g
      && (e == Render(g, refs[j], {t}) || (e == Render(g, refs[j], {}) && forall i :: 0 <= i < j ==> !Uses(refs[i], t)))
  }

  // ---- The walk in progress -------------------------------------------------------------

  /** Each definition and each interface occurs once. */
  ghost predicate Once(es: seq<Entry>) {
    forall i, j :: 0 <= i < j < |es| && es[i] == es[j] ==> es[i].Raw?
  }

  /** A struct defined at position `i` comes after everything its fields use, except on cycles. */
  ghost predicate OrderedAt(g: Graph, es: seq<Entry>, i: nat)
    requires i < |es|
  {
    es[i].Definition? && es[i].id in g && g[es[i].id].Struct? ==>
      forall d :: d in g && DependsOn(g[es[i].id], d) ==> Precedes(g, es[..i], d, es[i].id)
  }

  ghost predicate Precedes(g: Graph, before: seq<Entry>, d: TypeId, user: TypeId)
    requires d in g
  {
    Hollow(g[d]) || Definition(d) in before || Reaches(g, d, user)
  }

  ghost predicate Ordered(g: Graph, es: seq<Entry>) {
    forall i :: 0 <= i < |es| ==> OrderedAt(g, es, i)
  }

  /** The interface of a struct directly follows its definition. */
  ghost predicate Paired(g: Graph, es: seq<Entry>) {
    forall i :: 0 <= i < |es| && es[i].Definition? && es[i].id in g && g[es[i].id].Struct? ==>
      i + 1 < |es| && es[i + 1] == Interface(es[i].id)
  }

  /** The definitions of the structs in progress, innermost first. */
  ghost function Stack(pending: seq<TypeId>): (r: seq<Entry>)
    ensures |r| == |pending|
  {
    if pending == [] then []
    else [Definition(pending[|pending| - 1])] + Stack(pending[..|pending| - 1])
  }

  ghost function Top(pending: seq<TypeId>): Option<Entry> {
    if pending == [] then None else Some(Definition(pending[|pending| - 1]))
  }

  /** The innermost struct in progress, if any, depends on `id`. */
  ghost predicate UsedByTop(g: Graph, pending: seq<TypeId>, id: TypeId) {
    pending != [] ==> pending[|pending| - 1] in g && DependsOn(g[pending[|pending| - 1]], id)
  }

  /** The parts of the invariant of a walk. */
  datatype Aspect = Graphed | Single | Sorted | Pairs | Listing | Nesting | Closure | Bodies

  /**
   * The progress of a walk: the finished entries in order, the structs whose fields are being
   * walked (outermost first), and the types whose dependencies may not all be defined yet.
   */
  datatype Walk = Walk(
    done: seq<Entry>,
    defined: set<TypeId>,
    pending: seq<TypeId>,
    partial: set<TypeId>,
    bodies: map<TypeId, seq<Expr>>
  )
  {
    ghost predicate Finished(g: Graph, id: TypeId) {
      id in defined && id in g && !Hollow(g[id]) && id !in pending
    }

    /** The finished entries are exactly those of the finished types. */
    ghost predicate Listed(g: Graph) {
      && (forall id :: Definition(id) in done <==> Finished(g, id))
      && (forall id :: Interface(id) in done <==> Finished(g, id) && g[id].Struct?)
    }

    ghost predicate Nested(g: Graph) {
      && (pending != [] ==> IsPath(g, pending))
      && (forall i :: 0 <= i < |pending| ==> pending[i] in partial)
    }

    ghost predicate Closed(g: Graph) {
      && partial <= defined <= g.Keys
      && (forall a, b :: a in defined && a !in partial && DependsOn(g[a], b) ==> b in defined)
    }

    /** Each finished struct has one rendered expression for each of its live fields. */
    ghost predicate Bodied(g: Graph) {
      forall id :: Finished(g, id) && g[id].Struct? ==>
        id in bodies && Renders(g, Live(g[id].fields), bodies[id])
    }

    ghost predicate Has(g: Graph, aspect: Aspect) {
      match aspect
      case Graphed => WellFormed(g)
      case Single => Once(done)
      case Sorted => Ordered(g, done)
      case Pairs => Paired(g, done)
      case Listing => Listed(g)
      case Nesting => Nested(g)
      case Closure => Closed(g)
      case Bodies => Bodied(g)
    }

    ghost predicate Good(g: Graph) {
      forall aspect: Aspect :: Has(g, aspect)
    }

    /** `later` has finished more, with the same structs in progress. */
    ghost predicate GrowsTo(later: Walk) {
      done <= later.done && defined <= later.defined && pending == later.pending && partial == later.partial
    }
  }

  lemma OnceAppend(es: seq<Entry>, e: Entry)
    requires Once(es) && e !in es
    ensures Once(es + [e])
  {
  }

  lemma OrderedAppend(g: Graph, es: seq<Entry>, e: Entry)
    requires Ordered(g, es)
    requires e.Definition? && e.id in g && g[e.id].Struct? ==>
               forall d :: d in g && DependsOn(g[e.id], d) ==> Precedes(g, es, d, e.id)
    ensures Ordered(g, es + [e])
  {
    var fs := es + [e];
    forall i | 0 <= i < |fs| ensures OrderedAt(g, fs, i) {
      if i < |es| {
        assert OrderedAt(g, es, i);
        assert fs[..i] == es[..i];
      } else {
        assert fs[..i] == es;
      }
    }
  }

  /** A new entry goes right behind the finished ones. */
  lemma InsertionPoint(done: seq<Entry>, pending: seq<TypeId>, e: Entry)
    requires pending != [] ==> Definition(pending[|pending| - 1]) !in done
    ensures Inserted(done + Stack(pending), Top(pending), e) == done + [e] + Stack(pending)
  {
    if pending == [] {
      assert done + [] == done && done + [e] + [] == done + [e];
    } else {
      var x := Definition(pending[|pending| - 1]);
      InsertedBetween(done, x, Stack(pending[..|pending| - 1]), e);
    }
  }

  lemma PushStack(done: seq<Entry>, pending: seq<TypeId>, id: TypeId)
    ensures done + [Definition(id)] + Stack(pending) == done + Stack(pending + [id])
    ensures Top(pending + [id]) == Some(Definition(id))
  {
    assert (pending + [id])[..|pending|] == pending;
  }

  /** Taking the innermost struct in progress out of the list. */
  lemma RemoveTop(done: seq<Entry>, id: TypeId, pending: seq<TypeId>)
    requires Definition(id) !in done
    ensures var es := done + Stack(pending + [id]);
            var i := IndexOf(es, Definition(id));
            i == |done| && es[..i] + es[i + 1..] == done + Stack(pending)
  {
    assert (pending + [id])[..|pending|] == pending;
    var es := done + Stack(pending + [id]);
    assert es[|done|] == Definition(id) && es[..|done|] == done;
    IndexOfFirst(es, Definition(id), |done|);
  }

  /** A type that is not finished has no entry yet. */
  lemma NotListed(g: Graph, v: Walk, id: TypeId)
    requires v.Good(g) && !v.Finished(g, id)
    ensures Definition(id) !in v.done && Interface(id) !in v.done
  {
    assert v.Has(g, Listing);
  }

  lemma TopNotListed(g: Graph, v: Walk)
    requires v.Good(g) && v.pending != []
    ensures Definition(v.pending[|v.pending| - 1]) !in v.done
  {
    NotListed(g, v, v.pending[|v.pending| - 1]);
  }

  lemma DependencyKnown(g: Graph, v: Walk, a: TypeId, b: TypeId)
    requires v.Good(g) && a in g && DependsOn(g[a], b)
    ensures b in g && (g[a].Bitmap? ==> g[b].Enum?)
  {
    assert v.Has(g, Graphed);
  }

  /** Defining an enum or a bitmap, whose own dependencies need not precede it. */
  lemma AddLeaf(g: Graph, v: Walk, id: TypeId, w: Walk)
    requires v.Good(g) && id in g && !g[id].Struct? && id !in v.defined
    requires w == v.(done := v.done + [Definition(id)], defined := v.defined + {id}, partial := w.partial)
    requires w.partial == v.partial + {id} || (w.partial == v.partial && forall b :: !DependsOn(g[id], b))
    ensures w.Good(g)
  {
    NotListed(g, v, id);
    forall aspect: Aspect ensures w.Has(g, aspect) {
      assert v.Has(g, aspect) && v.Has(g, Closure);
      match aspect
      case Single => OnceAppend(v.done, Definition(id));
      case Sorted => OrderedAppend(g, v.done, Definition(id));
      case Listing => assert v.Has(g, Nesting);
      case _ =>
    }
  }

  /** All dependencies of a bitmap are defined. */
  lemma CompleteBitmap(g: Graph, v: Walk, id: TypeId)
    requires v.Good(g) && id in v.partial && id !in v.pending && id in g
    requires forall b :: DependsOn(g[id], b) ==> b in v.defined
    ensures v.(partial := v.partial - {id}).Good(g)
  {
    forall aspect: Aspect ensures v.(partial := v.partial - {id}).Has(g, aspect) {
      assert v.Has(g, aspect);
    }
  }

  /** Entering a struct that was not defined before. */
  lemma Enter(g: Graph, v: Walk, id: TypeId)
    requires v.Good(g) && id in g && id !in v.defined
    requires UsedByTop(g, v.pending, id)
    ensures v.(defined := v.defined + {id}, pending := v.pending + [id], partial := v.partial + {id}).Good(g)
  {
    var w := v.(defined := v.defined + {id}, pending := v.pending + [id], partial := v.partial + {id});
    forall aspect: Aspect ensures w.Has(g, aspect) {
      assert v.Has(g, aspect);
    }
  }

  /** A struct in progress uses a type that is finished or that leads back to it. */
  lemma UsedWhilePending(g: Graph, v: Walk, d: TypeId)
    requires v.Good(g) && v.pending != []
    requires d in v.defined && d in g
    ensures Precedes(g, v.done, d, v.pending[|v.pending| - 1])
  {
    if d in v.pending {
      assert v.Has(g, Nesting);
      var i :| 0 <= i < |v.pending| && v.pending[i] == d;
      var p := v.pending[i..];
      assert IsPath(g, p) && p[0] == d && p[|p| - 1] == v.pending[|v.pending| - 1];
    } else {
      assert v.Has(g, Listing);
    }
  }

  /** Leaving a struct: its definition and its interface become finished. */
  lemma Leave(g: Graph, v: Walk, id: TypeId, body: seq<Expr>)
    requires v.Good(g) && v.pending != [] && id == v.pending[|v.pending| - 1]
    requires id in g && g[id].Struct? && !Hollow(g[id])
    requires id !in v.pending[..|v.pending| - 1]
    requires forall b :: DependsOn(g[id], b) ==> b in v.defined
    requires Renders(g, Live(g[id].fields), body)
    ensures Left(v, id, body).Good(g)
  {
    var w := Left(v, id, body);
    NotListed(g, v, id);
    assert forall x :: x in v.pending <==> x == id || x in w.pending;
    forall aspect: Aspect ensures w.Has(g, aspect) {
      assert v.Has(g, aspect);
      match aspect
      case Single =>
        OnceAppend(v.done, Definition(id));
        OnceAppend(v.done + [Definition(id)], Interface(id));
      case Sorted =>
        forall d | d in g && DependsOn(g[id], d) ensures Precedes(g, v.done, d, id) {
          UsedWhilePending(g, v, d);
        }
        OrderedAppend(g, v.done, Definition(id));
        OrderedAppend(g, v.done + [Definition(id)], Interface(id));
      case Listing =>
        assert v.Has(g, Nesting) && v.Has(g, Closure);
      case _ =>
    }
  }

  ghost function Left(v: Walk, id: TypeId, body: seq<Expr>): Walk
    requires v.pending != []
  {
    Walk(v.done + [Definition(id)] + [Interface(id)], v.defined, v.pending[..|v.pending| - 1], v.partial - {id},
         v.bodies[id := body])
  }

  /** Leaving a struct without fields: its definition is taken back. */
  lemma LeaveHollow(g: Graph, v: Walk, id: TypeId)
    requires v.Good(g) && v.pending != [] && id == v.pending[|v.pending| - 1]
    requires id in g && Hollow(g[id])
    requires id !in v.pending[..|v.pending| - 1]
    ensures v.(pending := v.pending[..|v.pending| - 1], partial := v.partial - {id}).Good(g)
  {
    var w := v.(pending := v.pending[..|v.pending| - 1], partial := v.partial - {id});
    assert forall x :: x in v.pending <==> x == id || x in w.pending;
    forall aspect: Aspect ensures w.Has(g, aspect) {
      assert v.Has(g, aspect);
    }
  }

  /** Everything newly defined is reachable from `from`. */
  ghost predicate ReachedFrom(g: Graph, from: TypeId, before: set<TypeId>, after: set<TypeId>) {
    forall t :: t in after && t !in before ==> Reaches(g, from, t)
  }

  ghost predicate FieldsDefined(fields: seq<Field>, n: nat, defined: set<TypeId>)
    requires n <= |fields|
  {
    forall i, t :: 0 <= i < n && !fields[i].omitted && Uses(fields[i].ref, t) ==> t in defined
  }

  ghost predicate BitsDefined(bits: seq<BitField>, n: nat, defined: set<TypeId>)
    requires n <= |bits|
  {
    forall i, t :: 0 <= i < n && bits[i] == Range(Some(t)) ==> t in defined
  }

  lemma ReachedThrough(g: Graph, a: TypeId, b: TypeId, d0: set<TypeId>, d1: set<TypeId>, d2: set<TypeId>)
    requires a in g && b in g && DependsOn(g[a], b)
    requires ReachedFrom(g, a, d0, d1) && ReachedFrom(g, b, d1, d2)
    ensures ReachedFrom(g, a, d0, d2)
  {
    forall t | t in d2 && t !in d0 ensures Reaches(g, a, t) {
      if t !in d1 {
        ReachesStep(g, a, b, t);
      }
    }
  }

  lemma RendersNext(g: Graph, refs: seq<Ref>, r: Ref, body: seq<Expr>, tlv: Expr, defined: set<TypeId>)
    requires Renders(g, refs, body) && AllDefined(refs, defined)
    requires Target(r).Some? ==> Target(r).value in g
    requires tlv == Render(g, r, defined)
    ensures Renders(g, refs + [r], body + [tlv])
  {
    var next, more := refs + [r], body + [tlv];
    forall j | 0 <= j < |next| ensures RendersAt(g, next, more[j], j) {
      assert forall k :: 0 <= k < |refs| ==> next[k] == refs[k];
      if j < |refs| {
        assert RendersAt(g, refs, body[j], j);
      } else {
        RenderDepends(g, r, defined, if Target(r).Some? && Target(r).value in defined then {Target(r).value} else {});
      }
    }
  }

  /** The targets of all references are defined. */
  ghost predicate AllDefined(refs: seq<Ref>, defined: set<TypeId>) {
    forall j :: 0 <= j < |refs| && Target(refs[j]).Some? ==> Target(refs[j]).value in defined
  }

  // ---- Where structs without fields are rendered -----------------------------------------

  /** A rendered expression: that of a reference, or one in the body of a struct. */
  datatype Site = AtReference(index: nat) | AtField(owner: TypeId, position: nat)

  /** For each struct without fields, where the first reference to it was rendered. */
  type Trace = map<TypeId, Site>

  /** The live field of a struct that a site stands for refers to `h`. */
  ghost predicate RefersTo(g: Graph, site: Site, h: TypeId) {
    site.AtField? ==>
      && site.owner in g && g[site.owner].Struct? && site.position < |Live(g[site.owner].fields)|
      && Uses(Live(g[site.owner].fields)[site.position], h)
  }

  /** A struct without fields is rendered without its name exactly at the site of its first reference. */
  ghost predicate SiteOk(g: Graph, r: Ref, e: Expr, site: Site, trace: Trace) {
    Target(r).Some? && Target(r).value in g && Hollow(g[Target(r).value]) ==>
      Target(r).value in trace && (Named(e).None? <==> trace[Target(r).value] == site)
  }

  ghost predicate BodyOk(g: Graph, id: TypeId, refs: seq<Ref>, body: seq<Expr>, trace: Trace) {
    |body| == |refs| && forall k :: 0 <= k < |refs| ==> SiteOk(g, refs[k], body[k], AtField(id, k), trace)
  }

  datatype TracePart = Traces | Sites | Inside

  ghost predicate TraceHas(part: TracePart, g: Graph, defined: set<TypeId>, bodies: map<TypeId, seq<Expr>>, trace: Trace) {
    match part
    case Traces => forall h :: h in trace <==> h in defined && h in g && Hollow(g[h])
    case Sites => forall h :: h in trace ==> RefersTo(g, trace[h], h) && (trace[h].AtField? ==> trace[h].owner in defined)
    case Inside => forall id :: id in bodies ==>
                     id in defined && id in g && g[id].Struct? && BodyOk(g, id, Live(g[id].fields), bodies[id], trace)
  }

  ghost predicate Traced(g: Graph, defined: set<TypeId>, bodies: map<TypeId, seq<Expr>>, trace: Trace) {
    forall part :: TraceHas(part, g, defined, bodies, trace)
  }

  /** Sites that are traced stay; new ones are at `site` or in structs that were not defined before. */
  ghost predicate TraceGrows(before: Trace, defined: set<TypeId>, after: Trace, target: Option<TypeId>, site: Site) {
    && (forall h :: h in before ==> h in after && after[h] == before[h])
    && (forall h :: h in after && h !in before ==>
          if target == Some(h) then after[h] == site else after[h].AtField? && after[h].owner !in defined)
  }

  /** The same, with new sites in the struct `id` as well. */
  ghost predicate TraceGrowsIn(before: Trace, defined: set<TypeId>, after: Trace, id: TypeId) {
    && (forall h :: h in before ==> h in after && after[h] == before[h])
    && (forall h :: h in after && h !in before ==>
          after[h].AtField? && (after[h].owner == id || after[h].owner !in defined))
  }

  lemma TraceThrough(t0: Trace, d0: set<TypeId>, t1: Trace, d1: set<TypeId>, t2: Trace, id: TypeId, target: Option<TypeId>, k: nat)
    requires TraceGrowsIn(t0, d0, t1, id) && d0 <= d1 && TraceGrows(t1, d1, t2, target, AtField(id, k))
    ensures TraceGrowsIn(t0, d0, t2, id)
  {
  }

  lemma TraceOf(t0: Trace, d0: set<TypeId>, t1: Trace, t2: Trace, id: TypeId, site: Site)
    requires id !in d0 && (t1 == t0 || (id !in t0 && t1 == t0[id := site]))
    requires TraceGrowsIn(t1, d0 + {id}, t2, id) && (id in t2 ==> id in t1)
    ensures TraceGrows(t0, d0, t2, Some(id), site)
  {
  }

  /** Defining a type, with its site if it is a struct without fields. */
  lemma TraceDefined(g: Graph, d0: set<TypeId>, bodies: map<TypeId, seq<Expr>>, t0: Trace, id: TypeId, t1: Trace, site: Site)
    requires Traced(g, d0, bodies, t0) && id in g && id !in d0
    requires t1 == if Hollow(g[id]) then t0[id := site] else t0
    requires Hollow(g[id]) ==> RefersTo(g, site, id) && (site.AtField? ==> site.owner in d0)
    ensures Traced(g, d0 + {id}, bodies, t1) && id !in t0
    ensures forall h :: h in t1 && t1[h].AtField? ==> t1[h].owner != id
  {
    assert TraceHas(Traces, g, d0, bodies, t0) && TraceHas(Sites, g, d0, bodies, t0) && TraceHas(Inside, g, d0, bodies, t0);
    forall s | s in bodies ensures BodyOk(g, s, Live(g[s].fields), bodies[s], t1) {
      var refs := Live(g[s].fields);
      forall k | 0 <= k < |refs| ensures SiteOk(g, refs[k], bodies[s][k], AtField(s, k), t1) {
        assert SiteOk(g, refs[k], bodies[s][k], AtField(s, k), t0);
      }
    }
    assert TraceHas(Inside, g, d0 + {id}, bodies, t1);
    assert TraceHas(Sites, g, d0 + {id}, bodies, t1);
    assert TraceHas(Traces, g, d0 + {id}, bodies, t1);
  }

  /** Finishing the body of a struct. */
  lemma TraceBody(g: Graph, defined: set<TypeId>, bodies: map<TypeId, seq<Expr>>, trace: Trace, id: TypeId, body: seq<Expr>)
    requires Traced(g, defined, bodies, trace) && id in defined && id in g && g[id].Struct?
    requires BodyOk(g, id, Live(g[id].fields), body, trace)
    ensures Traced(g, defined, bodies[id := body], trace)
  {
    assert TraceHas(Traces, g, defined, bodies, trace) && TraceHas(Sites, g, defined, bodies, trace);
    assert TraceHas(Inside, g, defined, bodies, trace);
    assert TraceHas(Traces, g, defined, bodies[id := body], trace) && TraceHas(Sites, g, defined, bodies[id := body], trace);
    assert TraceHas(Inside, g, defined, bodies[id := body], trace);
  }

  /** The sites traced in the struct `id` are among the first `n`. */
  ghost predicate SitesBelow(trace: Trace, id: TypeId, n: nat) {
    forall h :: h in trace && trace[h].AtField? && trace[h].owner == id ==> trace[h].position < n
  }

  /** What rendering one reference means for its site. */
  lemma SiteRendered(g: Graph, r: Ref, d0: set<TypeId>, t0: Trace, t1: Trace, site: Site)
    requires Target(r).Some? ==> Target(r).value in g
    requires Target(r).Some? && Hollow(g[Target(r).value]) ==> (Target(r).value in t0 <==> Target(r).value in d0) && Target(r).value in t1
    requires TraceGrows(t0, d0, t1, Target(r), site) && forall h :: h in t0 ==> t0[h] != site
    ensures SiteOk(g, r, Render(g, r, d0), site, t1)
  {
    NamedRender(g, r, d0);
  }

  /** One more expression of a body. */
  lemma BodyNext(g: Graph, id: TypeId, refs: seq<Ref>, body: seq<Expr>, r: Ref, tlv: Expr, t0: Trace, d0: set<TypeId>, t1: Trace)
    requires BodyOk(g, id, refs, body, t0) && SitesBelow(t0, id, |refs|) && id in d0
    requires TraceGrows(t0, d0, t1, Target(r), AtField(id, |refs|)) && SiteOk(g, r, tlv, AtField(id, |refs|), t1)
    ensures BodyOk(g, id, refs + [r], body + [tlv], t1) && SitesBelow(t1, id, |refs| + 1)
  {
    var next, more := refs + [r], body + [tlv];
    forall k | 0 <= k < |next| ensures SiteOk(g, next[k], more[k], AtField(id, k), t1) {
      if k < |refs| {
        assert SiteOk(g, refs[k], body[k], AtField(id, k), t0);
      }
    }
  }

  lemma {:induction false} LivePrefix(fields: seq<Field>, i: nat)
    requires i <= |fields|
    ensures Live(fields[..i]) <= Live(fields)
    decreases |fields|
  {
    if i == |fields| {
      assert fields[..i] == fields;
    } else {
      LivePrefix(fields[..|fields| - 1], i);
      assert fields[..|fields| - 1][..i] == fields[..i];
    }
  }

  lemma LiveNext(fields: seq<Field>, i: nat)
    requires i < |fields|
    ensures Live(fields[..i + 1]) == Live(fields[..i]) + if fields[i].omitted then [] else [fields[i].ref]
  {
    assert fields[..i + 1][..i] == fields[..i];
  }

  /** The place of a field that is not omitted among the live ones. */
  lemma LiveAt(fields: seq<Field>, i: nat)
    requires i < |fields| && !fields[i].omitted
    ensures |Live(fields[..i])| < |Live(fields)| && Live(fields)[|Live(fields[..i])|] == fields[i].ref
  {
    LiveNext(fields, i);
    LivePrefix(fields, i + 1);
  }

  // ---- The fields of a struct in progress -------------------------------------------------

  datatype FieldPart = Rendered | Known | Reached | Sited | Grown

  /** What holds when the first `i` fields of the struct `id` have been walked. */
  ghost predicate FieldHas(part: FieldPart, g: Graph, id: TypeId, i: nat, body: seq<Expr>, d0: set<TypeId>, defined: set<TypeId>,
                           t0: Trace, trace: Trace)
    requires id in g && g[id].Struct? && i <= |g[id].fields|
  {
    var fields := g[id].fields;
    match part
    case Rendered => Renders(g, Live(fields[..i]), body)
    case Known => FieldsDefined(fields, i, defined) && AllDefined(Live(fields[..i]), defined)
    case Reached => ReachedFrom(g, id, d0, defined)
    case Sited => BodyOk(g, id, Live(fields[..i]), body, trace) && SitesBelow(trace, id, |Live(fields[..i])|)
    case Grown => TraceGrowsIn(t0, d0, trace, id) && d0 <= defined
  }

  ghost predicate FieldsWalked(g: Graph, id: TypeId, i: nat, body: seq<Expr>, d0: set<TypeId>, defined: set<TypeId>,
                               t0: Trace, trace: Trace)
  {
    id in g && g[id].Struct? && i <= |g[id].fields| && forall part :: FieldHas(part, g, id, i, body, d0, defined, t0, trace)
  }

  lemma NoFieldsWalked(g: Graph, id: TypeId, d0: set<TypeId>, t0: Trace)
    requires id in g && g[id].Struct? && SitesBelow(t0, id, 0)
    ensures FieldsWalked(g, id, 0, [], d0, d0, t0, t0)
  {
    assert g[id].fields[..0] == [];
  }

  lemma FieldOmitted(g: Graph, id: TypeId, i: nat, body: seq<Expr>, d0: set<TypeId>, defined: set<TypeId>, t0: Trace, trace: Trace)
    requires FieldsWalked(g, id, i, body, d0, defined, t0, trace) && i < |g[id].fields| && g[id].fields[i].omitted
    ensures FieldsWalked(g, id, i + 1, body, d0, defined, t0, trace)
  {
    LiveNext(g[id].fields, i);
    var n := i + 1;
    assert Live(g[id].fields[..n]) == Live(g[id].fields[..i]);
    forall part ensures FieldHas(part, g, id, n, body, d0, defined, t0, trace) {
      assert FieldHas(part, g, id, i, body, d0, defined, t0, trace);
    }
  }

  /** One more field, rendered when `d1` was defined and `t1` traced. */
  lemma FieldNext(g: Graph, id: TypeId, i: nat, body: seq<Expr>, tlv: Expr, d0: set<TypeId>, d1: set<TypeId>, d2: set<TypeId>,
                  t0: Trace, t1: Trace, t2: Trace)
    requires FieldsWalked(g, id, i, body, d0, d1, t0, t1) && i < |g[id].fields| && !g[id].fields[i].omitted && id in d1 && d1 <= d2
    requires var r := g[id].fields[i].ref;
             && (Target(r).Some? ==> Target(r).value in g && DependsOn(g[id], Target(r).value) && Target(r).value in d2 &&
                                     ReachedFrom(g, Target(r).value, d1, d2))
             && (Target(r).None? ==> d2 == d1)
             && tlv == Render(g, r, d1)
             && TraceGrows(t1, d1, t2, Target(r), AtField(id, |body|)) && SiteOk(g, r, tlv, AtField(id, |body|), t2)
    ensures FieldsWalked(g, id, i + 1, body + [tlv], d0, d2, t0, t2)
  {
    var fields := g[id].fields;
    var r, refs, n, more := fields[i].ref, Live(fields[..i]), i + 1, body + [tlv];
    LiveNext(fields, i);
    assert FieldHas(Rendered, g, id, i, body, d0, d1, t0, t1);
    forall part ensures FieldHas(part, g, id, n, more, d0, d2, t0, t2) {
      assert FieldHas(part, g, id, i, body, d0, d1, t0, t1);
      match part
      case Rendered =>
        assert FieldHas(Known, g, id, i, body, d0, d1, t0, t1);
        RendersNext(g, refs, r, body, tlv, d1);
      case Known => DefinedNext(refs, r, d1, d2);
      case Reached =>
        if Target(r).Some? {
          ReachedThrough(g, id, Target(r).value, d0, d1, d2);
        }
      case Sited => BodyNext(g, id, refs, body, r, tlv, t1, d1, t2);
      case Grown => TraceThrough(t0, d0, t1, d1, t2, id, Target(r), |body|);
    }
  }

  lemma AllFieldsWalked(g: Graph, id: TypeId, body: seq<Expr>, d0: set<TypeId>, defined: set<TypeId>, t0: Trace, trace: Trace)
    requires id in g && g[id].Struct? && FieldsWalked(g, id, |g[id].fields|, body, d0, defined, t0, trace)
    ensures Renders(g, Live(g[id].fields), body) && FieldsDefined(g[id].fields, |g[id].fields|, defined)
    ensures ReachedFrom(g, id, d0, defined) && BodyOk(g, id, Live(g[id].fields), body, trace) && TraceGrowsIn(t0, d0, trace, id)
  {
    var n := |g[id].fields|;
    assert g[id].fields[..n] == g[id].fields;
    assert FieldHas(Rendered, g, id, n, body, d0, defined, t0, trace) && FieldHas(Known, g, id, n, body, d0, defined, t0, trace);
    assert FieldHas(Reached, g, id, n, body, d0, defined, t0, trace) && FieldHas(Sited, g, id, n, body, d0, defined, t0, trace);
    assert FieldHas(Grown, g, id, n, body, d0, defined, t0, trace);
  }

  /** The site of the next field: it refers to what the field refers to, and nothing is traced there. */
  lemma FieldSite(g: Graph, id: TypeId, i: nat, body: seq<Expr>, d0: set<TypeId>, defined: set<TypeId>, t0: Trace, trace: Trace)
    requires FieldsWalked(g, id, i, body, d0, defined, t0, trace) && i < |g[id].fields| && !g[id].fields[i].omitted
    ensures forall h :: h in trace ==> trace[h] != AtField(id, |body|)
    ensures Target(g[id].fields[i].ref).Some? ==>
              var t := Target(g[id].fields[i].ref).value;
              DependsOn(g[id], t) && RefersTo(g, AtField(id, |body|), t)
  {
    assert FieldHas(Rendered, g, id, i, body, d0, defined, t0, trace) && FieldHas(Sited, g, id, i, body, d0, defined, t0, trace);
    LiveAt(g[id].fields, i);
  }

  // ---- What a whole generation emits ----------------------------------------------------

  ghost predicate Reachable(g: Graph, refs: seq<Ref>, t: TypeId) {
    exists i :: 0 <= i < |refs| && Target(refs[i]).Some? && Reaches(g, Target(refs[i]).value, t)
  }

  /** Defined types are closed under dependency once nothing is in progress. */
  lemma {:induction false} ClosedAlongPath(g: Graph, w: Walk, p: seq<TypeId>)
    requires w.Closed(g) && w.partial == {}
    requires IsPath(g, p) && p[0] in w.defined
    ensures p[|p| - 1] in w.defined
  {
    if |p| == 1 {
    } else {
      assert DependsOn(g[p[0]], p[1]);
      var q := p[1..];
      assert forall i :: 0 <= i < |q| ==> q[i] == p[i + 1];
      ClosedAlongPath(g, w, q);
    }
  }

  /** Every struct is defined after the definitions of all types that its fields use. */
  ghost predicate DependencyOrder(g: Graph, es: seq<Entry>) {
    forall i :: 0 <= i < |es| && es[i].Definition? && es[i].id in g && g[es[i].id].Struct? ==>
      forall d :: d in g && DependsOn(g[es[i].id], d) ==> Hollow(g[d]) || Definition(d) in es[..i]
  }

  ghost predicate IsCycle(g: Graph, p: seq<TypeId>) {
    IsPath(g, p) && |p| > 1 && p[0] == p[|p| - 1]
  }

  /** The types on a cycle are structs with fields. */
  lemma OnCycle(g: Graph, p: seq<TypeId>, i: nat)
    requires WellFormed(g) && IsCycle(g, p) && i < |p|
    ensures g[p[i]].Struct? && !Hollow(g[p[i]])
  {
    var k := if i == |p| - 1 then 0 else i;
    var n := if k + 1 == |p| - 1 then 0 else k + 1;
    assert DependsOn(g[p[k]], p[k + 1]) && DependsOn(g[p[n]], p[n + 1]);
  }

  /** All types on a cycle through a defined type are emitted. */
  lemma CycleListed(g: Graph, w: Walk, p: seq<TypeId>, i: nat)
    requires w.Good(g) && w.pending == [] && w.partial == {}
    requires IsCycle(g, p) && p[0] in w.defined && i < |p|
    ensures Definition(p[i]) in w.done && g[p[i]].Struct? && !Hollow(g[p[i]])
  {
    assert w.Has(g, Closure) && w.Has(g, Listing) && w.Has(g, Graphed);
    OnCycle(g, p, i);
    assert IsPath(g, p[..i + 1]);
    ClosedAlongPath(g, w, p[..i + 1]);
  }

  /** In dependency order, the next type on a cycle is emitted earlier. */
  lemma NextIsEarlier(g: Graph, es: seq<Entry>, a: TypeId, b: TypeId)
    requires DependencyOrder(g, es) && a in g && b in g && g[a].Struct? && DependsOn(g[a], b) && !Hollow(g[b])
    requires Definition(a) in es
    ensures IndexOf(es, Definition(b)) < IndexOf(es, Definition(a))
  {
    var at := IndexOf(es, Definition(a));
    assert Definition(b) in es[..at];
    var j :| 0 <= j < at && es[j] == Definition(b);
  }

  /** In dependency order, positions fall along a cycle. */
  lemma {:induction false} PositionsFall(g: Graph, w: Walk, p: seq<TypeId>, i: nat)
    requires w.Good(g) && w.pending == [] && w.partial == {}
    requires DependencyOrder(g, w.done) && IsCycle(g, p) && p[0] in w.defined
    requires 0 < i < |p|
    ensures IndexOf(w.done, Definition(p[i])) < IndexOf(w.done, Definition(p[0]))
  {
    CycleListed(g, w, p, i);
    CycleListed(g, w, p, i - 1);
    assert DependsOn(g[p[i - 1]], p[i]);
    NextIsEarlier(g, w.done, p[i - 1], p[i]);
    if i > 1 {
      PositionsFall(g, w, p, i - 1);
    }
  }

  lemma OrderExcludesCycles(g: Graph, w: Walk, p: seq<TypeId>)
    requires w.Good(g) && w.pending == [] && w.partial == {}
    requires DependencyOrder(g, w.done) && p != [] && p[0] in w.defined
    ensures !IsCycle(g, p)
  {
    if IsCycle(g, p) {
      PositionsFall(g, w, p, |p| - 1);
    }
  }

  lemma ClosesCycle(g: Graph, t: TypeId, q: seq<TypeId>)
    requires t in g && IsPath(g, q) && q[|q| - 1] == t && DependsOn(g[t], q[0])
    ensures IsCycle(g, [t] + q)
  {
    PathBehind(g, t, q);
  }

  /** A use that is not preceded by its definition lies on a cycle. */
  lemma MisplacedOnCycle(g: Graph, w: Walk, i: nat, d: TypeId) returns (p: seq<TypeId>)
    requires Ordered(g, w.done) && w.Listed(g) && i < |w.done|
    requires w.done[i].Definition? && w.done[i].id in g && g[w.done[i].id].Struct? && d in g
    requires DependsOn(g[w.done[i].id], d) && !Hollow(g[d]) && Definition(d) !in w.done[..i]
    ensures IsCycle(g, p) && p[0] in w.defined
  {
    var t := w.done[i].id;
    assert OrderedAt(g, w.done, i);
    assert Precedes(g, w.done[..i], d, t);
    var q :| IsPath(g, q) && q[0] == d && q[|q| - 1] == t;
    ClosesCycle(g, t, q);
    p := [t] + q;
  }

  /** Definitions come out in dependency order exactly when no cycle goes through a defined type. */
  lemma OrderedIffAcyclic(g: Graph, w: Walk)
    requires w.Good(g) && w.pending == [] && w.partial == {}
    ensures DependencyOrder(g, w.done) <==> !exists p :: IsCycle(g, p) && p[0] in w.defined
  {
    if DependencyOrder(g, w.done) {
      forall p | IsCycle(g, p) && p[0] in w.defined ensures false {
        OrderExcludesCycles(g, w, p);
      }
    } else {
      assert w.Has(g, Sorted) && w.Has(g, Listing);
      var i, d :| 0 <= i < |w.done| && w.done[i].Definition? && w.done[i].id in g && g[w.done[i].id].Struct? && d in g
        && DependsOn(g[w.done[i].id], d) && !Hollow(g[d]) && Definition(d) !in w.done[..i];
      var p := MisplacedOnCycle(g, w, i, d);
    }
  }

  ghost predicate AllReachable(g: Graph, refs: seq<Ref>, defined: set<TypeId>) {
    forall t :: t in defined ==> Reachable(g, refs, t)
  }

  lemma ReachableMore(g: Graph, front: seq<Ref>, next: seq<Ref>, t: TypeId)
    requires front <= next && Reachable(g, front, t)
    ensures Reachable(g, next, t)
  {
    var j :| 0 <= j < |front| && Target(front[j]).Some? && Reaches(g, Target(front[j]).value, t);
    assert next[j] == front[j];
  }

  lemma ReachableByLast(g: Graph, refs: seq<Ref>, r: Ref, t: TypeId)
    requires Target(r).Some? && Reaches(g, Target(r).value, t)
    ensures Reachable(g, refs + [r], t)
  {
    assert (refs + [r])[|refs|] == r;
  }

  lemma ReachableNext(g: Graph, refs: seq<Ref>, r: Ref, t: TypeId)
    requires Reachable(g, refs, t) || (Target(r).Some? && Reaches(g, Target(r).value, t))
    ensures Reachable(g, refs + [r], t)
  {
    if Reachable(g, refs, t) {
      ReachableMore(g, refs, refs + [r], t);
    } else {
      ReachableByLast(g, refs, r, t);
    }
  }

  lemma DefinedNext(refs: seq<Ref>, r: Ref, before: set<TypeId>, after: set<TypeId>)
    requires before <= after && AllDefined(refs, before) && (Target(r).Some? ==> Target(r).value in after)
    ensures AllDefined(refs + [r], after)
  {
  }

  /** One more reference. */
  lemma ReachedNext(g: Graph, refs: seq<Ref>, r: Ref, before: set<TypeId>, after: set<TypeId>)
    requires AllReachable(g, refs, before)
    requires if Target(r).Some? then ReachedFrom(g, Target(r).value, before, after) else before == after
    ensures AllReachable(g, refs + [r], after)
  {
    forall t | t in after ensures Reachable(g, refs + [r], t) {
      ReachableNext(g, refs, r, t);
    }
  }

  /** Closed and reached types are exactly the reachable ones. */
  lemma DefinedIsReachable(g: Graph, refs: seq<Ref>, w: Walk)
    requires w.Good(g) && w.pending == [] && w.partial == {}
    requires AllDefined(refs, w.defined) && AllReachable(g, refs, w.defined)
    ensures forall t :: t in w.defined <==> t in g && Reachable(g, refs, t)
    ensures forall id :: Definition(id) in w.done <==> id in g && Reachable(g, refs, id) && !Hollow(g[id])
  {
    assert w.Has(g, Closure) && w.Has(g, Listing);
    forall t | t in g && Reachable(g, refs, t) ensures t in w.defined {
      ReachableIsDefined(g, refs, w, t);
    }
  }

  /** The types that references lead to. */
  ghost function ReachableTypes(g: Graph, refs: seq<Ref>): set<TypeId> {
    set t | t in g.Keys && Reachable(g, refs, t)
  }

  /** Each reference is rendered knowing exactly the types that the earlier ones lead to. */
  ghost predicate RendersInTurn(g: Graph, refs: seq<Ref>, tlvs: seq<Expr>) {
    |tlvs| == |refs| && forall j :: 0 <= j < |refs| ==> RendersAfter(g, refs[..j], refs[j], tlvs[j])
  }

  ghost predicate RendersAfter(g: Graph, earlier: seq<Ref>, r: Ref, e: Expr) {
    (Target(r).Some? ==> Target(r).value in g) && e == Render(g, r, ReachableTypes(g, earlier))
  }

  lemma InTurnNext(g: Graph, refs: seq<Ref>, r: Ref, tlvs: seq<Expr>, tlv: Expr)
    requires RendersInTurn(g, refs, tlvs) && RendersAfter(g, refs, r, tlv)
    ensures RendersInTurn(g, refs + [r], tlvs + [tlv])
  {
    var next := refs + [r];
    forall j | 0 <= j < |next| ensures RendersAfter(g, next[..j], next[j], (tlvs + [tlv])[j]) {
      if j < |refs| {
        assert next[..j] == refs[..j] && RendersAfter(g, refs[..j], refs[j], tlvs[j]);
      } else {
        assert next[..j] == refs;
      }
    }
  }

  lemma KnownTypes(g: Graph, refs: seq<Ref>, w: Walk)
    requires w.Good(g) && w.pending == [] && w.partial == {}
    requires AllDefined(refs, w.defined) && AllReachable(g, refs, w.defined)
    ensures w.defined == ReachableTypes(g, refs)
  {
    DefinedIsReachable(g, refs, w);
  }

  lemma ReachableIsDefined(g: Graph, refs: seq<Ref>, w: Walk, t: TypeId)
    requires w.Closed(g) && w.partial == {} && AllDefined(refs, w.defined) && Reachable(g, refs, t)
    ensures t in w.defined
  {
    var i :| 0 <= i < |refs| && Target(refs[i]).Some? && Reaches(g, Target(refs[i]).value, t);
    var p :| IsPath(g, p) && p[0] == Target(refs[i]).value && p[|p| - 1] == t;
    ClosedAlongPath(g, w, p);
  }

  /**
   * What a generator has emitted for a list of references: every reachable type once, each struct
   * with its rendered fields and its interface, and in dependency order unless there is a cycle.
   */
  ghost predicate GeneratedFrom(g: Graph, refs: seq<Ref>, es: seq<Entry>, bodies: map<TypeId, seq<Expr>>) {
    && Once(es) && Paired(g, es)
    && (forall id :: Definition(id) in es <==> id in g && Reachable(g, refs, id) && !Hollow(g[id]))
    && (forall id :: id in g && Definition(id) in es && g[id].Struct? ==>
          id in bodies && Renders(g, Live(g[id].fields), bodies[id]))
    && (DependencyOrder(g, es) <==> !exists p :: IsCycle(g, p) && Reachable(g, refs, p[0]))
  }

  /** The body of every emitted struct has one expression for each live field, in its shape. */
  ghost predicate BodiesShaped(g: Graph, es: seq<Entry>, bodies: map<TypeId, seq<Expr>>) {
    forall id :: id in g && Definition(id) in es && g[id].Struct? ==>
      id in bodies && AllShaped(g, Live(g[id].fields), bodies[id])
  }

  lemma OutputShaped(g: Graph, refs: seq<Ref>, tlvs: seq<Expr>, es: seq<Entry>, bodies: map<TypeId, seq<Expr>>)
    requires Renders(g, refs, tlvs) && GeneratedFrom(g, refs, es, bodies)
    ensures AllShaped(g, refs, tlvs) && BodiesShaped(g, es, bodies)
  {
    RendersShaped(g, refs, tlvs);
    forall id | id in g && Definition(id) in es && g[id].Struct? ensures AllShaped(g, Live(g[id].fields), bodies[id]) {
      RendersShaped(g, Live(g[id].fields), bodies[id]);
    }
  }

  lemma Completed(g: Graph, refs: seq<Ref>, w: Walk)
    requires w.Good(g) && w.pending == [] && w.partial == {}
    requires AllDefined(refs, w.defined) && AllReachable(g, refs, w.defined)
    ensures GeneratedFrom(g, refs, w.done, w.bodies)
  {
    DefinedIsReachable(g, refs, w);
    OrderedIffAcyclic(g, w);
    assert w.Has(g, Single) && w.Has(g, Pairs) && w.Has(g, Listing) && w.Has(g, Bodies);
  }

  /** A field of a struct that is not omitted is of type `t` within its arrays, or `t` is the enum of a range of bits. */
  ghost predicate Mentions(d: TypeDef, t: TypeId) {
    || (d.Struct? && exists f :: f in d.fields && !f.omitted && Innermost(f.ref) == Local(t))
    || (d.Bitmap? && Range(Some(t)) in d.bits)
  }

  /** A chain of types from one of the references, each mentioned by the one before. */
  ghost predicate IsChain(g: Graph, refs: seq<Ref>, p: seq<TypeId>) {
    && p != [] && (forall i :: 0 <= i < |p| ==> p[i] in g)
    && (exists r :: r in refs && Innermost(r) == Local(p[0]))
    && (forall i :: 0 <= i < |p| - 1 ==> Mentions(g[p[i]], p[i + 1]))
  }

  lemma {:induction false} MentionsIff(d: TypeDef, t: TypeId)
    ensures DependsOn(d, t) <==> Mentions(d, t)
  {
    if d.Struct? {
      forall f | f in d.fields ensures Uses(f.ref, t) <==> Innermost(f.ref) == Local(t) {
        InnermostTarget(f.ref);
      }
      forall i | 0 <= i < |d.fields| && !d.fields[i].omitted && Uses(d.fields[i].ref, t) ensures Mentions(d, t) {
        assert d.fields[i] in d.fields;
      }
    }
  }

  lemma {:induction false} ChainIff(g: Graph, refs: seq<Ref>, p: seq<TypeId>)
    requires p != []
    ensures IsChain(g, refs, p) <==> IsPath(g, p) && exists i :: 0 <= i < |refs| && Target(refs[i]) == Some(p[0])
  {
    forall r | r in refs ensures Target(r) == Some(p[0]) <==> Innermost(r) == Local(p[0]) {
      InnermostTarget(r);
    }
    forall i | 0 <= i < |p| - 1 && p[i] in g ensures DependsOn(g[p[i]], p[i + 1]) <==> Mentions(g[p[i]], p[i + 1]) {
      MentionsIff(g[p[i]], p[i + 1]);
    }
    forall i | 0 <= i < |refs| ensures refs[i] in refs {
    }
  }

  /** The references lead to exactly those types that a chain leads to. */
  lemma {:induction false} LeadsIff(g: Graph, refs: seq<Ref>, t: TypeId)
    ensures Reachable(g, refs, t) <==> exists p :: IsChain(g, refs, p) && p[|p| - 1] == t
  {
    if Reachable(g, refs, t) {
      var i :| 0 <= i < |refs| && Target(refs[i]).Some? && Reaches(g, Target(refs[i]).value, t);
      var p :| IsPath(g, p) && p[0] == Target(refs[i]).value && p[|p| - 1] == t;
      ChainIff(g, refs, p);
    }
    if exists p :: IsChain(g, refs, p) && p[|p| - 1] == t {
      var p :| IsChain(g, refs, p) && p[|p| - 1] == t;
      ChainIff(g, refs, p);
      assert Reaches(g, p[0], t);
    }
  }

  /** A generation has defined a type exactly if a chain leads to it and it is no struct whose fields are all omitted. */
  lemma {:induction false} EmittedIff(g: Graph, refs: seq<Ref>, es: seq<Entry>, bodies: map<TypeId, seq<Expr>>, t: TypeId)
    requires GeneratedFrom(g, refs, es, bodies)
    ensures Definition(t) in es <==>
            && (exists p :: IsChain(g, refs, p) && p[|p| - 1] == t)
            && (g[t].Struct? ==> exists f :: f in g[t].fields && !f.omitted)
  {
    LeadsIff(g, refs, t);
    if exists p :: IsChain(g, refs, p) && p[|p| - 1] == t {
      if g[t].Struct? && exists f :: f in g[t].fields && !f.omitted {
        assert !Hollow(g[t]);
      } else if g[t].Struct? {
        forall i | 0 <= i < |g[t].fields| ensures g[t].fields[i].omitted {
          assert g[t].fields[i] in g[t].fields;
        }
      }
    }
  }

  /** The type an expression names. */
  function Named(e: Expr): Option<TypeId> {
    match e
    case ArrayTlv(entry) => Named(entry)
    case EnumTlv(id) => Some(id)
    case BitmapTlv(id) => Some(id)
    case StructTlv(id) => Some(id)
    case _ => None
  }

  /** A reference is rendered by name, except the first one to a struct without fields. */
  lemma {:induction false} NamedRender(g: Graph, r: Ref, before: set<TypeId>)
    requires Target(r).Some? ==> Target(r).value in g
    ensures Named(Render(g, r, before))
         == if Target(r).Some? && Hollow(g[Target(r).value]) && Target(r).value !in before then None else Target(r)
  {
    if r.ListOf? {
      NamedRender(g, r.entry, before);
    }
  }

  /**
   * A rendered reference names an emitted definition, or nothing, except when it repeats a
   * reference to a struct whose definition was removed.
   */
  lemma NamesEmitted(g: Graph, r: Ref, before: set<TypeId>, w: Walk)
    requires w.Good(g) && w.pending == []
    requires Target(r).Some? ==> Target(r).value in g && Target(r).value in w.defined
    ensures (Named(Render(g, r, before)).Some? ==> Definition(Named(Render(g, r, before)).value) in w.done)
       <==> !(Target(r).Some? && Hollow(g[Target(r).value]) && Target(r).value in before)
  {
    assert w.Has(g, Listing);
    NamedRender(g, r, before);
  }

  /**
   * Of a whole generation: a reference is rendered as a name without a definition exactly when it
   * is to a struct without fields that an earlier reference leads to.
   */
  lemma DanglesIff(g: Graph, refs: seq<Ref>, es: seq<Entry>, bodies: map<TypeId, seq<Expr>>, j: nat)
    requires GeneratedFrom(g, refs, es, bodies) && j < |refs|
    requires Target(refs[j]).Some? ==> Target(refs[j]).value in g
    ensures var named := Named(Render(g, refs[j], ReachableTypes(g, refs[..j])));
            named.Some? && Definition(named.value) !in es <==>
            Target(refs[j]).Some? && Hollow(g[Target(refs[j]).value]) && Reachable(g, refs[..j], Target(refs[j]).value)
  {
    NamedRender(g, refs[j], ReachableTypes(g, refs[..j]));
    if Target(refs[j]).Some? {
      ReachesSelf(g, Target(refs[j]).value);
    }
  }

  /** A struct without fields that is referred to twice. */
  lemma RepeatedReferenceDangles(g: Graph, id: TypeId, refs: seq<Ref>, es: seq<Entry>, bodies: map<TypeId, seq<Expr>>)
    requires id in g && Hollow(g[id]) && refs == [Local(id), Local(id)] && GeneratedFrom(g, refs, es, bodies)
    ensures Render(g, refs[1], ReachableTypes(g, refs[..1])) == StructTlv(id) && Definition(id) !in es
  {
    ReachesSelf(g, id);
    assert refs[..1][0] == Local(id) && Reachable(g, refs[..1], id);
  }

  // ---- No name without a definition --------------------------------------------------------

  /** The results of the references agree with the trace, which has no other references. */
  ghost predicate TopOk(g: Graph, refs: seq<Ref>, tlvs: seq<Expr>, trace: Trace) {
    && |tlvs| == |refs|
    && (forall j :: 0 <= j < |refs| ==> SiteOk(g, refs[j], tlvs[j], AtReference(j), trace))
    && (forall h :: h in trace && trace[h].AtReference? ==> trace[h].index < |refs| && Uses(refs[trace[h].index], h))
  }

  lemma TopUnused(g: Graph, refs: seq<Ref>, tlvs: seq<Expr>, trace: Trace)
    requires TopOk(g, refs, tlvs, trace)
    ensures forall h :: h in trace ==> trace[h] != AtReference(|refs|)
  {
  }

  lemma TopNext(g: Graph, refs: seq<Ref>, tlvs: seq<Expr>, t0: Trace, d0: set<TypeId>, r: Ref, tlv: Expr, t1: Trace)
    requires TopOk(g, refs, tlvs, t0) && SiteOk(g, r, tlv, AtReference(|refs|), t1)
    requires TraceGrows(t0, d0, t1, Target(r), AtReference(|refs|))
    ensures TopOk(g, refs + [r], tlvs + [tlv], t1)
  {
    var next, more := refs + [r], tlvs + [tlv];
    forall j | 0 <= j < |next| ensures SiteOk(g, next[j], more[j], AtReference(j), t1) {
      if j < |refs| {
        assert SiteOk(g, refs[j], tlvs[j], AtReference(j), t0);
      }
    }
    forall h | h in t1 && t1[h].AtReference? ensures t1[h].index < |next| && Uses(next[t1[h].index], h) {
      if h in t0 {
        assert next[t0[h].index] == refs[t0[h].index];
      }
    }
  }

  /** A whole generation: the results, the entries, the bodies of the structs and the trace. */
  datatype Output = Output(tlvs: seq<Expr>, entries: seq<Entry>, bodies: map<TypeId, seq<Expr>>)
  {
    ghost predicate IsSite(site: Site) {
      match site
      case AtReference(j) => j < |tlvs|
      case AtField(owner, k) => Definition(owner) in entries && owner in bodies && k < |bodies[owner]|
    }

    ghost function At(site: Site): Expr
      requires IsSite(site)
    {
      match site
      case AtReference(j) => tlvs[j]
      case AtField(owner, k) => bodies[owner][k]
    }

    /** The expression names no type, or one that has a definition. */
    ghost predicate Emitted(site: Site)
      requires IsSite(site)
    {
      Named(At(site)).Some? ==> Definition(Named(At(site)).value) in entries
    }
  }

  ghost predicate NoneDangles(o: Output) {
    forall site :: o.IsSite(site) ==> o.Emitted(site)
  }

  /** One of the references, or a live field of a struct that they lead to, refers to `h`. */
  ghost predicate Occurs(g: Graph, refs: seq<Ref>, site: Site, h: TypeId) {
    match site
    case AtReference(j) => j < |refs| && Uses(refs[j], h)
    case AtField(owner, _) => Reachable(g, refs, owner) && RefersTo(g, site, h)
  }

  /** No struct without fields is referred to at two places. */
  ghost predicate ReferredOnce(g: Graph, refs: seq<Ref>) {
    forall h, s1, s2 :: h in g && Hollow(g[h]) && Occurs(g, refs, s1, h) && Occurs(g, refs, s2, h) ==> s1 == s2
  }

  ghost predicate Complete(g: Graph, refs: seq<Ref>, o: Output, trace: Trace) {
    && GeneratedFrom(g, refs, o.entries, o.bodies) && Renders(g, refs, o.tlvs)
    && Traced(g, ReachableTypes(g, refs), o.bodies, trace) && TopOk(g, refs, o.tlvs, trace)
  }

  lemma NamedAt(g: Graph, refs: seq<Ref>, e: Expr, j: nat)
    requires j < |refs| && RendersAt(g, refs, e, j)
    ensures Target(refs[j]).None? ==> Named(e).None?
    ensures Target(refs[j]).Some? ==>
              var t := Target(refs[j]).value;
              t in g && (Named(e).None? || Named(e) == Some(t)) && (!Hollow(g[t]) ==> Named(e) == Some(t))
  {
    NamedRender(g, refs[j], {});
    if Target(refs[j]).Some? {
      NamedRender(g, refs[j], {Target(refs[j]).value});
    }
  }

  /** A struct with a live field that the references lead to is emitted with its body. */
  lemma OwnerEmitted(g: Graph, refs: seq<Ref>, o: Output, trace: Trace, site: Site, h: TypeId)
    requires Complete(g, refs, o, trace) && site.AtField? && Occurs(g, refs, site, h)
    ensures o.IsSite(site) && Renders(g, Live(g[site.owner].fields), o.bodies[site.owner])
  {
    var id := site.owner;
    assert !Hollow(g[id]);
    assert Definition(id) in o.entries;
  }

  /** What is rendered where a struct without fields is referred to. */
  lemma OccurrenceNamed(g: Graph, refs: seq<Ref>, o: Output, trace: Trace, site: Site, h: TypeId)
    requires Complete(g, refs, o, trace) && Occurs(g, refs, site, h) && h in g && Hollow(g[h])
    ensures o.IsSite(site) && h in trace && Named(o.At(site)) == if trace[h] == site then None else Some(h)
  {
    match site
    case AtReference(j) =>
      assert RendersAt(g, refs, o.tlvs[j], j) && SiteOk(g, refs[j], o.tlvs[j], site, trace);
      NamedAt(g, refs, o.tlvs[j], j);
    case AtField(owner, k) =>
      OwnerEmitted(g, refs, o, trace, site, h);
      var live, body := Live(g[owner].fields), o.bodies[owner];
      assert TraceHas(Inside, g, ReachableTypes(g, refs), o.bodies, trace);
      assert RendersAt(g, live, body[k], k) && SiteOk(g, live[k], body[k], site, trace);
      NamedAt(g, live, body[k], k);
  }

  /** Every traced site is one where the struct is referred to. */
  lemma TracedOccurs(g: Graph, refs: seq<Ref>, o: Output, trace: Trace, h: TypeId)
    requires Complete(g, refs, o, trace) && h in trace
    ensures Occurs(g, refs, trace[h], h)
  {
    assert TraceHas(Sites, g, ReachableTypes(g, refs), o.bodies, trace);
  }

  /** A name that is rendered is that of the type that is referred to there. */
  lemma NamedOccurs(g: Graph, refs: seq<Ref>, o: Output, trace: Trace, site: Site) returns (t: TypeId)
    requires WellFormed(g) && Complete(g, refs, o, trace) && o.IsSite(site) && Named(o.At(site)).Some?
    ensures Named(o.At(site)) == Some(t) && t in g && Occurs(g, refs, site, t) && Reachable(g, refs, t)
  {
    t := Named(o.At(site)).value;
    match site
    case AtReference(j) =>
      assert RendersAt(g, refs, o.tlvs[j], j);
      NamedAt(g, refs, o.tlvs[j], j);
      ReachesSelf(g, t);
    case AtField(owner, k) =>
      assert TraceHas(Inside, g, ReachableTypes(g, refs), o.bodies, trace);
      var live, body := Live(g[owner].fields), o.bodies[owner];
      assert RendersAt(g, live, body[k], k);
      NamedAt(g, live, body[k], k);
      LiveDependsOn(g[owner], k, t);
      ReachableThrough(g, refs, owner, t);
  }

  lemma {:induction false} LiveDependsOn(d: TypeDef, k: nat, t: TypeId)
    requires d.Struct? && k < |Live(d.fields)| && Uses(Live(d.fields)[k], t)
    ensures DependsOn(d, t)
  {
    var i := LiveIndex(d.fields, k);
  }

  lemma {:induction false} LiveIndex(fields: seq<Field>, k: nat) returns (i: nat)
    requires k < |Live(fields)|
    ensures i < |fields| && !fields[i].omitted && fields[i].ref == Live(fields)[k]
  {
    var last := |fields| - 1;
    if k < |Live(fields[..last])| {
      i := LiveIndex(fields[..last], k);
    } else {
      i := last;
    }
  }

  lemma ReachableThrough(g: Graph, refs: seq<Ref>, a: TypeId, b: TypeId)
    requires Reachable(g, refs, a) && a in g && b in g && DependsOn(g[a], b)
    ensures Reachable(g, refs, b)
  {
    var i :| 0 <= i < |refs| && Target(refs[i]).Some? && Reaches(g, Target(refs[i]).value, a);
    ReachesNext(g, Target(refs[i]).value, a, b);
  }

  lemma ReachesNext(g: Graph, a: TypeId, b: TypeId, c: TypeId)
    requires Reaches(g, a, b) && b in g && c in g && DependsOn(g[b], c)
    ensures Reaches(g, a, c)
  {
    var p :| IsPath(g, p) && p[0] == a && p[|p| - 1] == b;
    var q := p + [c];
    forall i | 0 <= i < |q| - 1 ensures DependsOn(g[q[i]], q[i + 1]) {
      if i < |p| - 1 {
        assert q[i] == p[i] && q[i + 1] == p[i + 1];
      }
    }
    assert IsPath(g, q) && q[0] == a && q[|q| - 1] == c;
  }

  /**
   * Of a whole generation: every name that is rendered, as a result or in the body of a struct, has
   * a definition if and only if no struct without fields is referred to twice.
   */
  lemma NoneDanglesIff(g: Graph, refs: seq<Ref>, o: Output, trace: Trace)
    requires WellFormed(g) && Complete(g, refs, o, trace)
    ensures NoneDangles(o) <==> ReferredOnce(g, refs)
  {
    if ReferredOnce(g, refs) {
      forall site | o.IsSite(site) ensures o.Emitted(site) {
        if Named(o.At(site)).Some? {
          var t := NamedOccurs(g, refs, o, trace, site);
          if Hollow(g[t]) {
            OccurrenceNamed(g, refs, o, trace, site, t);
            TracedOccurs(g, refs, o, trace, t);
          }
        }
      }
    }
    if NoneDangles(o) {
      forall h, s1, s2 | h in g && Hollow(g[h]) && Occurs(g, refs, s1, h) && Occurs(g, refs, s2, h) ensures s1 == s2 {
        OnlyTraced(g, refs, o, trace, s1, h);
        OnlyTraced(g, refs, o, trace, s2, h);
      }
    }
  }

  lemma OnlyTraced(g: Graph, refs: seq<Ref>, o: Output, trace: Trace, site: Site, h: TypeId)
    requires Complete(g, refs, o, trace) && NoneDangles(o) && h in g && Hollow(g[h]) && Occurs(g, refs, site, h)
    ensures h in trace && trace[h] == site
  {
    OccurrenceNamed(g, refs, o, trace, site, h);
    assert o.Emitted(site);
  }

  class Generator {
    const graph: Graph
    const definitions: Block<Entry>
    var defined: set<TypeId>
    var bodies: map<TypeId, seq<Expr>>
    ghost var walk: Walk
    ghost var trace: Trace

    /** The fields agree with the walk. */
    ghost predicate Placed()
      reads this, definitions
    {
      && definitions.entries == walk.done + Stack(walk.pending)
      && definitions.addBefore == Top(walk.pending)
      && bodies == walk.bodies
    }

    ghost predicate Valid()
      reads this, definitions
    {
      Placed() && defined == walk.defined && walk.Good(graph) && Traced(graph, defined, bodies, trace)
    }

    constructor (g: Graph, block: Block<Entry>)
      requires WellFormed(g)
      requires block.addBefore == None && forall i :: 0 <= i < |block.entries| ==> block.entries[i].Raw?
      ensures Valid() && graph == g && definitions == block
      ensures walk == Walk(block.entries, {}, [], {}, map[]) && trace == map[]
    {
      trace := map[];
      graph, definitions, defined, bodies := g, block, {}, map[];
      walk := Walk(block.entries, {}, [], {}, map[]);
    }

    /** Renders a reference, defining the types it needs that are not defined yet.  `site` is where the result goes. */
    method Reference(r: Ref, ghost site: Site) returns (tlv: Expr)
      requires Valid()
      requires Target(r).Some? ==> Target(r).value in graph
      requires Target(r).Some? ==> UsedByTop(graph, walk.pending, Target(r).value) && SiteFits(site, Target(r).value)
      modifies this, definitions
      ensures Valid() && old(walk).GrowsTo(walk)
      ensures tlv == Render(graph, r, old(defined)) && Shaped(graph, r, tlv)
      ensures Target(r).Some? ==> Target(r).value in defined &&
                                  ReachedFrom(graph, Target(r).value, old(defined), defined)
      ensures (Target(r).Some? ==> Target(r).value in old(defined)) ==> walk == old(walk)
      ensures TraceGrows(old(trace), old(defined), trace, Target(r), site)
      decreases graph.Keys - defined, 2, r
    {
      RenderShaped(graph, r, defined);
      match r
      case Primitive => tlv := PrimitiveTlv;
      case ListOf(entry) =>
        var inner := Reference(entry, site);
        tlv := ArrayTlv(inner);
      case Undefined(isObject) => tlv := if isObject then NoArguments else PrimitiveTlv;
      case Local(id) =>
        var named := DefineDatatype(id, site);
        match graph[id]
        case Enum => tlv := EnumTlv(id);
        case Bitmap(_) => tlv := BitmapTlv(id);
        case Struct(_) => tlv := if named then StructTlv(id) else NoArguments;
    }

    /** The site refers to the type, and is not in a struct that is still to be defined. */
    ghost predicate SiteFits(site: Site, id: TypeId)
      reads `defined
    {
      id in graph && (Hollow(graph[id]) ==> RefersTo(graph, site, id) && (site.AtField? ==> site.owner in defined))
    }

    /** Defines a type once.  The result is false for a struct that turns out to have no fields. */
    method DefineDatatype(id: TypeId, ghost site: Site) returns (named: bool)
      requires Valid() && id in graph && SiteFits(site, id)
      requires graph[id].Struct? ==> UsedByTop(graph, walk.pending, id)
      modifies this, definitions
      ensures Valid() && old(walk).GrowsTo(walk)
      ensures named == (Hollow(graph[id]) ==> id in old(defined))
      ensures id in old(defined) ==> walk == old(walk)
      ensures id in defined && ReachedFrom(graph, id, old(defined), defined)
      ensures TraceGrows(old(trace), old(defined), trace, Some(id), site)
      decreases graph.Keys - defined, 1
    {
      if id in defined {
        return true;
      }
      named := DefineNew(id, site);
    }

    method DefineNew(id: TypeId, ghost site: Site) returns (named: bool)
      requires Valid() && id in graph && SiteFits(site, id) && id !in defined
      requires graph[id].Struct? ==> UsedByTop(graph, walk.pending, id)
      modifies this, definitions
      ensures Valid() && old(walk).GrowsTo(walk)
      ensures named == !Hollow(graph[id])
      ensures id in defined && ReachedFrom(graph, id, old(defined), defined)
      ensures TraceGrows(old(trace), old(defined), trace, Some(id), site)
      decreases graph.Keys - defined, 0
    {
      ReachesSelf(graph, id);
      ghost var before, known := trace, defined;
      defined := defined + {id};
      if Hollow(graph[id]) {
        trace := trace[id := site];
      }
      TraceDefined(graph, known, bodies, before, id, trace, site);
      ghost var start := trace;
      match graph[id] {
        case Enum =>
          DefineEnum(id);
          named := true;
        case Bitmap(_) =>
          DefineBitmap(id);
          named := true;
        case Struct(_) =>
          named := DefineStruct(id);
      }
      OwnTrace(id, before, known, start, site);
    }

    lemma OwnTrace(id: TypeId, before: Trace, known: set<TypeId>, start: Trace, site: Site)
      requires Valid() && id in graph && id !in known && id !in before
      requires start == if Hollow(graph[id]) then before[id := site] else before
      requires TraceGrowsIn(start, known + {id}, trace, id)
      ensures TraceGrows(before, known, trace, Some(id), site)
    {
      assert TraceHas(Traces, graph, defined, bodies, trace);
      TraceOf(before, known, start, trace, id, site);
    }

    method DefineEnum(id: TypeId)
      requires id in graph && graph[id].Enum?
      requires Placed() && id !in walk.defined && defined == walk.defined + {id} && walk.Good(graph)
      requires Traced(graph, defined, bodies, trace)
      modifies this, definitions
      ensures Valid() && old(walk).GrowsTo(walk) && defined == old(defined) && trace == old(trace)
      ensures walk.done == old(walk).done + [Definition(id)]
    {
      AddDefinition(id);
      walk := walk.(done := walk.done + [Definition(id)], defined := defined);
      AddLeaf(graph, old(walk), id, walk);
    }

    /** Adds the definition of a type that has no entry yet. */
    method AddDefinition(id: TypeId)
      requires Placed() && walk.Good(graph)
      modifies definitions`entries
      ensures definitions.entries == walk.done + [Definition(id)] + Stack(walk.pending)
    {
      if walk.pending != [] {
        TopNotListed(graph, walk);
      }
      InsertionPoint(walk.done, walk.pending, Definition(id));
      definitions.Add(Definition(id));
    }

    method DefineBitmap(id: TypeId)
      requires id in graph && graph[id].Bitmap?
      requires Placed() && id !in walk.defined && defined == walk.defined + {id} && walk.Good(graph)
      requires Traced(graph, defined, bodies, trace)
      modifies this, definitions
      ensures Valid() && old(walk).GrowsTo(walk)
      ensures TraceGrowsIn(old(trace), old(defined), trace, id)
      ensures id in defined && ReachedFrom(graph, id, old(defined), defined)
      ensures old(walk).done + [Definition(id)] <= walk.done && BitsDefined(graph[id].bits, |graph[id].bits|, defined)
      decreases graph.Keys - defined, 3
    {
      AddDefinition(id);
      walk := walk.(done := walk.done + [Definition(id)], defined := defined, partial := walk.partial + {id});
      AddLeaf(graph, old(walk), id, walk);
      DefineBits(id);
      assert id !in walk.pending && walk.partial - {id} == old(walk).partial by {
        assert old(walk).Has(graph, Nesting) && old(walk).Has(graph, Closure);
      }
      CompleteBitmap(graph, walk, id);
      walk := walk.(partial := walk.partial - {id});
    }

    /** Defines the enums of the bit ranges of a bitmap in progress. */
    method DefineBits(id: TypeId)
      requires Valid() && id in graph && graph[id].Bitmap? && id in defined
      modifies this, definitions
      ensures Valid() && old(walk).GrowsTo(walk)
      ensures BitsDefined(graph[id].bits, |graph[id].bits|, defined) && ReachedFrom(graph, id, old(defined), defined)
      ensures TraceGrowsIn(old(trace), old(defined), trace, id)
      decreases graph.Keys - defined, 2
    {
      ghost var start, before := walk, trace;
      var bits := graph[id].bits;
      for i := 0 to |bits|
        invariant Valid() && start.GrowsTo(walk)
        invariant BitsDefined(bits, i, defined)
        invariant ReachedFrom(graph, id, start.defined, defined)
        invariant TraceGrowsIn(before, start.defined, trace, id)
      {
        if bits[i].Range? && bits[i].enumType.Some? {
          var e := bits[i].enumType.value;
          DependencyKnown(graph, walk, id, e);
          ghost var known, sites := defined, trace;
          var _ := DefineDatatype(e, AtField(id, i));
          ReachedThrough(graph, id, e, start.defined, known, defined);
          TraceThrough(before, start.defined, sites, known, trace, id, Some(e), i);
        }
      }
    }

    method DefineStruct(id: TypeId) returns (named: bool)
      requires id in graph && graph[id].Struct?
      requires Placed() && id !in walk.defined && defined == walk.defined + {id} && walk.Good(graph)
      requires UsedByTop(graph, walk.pending, id)
      requires Traced(graph, defined, bodies, trace) && SitesBelow(trace, id, 0)
      modifies this, definitions
      ensures Valid() && old(walk).GrowsTo(walk)
      ensures TraceGrowsIn(old(trace), old(defined), trace, id)
      ensures named == !Hollow(graph[id])
      ensures id in defined && ReachedFrom(graph, id, old(defined), defined)
      ensures if named then EndsWith(old(walk).done, walk.done, id) else walk.done == old(walk).done
      decreases graph.Keys - defined, 5
    {
      ghost var outer, partial := walk.pending, walk.partial;
      var oldAddBefore := BeginStruct(id);
      var body := DefineFields(id);
      definitions.addBefore := oldAddBefore;
      named := body != [];
      if named {
        EndStruct(id, body, outer, partial);
      } else {
        RemoveStruct(id, outer, partial);
      }
    }

    /** What was needed is finished first, and the struct with its interface comes last. */
    ghost predicate EndsWith(before: seq<Entry>, after: seq<Entry>, id: TypeId) {
      |before| + 2 <= |after| && before <= after && after[|after| - 2..] == [Definition(id), Interface(id)]
    }

    /** Adds a struct's definition and moves the insertion point in front of it. */
    method BeginStruct(id: TypeId) returns (oldAddBefore: Option<Entry>)
      requires id in graph && graph[id].Struct?
      requires Placed() && id !in walk.defined && defined == walk.defined + {id} && walk.Good(graph)
      requires UsedByTop(graph, walk.pending, id)
      requires Traced(graph, defined, bodies, trace)
      modifies this, definitions
      ensures Valid() && defined == old(defined) && trace == old(trace) && old(walk).done == walk.done
      ensures walk.pending == old(walk).pending + [id] && id !in old(walk).pending
      ensures walk.partial == old(walk).partial + {id} && id !in old(walk).partial
      ensures oldAddBefore == Top(old(walk).pending)
    {
      AddDefinition(id);
      oldAddBefore := definitions.addBefore;
      definitions.addBefore := Some(Definition(id));
      assert id !in walk.pending && id !in walk.partial by {
        assert walk.Has(graph, Nesting) && walk.Has(graph, Closure);
      }
      Enter(graph, walk, id);
      PushStack(walk.done, walk.pending, id);
      walk := walk.(defined := defined, pending := walk.pending + [id], partial := walk.partial + {id});
    }

    /** Walks the fields of the innermost struct in progress. */
    method DefineFields(id: TypeId) returns (body: seq<Expr>)
      requires Valid() && walk.pending != [] && walk.pending[|walk.pending| - 1] == id
      requires id in graph && graph[id].Struct? && id in defined && SitesBelow(trace, id, 0)
      modifies this, definitions
      ensures Valid() && old(walk).GrowsTo(walk)
      ensures Renders(graph, Live(graph[id].fields), body)
      ensures FieldsDefined(graph[id].fields, |graph[id].fields|, defined)
      ensures ReachedFrom(graph, id, old(defined), defined)
      ensures BodyOk(graph, id, Live(graph[id].fields), body, trace) && TraceGrowsIn(old(trace), old(defined), trace, id)
      ensures Hollow(graph[id]) ==> walk == old(walk)
      decreases graph.Keys - defined, 4
    {
      body := [];
      ghost var d0, t0, start := defined, trace, walk;
      var fields := graph[id].fields;
      NoFieldsWalked(graph, id, d0, t0);
      for i := 0 to |fields|
        invariant Valid() && start.GrowsTo(walk) && id in defined
        invariant FieldsWalked(graph, id, i, body, d0, defined, t0, trace)
        invariant Hollow(graph[id]) ==> walk == start
      {
        if fields[i].omitted {
          FieldOmitted(graph, id, i, body, d0, defined, t0, trace);
        } else {
          body := DefineField(id, i, body, d0, t0);
        }
      }
      AllFieldsWalked(graph, id, body, d0, defined, t0, trace);
    }

    /** One field that is not omitted. */
    method DefineField(id: TypeId, i: nat, body: seq<Expr>, ghost d0: set<TypeId>, ghost t0: Trace) returns (more: seq<Expr>)
      requires Valid() && walk.pending != [] && walk.pending[|walk.pending| - 1] == id && id in defined
      requires FieldsWalked(graph, id, i, body, d0, defined, t0, trace)
      requires i < |graph[id].fields| && !graph[id].fields[i].omitted
      modifies this, definitions
      ensures Valid() && old(walk).GrowsTo(walk) && id in defined
      ensures FieldsWalked(graph, id, i + 1, more, d0, defined, t0, trace)
      decreases graph.Keys - defined, 3
    {
      ghost var known, sites, site := defined, trace, AtField(id, |body|);
      var r := graph[id].fields[i].ref;
      FieldSite(graph, id, i, body, d0, known, t0, sites);
      if Target(r).Some? {
        DependencyKnown(graph, walk, id, Target(r).value);
      }
      assert TraceHas(Traces, graph, defined, bodies, trace);
      var tlv := Reference(r, site);
      RenderedSite(r, known, sites, site);
      FieldNext(graph, id, i, body, tlv, d0, known, defined, t0, sites, trace);
      more := body + [tlv];
    }

    /** The expression that was rendered for a site at which nothing was traced. */
    lemma RenderedSite(r: Ref, known: set<TypeId>, sites: Trace, site: Site)
      requires Valid() && (Target(r).Some? ==> Target(r).value in graph && Target(r).value in defined)
      requires Target(r).Some? && Hollow(graph[Target(r).value]) ==> (Target(r).value in sites <==> Target(r).value in known)
      requires TraceGrows(sites, known, trace, Target(r), site) && forall h :: h in sites ==> sites[h] != site
      ensures SiteOk(graph, r, Render(graph, r, known), site, trace)
    {
      assert TraceHas(Traces, graph, defined, bodies, trace);
      SiteRendered(graph, r, known, sites, trace, site);
    }

    /** The innermost struct is finished; its interface follows its definition. */
    method EndStruct(id: TypeId, body: seq<Expr>, ghost outer: seq<TypeId>, ghost partial: set<TypeId>)
      requires EndsStruct(id, outer, partial) && !Hollow(graph[id])
      requires Renders(graph, Live(graph[id].fields), body)
      requires FieldsDefined(graph[id].fields, |graph[id].fields|, defined)
      requires BodyOk(graph, id, Live(graph[id].fields), body, trace)
      modifies this, definitions
      ensures Valid() && defined == old(defined) && trace == old(trace)
      ensures walk.done == old(walk).done + [Definition(id), Interface(id)] && walk.pending == outer && walk.partial == partial
    {
      AddInterface(id, outer, partial);
      Leave(graph, walk, id, body);
      TraceBody(graph, defined, bodies, trace, id, body);
      bodies := bodies[id := body];
      assert walk.done + [Definition(id)] + [Interface(id)] == walk.done + [Definition(id), Interface(id)];
      walk := Left(walk, id, body);
    }

    method AddInterface(id: TypeId, ghost outer: seq<TypeId>, ghost partial: set<TypeId>)
      requires EndsStruct(id, outer, partial)
      modifies definitions`entries
      ensures definitions.entries == walk.done + [Definition(id)] + [Interface(id)] + Stack(outer)
    {
      TopNotListed(graph, walk);
      if outer != [] {
        NotListed(graph, walk, outer[|outer| - 1]);
      }
      PushStack(walk.done, outer, id);
      InsertionPoint(walk.done + [Definition(id)], outer, Interface(id));
      definitions.Add(Interface(id));
    }

    /** The innermost struct has no fields; its definition is removed. */
    method RemoveStruct(id: TypeId, ghost outer: seq<TypeId>, ghost partial: set<TypeId>)
      requires EndsStruct(id, outer, partial) && Hollow(graph[id])
      modifies this, definitions
      ensures Valid() && defined == old(defined) && trace == old(trace)
      ensures old(walk).done == walk.done && walk.pending == outer && walk.partial == partial
    {
      TopNotListed(graph, walk);
      LeaveHollow(graph, walk, id);
      RemoveTop(walk.done, id, outer);
      definitions.Remove(Definition(id));
      walk := walk.(pending := outer, partial := walk.partial - {id});
    }

    /** The walk of the innermost struct is over and the insertion point is restored. */
    ghost predicate EndsStruct(id: TypeId, outer: seq<TypeId>, partial: set<TypeId>)
      reads this, definitions
    {
      && id in graph && graph[id].Struct? && id !in outer && id !in partial && id in defined
      && walk.Good(graph) && defined == walk.defined && bodies == walk.bodies
      && walk.pending == outer + [id] && walk.pending[..|walk.pending| - 1] == outer && walk.partial == partial + {id}
      && definitions.entries == walk.done + Stack(walk.pending) && definitions.addBefore == Top(outer)
      && Traced(graph, defined, bodies, trace)
    }

    /** One more reference behind those of `refs`. */
    method ReferenceNext(ghost refs: seq<Ref>, r: Ref, ghost tlvs: seq<Expr>) returns (tlv: Expr)
      requires TopOk(graph, refs, tlvs, trace)
      ensures TopOk(graph, refs + [r], tlvs + [tlv], trace)
      requires Valid() && walk.pending == [] && walk.partial == {}
      requires Renders(graph, refs, tlvs) && RendersInTurn(graph, refs, tlvs)
      requires AllDefined(refs, defined) && AllReachable(graph, refs, defined)
      requires Target(r).Some? ==> Target(r).value in graph
      modifies this, definitions
      ensures Valid() && old(walk).GrowsTo(walk)
      ensures Renders(graph, refs + [r], tlvs + [tlv]) && RendersInTurn(graph, refs + [r], tlvs + [tlv])
      ensures AllDefined(refs + [r], defined) && AllReachable(graph, refs + [r], defined)
    {
      ghost var known, sites, site := defined, trace, AtReference(|refs|);
      KnownTypes(graph, refs, walk);
      assert TraceHas(Traces, graph, defined, bodies, trace);
      tlv := Reference(r, site);
      TopUnused(graph, refs, tlvs, sites);
      RenderedSite(r, known, sites, site);
      TopNext(graph, refs, tlvs, sites, known, r, tlv, trace);
      RendersNext(graph, refs, r, tlvs, tlv, known);
      InTurnNext(graph, refs, r, tlvs, tlv);
      DefinedNext(refs, r, known, defined);
      ReachedNext(graph, refs, r, known, defined);
    }

    /** Any sequence of references, on a generator that has defined nothing yet. */
    method ReferenceAll(refs: seq<Ref>) returns (tlvs: seq<Expr>)
      requires Valid() && walk.pending == [] && walk.partial == {} && defined == {}
      requires forall i :: 0 <= i < |refs| && Target(refs[i]).Some? ==> Target(refs[i]).value in graph
      modifies this, definitions
      ensures Valid() && walk.pending == [] && walk.partial == {}
      ensures Renders(graph, refs, tlvs)
      ensures RendersInTurn(graph, refs, tlvs)
      ensures AllShaped(graph, refs, tlvs) && BodiesShaped(graph, definitions.entries, bodies)
      ensures definitions.addBefore == None && old(definitions.entries) <= definitions.entries
      ensures GeneratedFrom(graph, refs, definitions.entries, bodies)
      ensures NoneDangles(Output(tlvs, definitions.entries, bodies)) <==> ReferredOnce(graph, refs)
    {
      tlvs := [];
      assert TraceHas(Traces, graph, defined, bodies, trace);
      for i := 0 to |refs|
        invariant Valid() && old(walk).GrowsTo(walk)
        invariant Renders(graph, refs[..i], tlvs) && RendersInTurn(graph, refs[..i], tlvs)
        invariant AllDefined(refs[..i], defined) && AllReachable(graph, refs[..i], defined)
        invariant TopOk(graph, refs[..i], tlvs, trace)
      {
        var tlv := ReferenceNext(refs[..i], refs[i], tlvs);
        assert refs[..i + 1] == refs[..i] + [refs[i]];
        tlvs := tlvs + [tlv];
      }
      assert refs[..|refs|] == refs;
      Completed(graph, refs, walk);
      assert definitions.entries == walk.done;
      KnownTypes(graph, refs, walk);
      assert walk.Has(graph, Graphed);
      OutputShaped(graph, refs, tlvs, definitions.entries, bodies);
      NoneDanglesIff(graph, refs, Output(tlvs, definitions.entries, bodies), trace);
    }
  }
}
