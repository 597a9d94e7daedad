/**
 * Installation of datatypes into the scope of a cluster: codegen/src/mom/chip/load-chip.ts.
 * A depth-first walk of a graph of named datatypes that may contain cycles.
 */
module InstallDatatypes {
  import opened Options

  datatype Element = Element(name: string, typeName: Option<string>, children: seq<Element>)

  /** The datatypes by name and the names of the global types. */
  datatype Registry = Registry(datatypes: map<string, Element>, globals: set<string>)
  {
    predicate Installable(t: string) {
      t != "" && t !in globals && t in datatypes
    }
  }

  // ---- References -----------------------------------------------------------------------

  /** The type names of all elements among `cs` and below. */
  function Types(cs: seq<Element>): set<string> {
    if cs == [] then {} else Types(cs[..|cs| - 1]) + ElementTypes(cs[|cs| - 1])
  }

  function ElementTypes(c: Element): set<string> {
    (if c.typeName.Some? then {c.typeName.value} else {}) + Types(c.children)
  }

  /** A path of child positions. */
  ghost predicate IsAt(cs: seq<Element>, path: seq<nat>)
    decreases |path|
  {
    path != [] && path[0] < |cs| && (|path| == 1 || IsAt(cs[path[0]].children, path[1..]))
  }

  ghost function ElementAt(cs: seq<Element>, path: seq<nat>): Element
    requires IsAt(cs, path)
    decreases |path|
  {
    if |path| == 1 then cs[path[0]] else ElementAt(cs[path[0]].children, path[1..])
  }

  ghost predicate MentionsAt(cs: seq<Element>, path: seq<nat>, t: string) {
    IsAt(cs, path) && ElementAt(cs, path).typeName == Some(t)
  }

  /** Some element among `cs` or below, at any depth, has this type name. */
  ghost predicate Mentions(cs: seq<Element>, t: string) {
    exists path :: MentionsAt(cs, path, t)
  }

  lemma {:induction false} TypesInclude(cs: seq<Element>, i: nat)
    requires i < |cs|
    ensures ElementTypes(cs[i]) <= Types(cs)
  {
    var last := |cs| - 1;
    if i < last {
      TypesInclude(cs[..last], i);
    }
  }

  lemma {:induction false} TypesFrom(cs: seq<Element>, t: string) returns (i: nat)
    requires t in Types(cs)
    ensures i < |cs| && t in ElementTypes(cs[i])
  {
    var last := |cs| - 1;
    if t in Types(cs[..last]) {
      i := TypesFrom(cs[..last], t);
    } else {
      i := last;
    }
  }

  lemma {:induction false} MentionedIsType(cs: seq<Element>, path: seq<nat>, t: string)
    requires MentionsAt(cs, path, t)
    ensures t in Types(cs)
    decreases |path|
  {
    TypesInclude(cs, path[0]);
    if |path| > 1 {
      MentionedIsType(cs[path[0]].children, path[1..], t);
    }
  }

  lemma {:induction false} TypeIsMentioned(cs: seq<Element>, t: string) returns (path: seq<nat>)
    requires t in Types(cs)
    ensures MentionsAt(cs, path, t)
    decreases cs
  {
    var i := TypesFrom(cs, t);
    if cs[i].typeName == Some(t) {
      path := [i];
    } else {
      var rest := TypeIsMentioned(cs[i].children, t);
      path := [i] + rest;
      assert path[1..] == rest;
    }
  }

  /** The type names are those of all elements at any depth. */
  lemma TypesIff(cs: seq<Element>, t: string)
    ensures t in Types(cs) <==> Mentions(cs, t)
  {
    if t in Types(cs) {
      var path := TypeIsMentioned(cs, t);
    }
    if Mentions(cs, t) {
      var path :| MentionsAt(cs, path, t);
      MentionedIsType(cs, path, t);
    }
  }

  /** One datatype refers to another that can be installed. */
  predicate Refers(r: Registry, a: string, b: string) {
    r.Installable(a) && r.Installable(b) && b in Types(r.datatypes[a].children)
  }

  ghost predicate IsPath(r: Registry, p: seq<string>) {
    && p != [] && r.Installable(p[0])
    && forall i :: 0 <= i < |p| - 1 ==> Refers(r, p[i], p[i + 1])
  }

  ghost predicate Reaches(r: Registry, a: string, b: string) {
    exists p :: IsPath(r, p) && p[0] == a && p[|p| - 1] == b
  }

  /** `t` is reachable from the type names `roots` through datatypes that can be installed. */
  ghost predicate ReachableFrom(r: Registry, roots: set<string>, t: string) {
    exists a :: a in roots && Reaches(r, a, t)
  }

  lemma ReachesSelf(r: Registry, a: string)
    requires r.Installable(a)
    ensures Reaches(r, a, a)
  {
    assert IsPath(r, [a]) && [a][0] == a;
  }

  lemma ReachesStep(r: Registry, a: string, b: string, c: string)
    requires Refers(r, a, b) && Reaches(r, b, c)
    ensures Reaches(r, a, c)
  {
    var p :| IsPath(r, p) && p[0] == b && p[|p| - 1] == c;
    PathBehind(r, a, p, [a] + p);
  }

  lemma PathBehind(r: Registry, a: string, p: seq<string>, q: seq<string>)
    requires IsPath(r, p) && Refers(r, a, p[0]) && q == [a] + p
    ensures IsPath(r, q) && q[0] == a && q[|q| - 1] == p[|p| - 1]
  {
    forall i | 0 <= i < |q| - 1 ensures Refers(r, q[i], q[i + 1]) {
      if i > 0 {
        assert q[i] == p[i - 1] && q[i + 1] == p[i];
      }
    }
  }

  /** Everything that follows a reference out of `names` leads back into `names`. */
  ghost predicate ClosedUnder(r: Registry, names: set<string>, within: set<string>) {
    forall a, b :: a in names && Refers(r, a, b) ==> b in within
  }

  lemma {:induction false} StaysInside(r: Registry, names: set<string>, p: seq<string>)
    requires ClosedUnder(r, names, names) && IsPath(r, p) && p[0] in names
    ensures p[|p| - 1] in names
  {
    if |p| == 1 {
    } else {
      var q := p[1..];
      assert Refers(r, p[0], p[1]);
      forall i | 0 <= i < |q| - 1 ensures Refers(r, q[i], q[i + 1]) {
        assert Refers(r, p[i + 1], p[i + 2]);
      }
      StaysInside(r, names, q);
    }
  }

  // ---- Installation ---------------------------------------------------------------------

  function Installed(r: Registry, names: seq<string>): (es: seq<Element>)
    requires forall i :: 0 <= i < |names| ==> names[i] in r.datatypes
    ensures |es| == |names| && forall i :: 0 <= i < |es| ==> es[i] == r.datatypes[names[i]]
  {
    seq(|names|, i requires 0 <= i < |names| => r.datatypes[names[i]])
  }

  ghost function Names(added: seq<string>): set<string> {
    set n | n in added
  }

  ghost predicate Distinct(added: seq<string>) {
    forall i, j :: 0 <= i < j < |added| ==> added[i] != added[j]
  }

  /**
   * The effect of a walk that starts at the type names `roots`: the datatypes `added` are appended
   * in turn, each once; they are reachable from the roots, and every root and everything that an
   * added datatype refers to is installed if it can be.
   */
  ghost predicate Walked(r: Registry, roots: set<string>, before: set<string>, after: set<string>, added: seq<string>) {
    && before <= after
    && Distinct(added)
    && (forall t :: t in added <==> t in after && t !in before && r.Installable(t))
    && (forall t :: t in added ==> ReachableFrom(r, roots, t))
    && (forall t :: t in roots && r.Installable(t) ==> t in after)
    && ClosedUnder(r, Names(added), after)
    && (forall i :: 0 <= i < |added| ==> Justified(r, roots, added, i))
  }

  /** An added datatype is a root, or one that was added before it refers to it. */
  ghost predicate Justified(r: Registry, roots: set<string>, added: seq<string>, i: nat)
    requires i < |added|
  {
    added[i] in roots || exists j :: 0 <= j < i && Refers(r, added[j], added[i])
  }

  /** One walk after another. */
  lemma WalkedBoth(r: Registry, roots1: set<string>, roots2: set<string>, before: set<string>, mid: set<string>, after: set<string>,
                   added1: seq<string>, added2: seq<string>)
    requires Walked(r, roots1, before, mid, added1) && Walked(r, roots2, mid, after, added2)
    ensures Walked(r, roots1 + roots2, before, after, added1 + added2)
  {
    forall t | t in added1 + added2 ensures ReachableFrom(r, roots1 + roots2, t) {
      if t in added1 {
        assert ReachableFrom(r, roots1, t);
      } else {
        assert ReachableFrom(r, roots2, t);
      }
    }
    forall i | 0 <= i < |added1 + added2| ensures Justified(r, roots1 + roots2, added1 + added2, i) {
      if i < |added1| {
        assert Justified(r, roots1, added1, i);
        JustifiedInFront(r, roots1, added1, added2, i);
      } else {
        JustifiedBehind(r, roots2, added1, added2, i - |added1|);
      }
    }
    assert forall i :: 0 <= i < |added1| ==> added1[i] in added1;
    assert forall i :: 0 <= i < |added2| ==> added2[i] in added2 && added2[i] !in added1;
    assert forall t :: t in Names(added1 + added2) <==> t in Names(added1) || t in Names(added2);
  }

  lemma JustifiedInFront(r: Registry, roots: set<string>, added: seq<string>, rest: seq<string>, i: nat)
    requires i < |added| && Justified(r, roots, added, i)
    ensures Justified(r, roots, added + rest, i)
  {
    if added[i] !in roots {
      var j :| 0 <= j < i && Refers(r, added[j], added[i]);
      assert (added + rest)[j] == added[j];
    }
  }

  lemma JustifiedBehind(r: Registry, roots: set<string>, front: seq<string>, added: seq<string>, i: nat)
    requires i < |added| && Justified(r, roots, added, i)
    ensures Justified(r, roots, front + added, |front| + i)
  {
    if added[i] !in roots {
      var j :| 0 <= j < i && Refers(r, added[j], added[i]);
      assert (front + added)[|front| + j] == added[j];
    }
  }

  /** A datatype that was not installed, followed by what its own children need. */
  lemma WalkedFrom(r: Registry, t: string, before: set<string>, after: set<string>, added: seq<string>)
    requires r.Installable(t) && t !in before
    requires Walked(r, Types(r.datatypes[t].children), before + {t}, after, added)
    ensures Walked(r, {t}, before, after, [t] + added)
  {
    ReachesSelf(r, t);
    forall u | u in added ensures ReachableFrom(r, {t}, u) {
      var a :| a in Types(r.datatypes[t].children) && Reaches(r, a, u);
      ReachesStep(r, t, a, u);
    }
    assert forall u :: u in Names([t] + added) <==> u == t || u in Names(added);
    var all := [t] + added;
    forall i | 0 <= i < |all| ensures Justified(r, {t}, all, i) {
      if i > 0 {
        assert added[i - 1] in added;
        if added[i - 1] in Types(r.datatypes[t].children) {
          assert Refers(r, all[0], all[i]);
        } else {
          assert Justified(r, Types(r.datatypes[t].children), added, i - 1);
          var j :| 0 <= j < i - 1 && Refers(r, added[j], added[i - 1]);
          assert Refers(r, all[j + 1], all[i]);
        }
      }
    }
  }

  /** A walk that starts with nothing installed installs exactly what is reachable. */
  lemma WalkedIsReachable(r: Registry, roots: set<string>, after: set<string>, added: seq<string>)
    requires Walked(r, roots, {}, after, added)
    ensures forall t :: t in added <==> ReachableFrom(r, roots, t)
  {
    forall t | ReachableFrom(r, roots, t) ensures t in added {
      var a :| a in roots && Reaches(r, a, t);
      var p :| IsPath(r, p) && p[0] == a && p[|p| - 1] == t;
      StaysInside(r, Names(added), p);
    }
  }

  /** `t` names the datatype `e`. */
  predicate IsDatatype(r: Registry, t: string, e: Element) {
    t in r.datatypes && r.datatypes[t] == e
  }

  lemma InstalledMembers(r: Registry, added: seq<string>)
    requires forall t :: t in added ==> t in r.datatypes
    ensures forall e :: e in Installed(r, added) <==> exists t :: IsDatatype(r, t, e) && t in added
  {
    forall e ensures e in Installed(r, added) <==> exists t :: IsDatatype(r, t, e) && t in added {
      if e in Installed(r, added) {
        var i :| 0 <= i < |added| && Installed(r, added)[i] == e;
        assert IsDatatype(r, added[i], e) && added[i] in added;
      }
      if exists t :: IsDatatype(r, t, e) && t in added {
        var t :| IsDatatype(r, t, e) && t in added;
        var i :| 0 <= i < |added| && added[i] == t;
        assert Installed(r, added)[i] == e;
      }
    }
  }

  /** The cluster mentions the first of these datatypes, and each of them the next one; none is global. */
  ghost predicate IsChain(r: Registry, cluster: seq<Element>, p: seq<string>) {
    && p != [] && Mentions(cluster, p[0])
    && (forall i :: 0 <= i < |p| ==> p[i] != "" && p[i] !in r.globals && p[i] in r.datatypes)
    && (forall i :: 0 <= i < |p| - 1 ==> Mentions(r.datatypes[p[i]].children, p[i + 1]))
  }

  ghost predicate Needed(r: Registry, cluster: seq<Element>, t: string) {
    exists p :: IsChain(r, cluster, p) && p[|p| - 1] == t
  }

  lemma ChainIsPath(r: Registry, cluster: seq<Element>, p: seq<string>)
    requires p != []
    ensures IsChain(r, cluster, p) <==> IsPath(r, p) && p[0] in Types(cluster)
  {
    TypesIff(cluster, p[0]);
    if IsChain(r, cluster, p) {
      forall i | 0 <= i < |p| - 1 ensures Refers(r, p[i], p[i + 1]) {
        TypesIff(r.datatypes[p[i]].children, p[i + 1]);
      }
    }
    if IsPath(r, p) && p[0] in Types(cluster) {
      PathInstallable(r, p);
      forall i | 0 <= i < |p| - 1 ensures Mentions(r.datatypes[p[i]].children, p[i + 1]) {
        assert Refers(r, p[i], p[i + 1]);
        TypesIff(r.datatypes[p[i]].children, p[i + 1]);
      }
    }
  }

  lemma PathInstallable(r: Registry, p: seq<string>)
    requires IsPath(r, p)
    ensures forall i :: 0 <= i < |p| ==> r.Installable(p[i])
  {
    forall i | 0 <= i < |p| ensures r.Installable(p[i]) {
      if i > 0 {
        assert Refers(r, p[i - 1], p[i]);
      }
    }
  }

  lemma NeededIff(r: Registry, cluster: seq<Element>, t: string)
    ensures ReachableFrom(r, Types(cluster), t) <==> Needed(r, cluster, t)
  {
    if ReachableFrom(r, Types(cluster), t) {
      var a :| a in Types(cluster) && Reaches(r, a, t);
      var p :| IsPath(r, p) && p[0] == a && p[|p| - 1] == t;
      ChainIsPath(r, cluster, p);
    }
    if Needed(r, cluster, t) {
      var p :| IsChain(r, cluster, p) && p[|p| - 1] == t;
      ChainIsPath(r, cluster, p);
      assert Reaches(r, p[0], t);
    }
  }

  /** The cluster mentions the datatype, or one that was added before it does. */
  ghost predicate MentionedBefore(r: Registry, cluster: seq<Element>, added: seq<string>, i: nat)
    requires i < |added|
  {
    Mentions(cluster, added[i]) ||
    exists j :: 0 <= j < i && added[j] in r.datatypes && Mentions(r.datatypes[added[j]].children, added[i])
  }

  lemma JustifiedIsMentioned(r: Registry, cluster: seq<Element>, added: seq<string>, i: nat)
    requires i < |added| && Justified(r, Types(cluster), added, i)
    ensures MentionedBefore(r, cluster, added, i)
  {
    TypesIff(cluster, added[i]);
    if added[i] !in Types(cluster) {
      var j :| 0 <= j < i && Refers(r, added[j], added[i]);
      TypesIff(r.datatypes[added[j]].children, added[i]);
    }
  }

  class Installation {
    const registry: Registry
    var alreadyInstalled: set<string>
    var children: seq<Element>     // of the cluster that datatypes are installed into

    constructor (registry: Registry, children: seq<Element>)
      ensures this.registry == registry && this.children == children && alreadyInstalled == {}
    {
      this.registry := registry;
      this.children := children;
      alreadyInstalled := {};
    }

    /** Installs what the children of a referencer need.  `added` names the datatypes in order. */
    method Install(referencer: seq<Element>) returns (ghost added: seq<string>)
      modifies this
      ensures Walked(registry, Types(referencer), old(alreadyInstalled), alreadyInstalled, added)
      ensures (forall t :: t in added ==> t in registry.datatypes) && children == old(children) + Installed(registry, added)
      decreases registry.datatypes.Keys - alreadyInstalled, referencer, 0
    {
      added := [];
      for i := 0 to |referencer|
        invariant Walked(registry, Types(referencer[..i]), old(alreadyInstalled), alreadyInstalled, added)
        invariant (forall t :: t in added ==> t in registry.datatypes) && children == old(children) + Installed(registry, added)
      {
        ghost var now, front := alreadyInstalled, referencer[..i];
        ghost var more := InstallFor(referencer[i]);
        WalkedBoth(registry, Types(front), ElementTypes(referencer[i]), old(alreadyInstalled), now, alreadyInstalled, added, more);
        assert referencer[..i + 1][..i] == front;
        added := added + more;
      }
      assert referencer[..|referencer|] == referencer;
    }

    /** One child: its own type, and then what its children need. */
    method InstallFor(c: Element) returns (ghost added: seq<string>)
      modifies this
      ensures Walked(registry, ElementTypes(c), old(alreadyInstalled), alreadyInstalled, added)
      ensures (forall t :: t in added ==> t in registry.datatypes) && children == old(children) + Installed(registry, added)
      decreases registry.datatypes.Keys - alreadyInstalled, c, 2
    {
      added := InstallType(c);
      ghost var now := alreadyInstalled;
      ghost var more := Install(c.children);
      WalkedBoth(registry, OwnType(c), Types(c.children), old(alreadyInstalled), now, alreadyInstalled, added, more);
      added := added + more;
    }

    /** What the element itself mentions. */
    function OwnType(c: Element): set<string> {
      if c.typeName.Some? then {c.typeName.value} else {}
    }

    method InstallType(c: Element) returns (ghost added: seq<string>)
      modifies this
      ensures Walked(registry, OwnType(c), old(alreadyInstalled), alreadyInstalled, added)
      ensures (forall t :: t in added ==> t in registry.datatypes) && children == old(children) + Installed(registry, added)
      decreases registry.datatypes.Keys - alreadyInstalled, c, 1
    {
      added := [];
      if c.typeName.None? || c.typeName.value == "" {
        return;
      }
      var t := c.typeName.value;
      if t !in registry.globals && t !in alreadyInstalled {
        alreadyInstalled := alreadyInstalled + {t};
        if t in registry.datatypes {
          var datatype_ := registry.datatypes[t];
          children := children + [datatype_];
          added := Install(datatype_.children);
          WalkedFrom(registry, t, old(alreadyInstalled), alreadyInstalled, added);
          added := [t] + added;
        }
      }
    }
  }

  /**
   * Installs into one cluster: its own children stay in front, and behind them comes each datatype
   * that is reachable from them, once.
   */
  method InstallDatatypes(registry: Registry, cluster: seq<Element>) returns (children: seq<Element>, ghost added: seq<string>)
    ensures Distinct(added)
    ensures forall t :: t in added <==> Needed(registry, cluster, t)
    ensures forall i :: 0 <= i < |added| ==> MentionedBefore(registry, cluster, added, i)
    ensures (forall t :: t in added ==> t in registry.datatypes) && children == cluster + Installed(registry, added)
    ensures cluster <= children
    ensures forall e :: e in children[|cluster|..] <==> exists t :: IsDatatype(registry, t, e) && Needed(registry, cluster, t)
  {
    var installation := new Installation(registry, cluster);
    added := installation.Install(cluster);
    WalkedIsReachable(registry, Types(cluster), installation.alreadyInstalled, added);
    forall t ensures ReachableFrom(registry, Types(cluster), t) <==> Needed(registry, cluster, t) {
      NeededIff(registry, cluster, t);
    }
    forall i | 0 <= i < |added| ensures MentionedBefore(registry, cluster, added, i) {
      JustifiedIsMentioned(registry, cluster, added, i);
    }
    children := installation.children;
    InstalledMembers(registry, added);
    assert children[|cluster|..] == Installed(registry, added);
  }
}
