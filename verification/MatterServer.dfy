/** Port allocation for the nodes of one process: packages/matter.js/src/MatterServer.ts. */
module MatterServer {
  import opened Options
  import opened Decimals

  const MATTER_PORT := 5540
  const PORT_LIMIT := 65536

  datatype Result<+T> = Ok(value: T) | NetworkError | DuplicateKey | NotFound | PortFixed | NodeFailed

  // ---- The search -----------------------------------------------------------------------

  /** The first port from `port` on that is neither in use nor formerly used, or the limit. */
  function FirstFree(port: nat, used: set<int>, former: seq<int>): (r: nat)
    decreases PORT_LIMIT - port
  {
    if (port in used || port in former) && port < PORT_LIMIT then FirstFree(port + 1, used, former) else port
  }

  /**
   * The search through the formerly used ports from position `i` on.  The inspected port is taken
   * out of the list before the position moves on, so every other port is passed over.
   */
  function Recycle(former: seq<int>, i: nat, used: set<int>): (Option<int>, seq<int>)
    decreases |former| - i
  {
    if i < |former| then
      var rest := former[..i] + former[i + 1..];
      if former[i] !in used then (Some(former[i]), rest) else Recycle(rest, i + 1, used)
    else (None, former)
  }

  /** The outcome of a request, and the formerly used ports afterwards. */
  function NextPort(desired: Option<int>, used: set<int>, former: seq<int>): (Result<int>, seq<int>) {
    if desired.Some? then
      (if desired.value in used then NetworkError else Ok(desired.value), former)
    else
      var port := FirstFree(MATTER_PORT, used, former);
      if port != PORT_LIMIT then (Ok(port), former)
      else
        var r := Recycle(former, 0, used);
        (Settled(r.0), r.1)
  }

  /** The limit itself is not handed out. */
  function Settled(port: Option<int>): Result<int> {
    if port.Some? && port.value != PORT_LIMIT then Ok(port.value) else NetworkError
  }

  lemma {:induction false} FirstFreeIsLeast(port: nat, used: set<int>, former: seq<int>)
    requires port <= PORT_LIMIT
    ensures var r := FirstFree(port, used, former);
            && port <= r <= PORT_LIMIT
            && (forall p :: port <= p < r ==> p in used || p in former)
            && (r < PORT_LIMIT ==> r !in used && r !in former)
    decreases PORT_LIMIT - port
  {
    if (port in used || port in former) && port < PORT_LIMIT {
      FirstFreeIsLeast(port + 1, used, former);
    }
  }

  /** Position `j` is at an even distance behind `i`. */
  predicate Inspects(i: nat, j: nat) {
    i <= j && (j - i) % 2 == 0
  }

  /**
   * From position `i` on only the ports at even distances are inspected.  The first of them that is
   * free, at `e`, is found; the inspected ports are gone and the others keep their order.
   */
  lemma {:induction false} RecycleInspects(former: seq<int>, i: nat, used: set<int>) returns (e: nat)
    ensures var port := Recycle(former, i, used).0;
            if port.Some? then Inspects(i, e) && e < |former| && former[e] !in used && port.value == former[e]
            else e >= |former|
    ensures forall j :: i <= j < e && j < |former| && Inspects(i, j) ==> former[j] in used
    decreases |former| - i
  {
    if i < |former| && former[i] in used {
      var rest := former[..i] + former[i + 1..];
      var f := RecycleInspects(rest, i + 1, used);
      e := f + 1;
      forall j | i <= j < e && j < |former| && Inspects(i, j) ensures former[j] in used {
        if j > i {
          assert Inspects(i + 1, j - 1) && rest[j - 1] == former[j];
        }
      }
    } else {
      e := i;
    }
  }

  /** The recycled port and the ports passed over, when the one at `e` is found. */
  lemma {:induction false} RecycleKeeps(former: seq<int>, i: nat, used: set<int>, e: nat)
    requires i <= e < |former| && Inspects(i, e) && former[e] !in used
    requires forall j :: i <= j < e && Inspects(i, j) ==> former[j] in used
    ensures var (port, rest) := Recycle(former, i, used);
            var m := (e - i) / 2;
            && port == Some(former[e])
            && |rest| + m + 1 == |former|
            && rest[..i] == former[..i] && rest[i + m..] == former[e + 1..]
            && forall t :: 0 <= t < m ==> rest[i + t] == former[i + 2 * t + 1]
    decreases |former| - i
  {
    var cut := former[..i] + former[i + 1..];
    assert Inspects(i, i);
    if i == e {
      assert Recycle(former, i, used) == (Some(former[i]), cut);
    } else {
      forall j | i + 1 <= j < e - 1 && Inspects(i + 1, j) ensures cut[j] in used {
        assert Inspects(i, j + 1) && cut[j] == former[j + 1];
      }
      assert cut[e - 1] == former[e];
      RecycleKeeps(cut, i + 1, used, e - 1);
      var rest := Recycle(former, i, used).1;
      var m := (e - i) / 2;
      assert rest == Recycle(cut, i + 1, used).1 && Recycle(former, i, used).0 == Recycle(cut, i + 1, used).0;
      assert cut[e..] == former[e + 1..];
      assert rest[..i] == rest[..i + 1][..i] == cut[..i + 1][..i];
      forall t | 0 <= t < m ensures rest[i + t] == former[i + 2 * t + 1] {
        if t == 0 {
          assert rest[i] == rest[..i + 1][i] == cut[..i + 1][i];
        } else {
          assert rest[(i + 1) + (t - 1)] == cut[(i + 1) + 2 * (t - 1) + 1];
        }
      }
    }
  }

  /** Every port of the range is in use or was used formerly. */
  ghost predicate Exhausted(used: set<int>, former: seq<int>) {
    forall p :: 5540 <= p < 65536 ==> p in used || p in former
  }

  /** A request without a desired port falls back to recycling exactly when the range is exhausted. */
  lemma {:induction false} RecyclesIffExhausted(used: set<int>, former: seq<int>)
    ensures Exhausted(used, former) <==> FirstFree(MATTER_PORT, used, former) == PORT_LIMIT
    ensures Exhausted(used, former) ==>
              NextPort(None, used, former) == (Settled(Recycle(former, 0, used).0), Recycle(former, 0, used).1)
  {
    FirstFreeIsLeast(MATTER_PORT, used, former);
  }

  /**
   * With the range exhausted, a request fails exactly when every formerly used port at an even
   * position is in use again, or the first free one among them is the limit itself.
   */
  lemma {:induction false} ExhaustedFailsIff(used: set<int>, former: seq<int>)
    requires Exhausted(used, former)
    ensures NextPort(None, used, former).0.NetworkError? <==>
            ((forall j :: 0 <= j < |former| && j % 2 == 0 ==> former[j] in used) ||
             exists e :: 0 <= e < |former| && e % 2 == 0 && former[e] == PORT_LIMIT && former[e] !in used
                           && forall j :: 0 <= j < e && j % 2 == 0 ==> former[j] in used)
  {
    RecyclesIffExhausted(used, former);
    var e := RecycleInspects(former, 0, used);
    assert forall j :: 0 <= j < e && j < |former| && j % 2 == 0 ==> Inspects(0, j);
  }

  /** A free port behind one that is in use again is passed over, and the request fails. */
  lemma {:induction false} FreePortPassedOver(used: set<int>, former: seq<int>)
    requires Exhausted(used, former)
    requires |former| == 2 && former[0] in used && former[1] !in used
    ensures NextPort(None, used, former) == (NetworkError, [former[1]])
  {
    RecyclesIffExhausted(used, former);
    var rest := former[..0] + former[1..];
    assert rest == [former[1]];
    assert Recycle(former, 0, used) == Recycle(rest, 1, used) == (None, rest);
  }

  lemma {:induction false} RecycleOldest(used: set<int>, former: seq<int>)
    requires former != [] && former[0] !in used
    ensures Recycle(former, 0, used) == (Some(former[0]), former[1..])
  {
    RecycleKeeps(former, 0, used, 0);
    var rest := Recycle(former, 0, used).1;
    assert rest == rest[0..];
  }

  /** While no formerly used port is in use, the oldest one is recycled, and failing means there is none. */
  lemma {:induction false} OldestIsRecycled(used: set<int>, former: seq<int>)
    requires Exhausted(used, former)
    requires forall i :: 0 <= i < |former| ==> former[i] !in used && former[i] < PORT_LIMIT
    ensures NextPort(None, used, former) == if former == [] then (NetworkError, []) else (Ok(former[0]), former[1..])
  {
    RecyclesIffExhausted(used, former);
    if former != [] {
      RecycleOldest(used, former);
    }
  }

  /** Whatever is handed out is not in use, and is the desired port if there is one. */
  lemma {:induction false} NextPortIsUnused(desired: Option<int>, used: set<int>, former: seq<int>)
    ensures var port := NextPort(desired, used, former).0;
            && (port.Ok? || port.NetworkError?)
            && (port.Ok? ==> port.value !in used && (desired.Some? ==> port.value == desired.value))
            && (desired.Some? && desired.value !in used ==> port.Ok?)
  {
    FirstFreeIsLeast(MATTER_PORT, used, former);
    var e := RecycleInspects(former, 0, used);
  }

  /**
   * While some port of the range is neither in use nor formerly used, a default request gets the
   * least such port, and the formerly used ports stay as they are.
   */
  lemma {:induction false} LeastFreePort(used: set<int>, former: seq<int>)
    requires !Exhausted(used, former)
    ensures var (port, rest) := NextPort(None, used, former);
            && rest == former && port.Ok?
            && 5540 <= port.value < 65536 && port.value !in used && port.value !in former
            && forall p :: 5540 <= p < port.value ==> p in used || p in former
  {
    RecyclesIffExhausted(used, former);
    FirstFreeIsLeast(MATTER_PORT, used, former);
  }

  // ---- Runs -----------------------------------------------------------------------------

  /** The ports in use, and those of removed servers from the oldest on. */
  datatype Ports = Ports(used: set<int>, former: seq<int>)

  datatype PortOp =
    | Take(desired: Option<int>, registered: bool)  // a node asks for a port; it is registered if nothing fails
    | DropServer(serverPort: int)
    | DropController(controllerPort: int)

  function PortStep(s: Ports, op: PortOp): Ports {
    match op
    case Take(desired, registered) =>
      var (port, rest) := NextPort(desired, s.used, s.former);
      Ports(if port.Ok? && registered then s.used + {port.value} else s.used, rest)
    case DropServer(port) => if port in s.used then Ports(s.used - {port}, s.former + [port]) else s
    case DropController(port) => Ports(s.used - {port}, s.former)
  }

  /** No formerly used port is in use, and each is remembered once. */
  ghost predicate Separate(s: Ports) {
    && (forall i :: 0 <= i < |s.former| ==> s.former[i] !in s.used)
    && (forall i, j :: 0 <= i < j < |s.former| ==> s.former[i] != s.former[j])
  }

  /** A node is registered on a port that it asks for itself and that was formerly used. */
  predicate Reuses(s: Ports, op: PortOp) {
    op.Take? && op.registered && op.desired.Some? && op.desired.value in s.former
  }

  lemma {:induction false} DefaultKeepsSeparate(s: Ports)
    requires Separate(s)
    ensures var (port, rest) := NextPort(None, s.used, s.former);
            Separate(Ports(s.used, rest)) && (port.Ok? ==> port.value !in rest)
  {
    RecyclesIffExhausted(s.used, s.former);
    FirstFreeIsLeast(MATTER_PORT, s.used, s.former);
    if s.former != [] {
      RecycleOldest(s.used, s.former);
    }
  }

  /** A step keeps formerly used ports apart from those in use exactly when it does not do that. */
  lemma {:induction false} SeparateIff(s: Ports, op: PortOp)
    requires Separate(s)
    ensures Separate(PortStep(s, op)) <==> !Reuses(s, op)
  {
    match op
    case Take(desired, registered) =>
      if desired.None? {
        DefaultKeepsSeparate(s);
      } else if Reuses(s, op) {
        var i :| 0 <= i < |s.former| && s.former[i] == desired.value;
        assert PortStep(s, op) == Ports(s.used + {desired.value}, s.former);
      }
    case DropServer(port) =>
    case DropController(port) =>
  }

  ghost predicate SeparateThroughout(s: Ports, ops: seq<PortOp>)
    decreases |ops|
  {
    Separate(s) && (ops == [] || SeparateThroughout(PortStep(s, ops[0]), ops[1..]))
  }

  predicate ReusesNever(s: Ports, ops: seq<PortOp>)
    decreases |ops|
  {
    ops == [] || (!Reuses(s, ops[0]) && ReusesNever(PortStep(s, ops[0]), ops[1..]))
  }

  function PortRun(s: Ports, ops: seq<PortOp>): Ports
    decreases |ops|
  {
    if ops == [] then s else PortRun(PortStep(s, ops[0]), ops[1..])
  }

  /** Over every run, exactly while no node asks for a formerly used port itself. */
  lemma {:induction false} SeparateThroughoutIff(s: Ports, ops: seq<PortOp>)
    requires Separate(s)
    ensures SeparateThroughout(s, ops) <==> ReusesNever(s, ops)
    ensures ReusesNever(s, ops) ==> Separate(PortRun(s, ops))
    decreases |ops|
  {
    if ops == [] {
    } else {
      var t := PortStep(s, ops[0]);
      SeparateIff(s, ops[0]);
      if Separate(t) {
        SeparateThroughoutIff(t, ops[1..]);
      }
    }
  }

  /** Nodes that never ask for a port of their own never reuse one. */
  lemma {:induction false} DefaultsNeverReuse(s: Ports, ops: seq<PortOp>)
    requires forall i :: 0 <= i < |ops| && ops[i].Take? ==> ops[i].desired.None?
    ensures ReusesNever(s, ops)
    decreases |ops|
  {
    if ops == [] {
    } else {
      DefaultsNeverReuse(PortStep(s, ops[0]), ops[1..]);
    }
  }

  predicate BelowLimit(ports: Ports) {
    forall i :: 0 <= i < |ports.former| ==> ports.former[i] < PORT_LIMIT
  }

  /**
   * After every run that never reuses a port, a default request on an exhausted range gets the
   * oldest formerly used port, and fails only when there is none.
   */
  lemma OldestAfterRun(ops: seq<PortOp>)
    requires ReusesNever(Ports({}, []), ops)
    requires var s := PortRun(Ports({}, []), ops); Exhausted(s.used, s.former) && BelowLimit(s)
    ensures var s := PortRun(Ports({}, []), ops);
            NextPort(None, s.used, s.former) == if s.former == [] then (NetworkError, []) else (Ok(s.former[0]), s.former[1..])
  {
    var s := PortRun(Ports({}, []), ops);
    SeparateThroughoutIff(Ports({}, []), ops);
    OldestIsRecycled(s.used, s.former);
  }

  /** A server that is removed and added again keeps its port, which is then in use and formerly used. */
  lemma {:induction false} ReturningServer(ops: seq<PortOp>)
    requires |ops| == 3 && ops[0] == Take(None, true) && ops[1] == DropServer(MATTER_PORT) && ops[2] == Take(Some(MATTER_PORT), true)
    ensures PortRun(Ports({}, []), ops) == Ports({MATTER_PORT}, [MATTER_PORT]) && !Separate(PortRun(Ports({}, []), ops))
  {
    var s1 := PortStep(Ports({}, []), ops[0]);
    assert FirstFree(MATTER_PORT, {}, []) == MATTER_PORT;
    assert s1 == Ports({MATTER_PORT}, []);
    var s2 := PortStep(s1, ops[1]);
    assert s2 == Ports({}, [MATTER_PORT]);
    var s3 := PortStep(s2, ops[2]);
    assert s3 == Ports({MATTER_PORT}, [MATTER_PORT]);
    var last := ops[1..][1..];
    assert last == [ops[2]] && last[1..] == [];
    assert PortRun(s2, last) == s3 && PortRun(s1, ops[1..]) == PortRun(s2, last);
    assert s3.former[0] in s3.used;
  }

  // ---- Storage keys -----------------------------------------------------------------------

  function StorageKey(uniqueStorageKey: Option<string>, size: nat): string {
    if uniqueStorageKey.Some? then uniqueStorageKey.value else Decimal(size)
  }

  /** A key that is given is used as it is; the default is the decimal text of the number of nodes. */
  lemma StorageKeyLaw(uniqueStorageKey: Option<string>, size: nat)
    ensures var key := StorageKey(uniqueStorageKey, size);
            if uniqueStorageKey.Some? then key == uniqueStorageKey.value
            else (forall i :: 0 <= i < |key| ==> IsDigit(key[i])) && ValueOf(key) == size && (key[0] == '0' ==> key == "0")
  {
    DecimalStandsFor(size);
    if size == 0 {
      assert Decimal(0) == "0";
    }
  }

  /** The keys after adding a node without a key of its own, which is refused if its default key is taken. */
  function DefaultAdded(keys: seq<string>): seq<string> {
    var key := StorageKey(None, |keys|);
    if key in keys then keys else keys + [key]
  }

  function DefaultsAdded(n: nat): seq<string> {
    if n == 0 then [] else DefaultAdded(DefaultsAdded(n - 1))
  }

  /** The keys are the decimal texts of their positions. */
  predicate AreDefaults(keys: seq<string>) {
    forall i {:trigger keys[i]} :: 0 <= i < |keys| ==> keys[i] == Decimal(i)
  }

  /** Without removals no default addition is refused. */
  lemma {:induction false} DefaultsSucceed(n: nat)
    ensures |DefaultsAdded(n)| == n && AreDefaults(DefaultsAdded(n))
  {
    if n == 0 {
    } else {
      DefaultsSucceed(n - 1);
      DefaultAppended(DefaultsAdded(n - 1));
    }
  }

  lemma {:induction false} DefaultAppended(keys: seq<string>)
    requires AreDefaults(keys)
    ensures var added := DefaultAdded(keys); |added| == |keys| + 1 && AreDefaults(added)
  {
    DefaultNotTaken(keys);
  }

  lemma {:induction false} DefaultNotTaken(keys: seq<string>)
    requires AreDefaults(keys)
    ensures Decimal(|keys|) !in keys
  {
    forall i | 0 <= i < |keys| ensures keys[i] != Decimal(|keys|) {
      if Decimal(i) == Decimal(|keys|) {
        DecimalInjective(i, |keys|);
      }
    }
  }

  /** After one of the nodes has been removed, the next default addition is refused exactly when it was not the last. */
  lemma {:induction false} RefusedAfterRemovalIff(n: nat, i: nat)
    requires i <= n
    ensures var keys := DefaultsAdded(n + 1);
            |keys| == n + 1 && (var left := keys[..i] + keys[i + 1..]; DefaultAdded(left) == left <==> i < n)
  {
    DefaultsSucceed(n + 1);
    var keys := DefaultsAdded(n + 1);
    var left := keys[..i] + keys[i + 1..];
    assert |left| == n && StorageKey(None, |left|) == keys[n];
    if i < n {
      assert left[n - 1] == keys[n];
    } else {
      DefaultNotTaken(left);
    }
  }

  // ---- The server -----------------------------------------------------------------------

  class Node {
    const isController: bool
    var initialized: bool          // its port cannot change any more
    var port: Option<int>

    constructor (isController: bool, initialized: bool, port: Option<int>)
      ensures this.isController == isController && this.initialized == initialized && this.port == port
    {
      this.isController := isController;
      this.initialized := initialized;
      this.port := port;
    }
  }

  datatype Registration = Registration(key: string, node: Node)

  /** What is left of a list without one element. */
  lemma RemovedMembers<T>(s: seq<T>, i: nat, rest: seq<T>)
    requires i < |s| && rest == s[..i] + s[i + 1..]
    ensures s[i] in s
    ensures forall x :: x in rest <==> exists j :: 0 <= j < |s| && j != i && s[j] == x
  {
    forall x ensures x in rest <==> exists j :: 0 <= j < |s| && j != i && s[j] == x {
      if x in rest {
        var k :| 0 <= k < |rest| && rest[k] == x;
        assert s[if k < i then k else k + 1] == x;
      }
      if exists j :: 0 <= j < |s| && j != i && s[j] == x {
        var j :| 0 <= j < |s| && j != i && s[j] == x;
        assert rest[if j < i then j else j - 1] == x;
      }
    }
  }

  class MatterServer {
    var nodes: seq<Registration>       // a map with its insertion order
    var formerlyUsedPorts: seq<int>

    constructor ()
      ensures Valid() && nodes == [] && formerlyUsedPorts == []
    {
      nodes, formerlyUsedPorts := [], [];
    }

    ghost function Nodes(): set<Node>
      reads `nodes
    {
      set r | r in nodes :: r.node
    }

    /** Keys are distinct, every server has a port, and no two nodes have the same port. */
    ghost predicate Valid()
      reads `nodes, Nodes()
    {
      && (forall i, j :: 0 <= i < j < |nodes| ==> nodes[i].key != nodes[j].key)
      && (forall i :: 0 <= i < |nodes| ==> PortOk(nodes[i].node))
      && (forall i, j :: 0 <= i < j < |nodes| ==> PortsDiffer(nodes[i].node, nodes[j].node))
    }

    ghost predicate PortOk(n: Node)
      reads n
    {
      n.isController || n.port.Some?
    }

    ghost predicate PortsDiffer(m: Node, n: Node)
      reads m, n
    {
      m.port.Some? ==> m.port != n.port
    }

    /** The ports of all nodes. */
    ghost function UsedPorts(): set<int>
      reads `nodes, Nodes()
    {
      set r | r in nodes && r.node.port.Some? :: r.node.port.value
    }

    ghost function PortsOf(): Ports
      reads this, Nodes()
    {
      Ports(UsedPorts(), formerlyUsedPorts)
    }

    method GetNextMatterPort(desiredPort: Option<int>) returns (port: Result<int>)
      requires Valid()
      modifies `formerlyUsedPorts
      ensures (port, formerlyUsedPorts) == NextPort(desiredPort, old(UsedPorts()), old(formerlyUsedPorts))
      ensures UsedPorts() == old(UsedPorts())
    {
      var used := {};
      for i := 0 to |nodes|
        invariant formerlyUsedPorts == old(formerlyUsedPorts)
        invariant used == set j | 0 <= j < i && nodes[j].node.port.Some? :: nodes[j].node.port.value
      {
        var nodePort := nodes[i].node.port;
        if nodePort.Some? {
          if nodePort.value in used {
            return NetworkError;
          }
          used := used + {nodePort.value};
        }
      }
      assert used == UsedPorts();
      if desiredPort.Some? {
        if desiredPort.value in used {
          return NetworkError;
        }
        return Ok(desiredPort.value);
      }
      var portToCheck: nat := MATTER_PORT;
      while (portToCheck in used || portToCheck in formerlyUsedPorts) && portToCheck < PORT_LIMIT
        invariant FirstFree(MATTER_PORT, used, formerlyUsedPorts) == FirstFree(portToCheck, used, formerlyUsedPorts)
        invariant portToCheck <= PORT_LIMIT
      {
        portToCheck := portToCheck + 1;
      }
      if portToCheck == PORT_LIMIT {
        var portToCheck': int := portToCheck;
        var recycled := RecyclePort(used);
        assert UsedPorts() == used;
        if recycled.Some? {
          portToCheck' := recycled.value;
        }
        assert FirstFree(MATTER_PORT, used, old(formerlyUsedPorts)) == PORT_LIMIT;
        assert (recycled, formerlyUsedPorts) == Recycle(old(formerlyUsedPorts), 0, used);
        assert Settled(recycled) == if portToCheck' == PORT_LIMIT then NetworkError else Ok(portToCheck');
        assert NextPort(desiredPort, used, old(formerlyUsedPorts)) == (Settled(recycled), formerlyUsedPorts);
        if portToCheck' == PORT_LIMIT {
          return NetworkError;
        }
        return Ok(portToCheck');
      }
      return Ok(portToCheck);
    }

    method RecyclePort(used: set<int>) returns (port: Option<int>)
      modifies `formerlyUsedPorts
      ensures (port, formerlyUsedPorts) == Recycle(old(formerlyUsedPorts), 0, used)
    {
      var i: nat := 0;
      while i < |formerlyUsedPorts|
        invariant Recycle(old(formerlyUsedPorts), 0, used) == Recycle(formerlyUsedPorts, i, used)
        decreases |formerlyUsedPorts| - i
      {
        var candidate := formerlyUsedPorts[i];
        formerlyUsedPorts := formerlyUsedPorts[..i] + formerlyUsedPorts[i + 1..];
        if candidate !in used {
          return Some(candidate);
        }
        i := i + 1;
      }
      return None;
    }

    /**
     * Adds a server.  Its port is the one it asks for, or the next one.  `nodeFails` tells whether
     * its storage or its preparation fails: by then it has its port, but it is not registered.
     */
    method AddCommissioningServer(server: Node, uniqueStorageKey: Option<string>, nodeFails: bool) returns (result: Result<()>)
      requires Valid() && !server.isController
      modifies this, server`port
      ensures Valid()
      ensures result.DuplicateKey? <==> exists r :: r in old(nodes) && r.key == StorageKey(uniqueStorageKey, |old(nodes)|)
      ensures result.DuplicateKey? ==> formerlyUsedPorts == old(formerlyUsedPorts)
      ensures var next := NextPort(old(server.port), old(UsedPorts()), old(formerlyUsedPorts));
              !result.DuplicateKey? ==>
                && formerlyUsedPorts == next.1
                && result == (if !next.0.Ok? then NetworkError
                              else if old(server.port).None? && server.initialized then PortFixed
                              else if nodeFails then NodeFailed
                              else Ok(()))
                && (result.NodeFailed? || result.Ok? ==> server.port == Some(next.0.value))
      ensures nodes == old(nodes) + if result.Ok? then [Registration(StorageKey(uniqueStorageKey, |old(nodes)|), server)] else []
      ensures !result.Ok? && !result.NodeFailed? ==> server.port == old(server.port)
      ensures PortsOf() == if result.DuplicateKey? then old(PortsOf()) else PortStep(old(PortsOf()), Take(old(server.port), result.Ok?))
    {
      var storageKey := StorageKey(uniqueStorageKey, |nodes|);
      if exists r :: r in nodes && r.key == storageKey {
        return DuplicateKey;
      }
      NextPortIsUnused(server.port, UsedPorts(), formerlyUsedPorts);
      var port := GetNextMatterPort(server.port);
      if !port.Ok? {
        return NetworkError;
      }
      var set_ := SetPort(server, port.value);
      if !set_ {
        return PortFixed;
      }
      if nodeFails {
        return NodeFailed;
      }
      Register(storageKey, server);
      return Ok(());
    }

    /** Sets the port of a node that is not registered; it cannot change once the device is initialized. */
    method SetPort(server: Node, port: int) returns (done: bool)
      requires Valid() && port !in UsedPorts() && !server.isController && (server.port.Some? ==> server.port.value == port)
      modifies server`port
      ensures Valid() && UsedPorts() == old(UsedPorts()) && port !in UsedPorts()
      ensures done == !(old(server.port).None? && server.initialized)
      ensures server.port == if done then Some(port) else old(server.port)
      ensures done ==> forall r :: r in nodes ==> r.node != server
    {
      if server.port == Some(port) {
        assert forall i :: 0 <= i < |nodes| ==> nodes[i] in nodes && nodes[i].node != server;
        return true;
      }
      if server.initialized {
        return false;
      }
      assert forall i :: 0 <= i < |nodes| ==> nodes[i] in nodes && nodes[i].node != server;
      server.port := Some(port);
      return true;
    }

    /** Adds a node whose port, if it has one, is not in use. */
    method Register(key: string, node: Node)
      requires Valid() && PortOk(node) && (node.port.Some? ==> node.port.value !in UsedPorts())
      requires forall r :: r in nodes ==> r.key != key
      modifies `nodes
      ensures Valid() && nodes == old(nodes) + [Registration(key, node)]
      ensures UsedPorts() == old(UsedPorts()) + if node.port.Some? then {node.port.value} else {}
    {
      forall i | 0 <= i < |nodes| ensures PortsDiffer(nodes[i].node, node) {
        assert nodes[i] in nodes;
      }
      nodes := nodes + [Registration(key, node)];
    }

    /** Adds a controller.  A controller without a port gets none. */
    method AddCommissioningController(controller: Node, uniqueStorageKey: Option<string>, nodeFails: bool) returns (result: Result<()>)
      requires Valid() && controller.isController
      modifies this
      ensures Valid()
      ensures formerlyUsedPorts == old(formerlyUsedPorts)
      ensures var key := StorageKey(uniqueStorageKey, |old(nodes)|);
              if exists r :: r in old(nodes) && r.key == key then
                result == DuplicateKey && nodes == old(nodes)
              else if controller.port.Some? && controller.port.value in old(UsedPorts()) then
                result == NetworkError && nodes == old(nodes)
              else if nodeFails then
                result == NodeFailed && nodes == old(nodes)
              else
                result == Ok(()) && nodes == old(nodes) + [Registration(key, controller)]
      ensures PortsOf() == if result.DuplicateKey? || controller.port.None? then old(PortsOf())
                           else PortStep(old(PortsOf()), Take(controller.port, result.Ok?))
    {
      var storageKey := StorageKey(uniqueStorageKey, |nodes|);
      if exists r :: r in nodes && r.key == storageKey {
        return DuplicateKey;
      }
      if controller.port.Some? {
        var checked := GetNextMatterPort(controller.port);
        if !checked.Ok? {
          return NetworkError;
        }
      }
      if nodeFails {
        return NodeFailed;
      }
      Register(storageKey, controller);
      return Ok(());
    }

    method RemoveAt(i: nat)
      requires Valid() && i < |nodes|
      modifies `nodes
      ensures Valid() && old(nodes)[i] in old(nodes) && nodes == old(nodes)[..i] + old(nodes)[i + 1..]
      ensures var port := old(nodes)[i].node.port;
              UsedPorts() == old(UsedPorts()) - (if port.Some? then {port.value} else {}) &&
              (port.Some? ==> port.value in old(UsedPorts()))
    {
      RemovedMembers(nodes, i, nodes[..i] + nodes[i + 1..]);
      PortsWithout(i);
      nodes := nodes[..i] + nodes[i + 1..];
    }

    /** The ports of the other nodes differ from that of node `i`. */
    lemma PortsWithout(i: nat)
      requires Valid() && i < |nodes|
      ensures forall j :: 0 <= j < |nodes| && j != i && nodes[j].node.port.Some? ==> nodes[j].node.port != nodes[i].node.port
    {
      forall j | 0 <= j < |nodes| && j != i && nodes[j].node.port.Some? ensures nodes[j].node.port != nodes[i].node.port {
        assert if j < i then PortsDiffer(nodes[j].node, nodes[i].node) else PortsDiffer(nodes[i].node, nodes[j].node);
      }
    }

    /** Removes the first entry of a node; the port of a server is remembered as formerly used. */
    method Remove(node: Node) returns (result: Result<()>)
      requires Valid()
      modifies this
      ensures Valid()
      ensures if exists r :: r in old(nodes) && r.node == node then
                result == Ok(())
                && (exists i :: 0 <= i < |old(nodes)| && old(nodes)[i].node == node
                      && (forall j :: 0 <= j < i ==> old(nodes)[j].node != node)
                      && nodes == old(nodes)[..i] + old(nodes)[i + 1..])
                && formerlyUsedPorts == old(formerlyUsedPorts) + (if !node.isController && node.port.Some? then [node.port.value] else [])
              else
                result == NotFound && nodes == old(nodes) && formerlyUsedPorts == old(formerlyUsedPorts)
      ensures PortsOf() == if !result.Ok? || node.port.None? then old(PortsOf())
                           else PortStep(old(PortsOf()), if node.isController then DropController(node.port.value)
                                                         else DropServer(node.port.value))
    {
      for i := 0 to |nodes|
        invariant nodes == old(nodes) && formerlyUsedPorts == old(formerlyUsedPorts)
        invariant forall j :: 0 <= j < i ==> nodes[j].node != node
      {
        if nodes[i].node == node {
          RemoveAt(i);
          if !node.isController && node.port.Some? {
            formerlyUsedPorts := formerlyUsedPorts + [node.port.value];
          }
          return Ok(());
        }
      }
      return NotFound;
    }
  }
}
