/**
 * Persistent endpoint numbers: the two passes over the endpoint tree in
 * packages/matter.js/src/CommissioningServer.ts, with a counter and a store that survive restarts.
 */
module EndpointNumbers {
  import opened Options
  import opened Decimals

  const NEXT_ENDPOINT_ID := "nextEndpointId"

  class Endpoint {
    var number: Option<nat>

    constructor (number: Option<nat>)
      ensures this.number == number
    {
      this.number := number;
    }
  }

  /** An endpoint with its unique id, if it has one, and its children. */
  datatype Node = Node(ep: Endpoint, uniqueId: Option<string>, children: seq<Node>)

  /** An endpoint with the key under which its number is stored. */
  datatype Slot = Slot(ep: Endpoint, key: string)

  // ---- Storage keys ---------------------------------------------------------------------

  /** The part of the key that an endpoint adds to the key of its parent. */
  function Segment(n: Node, index: nat): string {
    match n.uniqueId
    case None => "index_" + Decimal(index)
    case Some(id) => id
  }

  function Extend(prefix: string, segment: string): string {
    prefix + (if prefix == "" then "" else "-") + segment
  }

  /** An endpoint with all its descendants in pre-order. */
  ghost function Subtree(node: Node, key: string): seq<Slot>
    decreases node, 1
  {
    [Slot(node.ep, key)] + Flat(node.children, |node.children|, key)
  }

  /** The first `n` siblings with all their descendants in pre-order. */
  ghost function Flat(siblings: seq<Node>, n: nat, prefix: string): seq<Slot>
    requires n <= |siblings|
    decreases siblings, 0, n
  {
    if n == 0 then []
    else
      Flat(siblings, n - 1, prefix) + Subtree(siblings[n - 1], Extend(prefix, Segment(siblings[n - 1], n - 1)))
  }

  lemma {:induction false} FlatPrefix(siblings: seq<Node>, m: nat, n: nat, prefix: string)
    requires m <= n <= |siblings|
    ensures Flat(siblings, m, prefix) <= Flat(siblings, n, prefix)
  {
    if m == n {
    } else {
      FlatPrefix(siblings, m, n - 1, prefix);
    }
  }

  /** Where the subtree of sibling `i` lies. */
  lemma FlatPart(siblings: seq<Node>, i: nat, prefix: string) returns (n: nat, m: nat)
    requires i < |siblings|
    ensures n == |Flat(siblings, i, prefix)| && m == |Flat(siblings, i + 1, prefix)|
    ensures n <= m <= |Flat(siblings, |siblings|, prefix)|
    ensures Flat(siblings, |siblings|, prefix)[n..m] == Subtree(siblings[i], Extend(prefix, Segment(siblings[i], i)))
  {
    n, m := |Flat(siblings, i, prefix)|, |Flat(siblings, i + 1, prefix)|;
    FlatPrefix(siblings, i + 1, |siblings|, prefix);
    assert Flat(siblings, |siblings|, prefix)[n..m] == Flat(siblings, i + 1, prefix)[n..m];
  }

  ghost function Keys(slots: seq<Slot>): (r: seq<string>)
    ensures |r| == |slots| && forall i :: 0 <= i < |r| ==> r[i] == slots[i].key
  {
    seq(|slots|, i requires 0 <= i < |slots| => slots[i].key)
  }

  ghost function Eps(slots: seq<Slot>): set<Endpoint> {
    set s | s in slots :: s.ep
  }

  /** The numbers of a list of endpoints. */
  ghost function Numbers(slots: seq<Slot>): (r: seq<Option<nat>>)
    reads Eps(slots)
    ensures |r| == |slots| && forall i :: 0 <= i < |r| ==> r[i] == slots[i].ep.number
  {
    seq(|slots|, i reads Eps(slots) requires 0 <= i < |slots| => assert slots[i] in slots; slots[i].ep.number)
  }

  ghost predicate DistinctEps(slots: seq<Slot>) {
    forall i, j :: 0 <= i < j < |slots| ==> slots[i].ep != slots[j].ep
  }

  /** The endpoints of a slice of a list of distinct endpoints. */
  lemma SliceDistinct(all: seq<Slot>, n: nat, m: nat, part: seq<Slot>)
    requires DistinctEps(all) && n <= m <= |all| && all[n..m] == part
    ensures DistinctEps(part) && Eps(part) <= Eps(all)
    ensures Keys(all)[n..m] == Keys(part)
    ensures forall i :: (0 <= i < n || m <= i < |all|) ==> all[i].ep !in Eps(part)
    ensures forall i :: n <= i < m ==> all[i] == part[i - n]
  {
    assert forall i :: n <= i < m ==> all[i] == part[i - n];
    assert forall s :: s in part ==> s in all;
  }

  lemma SliceNumbers(all: seq<Slot>, n: nat, m: nat, part: seq<Slot>)
    requires DistinctEps(all) && n <= m <= |all| && all[n..m] == part
    ensures Numbers(all)[n..m] == Numbers(part)
  {
    SliceDistinct(all, n, m, part);
  }

  /** Outside a slice the numbers are as they were. */
  lemma AroundSlice(all: seq<Slot>, n: nat, m: nat, part: seq<Slot>, before: seq<Option<nat>>)
    requires DistinctEps(all) && n <= m <= |all| && all[n..m] == part && |before| == |all|
    requires forall i :: 0 <= i < |all| && all[i].ep !in Eps(part) ==> all[i].ep.number == before[i]
    ensures Numbers(all)[..n] == before[..n] && Numbers(all)[m..] == before[m..]
  {
    SliceDistinct(all, n, m, part);
  }

  // ---- What the passes compute ----------------------------------------------------------

  type Store = map<string, nat>

  function Restore(number: Option<nat>, key: string, store: Store): Option<nat> {
    if number.None? && key in store then Some(store[key]) else number
  }

  ghost predicate IsRestored(after: seq<Option<nat>>, before: seq<Option<nat>>, keys: seq<string>, store: Store) {
    |after| == |before| == |keys| && forall i :: 0 <= i < |keys| ==> after[i] == Restore(before[i], keys[i], store)
  }

  function Restored(numbers: seq<Option<nat>>, keys: seq<string>, store: Store): (r: seq<Option<nat>>)
    requires |numbers| == |keys|
    ensures IsRestored(r, numbers, keys, store)
  {
    seq(|keys|, i requires 0 <= i < |keys| => Restore(numbers[i], keys[i], store))
  }

  lemma RestoredIsUnique(after: seq<Option<nat>>, before: seq<Option<nat>>, keys: seq<string>, store: Store)
    requires IsRestored(after, before, keys, store)
    ensures after == Restored(before, keys, store)
  {
  }

  function Bump(next: nat, number: Option<nat>): nat {
    if number.Some? && number.value > next then number.value + 1 else next
  }

  function BumpAll(next: nat, numbers: seq<Option<nat>>): nat {
    if numbers == [] then next
    else Bump(BumpAll(next, numbers[..|numbers| - 1]), numbers[|numbers| - 1])
  }

  /**
   * The first `n` numbers are restored and have pushed the counter from `next0` to `next`;
   * the others are as before.
   */
  ghost predicate RestoredTo(now: seq<Option<nat>>, before: seq<Option<nat>>, keys: seq<string>, store: Store,
                             n: nat, next0: nat, next: nat)
  {
    n <= |now| == |before| == |keys| && forall half :: RestoredHalf(half, now, before, keys, store, n, next0, next)
  }

  /** The numbers in front of a position, and those behind it. */
  datatype Half = Front | Back

  ghost predicate RestoredHalf(half: Half, now: seq<Option<nat>>, before: seq<Option<nat>>, keys: seq<string>, store: Store,
                               n: nat, next0: nat, next: nat)
    requires n <= |now| == |before| == |keys|
  {
    match half
    case Front => IsRestored(now[..n], before[..n], keys[..n], store) && next == BumpAll(next0, now[..n])
    case Back => now[n..] == before[n..]
  }

  /** Restoring the numbers from `n` to `m` after those up to `n`. */
  lemma Advance(now: seq<Option<nat>>, now': seq<Option<nat>>, before: seq<Option<nat>>, keys: seq<string>, store: Store,
                n: nat, m: nat, next0: nat, next: nat, next': nat)
    requires n <= m <= |now'| == |now| && RestoredTo(now, before, keys, store, n, next0, next)
    requires now'[..n] == now[..n] && now'[m..] == now[m..]
    requires IsRestored(now'[n..m], now[n..m], keys[n..m], store) && next' == BumpAll(next, now'[n..m])
    ensures RestoredTo(now', before, keys, store, m, next0, next')
  {
    assert RestoredHalf(Front, now, before, keys, store, n, next0, next) && RestoredHalf(Back, now, before, keys, store, n, next0, next);
    assert now'[..m] == now'[..n] + now'[n..m];
    BumpConcat(next0, now'[..n], now'[n..m]);
    forall i | 0 <= i < m ensures now'[i] == Restore(before[i], keys[i], store) {
      if i < n {
        assert now'[i] == now'[..n][i] == now[..n][i] && before[i] == before[..n][i] && keys[i] == keys[..n][i];
      } else {
        assert now'[i] == now'[n..m][i - n] && before[i] == before[n..][i - n] == now[n..][i - n] == now[n..m][i - n]
            && keys[i] == keys[n..m][i - n];
      }
    }
    forall i | m <= i < |now'| ensures now'[i] == before[i] {
      assert now'[i] == now'[m..][i - m] == now[m..][i - m] == now[n..][i - n] == before[n..][i - n];
    }
  }

  lemma RestoredNone(before: seq<Option<nat>>, keys: seq<string>, store: Store, next0: nat)
    requires |before| == |keys|
    ensures RestoredTo(before, before, keys, store, 0, next0, next0)
  {
  }

  lemma RestoredFirst(now: seq<Option<nat>>, before: seq<Option<nat>>, keys: seq<string>, store: Store, next0: nat)
    requires |now| == |before| == |keys| > 0 && now[0] == Restore(before[0], keys[0], store) && now[1..] == before[1..]
    ensures RestoredTo(now, before, keys, store, 1, next0, Bump(next0, now[0]))
  {
    var next := Bump(next0, now[0]);
    assert now[..1] == [now[0]] && now[..1][..0] == [];
    assert RestoredHalf(Front, now, before, keys, store, 1, next0, next) && RestoredHalf(Back, now, before, keys, store, 1, next0, next);
  }

  lemma RestoredAll(now: seq<Option<nat>>, before: seq<Option<nat>>, keys: seq<string>, store: Store, next0: nat, next: nat)
    requires RestoredTo(now, before, keys, store, |now|, next0, next)
    ensures IsRestored(now, before, keys, store) && next == BumpAll(next0, now)
  {
    assert RestoredHalf(Front, now, before, keys, store, |now|, next0, next);
    assert now[..|now|] == now && before[..|now|] == before && keys[..|now|] == keys;
  }

  datatype Allocation = Allocation(numbers: seq<Option<nat>>, store: Store, next: nat)

  function Fill(numbers: seq<Option<nat>>, keys: seq<string>, store: Store, next: nat): (r: Allocation)
    requires |numbers| == |keys|
    ensures |r.numbers| == |numbers|
  {
    if numbers == [] then Allocation([], store, next)
    else
      var last := |numbers| - 1;
      var a := Fill(numbers[..last], keys[..last], store, next);
      if numbers[last].Some? then a.(numbers := a.numbers + [numbers[last]])
      else Allocation(a.numbers + [Some(a.next)], a.store[keys[last] := a.next], a.next + 1)
  }

  lemma {:induction false} BumpConcat(next: nat, a: seq<Option<nat>>, b: seq<Option<nat>>)
    ensures BumpAll(next, a + b) == BumpAll(BumpAll(next, a), b)
  {
    if b == [] {
      assert a + b == a;
    } else {
      assert (a + b)[..|a + b| - 1] == a + b[..|b| - 1];
      BumpConcat(next, a, b[..|b| - 1]);
    }
  }

  lemma {:induction false} FillConcat(n1: seq<Option<nat>>, k1: seq<string>, n2: seq<Option<nat>>, k2: seq<string>, store: Store, next: nat)
    requires |n1| == |k1| && |n2| == |k2|
    ensures var a := Fill(n1, k1, store, next);
            var b := Fill(n2, k2, a.store, a.next);
            Fill(n1 + n2, k1 + k2, store, next) == b.(numbers := a.numbers + b.numbers)
  {
    if n2 == [] {
      assert n1 + n2 == n1 && k1 + k2 == k1;
    } else {
      var m := |n2| - 1;
      assert (n1 + n2)[..|n1 + n2| - 1] == n1 + n2[..m] && (k1 + k2)[..|k1 + k2| - 1] == k1 + k2[..m];
      FillConcat(n1, k1, n2[..m], k2[..m], store, next);
    }
  }

  /** The first `n` numbers are filled in, which has taken the store and the counter to `store` and `next`. */
  ghost predicate FilledTo(now: seq<Option<nat>>, before: seq<Option<nat>>, keys: seq<string>, n: nat,
                           store0: Store, next0: nat, store: Store, next: nat)
  {
    n <= |now| == |before| == |keys| && forall half :: FilledHalf(half, now, before, keys, n, store0, next0, store, next)
  }

  ghost predicate FilledHalf(half: Half, now: seq<Option<nat>>, before: seq<Option<nat>>, keys: seq<string>, n: nat,
                             store0: Store, next0: nat, store: Store, next: nat)
    requires n <= |now| == |before| == |keys|
  {
    match half
    case Front => Allocation(now[..n], store, next) == Fill(before[..n], keys[..n], store0, next0)
    case Back => now[n..] == before[n..]
  }

  /** Filling the numbers from `n` to `m` after those up to `n`. */
  lemma AdvanceFill(now: seq<Option<nat>>, now': seq<Option<nat>>, before: seq<Option<nat>>, keys: seq<string>, n: nat, m: nat,
                    store0: Store, next0: nat, store: Store, next: nat, store': Store, next': nat)
    requires n <= m <= |now'| == |now| && FilledTo(now, before, keys, n, store0, next0, store, next)
    requires now'[..n] == now[..n] && now'[m..] == now[m..]
    requires Allocation(now'[n..m], store', next') == Fill(now[n..m], keys[n..m], store, next)
    ensures FilledTo(now', before, keys, m, store0, next0, store', next')
  {
    assert FilledHalf(Front, now, before, keys, n, store0, next0, store, next);
    assert FilledHalf(Back, now, before, keys, n, store0, next0, store, next);
    assert now[n..m] == now[n..][..m - n] == before[n..][..m - n] == before[n..m];
    assert now'[..m] == now'[..n] + now'[n..m] && before[..m] == before[..n] + before[n..m] && keys[..m] == keys[..n] + keys[n..m];
    FillConcat(before[..n], keys[..n], before[n..m], keys[n..m], store0, next0);
    assert now'[m..] == now[n..][m - n..] == before[n..][m - n..] == before[m..];
  }

  lemma FilledNone(before: seq<Option<nat>>, keys: seq<string>, store0: Store, next0: nat)
    requires |before| == |keys|
    ensures FilledTo(before, before, keys, 0, store0, next0, store0, next0)
  {
  }

  lemma FilledFirst(now: seq<Option<nat>>, before: seq<Option<nat>>, keys: seq<string>, store0: Store, next0: nat)
    requires |now| == |before| == |keys| > 0 && now[1..] == before[1..]
    requires now[0] == if before[0].Some? then before[0] else Some(next0)
    ensures FilledTo(now, before, keys, 1, store0, next0, if before[0].Some? then store0 else store0[keys[0] := next0],
                     if before[0].Some? then next0 else next0 + 1)
  {
    var store := if before[0].Some? then store0 else store0[keys[0] := next0];
    var next := if before[0].Some? then next0 else next0 + 1;
    assert now[..1] == [now[0]] && before[..1] == [before[0]] && keys[..1] == [keys[0]] && before[..1][..0] == [];
    assert FilledHalf(Front, now, before, keys, 1, store0, next0, store, next);
    assert FilledHalf(Back, now, before, keys, 1, store0, next0, store, next);
  }

  lemma FilledAll(now: seq<Option<nat>>, before: seq<Option<nat>>, keys: seq<string>,
                  store0: Store, next0: nat, store: Store, next: nat)
    requires FilledTo(now, before, keys, |now|, store0, next0, store, next)
    ensures Allocation(now, store, next) == Fill(before, keys, store0, next0)
  {
    assert FilledHalf(Front, now, before, keys, |now|, store0, next0, store, next);
    assert now[..|now|] == now && before[..|now|] == before && keys[..|now|] == keys;
  }

  /** Both passes over numbers and keys in pre-order, and the counter stored at the end. */
  function Assign(numbers: seq<Option<nat>>, keys: seq<string>, store: Store, next: nat): (r: Allocation)
    requires |numbers| == |keys|
    ensures |r.numbers| == |numbers|
  {
    var restored := Restored(numbers, keys, store);
    var a := Fill(restored, keys, store, BumpAll(next, restored));
    a.(store := a.store[NEXT_ENDPOINT_ID := a.next])
  }

  class CommissioningServer {
    var nextEndpointId: nat
    var endpointStructureStorage: Store

    constructor (nextEndpointId: nat, store: Store)
      ensures this.nextEndpointId == nextEndpointId && endpointStructureStorage == store
    {
      this.nextEndpointId := nextEndpointId;
      endpointStructureStorage := store;
    }

    /** First pass: takes stored numbers over and pushes the counter past numbers that exceed it. */
    method InitializeEndpointIdsFromStorage(endpoints: seq<Node>, parentUniquePrefix: string, ghost slots: seq<Slot>)
      requires slots == Flat(endpoints, |endpoints|, parentUniquePrefix) && DistinctEps(slots)
      modifies `nextEndpointId, Eps(slots)
      ensures IsRestored(Numbers(slots), old(Numbers(slots)), Keys(slots), endpointStructureStorage)
      ensures nextEndpointId == BumpAll(old(nextEndpointId), Numbers(slots))
      decreases endpoints, 0
    {
      ghost var n, before, next0 := 0, Numbers(slots), nextEndpointId;
      RestoredNone(before, Keys(slots), endpointStructureStorage, next0);
      for i := 0 to |endpoints|
        invariant n == |Flat(endpoints, i, parentUniquePrefix)|
        invariant RestoredTo(Numbers(slots), before, Keys(slots), endpointStructureStorage, n, next0, nextEndpointId)
      {
        n := InitializeSibling(endpoints, i, parentUniquePrefix, slots, before, n, next0);
      }
      RestoredAll(Numbers(slots), before, Keys(slots), endpointStructureStorage, next0, nextEndpointId);
    }

    method InitializeSibling(endpoints: seq<Node>, i: nat, parentUniquePrefix: string, ghost slots: seq<Slot>,
                             ghost before: seq<Option<nat>>, ghost n: nat, ghost next0: nat)
      returns (ghost m: nat)
      requires i < |endpoints| && n == |Flat(endpoints, i, parentUniquePrefix)|
      requires slots == Flat(endpoints, |endpoints|, parentUniquePrefix) && DistinctEps(slots)
      requires RestoredTo(Numbers(slots), before, Keys(slots), endpointStructureStorage, n, next0, nextEndpointId)
      modifies `nextEndpointId, Eps(slots)
      ensures m == |Flat(endpoints, i + 1, parentUniquePrefix)|
      ensures RestoredTo(Numbers(slots), before, Keys(slots), endpointStructureStorage, m, next0, nextEndpointId)
      decreases endpoints[i], 3
    {
      ghost var _, to := FlatPart(endpoints, i, parentUniquePrefix);
      var key := Extend(parentUniquePrefix, Segment(endpoints[i], i));
      InitializePart(endpoints[i], key, slots, before, n, to, next0);
      m := to;
    }

    /** One sibling with its descendants, at positions `n` to `m` of `slots`. */
    method InitializePart(endpoint: Node, key: string, ghost slots: seq<Slot>, ghost before: seq<Option<nat>>,
                          ghost n: nat, ghost m: nat, ghost next0: nat)
      requires n <= m <= |slots| && slots[n..m] == Subtree(endpoint, key) && DistinctEps(slots)
      requires RestoredTo(Numbers(slots), before, Keys(slots), endpointStructureStorage, n, next0, nextEndpointId)
      modifies `nextEndpointId, Eps(slots)
      ensures RestoredTo(Numbers(slots), before, Keys(slots), endpointStructureStorage, m, next0, nextEndpointId)
      decreases endpoint, 2
    {
      ghost var next, now, part := nextEndpointId, Numbers(slots), slots[n..m];
      SliceDistinct(slots, n, m, part);
      SliceNumbers(slots, n, m, part);
      InitializeEndpoint(endpoint, key, part);
      SliceNumbers(slots, n, m, part);
      AroundSlice(slots, n, m, part, now);
      Advance(now, Numbers(slots), before, Keys(slots), endpointStructureStorage, n, m, next0, next, nextEndpointId);
    }

    method InitializeEndpoint(endpoint: Node, key: string, ghost slots: seq<Slot>)
      requires slots == Subtree(endpoint, key) && DistinctEps(slots)
      modifies `nextEndpointId, Eps(slots)
      ensures IsRestored(Numbers(slots), old(Numbers(slots)), Keys(slots), endpointStructureStorage)
      ensures nextEndpointId == BumpAll(old(nextEndpointId), Numbers(slots))
      decreases endpoint, 1
    {
      RestoreFirst(endpoint, key, slots);
      ghost var part := Flat(endpoint.children, |endpoint.children|, key);
      ghost var next, now := nextEndpointId, Numbers(slots);
      assert slots[1..|slots|] == part;
      SliceDistinct(slots, 1, |slots|, part);
      SliceNumbers(slots, 1, |slots|, part);
      InitializeEndpointIdsFromStorage(endpoint.children, key, part);
      SliceNumbers(slots, 1, |slots|, part);
      AroundSlice(slots, 1, |slots|, part, now);
      Advance(now, Numbers(slots), old(Numbers(slots)), Keys(slots), endpointStructureStorage, 1, |slots|,
              old(nextEndpointId), next, nextEndpointId);
      RestoredAll(Numbers(slots), old(Numbers(slots)), Keys(slots), endpointStructureStorage, old(nextEndpointId), nextEndpointId);
    }

    /** The endpoint itself, ahead of its descendants. */
    method RestoreFirst(endpoint: Node, key: string, ghost slots: seq<Slot>)
      requires slots != [] && slots[0] == Slot(endpoint.ep, key) && DistinctEps(slots)
      modifies `nextEndpointId, endpoint.ep
      ensures RestoredTo(Numbers(slots), old(Numbers(slots)), Keys(slots), endpointStructureStorage, 1,
                         old(nextEndpointId), nextEndpointId)
    {
      assert slots[0] in slots;
      if endpoint.ep.number.None? {
        if key in endpointStructureStorage {
          endpoint.ep.number := Some(endpointStructureStorage[key]);
        }
      }
      if endpoint.ep.number.Some? && endpoint.ep.number.value > nextEndpointId {
        nextEndpointId := endpoint.ep.number.value + 1;
      }
      assert Numbers(slots)[..1] == [endpoint.ep.number];
      RestoredFirst(Numbers(slots), old(Numbers(slots)), Keys(slots), endpointStructureStorage, old(nextEndpointId));
    }

    /** Second pass: numbers the endpoints that have none yet and stores their numbers. */
    method FillAndStoreEndpointIds(endpoints: seq<Node>, parentUniquePrefix: string, ghost slots: seq<Slot>)
      requires slots == Flat(endpoints, |endpoints|, parentUniquePrefix) && DistinctEps(slots)
      modifies this, Eps(slots)
      ensures Allocation(Numbers(slots), endpointStructureStorage, nextEndpointId)
           == Fill(old(Numbers(slots)), Keys(slots), old(endpointStructureStorage), old(nextEndpointId))
      decreases endpoints, 0
    {
      ghost var n, before, store0, next0 := 0, Numbers(slots), endpointStructureStorage, nextEndpointId;
      FilledNone(before, Keys(slots), store0, next0);
      for i := 0 to |endpoints|
        invariant n == |Flat(endpoints, i, parentUniquePrefix)|
        invariant FilledTo(Numbers(slots), before, Keys(slots), n, store0, next0, endpointStructureStorage, nextEndpointId)
      {
        n := FillSibling(endpoints, i, parentUniquePrefix, slots, before, n, store0, next0);
      }
      FilledAll(Numbers(slots), before, Keys(slots), store0, next0, endpointStructureStorage, nextEndpointId);
    }

    method FillSibling(endpoints: seq<Node>, i: nat, parentUniquePrefix: string, ghost slots: seq<Slot>,
                       ghost before: seq<Option<nat>>, ghost n: nat, ghost store0: Store, ghost next0: nat)
      returns (ghost m: nat)
      requires i < |endpoints| && n == |Flat(endpoints, i, parentUniquePrefix)|
      requires slots == Flat(endpoints, |endpoints|, parentUniquePrefix) && DistinctEps(slots)
      requires FilledTo(Numbers(slots), before, Keys(slots), n, store0, next0, endpointStructureStorage, nextEndpointId)
      modifies this, Eps(slots)
      ensures m == |Flat(endpoints, i + 1, parentUniquePrefix)|
      ensures FilledTo(Numbers(slots), before, Keys(slots), m, store0, next0, endpointStructureStorage, nextEndpointId)
      decreases endpoints[i], 3
    {
      ghost var _, to := FlatPart(endpoints, i, parentUniquePrefix);
      var key := Extend(parentUniquePrefix, Segment(endpoints[i], i));
      FillPart(endpoints[i], key, slots, before, n, to, store0, next0);
      m := to;
    }

    /** One sibling with its descendants, at positions `n` to `m` of `slots`. */
    method FillPart(endpoint: Node, key: string, ghost slots: seq<Slot>, ghost before: seq<Option<nat>>,
                    ghost n: nat, ghost m: nat, ghost store0: Store, ghost next0: nat)
      requires n <= m <= |slots| && slots[n..m] == Subtree(endpoint, key) && DistinctEps(slots)
      requires FilledTo(Numbers(slots), before, Keys(slots), n, store0, next0, endpointStructureStorage, nextEndpointId)
      modifies this, Eps(slots)
      ensures FilledTo(Numbers(slots), before, Keys(slots), m, store0, next0, endpointStructureStorage, nextEndpointId)
      decreases endpoint, 2
    {
      ghost var store, next, now, part := endpointStructureStorage, nextEndpointId, Numbers(slots), slots[n..m];
      SliceDistinct(slots, n, m, part);
      SliceNumbers(slots, n, m, part);
      FillEndpoint(endpoint, key, part);
      SliceNumbers(slots, n, m, part);
      AroundSlice(slots, n, m, part, now);
      AdvanceFill(now, Numbers(slots), before, Keys(slots), n, m, store0, next0, store, next,
                  endpointStructureStorage, nextEndpointId);
    }

    method FillEndpoint(endpoint: Node, key: string, ghost slots: seq<Slot>)
      requires slots == Subtree(endpoint, key) && DistinctEps(slots)
      modifies this, Eps(slots)
      ensures Allocation(Numbers(slots), endpointStructureStorage, nextEndpointId)
           == Fill(old(Numbers(slots)), Keys(slots), old(endpointStructureStorage), old(nextEndpointId))
      decreases endpoint, 1
    {
      FillFirst(endpoint, key, slots);
      ghost var part := Flat(endpoint.children, |endpoint.children|, key);
      ghost var store, next, now := endpointStructureStorage, nextEndpointId, Numbers(slots);
      assert slots[1..|slots|] == part;
      SliceDistinct(slots, 1, |slots|, part);
      SliceNumbers(slots, 1, |slots|, part);
      FillAndStoreEndpointIds(endpoint.children, key, part);
      SliceNumbers(slots, 1, |slots|, part);
      AroundSlice(slots, 1, |slots|, part, now);
      AdvanceFill(now, Numbers(slots), old(Numbers(slots)), Keys(slots), 1, |slots|,
                  old(endpointStructureStorage), old(nextEndpointId), store, next, endpointStructureStorage, nextEndpointId);
      FilledAll(Numbers(slots), old(Numbers(slots)), Keys(slots), old(endpointStructureStorage), old(nextEndpointId),
                endpointStructureStorage, nextEndpointId);
    }

    /** The endpoint itself, ahead of its descendants. */
    method FillFirst(endpoint: Node, key: string, ghost slots: seq<Slot>)
      requires slots != [] && slots[0] == Slot(endpoint.ep, key) && DistinctEps(slots)
      modifies this, endpoint.ep
      ensures FilledTo(Numbers(slots), old(Numbers(slots)), Keys(slots), 1,
                       old(endpointStructureStorage), old(nextEndpointId), endpointStructureStorage, nextEndpointId)
    {
      assert slots[0] in slots;
      ghost var before := Numbers(slots);
      if endpoint.ep.number.None? {
        endpoint.ep.number := Some(nextEndpointId);
        nextEndpointId := nextEndpointId + 1;
        endpointStructureStorage := endpointStructureStorage[key := endpoint.ep.number.value];
      }
      assert Numbers(slots)[..1] == [endpoint.ep.number];
      FilledFirst(Numbers(slots), before, Keys(slots), old(endpointStructureStorage), old(nextEndpointId));
    }

    /** Numbers every endpoint below the root and persists the counter. */
    method AssignEndpointIds(endpoints: seq<Node>, rootUniqueId: Option<string>, ghost slots: seq<Slot>)
      requires slots == Flat(endpoints, |endpoints|, if rootUniqueId.Some? then rootUniqueId.value else "")
      requires DistinctEps(slots)
      modifies this, Eps(slots)
      ensures Allocation(Numbers(slots), endpointStructureStorage, nextEndpointId)
           == Assign(old(Numbers(slots)), Keys(slots), old(endpointStructureStorage), old(nextEndpointId))
    {
      var rootUniqueIdPrefix := if rootUniqueId.Some? then rootUniqueId.value else "";
      ghost var before := Numbers(slots);
      InitializeEndpointIdsFromStorage(endpoints, rootUniqueIdPrefix, slots);
      RestoredIsUnique(Numbers(slots), before, Keys(slots), endpointStructureStorage);
      FillAndStoreEndpointIds(endpoints, rootUniqueIdPrefix, slots);
      endpointStructureStorage := endpointStructureStorage[NEXT_ENDPOINT_ID := nextEndpointId];
    }

    /** Reads the persisted counter back; a new store keeps the counter from the options. */
    method RestoreCounter()
      modifies `nextEndpointId
      ensures nextEndpointId == if NEXT_ENDPOINT_ID in endpointStructureStorage
                                then endpointStructureStorage[NEXT_ENDPOINT_ID] else old(nextEndpointId)
    {
      if NEXT_ENDPOINT_ID in endpointStructureStorage {
        nextEndpointId := endpointStructureStorage[NEXT_ENDPOINT_ID];
      }
    }

    method GetNextEndpointId(increase: bool := true) returns (id: nat)
      modifies `nextEndpointId
      ensures id == nextEndpointId == if increase then old(nextEndpointId) + 1 else old(nextEndpointId)
    {
      if increase {
        nextEndpointId := nextEndpointId + 1;
      }
      id := nextEndpointId;
    }
  }
}
