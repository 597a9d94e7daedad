/** What repeated endpoint numbering guarantees, on the functions that EndpointNumbers computes. */
module EndpointNumberLaws {
  import opened Options
  import opened EndpointNumbers
  import opened Decimals

  // ---- One assignment -------------------------------------------------------------------

  ghost predicate DistinctNumbers(numbers: seq<Option<nat>>) {
    forall i, j :: 0 <= i < j < |numbers| && numbers[i].Some? ==> numbers[i] != numbers[j]
  }

  /** The counter never falls and ends at or above every number it has seen. */
  lemma {:induction false} BumpBounds(next: nat, numbers: seq<Option<nat>>)
    ensures next <= BumpAll(next, numbers)
    ensures forall i :: 0 <= i < |numbers| && numbers[i].Some? ==> numbers[i].value <= BumpAll(next, numbers)
  {
    if numbers == [] {
    } else {
      BumpBounds(next, numbers[..|numbers| - 1]);
      assert forall i :: 0 <= i < |numbers| - 1 ==> numbers[i] == numbers[..|numbers| - 1][i];
    }
  }

  /** Old numbers stay and new ones lie between the counter before and after. */
  lemma {:induction false} FillKeeps(numbers: seq<Option<nat>>, keys: seq<string>, store: Store, next: nat)
    requires |numbers| == |keys|
    ensures var a := Fill(numbers, keys, store, next);
            next <= a.next && forall i :: 0 <= i < |numbers| ==>
              a.numbers[i].Some? && if numbers[i].Some? then a.numbers[i] == numbers[i] else next <= a.numbers[i].value < a.next
  {
    if numbers == [] {
    } else {
      var last := |numbers| - 1;
      FillKeeps(numbers[..last], keys[..last], store, next);
    }
  }

  /** Numbering a prefix of the endpoints does not depend on the rest. */
  lemma {:induction false} FillPrefix(numbers: seq<Option<nat>>, keys: seq<string>, store: Store, next: nat, n: nat)
    requires n <= |numbers| == |keys|
    ensures Fill(numbers[..n], keys[..n], store, next).numbers == Fill(numbers, keys, store, next).numbers[..n]
  {
    if n == |numbers| {
      assert numbers[..n] == numbers && keys[..n] == keys;
    } else {
      var last := |numbers| - 1;
      FillPrefix(numbers[..last], keys[..last], store, next, n);
      assert numbers[..last][..n] == numbers[..n] && keys[..last][..n] == keys[..n];
    }
  }

  /** An endpoint without a number gets the counter as it stands after those before it. */
  lemma FillAt(numbers: seq<Option<nat>>, keys: seq<string>, store: Store, next: nat, j: nat)
    requires j < |numbers| == |keys| && numbers[j].None?
    ensures Fill(numbers, keys, store, next).numbers[j] == Some(Fill(numbers[..j], keys[..j], store, next).next)
  {
    FillPrefix(numbers, keys, store, next, j + 1);
    assert numbers[..j + 1][..j] == numbers[..j] && keys[..j + 1][..j] == keys[..j];
  }

  function Missing(numbers: seq<Option<nat>>): nat {
    if numbers == [] then 0 else Missing(numbers[..|numbers| - 1]) + if numbers[|numbers| - 1].None? then 1 else 0
  }

  lemma {:induction false} FillCounts(numbers: seq<Option<nat>>, keys: seq<string>, store: Store, next: nat)
    requires |numbers| == |keys|
    ensures Fill(numbers, keys, store, next).next == next + Missing(numbers)
  {
    if numbers == [] {
    } else {
      FillCounts(numbers[..|numbers| - 1], keys[..|numbers| - 1], store, next);
    }
  }

  /** New numbers are consecutive from the counter after the first pass. */
  lemma AssignIsConsecutive(numbers: seq<Option<nat>>, keys: seq<string>, store: Store, next: nat, j: nat)
    requires j < |numbers| == |keys| && Fresh(numbers, keys, store, j)
    ensures var r := Restored(numbers, keys, store);
            var a := Assign(numbers, keys, store, next);
            a.numbers[j] == Some(BumpAll(next, r) + Missing(r[..j])) && a.next == BumpAll(next, r) + Missing(r)
  {
    var r := Restored(numbers, keys, store);
    FillAt(r, keys, store, BumpAll(next, r), j);
    FillCounts(r[..j], keys[..j], store, BumpAll(next, r));
    FillCounts(r, keys, store, BumpAll(next, r));
  }

  /** New numbers rise strictly in pre-order. */
  lemma FillRises(numbers: seq<Option<nat>>, keys: seq<string>, store: Store, next: nat, i: nat, j: nat)
    requires i < j < |numbers| == |keys| && numbers[i].None? && numbers[j].None?
    ensures var a := Fill(numbers, keys, store, next);
            a.numbers[i].Some? && a.numbers[j].Some? && a.numbers[i].value < a.numbers[j].value
  {
    FillPrefix(numbers, keys, store, next, j);
    FillKeeps(numbers[..j], keys[..j], store, next);
    assert numbers[..j][i] == numbers[i];
    FillAt(numbers, keys, store, next, j);
  }

  /** The first endpoint without a number gets the counter itself. */
  lemma FillFirst(numbers: seq<Option<nat>>, keys: seq<string>, store: Store, next: nat) returns (i: nat)
    requires |numbers| == |keys| && None in numbers
    ensures i < |numbers| && numbers[i].None? && Fill(numbers, keys, store, next).numbers[i] == Some(next)
  {
    i := 0;
    while i < |numbers| && numbers[i].Some?
      invariant i <= |numbers| && None !in numbers[..i]
    {
      i := i + 1;
    }
    assert numbers[..|numbers|] == numbers;
    FillAt(numbers, keys, store, next, i);
    FillNothing(numbers[..i], keys[..i], store, next);
  }

  lemma {:induction false} FillNothing(numbers: seq<Option<nat>>, keys: seq<string>, store: Store, next: nat)
    requires |numbers| == |keys| && None !in numbers
    ensures Fill(numbers, keys, store, next) == Allocation(numbers, store, next)
  {
    if numbers == [] {
    } else {
      var last := |numbers| - 1;
      assert numbers == numbers[..last] + [numbers[last]];
      FillNothing(numbers[..last], keys[..last], store, next);
    }
  }

  /** After an assignment every endpoint has a number, and no number it had has changed. */
  lemma AssignNumbersAll(numbers: seq<Option<nat>>, keys: seq<string>, store: Store, next: nat)
    requires |numbers| == |keys|
    ensures var a := Assign(numbers, keys, store, next);
            && next <= a.next
            && (forall i :: 0 <= i < |numbers| ==> a.numbers[i].Some? && a.numbers[i].value <= a.next)
            && (forall i :: 0 <= i < |numbers| && numbers[i].Some? ==> a.numbers[i] == numbers[i])
            && (forall i :: 0 <= i < |numbers| && numbers[i].None? && keys[i] in store ==>
                  a.numbers[i] == Some(store[keys[i]]))
            && (forall i, j :: 0 <= i < j < |numbers| && Fresh(numbers, keys, store, i) && Fresh(numbers, keys, store, j) ==>
                  a.numbers[i].value < a.numbers[j].value)
  {
    var r := Restored(numbers, keys, store);
    BumpBounds(next, r);
    FillKeeps(r, keys, store, BumpAll(next, r));
    forall i, j | 0 <= i < j < |numbers| && Fresh(numbers, keys, store, i) && Fresh(numbers, keys, store, j)
      ensures Assign(numbers, keys, store, next).numbers[i].value < Assign(numbers, keys, store, next).numbers[j].value
    {
      FillRises(r, keys, store, BumpAll(next, r), i, j);
    }
  }

  /** An endpoint that has neither a number nor a stored one. */
  ghost predicate Fresh(numbers: seq<Option<nat>>, keys: seq<string>, store: Store, i: nat)
    requires i < |numbers| == |keys|
  {
    numbers[i].None? && keys[i] !in store
  }

  /** The numbers below the root are pairwise distinct exactly under this condition. */
  lemma BelowRootUniqueIff(numbers: seq<Option<nat>>, keys: seq<string>, store: Store, next: nat)
    requires |numbers| == |keys|
    ensures var r := Restored(numbers, keys, store);
            DistinctNumbers(Assign(numbers, keys, store, next).numbers) <==>
            DistinctNumbers(r) && (None in r ==> Some(BumpAll(next, r)) !in r)
  {
    var r := Restored(numbers, keys, store);
    var counter := BumpAll(next, r);
    var a := Fill(r, keys, store, counter);
    BumpBounds(next, r);
    FillKeeps(r, keys, store, counter);
    forall i, j | 0 <= i < j < |r| && r[i].None? && r[j].None? ensures a.numbers[i] != a.numbers[j] {
      FillRises(r, keys, store, counter, i, j);
    }
    if None in r && Some(counter) in r {
      var i := FillFirst(r, keys, store, counter);
      var j :| 0 <= j < |r| && r[j] == Some(counter);
      assert a.numbers[j] == a.numbers[i];
    }
  }

  /** The number of the root endpoint, which the two passes leave out. */
  const ROOT_NUMBER := 0

  function WithRoot(numbers: seq<Option<nat>>): seq<Option<nat>> {
    [Some(ROOT_NUMBER)] + numbers
  }

  lemma WithRootDistinct(numbers: seq<Option<nat>>)
    ensures DistinctNumbers(WithRoot(numbers)) <==> DistinctNumbers(numbers) && Some(ROOT_NUMBER) !in numbers
  {
    var all := WithRoot(numbers);
    assert all[0] == Some(ROOT_NUMBER) && forall i :: 0 <= i < |numbers| ==> all[i + 1] == numbers[i];
    if DistinctNumbers(all) {
      forall i, j | 0 <= i < j < |numbers| && numbers[i].Some? ensures numbers[i] != numbers[j] {
        assert all[i + 1] != all[j + 1];
      }
      forall j | 0 <= j < |numbers| ensures numbers[j] != Some(ROOT_NUMBER) {
        assert all[0] != all[j + 1];
      }
    }
    if DistinctNumbers(numbers) && Some(ROOT_NUMBER) !in numbers {
      forall i, j | 0 <= i < j < |all| && all[i].Some? ensures all[i] != all[j] {
        assert all[j] == numbers[j - 1] && all[j] in numbers;
      }
    }
  }

  /** Some endpoint gets the number of the root exactly when it had it, or needs one while the counter is there. */
  lemma RootNumberIff(numbers: seq<Option<nat>>, keys: seq<string>, store: Store, next: nat)
    requires |numbers| == |keys|
    ensures var r := Restored(numbers, keys, store);
            Some(ROOT_NUMBER) in Assign(numbers, keys, store, next).numbers <==>
            Some(ROOT_NUMBER) in r || (None in r && BumpAll(next, r) == ROOT_NUMBER)
  {
    var r := Restored(numbers, keys, store);
    var counter := BumpAll(next, r);
    var a := Fill(r, keys, store, counter);
    FillKeeps(r, keys, store, counter);
    if Some(ROOT_NUMBER) in r {
      var j :| 0 <= j < |r| && r[j] == Some(ROOT_NUMBER);
      assert a.numbers[j] == Some(ROOT_NUMBER);
    } else if None in r && counter == ROOT_NUMBER {
      var i := FillFirst(r, keys, store, counter);
      assert a.numbers[i] == Some(ROOT_NUMBER);
    }
  }

  /**
   * All numbers in the tree, the root's included, end up pairwise distinct exactly when those of the
   * root and the preset and restored ones are distinct and, if any endpoint still needs a number,
   * none of them equals the counter after the first pass.
   */
  lemma UniqueIff(numbers: seq<Option<nat>>, keys: seq<string>, store: Store, next: nat)
    requires |numbers| == |keys|
    ensures var r := Restored(numbers, keys, store);
            DistinctNumbers(WithRoot(Assign(numbers, keys, store, next).numbers)) <==>
            DistinctNumbers(WithRoot(r)) && (None in r ==> Some(BumpAll(next, r)) !in WithRoot(r))
  {
    var r := Restored(numbers, keys, store);
    BelowRootUniqueIff(numbers, keys, store, next);
    RootNumberIff(numbers, keys, store, next);
    WithRootDistinct(r);
    WithRootDistinct(Assign(numbers, keys, store, next).numbers);
    assert forall x :: x in WithRoot(r) <==> x == Some(ROOT_NUMBER) || x in r;
  }

  /** With a counter that starts at 0, the first endpoint gets the number of the root. */
  lemma CounterAtRoot()
    ensures Assign([None], ["index_0"], map[], ROOT_NUMBER).numbers == [Some(ROOT_NUMBER)]
    ensures !DistinctNumbers(WithRoot(Assign([None], ["index_0"], map[], ROOT_NUMBER).numbers))
  {
    var numbers: seq<Option<nat>>, keys := [None], ["index_0"];
    var r := Restored(numbers, keys, map[]);
    assert r == numbers && r[..0] == [] && keys[..0] == [];
    assert BumpAll(ROOT_NUMBER, r) == ROOT_NUMBER;
    assert Fill(r, keys, map[], ROOT_NUMBER).numbers == [Some(ROOT_NUMBER)];
    WithRootDistinct([Some(ROOT_NUMBER)]);
  }

  // ---- The counter after the first pass ---------------------------------------------------

  /** The counter is where it was, or right behind one of the numbers, which was above it. */
  lemma {:induction false} CounterOrigin(next: nat, numbers: seq<Option<nat>>)
    ensures var counter := BumpAll(next, numbers);
            counter == next || (counter > next + 1 && Some(counter - 1) in numbers)
  {
    if numbers == [] {
    } else {
      var front := numbers[..|numbers| - 1];
      CounterOrigin(next, front);
      BumpBounds(next, front);
      assert forall x :: x in front ==> x in numbers;
    }
  }

  ghost predicate IsLargest(m: nat, next: nat, numbers: seq<Option<nat>>) {
    && (m == next || Some(m) in numbers) && next <= m
    && forall i :: 0 <= i < |numbers| && numbers[i].Some? ==> numbers[i].value <= m
  }

  /**
   * The counter is the old one if no number is above it.  Otherwise it is right behind the largest
   * number, or at it; at it only if the number right below it was there to push the counter first.
   */
  lemma CounterFollowsLargest(next: nat, numbers: seq<Option<nat>>, m: nat)
    requires IsLargest(m, next, numbers)
    ensures var counter := BumpAll(next, numbers);
            if m == next then counter == next
            else counter == m + 1 || (counter == m > next + 1 && Some(m - 1) in numbers)
  {
    BumpBounds(next, numbers);
    CounterOrigin(next, numbers);
    var counter := BumpAll(next, numbers);
    if counter != next {
      var i :| 0 <= i < |numbers| && numbers[i] == Some(counter - 1);
    }
    if m != next {
      var i :| 0 <= i < |numbers| && numbers[i] == Some(m);
    }
  }

  /** None of the numbers is the counter, and none above it is followed by the next number. */
  ghost predicate Spaced(next: nat, numbers: seq<Option<nat>>) {
    Some(next) !in numbers && forall v: nat :: v > next && Some(v) in numbers ==> Some(v + 1) !in numbers
  }

  /** Distinct numbers that leave these gaps stay distinct whatever is given out, with no word about the counter. */
  lemma UniqueWhenSpaced(numbers: seq<Option<nat>>, keys: seq<string>, store: Store, next: nat)
    requires |numbers| == |keys|
    requires DistinctNumbers(Restored(numbers, keys, store)) && Spaced(next, Restored(numbers, keys, store))
    ensures DistinctNumbers(Assign(numbers, keys, store, next).numbers)
  {
    var r := Restored(numbers, keys, store);
    CounterOrigin(next, r);
    BelowRootUniqueIff(numbers, keys, store, next);
  }

  /** A preset number above the counter pushes it past itself: the next endpoint gets the number behind it. */
  lemma PresetAboveCounter(preset: nat, next: nat, keys: seq<string>)
    requires preset > next && |keys| == 2
    ensures Assign([Some(preset), None], keys, map[], next).numbers == [Some(preset), Some(preset + 1)]
  {
    var numbers: seq<Option<nat>> := [Some(preset), None];
    var r := Restored(numbers, keys, map[]);
    var front, one := r[..1], keys[..1];
    assert r == numbers && front == [Some(preset)];
    assert |front[..0]| == |one[..0]| == 0;
    assert BumpAll(next, front) == preset + 1;
    assert BumpAll(next, r) == preset + 1;
    assert Fill(front, one, map[], preset + 1) == Allocation([Some(preset)], map[], preset + 1);
    assert Fill(r, keys, map[], preset + 1).numbers == [Some(preset)] + [Some(preset + 1)];
  }

  /** A number equal to the counter does not push it and is given out again. */
  lemma PresetEqualToCounter()
    ensures Assign([Some(1), None], ["index_0", "index_1"], map[], 1).numbers == [Some(1), Some(1)]
  {
    var numbers: seq<Option<nat>>, keys := [Some(1), None], ["index_0", "index_1"];
    var r := Restored(numbers, keys, map[]);
    assert r == numbers;
    assert r[..1] == [Some(1)] && [Some(1)][..0] == [] && keys[..1] == ["index_0"];
    assert BumpAll(1, [Some(1)]) == 1;
    assert BumpAll(1, r) == 1;
    assert Fill([Some(1)], ["index_0"], map[], 1) == Allocation([Some(1)], map[], 1);
    assert Fill(r, keys, map[], 1).numbers == [Some(1)] + [Some(1)];
  }

  /** Assigning again on an unchanged tree changes nothing. */
  lemma AssignAgain(numbers: seq<Option<nat>>, keys: seq<string>, store: Store, next: nat)
    requires |numbers| == |keys|
    ensures var a := Assign(numbers, keys, store, next);
            Assign(a.numbers, keys, a.store, a.next) == a
  {
    var a := Assign(numbers, keys, store, next);
    AssignNumbersAll(numbers, keys, store, next);
    RestoredIsUnique(a.numbers, a.numbers, keys, a.store);
    BumpNothing(a.next, a.numbers);
    FillNothing(a.numbers, keys, a.store, a.next);
  }

  lemma {:induction false} BumpNothing(next: nat, numbers: seq<Option<nat>>)
    requires forall i :: 0 <= i < |numbers| && numbers[i].Some? ==> numbers[i].value <= next
    ensures BumpAll(next, numbers) == next
  {
    if numbers == [] {
    } else {
      BumpNothing(next, numbers[..|numbers| - 1]);
    }
  }

  // ---- Runs of updates and restarts -----------------------------------------------------

  /** The persistent store and the counter in memory. */
  datatype Server = Server(store: Store, next: nat)

  datatype Op =
    | Restart(nextEndpointId: nat)  // a new process reads the counter back, or starts from its option
    | Update(numbers: seq<Option<nat>>, keys: seq<string>)
    | Reserve                       // getNextEndpointId with its increase

  ghost predicate AllDiffer(keys: seq<string>) {
    forall i, j :: 0 <= i < j < |keys| ==> keys[i] != keys[j]
  }

  ghost predicate Legal(op: Op) {
    op.Update? ==>
      && |op.numbers| == |op.keys|
      && AllDiffer(op.keys)
      && NEXT_ENDPOINT_ID !in op.keys
  }

  function Step(s: Server, op: Op): Server
    requires op.Update? ==> |op.numbers| == |op.keys|
  {
    match op
    case Restart(initial) => s.(next := if NEXT_ENDPOINT_ID in s.store then s.store[NEXT_ENDPOINT_ID] else initial)
    case Update(numbers, keys) =>
      var a := Assign(numbers, keys, s.store, s.next);
      Server(a.store, a.next)
    case Reserve => s.(next := s.next + 1)
  }

  ghost function Run(s: Server, ops: seq<Op>): Server
    requires forall i :: 0 <= i < |ops| ==> Legal(ops[i])
    decreases |ops|
  {
    if ops == [] then s
    else
      assert Legal(ops[0]);
      Run(Step(s, ops[0]), ops[1..])
  }

  ghost predicate Below(store: Store, bound: nat) {
    forall k :: k in store && k != NEXT_ENDPOINT_ID ==> store[k] < bound
  }

  ghost predicate Injective(store: Store) {
    forall k, l :: k in store && l in store && k != NEXT_ENDPOINT_ID && l != NEXT_ENDPOINT_ID && k != l ==> store[k] != store[l]
  }

  /** The persisted counter is above every stored number, and stored numbers are distinct. */
  ghost predicate Counted(s: Server) {
    && Injective(s.store)
    && (NEXT_ENDPOINT_ID !in s.store ==> s.store == map[])
    && (NEXT_ENDPOINT_ID in s.store ==> s.store[NEXT_ENDPOINT_ID] <= s.next && Below(s.store, s.store[NEXT_ENDPOINT_ID]))
  }

  /** No endpoint key loses or changes its number. */
  ghost predicate Keeps(before: Store, after: Store) {
    forall k :: k in before && k != NEXT_ENDPOINT_ID ==> k in after && after[k] == before[k]
  }

  /** Each new number is stored under its key; the other keys stay as they are. */
  lemma {:induction false} FillStores(numbers: seq<Option<nat>>, keys: seq<string>, store: Store, next: nat)
    requires Legal(Update(numbers, keys))
    requires forall i :: 0 <= i < |keys| && numbers[i].None? ==> keys[i] !in store
    ensures var a := Fill(numbers, keys, store, next);
            && (forall k :: k in store ==> k in a.store && a.store[k] == store[k])
            && (forall k :: k in a.store ==> k in store || k in keys)
            && (forall i :: 0 <= i < |keys| && numbers[i].None? ==> keys[i] in a.store && Some(a.store[keys[i]]) == a.numbers[i])
  {
    if numbers == [] {
    } else {
      var last := |numbers| - 1;
      var n, k := numbers[..last], keys[..last];
      var a, b := Fill(n, k, store, next), Fill(numbers, keys, store, next);
      assert forall i :: 0 <= i < last ==> n[i] == numbers[i] && k[i] == keys[i] && keys[i] != keys[last];
      FillStores(n, k, store, next);
      if numbers[last].Some? {
        assert b.store == a.store;
      } else {
        assert keys[last] !in store && b.store == a.store[keys[last] := a.next];
      }
      forall i | 0 <= i < |keys| && numbers[i].None? ensures keys[i] in b.store && Some(b.store[keys[i]]) == b.numbers[i] {
        if i < last {
          assert n[i].None? && b.numbers[i] == a.numbers[i] && b.store[keys[i]] == a.store[k[i]];
        }
      }
    }
  }

  /** Stored numbers stay distinct and below the counter. */
  lemma {:induction false} FillBelow(numbers: seq<Option<nat>>, keys: seq<string>, store: Store, next: nat)
    requires |numbers| == |keys| && NEXT_ENDPOINT_ID !in keys
    requires Below(store, next) && Injective(store)
    ensures var a := Fill(numbers, keys, store, next); Below(a.store, a.next) && Injective(a.store)
  {
    if numbers == [] {
    } else {
      var last := |numbers| - 1;
      FillBelow(numbers[..last], keys[..last], store, next);
    }
  }

  /** An update keeps the invariant and every stored number. */
  lemma StepKeeps(s: Server, op: Op)
    requires Counted(s) && Legal(op)
    ensures Counted(Step(s, op)) && Keeps(s.store, Step(s, op).store)
  {
    if op.Update? {
      var r := Restored(op.numbers, op.keys, s.store);
      var counter := BumpAll(s.next, r);
      BumpBounds(s.next, r);
      FillStores(r, op.keys, s.store, counter);
      FillBelow(r, op.keys, s.store, counter);
    }
  }

  /** Over every run of updates and restarts. */
  lemma {:induction false} RunKeeps(s: Server, ops: seq<Op>)
    requires Counted(s) && forall i :: 0 <= i < |ops| ==> Legal(ops[i])
    ensures Counted(Run(s, ops)) && Keeps(s.store, Run(s, ops).store)
    decreases |ops|
  {
    if ops == [] {
    } else {
      assert Legal(ops[0]);
      StepKeeps(s, ops[0]);
      RunKeeps(Step(s, ops[0]), ops[1..]);
    }
  }

  /** The counter and all stored numbers are above the number of the root. */
  ghost predicate AboveRoot(s: Server) {
    s.next > ROOT_NUMBER && AboveRootIn(s.store)
  }

  ghost predicate AboveRootIn(store: Store) {
    forall k :: k in store ==> store[k] > ROOT_NUMBER
  }

  /** No new process starts the counter at the number of the root; a stored counter goes first in any case. */
  predicate StartAbove(s: Server, ops: seq<Op>) {
    NEXT_ENDPOINT_ID in s.store || forall i :: 0 <= i < |ops| && ops[i].Restart? ==> ops[i].nextEndpointId > ROOT_NUMBER
  }

  lemma {:induction false} FillAbove(numbers: seq<Option<nat>>, keys: seq<string>, store: Store, next: nat)
    requires |numbers| == |keys| && next > ROOT_NUMBER && AboveRootIn(store)
    ensures var a := Fill(numbers, keys, store, next); a.next > ROOT_NUMBER && AboveRootIn(a.store)
  {
    if numbers == [] {
    } else {
      FillAbove(numbers[..|numbers| - 1], keys[..|keys| - 1], store, next);
    }
  }

  lemma StepStaysAbove(s: Server, op: Op)
    requires AboveRoot(s) && Legal(op) && StartAbove(s, [op])
    ensures AboveRoot(Step(s, op))
  {
    assert [op][0] == op;
    if op.Update? {
      var r := Restored(op.numbers, op.keys, s.store);
      BumpBounds(s.next, r);
      FillAbove(r, op.keys, s.store, BumpAll(s.next, r));
    }
  }

  lemma {:induction false} RunStaysAbove(s: Server, ops: seq<Op>)
    requires AboveRoot(s) && StartAbove(s, ops) && forall i :: 0 <= i < |ops| ==> Legal(ops[i])
    ensures AboveRoot(Run(s, ops))
    decreases |ops|
  {
    if ops == [] {
    } else {
      assert Legal(ops[0]);
      StepStaysAbove(s, ops[0]);
      RunStaysAbove(Step(s, ops[0]), ops[1..]);
    }
  }

  /** An endpoint that comes back under its key gets its number back, however much happened meanwhile. */
  lemma ReturningEndpoint(s: Server, ops: seq<Op>, numbers: seq<Option<nat>>, keys: seq<string>, i: nat)
    requires Counted(s) && (forall j :: 0 <= j < |ops| ==> Legal(ops[j])) && Legal(Update(numbers, keys))
    requires i < |keys| && keys[i] in s.store && numbers[i].None?
    ensures var later := Run(s, ops);
            Assign(numbers, keys, later.store, later.next).numbers[i] == Some(s.store[keys[i]])
  {
    RunKeeps(s, ops);
    var later := Run(s, ops);
    AssignNumbersAll(numbers, keys, later.store, later.next);
  }

  /** Every number an endpoint has is the one stored under its key. */
  ghost predicate Consistent(numbers: seq<Option<nat>>, keys: seq<string>, store: Store)
    requires |numbers| == |keys|
  {
    forall i :: 0 <= i < |keys| && numbers[i].Some? ==> keys[i] in store && Some(store[keys[i]]) == numbers[i]
  }

  /** Without preset numbers, the first pass leaves distinct numbers that are all below the counter. */
  lemma RestoredWithoutPresets(s: Server, numbers: seq<Option<nat>>, keys: seq<string>)
    requires Counted(s) && AboveRoot(s) && Legal(Update(numbers, keys)) && Consistent(numbers, keys, s.store)
    ensures var r := Restored(numbers, keys, s.store);
            DistinctNumbers(WithRoot(r)) && Some(BumpAll(s.next, r)) !in WithRoot(r)
  {
    var r := Restored(numbers, keys, s.store);
    BumpBounds(s.next, r);
    assert forall i :: 0 <= i < |r| && r[i].Some? ==> keys[i] in s.store && r[i] == Some(s.store[keys[i]]);
    assert forall i :: 0 <= i < |r| && r[i].Some? ==> keys[i] != NEXT_ENDPOINT_ID && ROOT_NUMBER < r[i].value < s.next;
    WithRootDistinct(r);
    assert forall x :: x in WithRoot(r) <==> x == Some(ROOT_NUMBER) || x in r;
  }

  /** After an update every number is stored under the key of its endpoint. */
  lemma AssignedIsConsistent(s: Server, numbers: seq<Option<nat>>, keys: seq<string>)
    requires Legal(Update(numbers, keys)) && Consistent(numbers, keys, s.store)
    ensures var a := Assign(numbers, keys, s.store, s.next);
            Consistent(a.numbers, keys, a.store)
  {
    var r := Restored(numbers, keys, s.store);
    FillStores(r, keys, s.store, BumpAll(s.next, r));
    FillKeeps(r, keys, s.store, BumpAll(s.next, r));
  }

  /** Without preset numbers, all numbers in the tree are pairwise distinct after every update of every run. */
  lemma UniqueWithoutPresets(s: Server, ops: seq<Op>, numbers: seq<Option<nat>>, keys: seq<string>)
    requires Counted(s) && AboveRoot(s) && StartAbove(s, ops) && forall j :: 0 <= j < |ops| ==> Legal(ops[j])
    requires Legal(Update(numbers, keys)) && Consistent(numbers, keys, Run(s, ops).store)
    ensures var later := Run(s, ops);
            DistinctNumbers(WithRoot(Assign(numbers, keys, later.store, later.next).numbers))
  {
    RunKeeps(s, ops);
    RunStaysAbove(s, ops);
    var later := Run(s, ops);
    RestoredWithoutPresets(later, numbers, keys);
    UniqueIff(numbers, keys, later.store, later.next);
  }

  /**
   * Keys made from positions move between endpoints.  When the first of two endpoints is removed
   * and another one is added behind the remaining one, two endpoints end up with the number 2.
   */
  lemma MovedIndexRepeats()
    ensures var first := Step(Server(map[], 1), Update([None, None], ["index_0", "index_1"]));
            var second := Step(first, Update([Some(2)], ["index_0"]));
            && Assign([None, None], ["index_0", "index_1"], map[], 1).numbers == [Some(1), Some(2)]
            && Assign([Some(2), None], ["index_0", "index_1"], second.store, second.next).numbers == [Some(2), Some(2)]
  {
    var n: seq<Option<nat>>, k := [None, None], ["index_0", "index_1"];
    var first := Step(Server(map[], 1), Update(n, k));
    assert "index_0"[6] != "index_1"[6];
    var r1 := Restored(n, k, map[]);
    assert r1 == n && n[..1] == [None] && k[..1] == ["index_0"];
    assert BumpAll(1, [None]) == 1;
    assert BumpAll(1, n) == 1;
    assert Fill([None], ["index_0"], map[], 1) == Allocation([Some(1)], map["index_0" := 1], 2);
    assert Fill(n, k, map[], 1) == Allocation([Some(1), Some(2)], map["index_0" := 1, "index_1" := 2], 3);
  }

  // ---- Keys that coincide ---------------------------------------------------------------

  /** Every key that was filled in is stored, whether or not it occurs twice. */
  lemma {:induction false} FillCovers(numbers: seq<Option<nat>>, keys: seq<string>, store: Store, next: nat)
    requires |numbers| == |keys|
    ensures var a := Fill(numbers, keys, store, next);
            && (forall k :: k in store ==> k in a.store)
            && (forall i :: 0 <= i < |keys| && numbers[i].None? ==> keys[i] in a.store)
  {
    if numbers == [] {
    } else {
      FillCovers(numbers[..|numbers| - 1], keys[..|keys| - 1], store, next);
    }
  }

  /** The endpoints of a process that has just started. */
  function Unnumbered(n: nat): (r: seq<Option<nat>>)
    ensures |r| == n && forall i :: 0 <= i < n ==> r[i].None?
  {
    seq(n, _ => None)
  }

  /**
   * Endpoints without preset numbers that come back after a restart have distinct numbers if and
   * only if their keys are distinct.
   */
  lemma RestartUniqueIff(s: Server, keys: seq<string>, initial: nat)
    requires Counted(s) && AboveRoot(s) && NEXT_ENDPOINT_ID !in keys
    ensures var restarted := Step(Step(s, Update(Unnumbered(|keys|), keys)), Restart(initial));
            DistinctNumbers(WithRoot(Assign(Unnumbered(|keys|), keys, restarted.store, restarted.next).numbers)) <==> AllDiffer(keys)
  {
    var numbers := Unnumbered(|keys|);
    var updated := Step(s, Update(numbers, keys));
    var restarted := Step(updated, Restart(initial));
    if AllDiffer(keys) {
      StepKeeps(s, Update(numbers, keys));
      StepStaysAbove(s, Update(numbers, keys));
      StepStaysAbove(updated, Restart(initial));
      UniqueWithoutPresets(restarted, [], numbers, keys);
    } else {
      var i, j :| 0 <= i < j < |keys| && keys[i] == keys[j];
      var r := Restored(numbers, keys, s.store);
      FillCovers(r, keys, s.store, BumpAll(s.next, r));
      assert keys[i] in restarted.store;
      AssignNumbersAll(numbers, keys, restarted.store, restarted.next);
      WithRootDistinct(Assign(numbers, keys, restarted.store, restarted.next).numbers);
    }
  }

  /** Unique ids are free text: with "-" in one, an endpoint can have the key of a child of another. */
  lemma KeysCoincide(a: Endpoint, b: Endpoint, c: Endpoint)
    ensures var tree := [Node(a, Some("custom_a"), [Node(b, Some("custom_b"), [])]), Node(c, Some("custom_a-custom_b"), [])];
            var slots := Flat(tree, 2, "");
            |slots| == 3 && slots[1].ep == b && slots[2].ep == c && slots[1].key == slots[2].key
  {
    var child := Node(b, Some("custom_b"), []);
    var first, second := Node(a, Some("custom_a"), [child]), Node(c, Some("custom_a-custom_b"), []);
    assert Extend("custom_a", "custom_b") == "custom_a-custom_b";
    assert Segment(child, 0) == "custom_b" && Segment(first, 0) == "custom_a" && Segment(second, 1) == "custom_a-custom_b";
    assert Flat([child], 1, "custom_a") == Flat([child], 0, "custom_a") + Subtree(child, "custom_a-custom_b");
    assert Subtree(child, "custom_a-custom_b") == [Slot(b, "custom_a-custom_b")];
    assert Subtree(first, "custom_a") == [Slot(a, "custom_a"), Slot(b, "custom_a-custom_b")];
    assert Subtree(second, "custom_a-custom_b") == [Slot(c, "custom_a-custom_b")];
    assert Extend("", "custom_a") == "custom_a" && Extend("", "custom_a-custom_b") == "custom_a-custom_b";
    assert Flat([first, second], 1, "") == Flat([first, second], 0, "") + Subtree(first, "custom_a");
  }

  // ---- Where an endpoint stands -----------------------------------------------------------

  /** A path of positions from the root. */
  ghost predicate IsAt(siblings: seq<Node>, path: seq<nat>)
    decreases |path|
  {
    path != [] && path[0] < |siblings| && (|path| == 1 || IsAt(siblings[path[0]].children, path[1..]))
  }

  ghost function NodeAt(siblings: seq<Node>, path: seq<nat>): Node
    requires IsAt(siblings, path)
    decreases |path|
  {
    if |path| == 1 then siblings[path[0]] else NodeAt(siblings[path[0]].children, path[1..])
  }

  /** The unique ids, or the positions, on the way to an endpoint, with "-" between them. */
  ghost function KeyAt(siblings: seq<Node>, path: seq<nat>, prefix: string): string
    requires IsAt(siblings, path)
    decreases |path|
  {
    var node := siblings[path[0]];
    var part := if node.uniqueId.Some? then node.uniqueId.value else "index_" + Decimal(path[0]);
    var key := if prefix == "" then part else prefix + "-" + part;
    if |path| == 1 then key else KeyAt(node.children, path[1..], key)
  }

  /** How many endpoints the first `n` siblings are, with their descendants. */
  ghost function Count(siblings: seq<Node>, n: nat): nat
    requires n <= |siblings|
    decreases siblings, n
  {
    if n == 0 then 0 else Count(siblings, n - 1) + 1 + Count(siblings[n - 1].children, |siblings[n - 1].children|)
  }

  /** How many endpoints stand before one: those of earlier siblings, and on each level its ancestor. */
  ghost function CountBefore(siblings: seq<Node>, path: seq<nat>): nat
    requires IsAt(siblings, path)
    decreases |path|
  {
    Count(siblings, path[0]) + if |path| == 1 then 0 else 1 + CountBefore(siblings[path[0]].children, path[1..])
  }

  lemma {:induction false} FlatCount(siblings: seq<Node>, n: nat, prefix: string)
    requires n <= |siblings|
    ensures |Flat(siblings, n, prefix)| == Count(siblings, n)
    decreases siblings, n
  {
    if n == 0 {
    } else {
      var node := siblings[n - 1];
      FlatCount(siblings, n - 1, prefix);
      FlatCount(node.children, |node.children|, Extend(prefix, Segment(node, n - 1)));
    }
  }

  /** Both passes visit the endpoint of a path in its place of the pre-order, under the key of its path. */
  lemma {:induction false} SlotOfPath(siblings: seq<Node>, path: seq<nat>, prefix: string)
    requires IsAt(siblings, path)
    ensures var slots, i := Flat(siblings, |siblings|, prefix), CountBefore(siblings, path);
            i < |slots| && slots[i] == Slot(NodeAt(siblings, path).ep, KeyAt(siblings, path, prefix))
    decreases |path|
  {
    var node := siblings[path[0]];
    var key := Extend(prefix, Segment(node, path[0]));
    KeyStep(node, path[0], prefix);
    if |path| == 1 {
      SlotOfSubtree(siblings, path[0], prefix, 0);
    } else {
      var rest := path[1..];
      var k := CountBefore(node.children, rest);
      SlotOfPath(node.children, rest, key);
      SubtreeAt(node, key, k);
      SlotOfSubtree(siblings, path[0], prefix, 1 + k);
    }
  }

  lemma KeyStep(node: Node, position: nat, prefix: string)
    ensures Extend(prefix, Segment(node, position)) ==
            var part := if node.uniqueId.Some? then node.uniqueId.value else "index_" + Decimal(position);
            if prefix == "" then part else prefix + "-" + part
  {
    var part := Segment(node, position);
    assert "" + "" + part == part;
  }

  /** The descendants of a sibling stand together behind those of the earlier ones. */
  lemma {:induction false} SlotOfSubtree(siblings: seq<Node>, j: nat, prefix: string, k: nat)
    requires j < |siblings| && k < |Subtree(siblings[j], Extend(prefix, Segment(siblings[j], j)))|
    ensures Count(siblings, j) + k < |Flat(siblings, |siblings|, prefix)|
    ensures Flat(siblings, |siblings|, prefix)[Count(siblings, j) + k] == Subtree(siblings[j], Extend(prefix, Segment(siblings[j], j)))[k]
  {
    var n, m := FlatPart(siblings, j, prefix);
    FlatCount(siblings, j, prefix);
    SliceAt(Flat(siblings, |siblings|, prefix), n, m, Subtree(siblings[j], Extend(prefix, Segment(siblings[j], j))), k);
  }

  lemma SliceAt(s: seq<Slot>, n: nat, m: nat, part: seq<Slot>, k: nat)
    requires n <= m <= |s| && s[n..m] == part && k < |part|
    ensures n + k < |s| && s[n + k] == part[k]
  {
    assert s[n..m][k] == s[n + k];
  }

  lemma {:induction false} SubtreeAt(node: Node, key: string, k: nat)
    requires k < |Flat(node.children, |node.children|, key)|
    ensures 1 + k < |Subtree(node, key)| && Subtree(node, key)[1 + k] == Flat(node.children, |node.children|, key)[k]
  {
  }

  /** And there are no other endpoints. */
  lemma {:induction false} PathOfSlot(siblings: seq<Node>, prefix: string, i: nat) returns (path: seq<nat>)
    requires i < |Flat(siblings, |siblings|, prefix)|
    ensures IsAt(siblings, path) && CountBefore(siblings, path) == i
    decreases siblings
  {
    FlatCount(siblings, |siblings|, prefix);
    var n := SiblingOf(siblings, |siblings|, i);
    var node := siblings[n];
    var k := i - Count(siblings, n);
    if k == 0 {
      path := [n];
    } else {
      FlatCount(node.children, |node.children|, "");
      var rest := PathOfSlot(node.children, "", k - 1);
      path := [n] + rest;
      assert path[1..] == rest;
    }
  }

  lemma {:induction false} SiblingOf(siblings: seq<Node>, m: nat, i: nat) returns (n: nat)
    requires m <= |siblings| && i < Count(siblings, m)
    ensures n < m && Count(siblings, n) <= i < Count(siblings, n + 1)
  {
    if i < Count(siblings, m - 1) {
      n := SiblingOf(siblings, m - 1, i);
    } else {
      n := m - 1;
    }
  }

  // ---- Distinct keys --------------------------------------------------------------------

  /** Segments are non-empty, contain no "-" and differ among siblings, at every level. */
  ghost predicate GoodSegments(siblings: seq<Node>) {
    && (forall i :: 0 <= i < |siblings| ==> Segment(siblings[i], i) != "" && '-' !in Segment(siblings[i], i))
    && (forall i, j :: 0 <= i < j < |siblings| ==> Segment(siblings[i], i) != Segment(siblings[j], j))
    && (forall i :: 0 <= i < |siblings| ==> GoodSegments(siblings[i].children))
  }

  /** Endpoints without unique ids never share a segment with each other, nor with one whose id has another first letter. */
  lemma IndexSegmentsDiffer(a: Node, i: nat, b: Node, j: nat)
    requires a.uniqueId == None && i != j
    requires b.uniqueId == None || (b.uniqueId.value != "" && b.uniqueId.value[0] != 'i')
    ensures Segment(a, i) != Segment(b, j)
  {
    var prefix := "index_";
    assert Segment(a, i)[|prefix|..] == Decimal(i) && Segment(a, i)[0] == 'i';
    if b.uniqueId == None && Segment(a, i) == Segment(b, j) {
      assert Segment(b, j)[|prefix|..] == Decimal(j);
      DecimalInjective(i, j);
    }
  }

  /** `k` is `key` or continues it behind a "-". */
  ghost predicate Under(key: string, k: string) {
    key <= k && (|k| > |key| ==> k[|key|] == '-')
  }

  /** The keys of a list of siblings start with the segment of one of them. */
  lemma {:induction false} FlatUnder(siblings: seq<Node>, n: nat, prefix: string, s: Slot) returns (i: nat)
    requires n <= |siblings| && GoodSegments(siblings) && s in Flat(siblings, n, prefix)
    ensures i < n && Under(Extend(prefix, Segment(siblings[i], i)), s.key)
    decreases siblings, 0, n
  {
    if s in Flat(siblings, n - 1, prefix) {
      i := FlatUnder(siblings, n - 1, prefix, s);
    } else {
      i := n - 1;
      SubtreeUnder(siblings[i], Extend(prefix, Segment(siblings[i], i)), s);
    }
  }

  lemma {:induction false} SubtreeUnder(node: Node, key: string, s: Slot)
    requires GoodSegments(node.children) && key != "" && s in Subtree(node, key)
    ensures Under(key, s.key)
    ensures s in Flat(node.children, |node.children|, key) ==> s.key != key
    decreases node, 1
  {
    if s in Flat(node.children, |node.children|, key) {
      var i := FlatUnder(node.children, |node.children|, key, s);
      assert Extend(key, Segment(node.children[i], i))[|key|] == '-';
    }
  }

  /** No key continues two different segments without "-". */
  lemma SegmentsApart(prefix: string, a: string, b: string, k: string)
    requires a != b && '-' !in a && '-' !in b
    requires Under(Extend(prefix, a), k)
    ensures !Under(Extend(prefix, b), k)
  {
    var base := |prefix| + if prefix == "" then 0 else 1;
    var ea, eb := Extend(prefix, a), Extend(prefix, b);
    assert ea[base..] == a && eb[base..] == b;
    if Under(eb, k) && |a| != |b| {
      assert false;
    }
  }

  ghost predicate DistinctKeys(slots: seq<Slot>) {
    forall i, j :: 0 <= i < j < |slots| ==> slots[i].key != slots[j].key
  }

  /** The storage keys of all endpoints in the tree differ. */
  lemma {:induction false} KeysDiffer(siblings: seq<Node>, n: nat, prefix: string)
    requires n <= |siblings| && GoodSegments(siblings)
    ensures DistinctKeys(Flat(siblings, n, prefix))
    decreases siblings, n
  {
    if n == 0 {
    } else {
      var node := siblings[n - 1];
      var segment := Segment(node, n - 1);
      var key := Extend(prefix, segment);
      var front, own := Flat(siblings, n - 1, prefix), Flat(node.children, |node.children|, key);
      KeysDiffer(siblings, n - 1, prefix);
      KeysDiffer(node.children, |node.children|, key);
      forall s | s in own ensures s.key != key {
        SubtreeUnder(node, key, s);
      }
      forall s, r | s in front && r in Subtree(node, key) ensures s.key != r.key {
        var i := FlatUnder(siblings, n - 1, prefix, s);
        SubtreeUnder(node, key, r);
        SegmentsApart(prefix, Segment(siblings[i], i), segment, s.key);
      }
    }
  }

  /** When every segment contains "_", no storage key is the key of the counter. */
  lemma KeysSpareCounter(siblings: seq<Node>, prefix: string, s: Slot)
    requires GoodSegments(siblings) && s in Flat(siblings, |siblings|, prefix)
    requires forall i :: 0 <= i < |siblings| ==> '_' in Segment(siblings[i], i)
    ensures s.key != NEXT_ENDPOINT_ID
  {
    var i := FlatUnder(siblings, |siblings|, prefix, s);
    var start := Extend(prefix, Segment(siblings[i], i));
    assert '_' in start by {
      var j :| 0 <= j < |Segment(siblings[i], i)| && Segment(siblings[i], i)[j] == '_';
      assert start[|start| - |Segment(siblings[i], i)| + j] == '_';
    }
    var j :| 0 <= j < |start| && start[j] == '_';
    assert s.key[j] == '_';
  }

  /** A tree with good segments that all contain "_" makes a legal update. */
  lemma TreeIsLegal(siblings: seq<Node>, prefix: string, numbers: seq<Option<nat>>)
    requires GoodSegments(siblings) && |numbers| == |Flat(siblings, |siblings|, prefix)|
    requires forall i :: 0 <= i < |siblings| ==> '_' in Segment(siblings[i], i)
    ensures Legal(Update(numbers, Keys(Flat(siblings, |siblings|, prefix))))
  {
    var slots := Flat(siblings, |siblings|, prefix);
    KeysDiffer(siblings, |siblings|, prefix);
    forall s | s in slots ensures s.key != NEXT_ENDPOINT_ID {
      KeysSpareCounter(siblings, prefix, s);
    }
  }
}
