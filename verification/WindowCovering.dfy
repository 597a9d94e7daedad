/** Stepped movement of a window covering: chip-testing/src/cluster/TestWindowCoveringServer.ts. */
module WindowCovering {
  import opened Options

  const CLOSED := 10000
  const STEPS := 6

  datatype MoveData = MoveData(increment: int, target: int, counter: nat, running: bool)

  /** One axis, lift or tilt: its position and its movement, which a stop leaves behind with the timer off. */
  datatype Axis = Axis(position: Option<int>, move: Option<MoveData>)

  /** JavaScript's rounding of a sixth towards zero: `ceil` below zero, `floor` above. */
  function SixthTowardsZero(d: int): int {
    if d < 0 then -((-d) / STEPS) else d / STEPS
  }

  // ---- Steps of one axis ----------------------------------------------------------------

  function Moved(a: Axis, target: int): Axis {
    if a.position.None? then a
    else
      var increment := SixthTowardsZero(target - a.position.value);
      if increment == 0 then a else a.(move := Some(MoveData(increment, target, 0, true)))
  }

  function Ticked(a: Axis): Axis {
    if a.move.None? then a
    else
      var m := a.move.value.(counter := a.move.value.counter + 1);
      if m.counter >= STEPS then
        if a.position.None? then a.(move := Some(m.(running := false)))
        else Axis(Some(m.target), None)
      else if a.position.None? then a.(move := Some(m))
      else Axis(Some(a.position.value + m.increment), Some(m))
  }

  function Stopped(a: Axis): Axis {
    if a.move.None? then a else a.(move := Some(a.move.value.(running := false)))
  }

  datatype AxisEvent = Move(target: int) | Tick | Stop

  function AxisStep(a: Axis, e: AxisEvent): Axis {
    match e
    case Move(target) => Moved(a, target)
    case Tick => Ticked(a)
    case Stop => Stopped(a)
  }

  function AxisRun(a: Axis, es: seq<AxisEvent>): Axis
    decreases |es|
  {
    if es == [] then a else AxisRun(AxisStep(a, es[0]), es[1..])
  }

  ghost predicate TargetsInRange(es: seq<AxisEvent>) {
    forall i :: 0 <= i < |es| && es[i].Move? ==> 0 <= es[i].target <= 10000
  }

  predicate Between(x: int, a: int, b: int) {
    a <= x <= b || b <= x <= a
  }

  /** The position lies on the way of the movement in progress, `counter` increments behind its start. */
  ghost predicate OnTheWay(a: Axis) {
    && (a.position.Some? ==> 0 <= a.position.value <= CLOSED)
    && (a.move.Some? ==>
          && a.position.Some? && 0 <= a.move.value.target <= CLOSED
          && exists start: int :: 0 <= start <= CLOSED && OnTheWayFrom(a.position.value, a.move.value, start))
  }

  ghost predicate OnTheWayFrom(position: int, m: MoveData, start: int) {
    && m.counter < STEPS
    && m.increment == SixthTowardsZero(m.target - start)
    && position == start + m.counter * m.increment
  }

  /** Up to five increments stay between start and target. */
  lemma StepsStayBetween(start: int, target: int, k: nat)
    requires k < STEPS
    ensures Between(start + k * SixthTowardsZero(target - start), start, target)
  {
  }

  lemma StepKeepsWay(a: Axis, e: AxisEvent)
    requires OnTheWay(a) && (e.Move? ==> 0 <= e.target <= CLOSED)
    ensures OnTheWay(AxisStep(a, e))
  {
    match e
    case Move(target) =>
      if a.position.Some? && SixthTowardsZero(target - a.position.value) != 0 {
        assert OnTheWayFrom(a.position.value, AxisStep(a, e).move.value, a.position.value);
      }
    case Stop =>
      if a.move.Some? {
        var start :| 0 <= start <= CLOSED && OnTheWayFrom(a.position.value, a.move.value, start);
        assert OnTheWayFrom(a.position.value, Stopped(a).move.value, start);
      }
    case Tick => TickKeepsWay(a);
  }

  lemma TickKeepsWay(a: Axis)
    requires OnTheWay(a)
    ensures OnTheWay(Ticked(a))
  {
    if a.move.Some? {
      var start :| 0 <= start <= CLOSED && OnTheWayFrom(a.position.value, a.move.value, start);
      var m := a.move.value;
      if m.counter + 1 < STEPS {
        NextOnTheWay(a.position.value, m, start);
        assert OnTheWayFrom(Ticked(a).position.value, Ticked(a).move.value, start);
      }
    }
  }

  lemma NextOnTheWay(position: int, m: MoveData, start: int)
    requires OnTheWayFrom(position, m, start) && m.counter + 1 < STEPS
    ensures OnTheWayFrom(position + m.increment, m.(counter := m.counter + 1), start)
    ensures Between(position + m.increment, start, m.target)
  {
    StepsStayBetween(start, m.target, m.counter + 1);
    assert (m.counter + 1) * m.increment == m.counter * m.increment + m.increment;
  }

  /** Over every run of movements, ticks and stops the position stays in range. */
  lemma RunStaysInRange(position: Option<int>, es: seq<AxisEvent>)
    requires (position.Some? ==> 0 <= position.value <= 10000) && TargetsInRange(es)
    ensures var a := AxisRun(Axis(position, None), es); a.position.Some? ==> 0 <= a.position.value <= 10000
  {
    RunKeepsWay(Axis(position, None), es);
  }

  /** On the way from `start` to `target`, or arrived. */
  ghost predicate Heading(a: Axis, start: int, target: int) {
    && a.position.Some?
    && if a.move.Some? then a.move.value.target == target && OnTheWayFrom(a.position.value, a.move.value, start)
       else a.position.value == target
  }

  lemma {:induction false} HeadingStays(a: Axis, start: int, target: int, es: seq<AxisEvent>)
    requires Heading(a, start, target) && forall i :: 0 <= i < |es| ==> !es[i].Move?
    ensures Heading(AxisRun(a, es), start, target) && Between(AxisRun(a, es).position.value, start, target)
    decreases |es|
  {
    if es == [] {
      if a.move.Some? {
        StepsStayBetween(start, target, a.move.value.counter);
      }
    } else {
      HeadingStays(AxisStep(a, es[0]), start, target, es[1..]);
    }
  }

  /**
   * After a movement to a target at least six steps away, and until the next movement, every
   * position lies between the start and the target, whatever was in progress before.
   */
  lemma MovementStaysBetween(a: Axis, target: int, es: seq<AxisEvent>)
    requires a.position.Some? && SixthTowardsZero(target - a.position.value) != 0
    requires forall i :: 0 <= i < |es| ==> !es[i].Move?
    ensures var b := AxisRun(AxisStep(a, Move(target)), es);
            b.position.Some? && Between(b.position.value, a.position.value, target)
  {
    HeadingStays(Moved(a, target), a.position.value, target, es);
  }

  lemma {:induction false} RunKeepsWay(a: Axis, es: seq<AxisEvent>)
    requires OnTheWay(a) && TargetsInRange(es)
    ensures OnTheWay(AxisRun(a, es))
    decreases |es|
  {
    if es == [] {
    } else {
      StepKeepsWay(a, es[0]);
      RunKeepsWay(AxisStep(a, es[0]), es[1..]);
    }
  }

  /** One period of the timer: it ticks while it runs. */
  function Period(a: Axis): Axis {
    if a.move.Some? && a.move.value.running then Ticked(a) else a
  }

  /** A movement followed by `n` undisturbed periods. */
  function After(a: Axis, target: int, n: nat): Axis {
    Periods(Moved(a, target), n)
  }

  function Periods(a: Axis, n: nat): Axis {
    if n == 0 then a else Period(Periods(a, n - 1))
  }

  lemma {:induction false} TicksSoFar(a: Axis, n: nat)
    requires a.position.Some? && a.move.Some? && a.move.value.running && a.move.value.counter + n < STEPS
    ensures var m := a.move.value;
            Periods(a, n) == Axis(Some(a.position.value + n * m.increment), Some(m.(counter := m.counter + n)))
  {
    if n == 0 {
    } else {
      TicksSoFar(a, n - 1);
    }
  }

  lemma {:induction false} StaysPut(a: Axis, n: nat)
    requires a.move.None? || !a.move.value.running
    ensures Periods(a, n) == a
  {
    if n == 0 {
    } else {
      StaysPut(a, n - 1);
    }
  }

  lemma {:induction false} PeriodsAdd(a: Axis, m: nat, n: nat)
    ensures Periods(a, m + n) == Periods(Periods(a, m), n)
  {
    if n == 0 {
    } else {
      PeriodsAdd(a, m, n - 1);
    }
  }

  /** A running movement is over after at most six periods, exactly on its target. */
  lemma Arrives(a: Axis, n: nat)
    requires a.position.Some? && a.move.Some? && a.move.value.running && 0 < n && STEPS <= a.move.value.counter + n
    ensures Periods(a, n) == Axis(Some(a.move.value.target), None)
  {
    var ticks := if a.move.value.counter + 1 < STEPS then STEPS - 1 - a.move.value.counter else 0;
    TicksSoFarOrNone(a, ticks);
    PeriodsAdd(a, ticks, 1);
    assert Periods(Periods(a, ticks), 1) == Period(Periods(Periods(a, ticks), 0));
    PeriodsAdd(a, ticks + 1, n - ticks - 1);
    StaysPut(Periods(a, ticks + 1), n - ticks - 1);
  }

  /** Up to the last tick, a running movement keeps its target. */
  lemma TicksSoFarOrNone(a: Axis, n: nat)
    requires a.position.Some? && a.move.Some? && a.move.value.running
    requires n == 0 || a.move.value.counter + n < STEPS
    ensures var b := Periods(a, n);
            && b.position.Some? && b.move.Some? && b.move.value.running
            && b.move.value.target == a.move.value.target && b.move.value.counter == a.move.value.counter + n
  {
    if n > 0 {
      TicksSoFar(a, n);
    }
  }

  function Distance(a: int, b: int): nat {
    if a < b then b - a else a - b
  }

  /** Where an axis ends that is asked to move and then left alone. */
  function Destination(a: Axis, target: int): int
    requires a.position.Some?
  {
    if Distance(a.position.value, target) >= 6 then target
    else if a.move.Some? && a.move.value.running then a.move.value.target
    else a.position.value
  }

  /**
   * For every axis, whatever is in progress: a movement to a target at least six steps away is
   * exactly on target after six periods.  A nearer target is ignored: a movement in progress goes
   * on to its own target, and an axis at rest stays where it is.
   */
  lemma LandsAfterSix(a: Axis, target: int)
    requires a.position.Some?
    ensures var b := After(a, target, 6);
            && b.position == Some(Destination(a, target))
            && (Distance(a.position.value, target) >= 6 || (a.move.Some? && a.move.value.running) ==> b.move.None?)
            && (Distance(a.position.value, target) < 6 && (a.move.Some? ==> !a.move.value.running) ==> b == a)
  {
    var m := Moved(a, target);
    if m.move.Some? && m.move.value.running {
      Arrives(m, 6);
    } else {
      StaysPut(m, 6);
    }
  }

  /**
   * A request that is left alone ends on its target exactly when the target is at least six steps
   * away, or the movement in progress has the same target, or the axis rests on it.
   */
  lemma LandsOnTargetIff(a: Axis, target: int)
    requires a.position.Some?
    ensures After(a, target, 6).position == Some(target) <==>
            || Distance(a.position.value, target) >= 6
            || (if a.move.Some? && a.move.value.running then a.move.value.target == target else a.position.value == target)
  {
    LandsAfterSix(a, target);
  }

  /** Halfway to 10000, a request for a position two steps ahead is ignored: the axis goes on to 10000. */
  lemma NearTargetIgnored()
    ensures var a := After(Axis(Some(0), None), 10000, 3);
            a.position == Some(4998) && After(a, 5000, 6) == Axis(Some(10000), None)
  {
    TicksSoFar(Moved(Axis(Some(0), None), 10000), 3);
    LandsAfterSix(After(Axis(Some(0), None), 10000, 3), 5000);
  }

  /** A request for a position five steps ahead of an axis at rest is ignored. */
  lemma NearTargetUnreached(position: int)
    ensures After(Axis(Some(position), None), position + 5, 6) == Axis(Some(position), None)
  {
    LandsAfterSix(Axis(Some(position), None), position + 5);
  }

  /** A sixth of a distance without its fraction: towards zero, so never past the target. */
  lemma SixthLaw(d: int)
    ensures var q := SixthTowardsZero(d);
            if d >= 0 then 6 * q <= d < 6 * q + 6 && q >= 0 else 6 * q - 6 < d <= 6 * q && q <= 0
  {
  }

  /**
   * Where each period of an undisturbed movement to a target at least six steps away puts the axis:
   * one more sixth of the way, without its fraction, and with the sixth on the target.
   */
  lemma PositionAfter(a: Axis, target: int, n: nat)
    requires a.position.Some? && Distance(a.position.value, target) >= 6
    ensures var start := a.position.value;
            var sixth := if target >= start then (target - start) / 6 else -((start - target) / 6);
            After(a, target, n).position == Some(if n < 6 then start + n * sixth else target)
  {
    var m := Moved(a, target);
    if n < 6 {
      TicksSoFar(m, n);
    } else {
      Arrives(m, n);
    }
  }

  /** A stop holds the axis where it is, for any number of periods, and a stopped axis stays stopped. */
  lemma StopHolds(a: Axis, n: nat)
    ensures var b := Periods(AxisStep(a, Stop), n);
            && b.position == a.position
            && (b.move.Some? <==> a.move.Some?) && (b.move.Some? ==> !b.move.value.running)
            && b == AxisStep(a, Stop)
  {
    StaysPut(Stopped(a), n);
  }

  /** In the middle of a movement too: after `n` periods, a stop, and any number of periods. */
  lemma StoppedOnTheWay(a: Axis, target: int, n: nat, k: nat)
    requires a.position.Some?
    ensures Periods(AxisStep(After(a, target, n), Stop), k).position == After(a, target, n).position
  {
    StopHolds(After(a, target, n), k);
  }

  // ---- The server -----------------------------------------------------------------------

  datatype MovementType = Lift | Tilt
  datatype Direction = Open | Close | DefinedByPosition

  class TestWindowCoveringServer {
    var currentPositionLift: Option<int>
    var currentPositionTilt: Option<int>
    var lift: Option<MoveData>
    var tilt: Option<MoveData>

    constructor (liftPosition: Option<int>, tiltPosition: Option<int>)
      ensures AxisOf(Lift) == Axis(liftPosition, None) && AxisOf(Tilt) == Axis(tiltPosition, None)
    {
      currentPositionLift, currentPositionTilt, lift, tilt := liftPosition, tiltPosition, None, None;
    }

    ghost function AxisOf(kind: MovementType): Axis
      reads this
    {
      match kind
      case Lift => Axis(currentPositionLift, lift)
      case Tilt => Axis(currentPositionTilt, tilt)
    }

    ghost function Other(kind: MovementType): MovementType {
      match kind case Lift => Tilt case Tilt => Lift
    }

    method HandleMovement(kind: MovementType, direction: Direction, targetPercent100ths: Option<int>)
      modifies this
      ensures AxisOf(kind) == Moved(old(AxisOf(kind)), if targetPercent100ths.Some? then targetPercent100ths.value
                                                       else if direction == Open then 0 else 10000)
      ensures AxisOf(Other(kind)) == old(AxisOf(Other(kind)))
    {
      var target := if targetPercent100ths.Some? then targetPercent100ths.value else if direction.Open? then 0 else CLOSED;
      var currentValue := if kind.Lift? then currentPositionLift else currentPositionTilt;
      if currentValue.None? {
        return;
      }
      var increment := SixthTowardsZero(target - currentValue.value);
      if increment == 0 {
        return;
      }
      if kind.Lift? {
        lift := Some(MoveData(increment, target, 0, true));
      } else {
        tilt := Some(MoveData(increment, target, 0, true));
      }
    }

    method HandleMovementTick(kind: MovementType)
      modifies this
      ensures AxisOf(kind) == Ticked(old(AxisOf(kind)))
      ensures AxisOf(Other(kind)) == old(AxisOf(Other(kind)))
    {
      var moveData := if kind.Lift? then lift else tilt;
      if moveData.None? {
        return;
      }
      var m := moveData.value.(counter := moveData.value.counter + 1);
      if m.counter >= STEPS {
        m := m.(running := false);
        SetMove(kind, Some(m));
        if kind.Lift? {
          if currentPositionLift.None? {
            return;
          }
          currentPositionLift := Some(m.target);
        } else {
          if currentPositionTilt.None? {
            return;
          }
          currentPositionTilt := Some(m.target);
        }
        SetMove(kind, None);
      } else {
        SetMove(kind, Some(m));
        if kind.Lift? {
          if currentPositionLift.None? {
            return;
          }
          currentPositionLift := Some(currentPositionLift.value + m.increment);
        } else {
          if currentPositionTilt.None? {
            return;
          }
          currentPositionTilt := Some(currentPositionTilt.value + m.increment);
        }
      }
    }

    method SetMove(kind: MovementType, move: Option<MoveData>)
      modifies `lift, `tilt
      ensures lift == (if kind.Lift? then move else old(lift)) && tilt == (if kind.Tilt? then move else old(tilt))
    {
      if kind.Lift? {
        lift := move;
      } else {
        tilt := move;
      }
    }

    method HandleStopMovement()
      modifies `lift, `tilt
      ensures AxisOf(Lift) == Stopped(old(AxisOf(Lift))) && AxisOf(Tilt) == Stopped(old(AxisOf(Tilt)))
    {
      if lift.Some? {
        lift := Some(lift.value.(running := false));
      }
      if tilt.Some? {
        tilt := Some(tilt.value.(running := false));
      }
    }
  }
}
