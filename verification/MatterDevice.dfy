/**
 * The commissioning window and the announcements of packages/matter.js/src/MatterDevice.ts.
 * Its methods are asynchronous; what runs between two awaits is one atomic step, and an await
 * leaves a task behind that is resumed, or rejected, at any later time.
 */
module MatterDevice {
  import opened Options

  const DEVICE_ANNOUNCEMENT_DURATION_MS: int := 15 * 60 * 1000

  datatype Mode = WindowNotOpen | EnhancedWindowOpen | BasicWindowOpen

  type CallbackId = nat

  /**
   * The PASE server that is installed in the secure channel protocol: an instance derived from the
   * passcode, each with a salt and a count of errors of its own, or one that was handed over.
   */
  datatype Pase = FromPin(serial: nat) | FromVerifier(id: nat)

  /** What is left to run after an await. */
  datatype Task =
    | QueuedAnnouncement                              // queued by the announcement timer
    | FabricAnnouncementExpired                       // announce, then allowBasicCommissioning
    | PaseServerDerived(callback: Option<CallbackId>) // allowBasicCommissioning, then the window opens
    | CommissionModeSent                              // sendCommissionableAnnouncement, then startAnnouncement

  datatype State = State(
    mode: Mode,
    endCallback: Option<CallbackId>,
    pase: Option<Pase>,
    timerRunning: bool,
    startedAt: Option<int>,
    closing: bool,
    commissioned: bool,
    now: int,
    derived: nat,                      // how many PASE servers were derived from the passcode
    pending: multiset<Task>,
    registered: multiset<CallbackId>,  // every callback ever stored
    ran: multiset<CallbackId>,         // every callback ever run
    openedWith: Option<Pase>           // the PASE server that the open window was opened with
  )

  datatype Outcome = Completed | MatterFlowError | InternalError

  // ---- The atomic steps -----------------------------------------------------------------

  function Adding(to: multiset<CallbackId>, callback: Option<CallbackId>): multiset<CallbackId> {
    if callback.Some? then to + multiset{callback.value} else to
  }

  function Cleared(s: State): State {
    s.(pase := if s.mode.EnhancedWindowOpen? || s.commissioned then None else s.pase,
       mode := WindowNotOpen,
       timerRunning := false,
       startedAt := None,
       openedWith := None)
  }

  function Ended(s: State): State {
    Cleared(s).(endCallback := None, ran := Adding(s.ran, s.endCallback))
  }

  predicate DurationReached(s: State) {
    s.startedAt.Some? && s.now - s.startedAt.value > DEVICE_ANNOUNCEMENT_DURATION_MS
  }

  function Announced(s: State, once: bool): State {
    if !once && DurationReached(s) then Ended(s)
    else if !once && !s.mode.WindowNotOpen? then s
    else if s.commissioned then s
    else s.(pending := s.pending + multiset{FabricAnnouncementExpired})
  }

  function Started(s: State): State {
    if s.closing then s
    else Announced(s.(timerRunning := true, startedAt := Some(s.now)), false)
  }

  function Opened(s: State, mode: Mode, callback: Option<CallbackId>): (State, Outcome) {
    if !s.mode.WindowNotOpen? then (s, InternalError)
    else if s.endCallback.Some? then (s, InternalError)
    else
      (s.(mode := mode,
          endCallback := callback,
          registered := Adding(s.registered, callback),
          openedWith := s.pase,
          pending := s.pending + multiset{CommissionModeSent}),
       Completed)
  }

  function EnhancedAllowed(s: State, verifier: nat, callback: CallbackId): (State, Outcome) {
    if s.mode.BasicWindowOpen? then (s, MatterFlowError)
    else Opened(s.(pase := Some(FromVerifier(verifier))), EnhancedWindowOpen, Some(callback))
  }

  function BasicAllowed(s: State, callback: Option<CallbackId>): (State, Outcome) {
    if s.mode.EnhancedWindowOpen? then (s, MatterFlowError)
    else (s.(pending := s.pending + multiset{PaseServerDerived(callback)}), Completed)
  }

  /** Derives a PASE server from the passcode and installs it. */
  function Derived(s: State): State {
    s.(pase := Some(FromPin(s.derived)), derived := s.derived + 1)
  }

  function Resumed(s: State, task: Task): (State, Outcome) {
    match task
    case QueuedAnnouncement => (Announced(s, false), Completed)
    case FabricAnnouncementExpired => BasicAllowed(s, None)
    case PaseServerDerived(callback) => Opened(Derived(s), BasicWindowOpen, callback)
    case CommissionModeSent => (Started(s), Completed)
  }

  /** Ending twice is ending once, so a callback that ends commissioning again changes nothing. */
  lemma EndedTwice(s: State)
    ensures Ended(Ended(s)) == Ended(s)
  {
  }

  class MatterDevice {
    var activeCommissioningMode: Mode
    var activeCommissioningEndCallback: Option<CallbackId>
    var paseCommissioner: Option<Pase>
    var announceIntervalRunning: bool
    var announcementStartedTime: Option<int>
    var isClosing: bool
    var hasFabrics: bool
    var nowMs: int
    var derived: nat
    var pending: multiset<Task>
    ghost var registered: multiset<CallbackId>
    ghost var ran: multiset<CallbackId>
    ghost var openedWith: Option<Pase>
    /** The callbacks that call endCommissioning themselves. */
    const reentrant: set<CallbackId>

    constructor (hasFabrics: bool, nowMs: int, reentrant: set<CallbackId>)
      ensures View() == Initial(hasFabrics, nowMs)
    {
      activeCommissioningMode, activeCommissioningEndCallback, paseCommissioner := WindowNotOpen, None, None;
      announceIntervalRunning, announcementStartedTime, isClosing := false, None, false;
      this.hasFabrics, this.nowMs, this.reentrant := hasFabrics, nowMs, reentrant;
      derived := 0;
      pending, registered, ran, openedWith := multiset{}, multiset{}, multiset{}, None;
    }

    ghost function View(): State
      reads this
    {
      State(activeCommissioningMode, activeCommissioningEndCallback, paseCommissioner, announceIntervalRunning,
            announcementStartedTime, isClosing, hasFabrics, nowMs, derived, pending, registered, ran, openedWith)
    }

    method ClearWindow()
      modifies this
      ensures View() == Cleared(old(View()))
    {
      if activeCommissioningMode == EnhancedWindowOpen || hasFabrics {
        paseCommissioner := None;
      }
      activeCommissioningMode := WindowNotOpen;
      announceIntervalRunning := false;
      announcementStartedTime := None;
      openedWith := None;
      assert View().pase == Cleared(old(View())).pase;
    }

    method EndCommissioning()
      modifies this
      ensures View() == Ended(old(View()))
      decreases activeCommissioningEndCallback.Some?
    {
      ClearWindow();
      if activeCommissioningEndCallback.Some? {
        var callback := activeCommissioningEndCallback.value;
        activeCommissioningEndCallback := None;
        // the callback runs, and may end commissioning again
        ran := ran + multiset{callback};
        assert View() == Ended(old(View()));
        if callback in reentrant {
          EndedTwice(old(View()));
          EndCommissioning();
        }
      }
    }

    method Announce(announceOnce: bool)
      modifies this
      ensures View() == Announced(old(View()), announceOnce)
    {
      if !announceOnce {
        if announcementStartedTime.Some? && nowMs - announcementStartedTime.value > DEVICE_ANNOUNCEMENT_DURATION_MS {
          EndCommissioning();
          return;
        }
        if activeCommissioningMode != WindowNotOpen {
          return;
        }
      }
      if !hasFabrics {
        pending := pending + multiset{FabricAnnouncementExpired};
      }
    }

    method StartAnnouncement()
      modifies this
      ensures View() == Started(old(View()))
    {
      if isClosing {
        return;
      }
      if announceIntervalRunning {
        announceIntervalRunning := false;
      }
      announcementStartedTime := Some(nowMs);
      announceIntervalRunning := true;
      Announce(false);
    }

    method AnnounceAsCommissionable(mode: Mode, endCallback: Option<CallbackId>) returns (outcome: Outcome)
      modifies this
      ensures (View(), outcome) == Opened(old(View()), mode, endCallback)
    {
      if activeCommissioningMode != WindowNotOpen {
        return InternalError;
      }
      if activeCommissioningEndCallback.Some? {
        return InternalError;
      }
      activeCommissioningMode := mode;
      openedWith := paseCommissioner;
      StoreCallback(endCallback);
      pending := pending + multiset{CommissionModeSent};
      return Completed;
    }

    method StoreCallback(endCallback: Option<CallbackId>)
      requires activeCommissioningEndCallback.None?
      modifies this
      ensures View() == old(View()).(endCallback := endCallback, registered := Adding(old(registered), endCallback))
    {
      if endCallback.Some? {
        activeCommissioningEndCallback := endCallback;
        registered := registered + multiset{endCallback.value};
      }
    }

    method AllowEnhancedCommissioning(verifier: nat, endCallback: CallbackId) returns (outcome: Outcome)
      modifies this
      ensures (View(), outcome) == EnhancedAllowed(old(View()), verifier, endCallback)
    {
      if activeCommissioningMode == BasicWindowOpen {
        return MatterFlowError;
      }
      paseCommissioner := Some(FromVerifier(verifier));
      outcome := AnnounceAsCommissionable(EnhancedWindowOpen, Some(endCallback));
    }

    method AllowBasicCommissioning(endCallback: Option<CallbackId>) returns (outcome: Outcome)
      modifies this
      ensures (View(), outcome) == BasicAllowed(old(View()), endCallback)
    {
      if activeCommissioningMode == EnhancedWindowOpen {
        return MatterFlowError;
      }
      pending := pending + multiset{PaseServerDerived(endCallback)};
      return Completed;
    }

    /** Continues behind an await. */
    method Resume(task: Task) returns (outcome: Outcome)
      requires task in pending
      modifies this
      ensures (View(), outcome) == Resumed(old(View()).(pending := old(pending) - multiset{task}), task)
    {
      pending := pending - multiset{task};
      assert View() == old(View()).(pending := old(pending) - multiset{task});
      match task
      case QueuedAnnouncement =>
        Announce(false);
        outcome := Completed;
      case FabricAnnouncementExpired =>
        outcome := AllowBasicCommissioning(None);
      case PaseServerDerived(callback) =>
        paseCommissioner := Some(FromPin(derived));
        derived := derived + 1;
        assert View() == Derived(old(View()).(pending := old(pending) - multiset{task}));
        outcome := AnnounceAsCommissionable(BasicWindowOpen, callback);
      case CommissionModeSent =>
        StartAnnouncement();
        outcome := Completed;
    }

    method Close()
      modifies this
      ensures View() == Ended(old(View()).(closing := true))
    {
      isClosing := true;
      EndCommissioning();
    }
  }

  // ---- Runs -----------------------------------------------------------------------------

  function Initial(commissioned: bool, now: int): State {
    State(WindowNotOpen, None, None, false, None, false, commissioned, now, 0, multiset{}, multiset{}, multiset{}, None)
  }

  datatype Event =
    | OpenEnhanced(verifier: nat, callback: CallbackId)
    | OpenBasic(basicCallback: Option<CallbackId>)
    | End
    | Close
    | Start
    | AnnounceNow(once: bool)
    | TimerFires
    | Continue(task: Task)
    | Reject(task: Task)       // the awaited operation fails
    | FabricsChange(commissioned: bool)
    | TimePasses(ms: nat)

  predicate Enabled(s: State, e: Event) {
    match e
    case TimerFires => s.timerRunning
    case Continue(task) => task in s.pending
    case Reject(task) => task in s.pending
    case _ => true
  }

  function Step(s: State, e: Event): State {
    match e
    case OpenEnhanced(verifier, callback) => EnhancedAllowed(s, verifier, callback).0
    case OpenBasic(callback) => BasicAllowed(s, callback).0
    case End => Ended(s)
    case Close => Ended(s.(closing := true))
    case Start => Started(s)
    case AnnounceNow(once) => Announced(s, once)
    case TimerFires => s.(pending := s.pending + multiset{QueuedAnnouncement})
    case Continue(task) => Resumed(s.(pending := s.pending - multiset{task}), task).0
    case Reject(task) => s.(pending := s.pending - multiset{task})
    case FabricsChange(commissioned) => s.(commissioned := commissioned)
    case TimePasses(ms) => s.(now := s.now + ms)
  }

  /** The state after a run of events. */
  function Exec(s: State, es: seq<Event>): State
    decreases |es|
  {
    if es == [] then s else Exec(Step(s, es[0]), es[1..])
  }

  /** Every event is enabled where it happens. */
  predicate IsRun(s: State, es: seq<Event>)
    decreases |es|
  {
    es == [] || (Enabled(s, es[0]) && IsRun(Step(s, es[0]), es[1..]))
  }

  ghost predicate Reachable(s: State) {
    exists commissioned, now, es :: IsRun(Initial(commissioned, now), es) && s == Exec(Initial(commissioned, now), es)
  }

  lemma ExecShort(s: State, es: seq<Event>)
    requires es != []
    ensures Exec(s, es[..0]) == s && Exec(s, es[..1]) == Step(s, es[0])
  {
    assert es[..1][1..] == [];
  }

  /** Closing begins with a close and lasts; fabrics and the time change from outside alone. */
  lemma ClosingStep(s: State, e: Event)
    ensures Step(s, e).closing <==> s.closing || e.Close?
    ensures Step(s, e).commissioned == if e.FabricsChange? then e.commissioned else s.commissioned
    ensures Step(s, e).now == if e.TimePasses? then s.now + e.ms else s.now
  {
  }

  /** A new device is not closing, so it is exactly once it was closed. */
  lemma ClosingIff(commissioned: bool, now: int, es: seq<Event>)
    ensures Exec(Initial(commissioned, now), es).closing <==> Close in es
  {
    ClosingLasts(Initial(commissioned, now), es);
  }

  lemma {:induction false} ClosingLasts(s: State, es: seq<Event>)
    ensures Exec(s, es).closing <==> s.closing || Close in es
    decreases |es|
  {
    if es == [] {
    } else {
      ClosingStep(s, es[0]);
      ClosingLasts(Step(s, es[0]), es[1..]);
      assert es == [es[0]] + es[1..];
    }
  }

  // ---- What holds in every reachable state ----------------------------------------------

  ghost predicate Invariant(s: State) {
    && (s.endCallback.Some? ==> !s.mode.WindowNotOpen?)
    && (!s.mode.WindowNotOpen? ==> s.pase.Some?)
    && (s.timerRunning <==> s.startedAt.Some?)
    && (s.closing ==> !s.timerRunning)
    && (s.startedAt.Some? ==> s.startedAt.value <= s.now)
    && s.registered == Adding(s.ran, s.endCallback)
  }

  lemma EndedKeeps(s: State)
    requires Invariant(s)
    ensures Invariant(Ended(s))
  {
  }

  lemma AnnouncedKeeps(s: State, once: bool)
    requires Invariant(s)
    ensures Invariant(Announced(s, once))
  {
    if !once && DurationReached(s) {
      EndedKeeps(s);
    }
  }

  lemma OpenedKeeps(s: State, mode: Mode, callback: Option<CallbackId>)
    requires Invariant(s) && s.pase.Some? && !mode.WindowNotOpen?
    ensures Invariant(Opened(s, mode, callback).0)
  {
  }

  lemma ResumedKeeps(s: State, task: Task)
    requires Invariant(s)
    ensures Invariant(Resumed(s, task).0)
  {
    match task
    case QueuedAnnouncement => AnnouncedKeeps(s, false);
    case FabricAnnouncementExpired =>
    case PaseServerDerived(callback) => OpenedKeeps(Derived(s), BasicWindowOpen, callback);
    case CommissionModeSent => StartedKeeps(s);
  }

  lemma StartedKeeps(s: State)
    requires Invariant(s)
    ensures Invariant(Started(s))
  {
    if !s.closing {
      AnnouncedKeeps(s.(timerRunning := true, startedAt := Some(s.now)), false);
    }
  }

  lemma StepKeepsInvariant(s: State, e: Event)
    requires Invariant(s) && Enabled(s, e)
    ensures Invariant(Step(s, e))
  {
    match e
    case OpenEnhanced(verifier, callback) =>
      OpenedKeeps(s.(pase := Some(FromVerifier(verifier))), EnhancedWindowOpen, Some(callback));
    case Start => StartedKeeps(s);
    case AnnounceNow(once) => AnnouncedKeeps(s, once);
    case Continue(task) => ResumedKeeps(s.(pending := s.pending - multiset{task}), task);
    case _ =>
  }

  lemma {:induction false} RunKeepsInvariant(s: State, es: seq<Event>)
    requires Invariant(s) && IsRun(s, es)
    ensures Invariant(Exec(s, es))
    decreases |es|
  {
    if es == [] {
    } else {
      StepKeepsInvariant(s, es[0]);
      RunKeepsInvariant(Step(s, es[0]), es[1..]);
    }
  }

  /**
   * In every reachable state: a stored callback belongs to an open window, an open window has a
   * PASE server, the timer runs exactly while a start time is set and never once closing has
   * begun, and every stored callback has run or is still stored.
   */
  lemma ReachableInvariant(s: State)
    requires Reachable(s)
    ensures Invariant(s)
  {
    var commissioned, now, es :| IsRun(Initial(commissioned, now), es) && s == Exec(Initial(commissioned, now), es);
    RunKeepsInvariant(Initial(commissioned, now), es);
  }

  /** With the first guard of announceAsCommissionable passed, the second one never fires. */
  lemma SecondGuardUnreachable(s: State)
    requires Reachable(s) && s.mode.WindowNotOpen?
    ensures s.endCallback.None?
    ensures forall mode, callback :: Opened(s, mode, callback).1 == Completed
  {
    ReachableInvariant(s);
  }

  // ---- Window modes ---------------------------------------------------------------------

  lemma ModeStep(s: State, e: Event)
    ensures var t := Step(s, e); s.mode == t.mode || s.mode.WindowNotOpen? || t.mode.WindowNotOpen?
  {
  }

  /** A run never goes from one kind of open window to the other without closing in between. */
  lemma {:induction false} WindowClosesBetween(s: State, es: seq<Event>) returns (n: nat)
    requires IsRun(s, es)
    requires !s.mode.WindowNotOpen? && Exec(s, es).mode != s.mode
    ensures n <= |es| && Exec(s, es[..n]).mode.WindowNotOpen?
    decreases |es|
  {
    var t := Step(s, es[0]);
    ModeStep(s, es[0]);
    if t.mode.WindowNotOpen? {
      n := 1;
      assert Exec(t, es[..1][1..]) == t;
    } else {
      n := WindowClosesBetween(t, es[1..]);
      n := n + 1;
      assert es[..n][1..] == es[1..][..n - 1] && es[..n][0] == es[0];
    }
  }

  // ---- The PASE server of an open window ------------------------------------------------

  /** An open window has the PASE server it was opened with, which is of its kind. */
  ghost predicate PaseFits(s: State) {
    && (!s.mode.WindowNotOpen? ==> s.pase.Some? && s.pase == s.openedWith)
    && (s.mode.EnhancedWindowOpen? ==> s.pase.value.FromVerifier?)
    && (s.mode.BasicWindowOpen? ==> s.pase.value.FromPin? && s.pase.value.serial < s.derived)
  }

  /** An allowBasicCommissioning whose PASE server is ready while a window, of either kind, is open. */
  predicate Late(s: State, e: Event) {
    !s.mode.WindowNotOpen? && e.Continue? && e.task.PaseServerDerived?
  }

  /** An allowEnhancedCommissioning for a window that is open already, with another PASE server. */
  predicate Repeated(s: State, e: Event) {
    s.mode.EnhancedWindowOpen? && e.OpenEnhanced? && s.openedWith != Some(FromVerifier(e.verifier))
  }

  predicate Replaces(s: State, e: Event) {
    Late(s, e) || Repeated(s, e)
  }

  /** A step leaves an open window its own PASE server exactly when it is neither of these. */
  lemma PaseFitsIff(s: State, e: Event)
    requires PaseFits(s) && Enabled(s, e)
    ensures PaseFits(Step(s, e)) <==> !Replaces(s, e)
  {
    match e
    case OpenEnhanced(verifier, callback) => EnhancedKeepsPase(s, verifier, callback);
    case Start => StartedKeepsPase(s);
    case AnnounceNow(once) => AnnouncedKeepsPase(s, once);
    case Continue(task) => ContinuedKeepsPase(s, task);
    case _ => OthersKeepPase(s, e);
  }

  lemma OthersKeepPase(s: State, e: Event)
    requires PaseFits(s) && Enabled(s, e)
    requires !e.OpenEnhanced? && !e.Start? && !e.AnnounceNow? && !e.Continue?
    ensures PaseFits(Step(s, e))
  {
  }

  lemma ContinuedKeepsPase(s: State, task: Task)
    requires PaseFits(s)
    ensures PaseFits(Step(s, Continue(task))) <==> !(!s.mode.WindowNotOpen? && task.PaseServerDerived?)
  {
    var r := s.(pending := s.pending - multiset{task});
    match task
    case QueuedAnnouncement => AnnouncedKeepsPase(r, false);
    case FabricAnnouncementExpired =>
    case PaseServerDerived(callback) => DerivedKeepsPase(r, callback);
    case CommissionModeSent => StartedKeepsPase(r);
  }

  lemma DerivedKeepsPase(s: State, callback: Option<CallbackId>)
    requires PaseFits(s)
    ensures PaseFits(Opened(Derived(s), BasicWindowOpen, callback).0) <==> s.mode.WindowNotOpen?
  {
  }

  lemma EnhancedKeepsPase(s: State, verifier: nat, callback: CallbackId)
    requires PaseFits(s)
    ensures PaseFits(EnhancedAllowed(s, verifier, callback).0)
       <==> !(s.mode.EnhancedWindowOpen? && s.openedWith != Some(FromVerifier(verifier)))
  {
  }

  lemma AnnouncedKeepsPase(s: State, once: bool)
    requires PaseFits(s)
    ensures PaseFits(Announced(s, once))
  {
  }

  lemma StartedKeepsPase(s: State)
    requires PaseFits(s)
    ensures PaseFits(Started(s))
  {
    AnnouncedKeepsPase(s.(timerRunning := true, startedAt := Some(s.now)), false);
  }

  /** The last step of a run. */
  lemma {:induction false} ExecLast(s: State, es: seq<Event>, i: nat)
    requires IsRun(s, es) && i < |es|
    ensures Enabled(Exec(s, es[..i]), es[i]) && Exec(s, es[..i + 1]) == Step(Exec(s, es[..i]), es[i])
    decreases |es|
  {
    if i == 0 {
      ExecShort(s, es);
    } else {
      ExecLast(Step(s, es[0]), es[1..], i - 1);
      assert es[..i][1..] == es[1..][..i - 1] && es[..i + 1][1..] == es[1..][..i];
    }
  }

  /** Over every run, open windows keep their own PASE server throughout exactly when no step replaces it. */
  lemma PaseFitsThroughoutIff(s: State, es: seq<Event>)
    requires PaseFits(s) && IsRun(s, es)
    ensures (forall i :: 0 <= i <= |es| ==> PaseFits(Exec(s, es[..i])))
       <==> (forall i :: 0 <= i < |es| ==> !Replaces(Exec(s, es[..i]), es[i]))
  {
    if forall i :: 0 <= i <= |es| ==> PaseFits(Exec(s, es[..i])) {
      forall i | 0 <= i < |es| ensures !Replaces(Exec(s, es[..i]), es[i]) {
        ExecLast(s, es, i);
        assert PaseFits(Exec(s, es[..i])) && PaseFits(Exec(s, es[..i + 1]));
        PaseFitsIff(Exec(s, es[..i]), es[i]);
      }
    }
    if forall i :: 0 <= i < |es| ==> !Replaces(Exec(s, es[..i]), es[i]) {
      forall i | 0 <= i <= |es| ensures PaseFits(Exec(s, es[..i])) {
        PaseStays(s, es, i);
      }
    }
  }

  lemma {:induction false} PaseStays(s: State, es: seq<Event>, i: nat)
    requires PaseFits(s) && IsRun(s, es) && i <= |es|
    requires forall j :: 0 <= j < i ==> !Replaces(Exec(s, es[..j]), es[j])
    ensures PaseFits(Exec(s, es[..i]))
  {
    if i == 0 {
    } else {
      PaseStays(s, es, i - 1);
      ExecLast(s, es, i - 1);
      assert !Replaces(Exec(s, es[..i - 1]), es[i - 1]);
      PaseFitsIff(Exec(s, es[..i - 1]), es[i - 1]);
    }
  }

  /** A second request for an enhanced window is refused, and yet its PASE server replaces that of the window. */
  lemma RepeatedRequest(commissioned: bool, now: int, first: nat, second: nat, c: CallbackId, d: CallbackId)
    requires first != second
    ensures var s := Step(Initial(commissioned, now), OpenEnhanced(first, c));
            var (t, outcome) := EnhancedAllowed(s, second, d);
            && s.mode.EnhancedWindowOpen? && s.pase == s.openedWith == Some(FromVerifier(first))
            && outcome == InternalError && t.mode.EnhancedWindowOpen? && t.openedWith == s.openedWith
            && t.pase == Some(FromVerifier(second)) && t == Step(s, OpenEnhanced(second, d))
  {
  }

  /**
   * The same for a basic window, with no interleaving: one request after another, and the second is
   * refused only when its PASE server has replaced that of the window.
   */
  lemma RepeatedBasicRequest(commissioned: bool, now: int, c: Option<CallbackId>, d: Option<CallbackId>, es: seq<Event>)
    requires |es| == 3 && es[0] == OpenBasic(c) && es[1] == Continue(PaseServerDerived(c)) && es[2] == OpenBasic(d)
    ensures var s := Exec(Initial(commissioned, now), es);
            var (t, outcome) := Resumed(s.(pending := s.pending - multiset{PaseServerDerived(d)}), PaseServerDerived(d));
            && IsRun(Initial(commissioned, now), es) && Enabled(s, Continue(PaseServerDerived(d)))
            && s.mode.BasicWindowOpen? && s.pase == s.openedWith == Some(FromPin(0))
            && outcome == InternalError && t.mode.BasicWindowOpen? && t.openedWith == s.openedWith
            && t.pase == Some(FromPin(1)) && t == Step(s, Continue(PaseServerDerived(d)))
  {
    BasicOpened(Initial(commissioned, now), c);
    SecondBasicRequest(Step(Step(Initial(commissioned, now), es[0]), es[1]), d);
    RunOfThree(Initial(commissioned, now), es);
  }

  lemma BasicOpened(s: State, c: Option<CallbackId>)
    requires s.mode.WindowNotOpen? && s.endCallback.None?
    ensures var s1 := Step(s, OpenBasic(c));
            var s2 := Step(s1, Continue(PaseServerDerived(c)));
            && PaseServerDerived(c) in s1.pending
            && s2.mode.BasicWindowOpen? && s2.pase == s2.openedWith == Some(FromPin(s.derived)) && s2.derived == s.derived + 1
  {
  }

  /** For any open basic window: a second request installs the next PASE server and is refused. */
  lemma SecondBasicRequest(s: State, d: Option<CallbackId>)
    requires s.mode.BasicWindowOpen?
    ensures var s1 := Step(s, OpenBasic(d));
            var (t, outcome) := Resumed(s1.(pending := s1.pending - multiset{PaseServerDerived(d)}), PaseServerDerived(d));
            && PaseServerDerived(d) in s1.pending && s1 == s.(pending := s.pending + multiset{PaseServerDerived(d)})
            && outcome == InternalError && t.mode.BasicWindowOpen? && t.openedWith == s.openedWith
            && t.pase == Some(FromPin(s.derived))
  {
  }

  /** A late PASE server for the default passcode replaces that of an enhanced window. */
  lemma StaleContinuation(commissioned: bool, now: int, verifier: nat, callback: CallbackId, es: seq<Event>)
    requires |es| == 3 && es[0] == OpenBasic(None) && es[1] == OpenEnhanced(verifier, callback)
    requires es[2] == Continue(PaseServerDerived(None))
    ensures var s := Exec(Initial(commissioned, now), es);
            IsRun(Initial(commissioned, now), es) && s.mode == EnhancedWindowOpen && s.pase == Some(FromPin(0))
  {
    var s1 := Step(Initial(commissioned, now), es[0]);
    var s2 := Step(s1, es[1]);
    assert PaseServerDerived(None) in s1.pending && PaseServerDerived(None) in s2.pending;
    RunOfThree(Initial(commissioned, now), es);
  }

  /** The PASE server goes with an enhanced window, and with any window of a commissioned device. */
  lemma PaseRemovedIff(s: State, e: Event)
    requires Invariant(s) && Enabled(s, e)
    requires !s.mode.WindowNotOpen? && Step(s, e).mode.WindowNotOpen?
    ensures Step(s, e).pase.None? <==> s.mode.EnhancedWindowOpen? || s.commissioned
  {
    ClosingEnds(s, e, Step(s, e));
  }

  /** The step ends commissioning of a window that is closed already. */
  predicate EndsAgain(s: State, e: Event) {
    match e
    case End => true
    case Close => true
    case AnnounceNow(once) => !once && DurationReached(s)
    case Continue(task) => task.QueuedAnnouncement? && DurationReached(s)
    case _ => false
  }

  /** The step ends commissioning of a commissioned device, which removes the PASE server. */
  predicate Removes(s: State, e: Event) {
    s.commissioned && EndsAgain(s, e)
  }

  lemma ClosedStep(s: State, e: Event)
    requires Enabled(s, e) && s.mode.WindowNotOpen? && Step(s, e).mode.WindowNotOpen?
    requires s.endCallback.None?
    ensures Step(s, e).pase == if Removes(s, e) then None else s.pase
  {
    match e
    case Start => AnnouncedPase(s.(timerRunning := true, startedAt := Some(s.now)), false);
    case AnnounceNow(once) => AnnouncedPase(s, once);
    case Continue(task) => ClosedContinue(s, task);
    case _ =>
  }

  lemma ClosedContinue(s: State, task: Task)
    requires s.mode.WindowNotOpen? && s.endCallback.None? && Step(s, Continue(task)).mode.WindowNotOpen?
    ensures Step(s, Continue(task)).pase == if Removes(s, Continue(task)) then None else s.pase
  {
    var r := s.(pending := s.pending - multiset{task});
    match task
    case QueuedAnnouncement => AnnouncedPase(r, false);
    case CommissionModeSent => AnnouncedPase(r.(timerRunning := true, startedAt := Some(r.now)), false);
    case FabricAnnouncementExpired =>
    case PaseServerDerived(_) =>
  }

  lemma AnnouncedPase(s: State, once: bool)
    requires s.mode.WindowNotOpen?
    ensures Announced(s, once).pase == if s.commissioned && !once && DurationReached(s) then None else s.pase
  {
  }

  /** While the window stays closed, the PASE server stays until commissioning of a commissioned device is ended. */
  lemma {:induction false} ClosedKeepsPaseIff(s: State, es: seq<Event>)
    requires Invariant(s) && IsRun(s, es)
    requires forall i :: 0 <= i <= |es| ==> Exec(s, es[..i]).mode.WindowNotOpen?
    ensures Exec(s, es).pase.Some? <==> s.pase.Some? && forall i :: 0 <= i < |es| ==> !Removes(Exec(s, es[..i]), es[i])
    decreases |es|
  {
    if es == [] {
    } else {
      var t, rest := Step(s, es[0]), es[1..];
      ExecShort(s, es);
      assert Exec(s, es[..1]).mode.WindowNotOpen? && Exec(s, es[..0]).mode.WindowNotOpen?;
      ClosedStep(s, es[0]);
      StepKeepsInvariant(s, es[0]);
      forall i | 0 <= i <= |rest| ensures Exec(t, rest[..i]) == Exec(s, es[..i + 1]) {
        assert es[..i + 1][1..] == rest[..i] && es[..i + 1][0] == es[0];
      }
      forall i | 0 <= i <= |rest| ensures Exec(t, rest[..i]).mode.WindowNotOpen? {
        assert Exec(s, es[..i + 1]).mode.WindowNotOpen?;
      }
      ClosedKeepsPaseIff(t, rest);
      RemovalsShift(s, es);
    }
  }

  lemma RemovalsShift(s: State, es: seq<Event>)
    requires es != []
    ensures var t, rest := Step(s, es[0]), es[1..];
            (forall i :: 0 <= i < |es| ==> !Removes(Exec(s, es[..i]), es[i])) <==>
            (!Removes(s, es[0]) && forall i :: 0 <= i < |rest| ==> !Removes(Exec(t, rest[..i]), rest[i]))
  {
    var t, rest := Step(s, es[0]), es[1..];
    ExecShort(s, es);
    forall i | 0 <= i < |rest| ensures Removes(Exec(t, rest[..i]), rest[i]) <==> Removes(Exec(s, es[..i + 1]), es[i + 1]) {
      assert es[..i + 1][1..] == rest[..i] && es[..i + 1][0] == es[0];
    }
    if forall i :: 0 <= i < |es| ==> !Removes(Exec(s, es[..i]), es[i]) {
      assert !Removes(Exec(s, es[..0]), es[0]);
      forall i | 0 <= i < |rest| ensures !Removes(Exec(t, rest[..i]), rest[i]) {
        assert !Removes(Exec(s, es[..i + 1]), es[i + 1]);
      }
    }
    if !Removes(s, es[0]) && forall i :: 0 <= i < |rest| ==> !Removes(Exec(t, rest[..i]), rest[i]) {
      forall i | 0 <= i < |es| ensures !Removes(Exec(s, es[..i]), es[i]) {
        if i > 0 {
          assert !Removes(Exec(t, rest[..i - 1]), rest[i - 1]);
        }
      }
    }
  }

  /**
   * From the step that closes a window on, while no other window is opened, a PASE server is
   * installed exactly when the window was basic, the device was not commissioned when it closed,
   * and commissioning has not been ended since on the device being commissioned.
   */
  lemma ClosedWindowPaseIff(s: State, closing: Event, es: seq<Event>)
    requires Invariant(s) && Enabled(s, closing) && !s.mode.WindowNotOpen? && IsRun(Step(s, closing), es)
    requires forall i :: 0 <= i <= |es| ==> Exec(Step(s, closing), es[..i]).mode.WindowNotOpen?
    ensures var t := Step(s, closing);
            Exec(t, es).pase.Some? <==>
            s.mode.BasicWindowOpen? && !s.commissioned && forall i :: 0 <= i < |es| ==> !Removes(Exec(t, es[..i]), es[i])
  {
    var t := Step(s, closing);
    assert Exec(t, es[..0]) == t && t.mode.WindowNotOpen?;
    StepKeepsInvariant(s, closing);
    PaseRemovedIff(s, closing);
    ClosedKeepsPaseIff(t, es);
  }

  /** A device that is commissioned with its window closed can still have the PASE server of the passcode. */
  lemma PaseOutlivesWindow(now: int, es: seq<Event>)
    requires |es| == 3 && es[0] == OpenBasic(None) && es[1] == Continue(PaseServerDerived(None)) && es[2] == End
    ensures var s := Exec(Initial(false, now), es);
            var t := Step(s, FabricsChange(true));
            IsRun(Initial(false, now), es) && t.commissioned && t.mode.WindowNotOpen? && t.pase == Some(FromPin(0))
  {
    assert PaseServerDerived(None) in Step(Initial(false, now), es[0]).pending;
    RunOfThree(Initial(false, now), es);
  }

  /** Only ending commissioning closes a window. */
  lemma ClosingEnds(s: State, e: Event, t: State)
    requires !s.mode.WindowNotOpen? && t == Step(s, e) && t.mode.WindowNotOpen?
    ensures t.pase == Ended(s).pase
  {
    match e
    case Start => AnnouncedEnds(s.(timerRunning := true, startedAt := Some(s.now)), false);
    case AnnounceNow(once) => AnnouncedEnds(s, once);
    case Continue(task) => ResumedEnds(s.(pending := s.pending - multiset{task}), task);
    case _ =>
  }

  lemma ResumedEnds(s: State, task: Task)
    requires !s.mode.WindowNotOpen? && Resumed(s, task).0.mode.WindowNotOpen?
    ensures Resumed(s, task).0.pase == Ended(s).pase
  {
    match task
    case QueuedAnnouncement => AnnouncedEnds(s, false);
    case CommissionModeSent => AnnouncedEnds(s.(timerRunning := true, startedAt := Some(s.now)), false);
  }

  lemma AnnouncedEnds(s: State, once: bool)
    requires !s.mode.WindowNotOpen?
    ensures Announced(s, once).mode.WindowNotOpen? ==> Announced(s, once).pase == Ended(s).pase
  {
  }

  /** Closing has begun, the window is closed, and a step opens it again: exactly these steps do. */
  lemma OpensWhileClosing(s: State, e: Event)
    requires Invariant(s) && Enabled(s, e) && s.closing && s.mode.WindowNotOpen?
    ensures !Step(s, e).mode.WindowNotOpen? <==> e.OpenEnhanced? || (e.Continue? && e.task.PaseServerDerived?)
  {
  }

  /** A window that opens while closing: its PASE server was being derived when closing began. */
  lemma OpenedWhileClosing(commissioned: bool, now: int, es: seq<Event>)
    requires |es| == 3 && es[0] == OpenBasic(None) && es[1] == Close && es[2] == Continue(PaseServerDerived(None))
    ensures var s := Exec(Initial(commissioned, now), es);
            IsRun(Initial(commissioned, now), es) && s.closing && s.mode.BasicWindowOpen? && !s.timerRunning
  {
    var s1 := Step(Initial(commissioned, now), es[0]);
    assert PaseServerDerived(None) in s1.pending && PaseServerDerived(None) in Step(s1, es[1]).pending;
    RunOfThree(Initial(commissioned, now), es);
  }

  // ---- End callbacks --------------------------------------------------------------------

  /** A step that closes the window runs the stored callback once; no other step runs a callback. */
  lemma CallbackRunsOnClose(s: State, e: Event)
    requires Invariant(s) && Enabled(s, e)
    ensures var t := Step(s, e);
            t.ran == RanBetween(s, t)
  {
    match e
    case OpenEnhanced(verifier, callback) => EnhancedRuns(s, verifier, callback);
    case Start => StartedRuns(s);
    case AnnounceNow(once) => AnnouncedRuns(s, once);
    case Continue(task) => ResumedRuns(s.(pending := s.pending - multiset{task}), task);
    case _ =>
  }

  /** The callbacks that have run when `t` comes right after `s`. */
  ghost function RanBetween(s: State, t: State): multiset<CallbackId> {
    if !s.mode.WindowNotOpen? && t.mode.WindowNotOpen? then Adding(s.ran, s.endCallback) else s.ran
  }

  lemma AnnouncedRuns(s: State, once: bool)
    requires s.endCallback.Some? ==> !s.mode.WindowNotOpen?
    ensures Announced(s, once).ran == RanBetween(s, Announced(s, once))
  {
  }

  lemma EnhancedRuns(s: State, verifier: nat, callback: CallbackId)
    ensures EnhancedAllowed(s, verifier, callback).0.ran == RanBetween(s, EnhancedAllowed(s, verifier, callback).0)
  {
  }

  lemma ResumedRuns(s: State, task: Task)
    requires s.endCallback.Some? ==> !s.mode.WindowNotOpen?
    ensures Resumed(s, task).0.ran == RanBetween(s, Resumed(s, task).0)
  {
    match task
    case QueuedAnnouncement => AnnouncedRuns(s, false);
    case FabricAnnouncementExpired =>
    case PaseServerDerived(callback) =>
    case CommissionModeSent => StartedRuns(s);
  }

  lemma StartedRuns(s: State)
    requires s.endCallback.Some? ==> !s.mode.WindowNotOpen?
    ensures Started(s).ran == RanBetween(s, Started(s))
  {
    AnnouncedRuns(s.(timerRunning := true, startedAt := Some(s.now)), false);
  }

  /** The event opens a window with this end callback. */
  predicate OpensWith(s: State, e: Event, callback: Option<CallbackId>) {
    s.mode.WindowNotOpen? &&
    match e
    case OpenEnhanced(_, c) => callback == Some(c)
    case Continue(PaseServerDerived(c)) => callback == c
    case _ => false
  }

  lemma OpeningStores(s: State, e: Event, callback: Option<CallbackId>)
    requires Invariant(s) && Enabled(s, e) && OpensWith(s, e, callback)
    ensures var t := Step(s, e);
            t.endCallback == callback && t.ran == s.ran && CommissionModeSent in t.pending &&
            if e.OpenEnhanced? then t.mode.EnhancedWindowOpen? && t.pase == Some(FromVerifier(e.verifier))
            else t.mode.BasicWindowOpen? && t.pase == Some(FromPin(s.derived))
  {
  }

  /** While a window stays open its callback stays stored and does not run. */
  lemma OpenKeepsCallback(s: State, e: Event)
    requires Invariant(s) && Enabled(s, e) && !s.mode.WindowNotOpen? && !Step(s, e).mode.WindowNotOpen?
    ensures Step(s, e).endCallback == s.endCallback
  {
  }

  lemma {:induction false} OpenRunKeepsCallback(s: State, es: seq<Event>)
    requires Invariant(s) && IsRun(s, es)
    requires forall i :: 0 <= i <= |es| ==> !Exec(s, es[..i]).mode.WindowNotOpen?
    ensures Exec(s, es).endCallback == s.endCallback && Exec(s, es).ran == s.ran
    decreases |es|
  {
    if es == [] {
    } else {
      var t := Step(s, es[0]);
      ExecShort(s, es);
      StepKeepsInvariant(s, es[0]);
      OpenKeepsCallback(s, es[0]);
      CallbackRunsOnClose(s, es[0]);
      forall i | 0 <= i <= |es| - 1 ensures !Exec(t, es[1..][..i]).mode.WindowNotOpen? {
        assert es[..i + 1][1..] == es[1..][..i] && es[..i + 1][0] == es[0];
        assert !Exec(s, es[..i + 1]).mode.WindowNotOpen?;
      }
      OpenRunKeepsCallback(t, es[1..]);
    }
  }

  /**
   * A window that was opened with a callback runs it exactly once, in the step that closes the
   * window, whatever happens while the window is open.
   */
  lemma WindowRunsItsCallback(s: State, opening: Event, callback: Option<CallbackId>, es: seq<Event>, closing: Event)
    requires Invariant(s) && Enabled(s, opening) && OpensWith(s, opening, callback)
    requires IsRun(Step(s, opening), es) && Enabled(Exec(Step(s, opening), es), closing)
    requires forall i :: 0 <= i <= |es| ==> !Exec(Step(s, opening), es[..i]).mode.WindowNotOpen?
    requires Step(Exec(Step(s, opening), es), closing).mode.WindowNotOpen?
    ensures Exec(Step(s, opening), es).ran == s.ran
    ensures Step(Exec(Step(s, opening), es), closing).ran == Adding(s.ran, callback)
  {
    var t := Step(s, opening);
    OpeningStores(s, opening, callback);
    StepKeepsInvariant(s, opening);
    OpenRunKeepsCallback(t, es);
    RunKeepsInvariant(t, es);
    assert es[..|es|] == es;
    CallbackRunsOnClose(Exec(t, es), closing);
  }

  function Offers(e: Event, c: CallbackId): nat {
    match e
    case OpenEnhanced(_, callback) => if callback == c then 1 else 0
    case OpenBasic(Some(callback)) => if callback == c then 1 else 0
    case _ => 0
  }

  function OfferedIn(es: seq<Event>, c: CallbackId): nat {
    if es == [] then 0 else Offers(es[0], c) + OfferedIn(es[1..], c)
  }

  /** How often a callback has been stored or is waiting to be stored. */
  function Claims(s: State, c: CallbackId): nat {
    s.registered[c] + s.pending[PaseServerDerived(Some(c))]
  }

  lemma AnnouncedClaims(s: State, once: bool, c: CallbackId)
    ensures Claims(Announced(s, once), c) == Claims(s, c)
  {
  }

  lemma StartedClaims(s: State, c: CallbackId)
    ensures Claims(Started(s), c) == Claims(s, c)
  {
    AnnouncedClaims(s.(timerRunning := true, startedAt := Some(s.now)), false, c);
  }

  lemma OpenedClaims(s: State, mode: Mode, callback: Option<CallbackId>, c: CallbackId)
    ensures Claims(Opened(s, mode, callback).0, c) <= Claims(s, c) + if callback == Some(c) then 1 else 0
  {
  }

  lemma OfferStep(s: State, e: Event, c: CallbackId)
    requires Enabled(s, e)
    ensures Claims(Step(s, e), c) <= Claims(s, c) + Offers(e, c)
  {
    match e
    case OpenEnhanced(verifier, callback) =>
      OpenedClaims(s.(pase := Some(FromVerifier(verifier))), EnhancedWindowOpen, Some(callback), c);
    case Start => StartedClaims(s, c);
    case AnnounceNow(once) => AnnouncedClaims(s, once, c);
    case Continue(task) =>
      WithoutClaims(s, task, c);
      ResumedClaims(s.(pending := s.pending - multiset{task}), task, c);
    case _ =>
  }

  predicate Brings(task: Task, c: CallbackId) {
    task == PaseServerDerived(Some(c))
  }

  lemma WithoutClaims(s: State, task: Task, c: CallbackId)
    requires task in s.pending
    ensures Claims(s.(pending := s.pending - multiset{task}), c) == Claims(s, c) - if Brings(task, c) then 1 else 0
  {
  }

  lemma ResumedClaims(s: State, task: Task, c: CallbackId)
    ensures Claims(Resumed(s, task).0, c) <= Claims(s, c) + if Brings(task, c) then 1 else 0
  {
    match task
    case QueuedAnnouncement => AnnouncedClaims(s, false, c);
    case CommissionModeSent => StartedClaims(s, c);
    case PaseServerDerived(callback) => OpenedClaims(Derived(s), BasicWindowOpen, callback, c);
    case FabricAnnouncementExpired =>
  }

  lemma {:induction false} OfferRun(s: State, es: seq<Event>, c: CallbackId)
    requires IsRun(s, es)
    ensures Claims(Exec(s, es), c) <= Claims(s, c) + OfferedIn(es, c)
    decreases |es|
  {
    if es == [] {
    } else {
      OfferStep(s, es[0], c);
      OfferRun(Step(s, es[0]), es[1..], c);
    }
  }

  /** A callback runs at most as often as it was handed over. */
  lemma CallbackRunsAtMostOnce(commissioned: bool, now: int, es: seq<Event>, c: CallbackId)
    requires IsRun(Initial(commissioned, now), es)
    ensures Exec(Initial(commissioned, now), es).ran[c] <= OfferedIn(es, c)
  {
    RunKeepsInvariant(Initial(commissioned, now), es);
    OfferRun(Initial(commissioned, now), es, c);
  }

  // ---- The announcement duration --------------------------------------------------------

  predicate Restarts(e: Event) {
    e.Start? || (e.Continue? && e.task.CommissionModeSent?)
  }

  predicate Announces(e: Event) {
    e == AnnounceNow(false) || e == Continue(QueuedAnnouncement)
  }

  /** A step that does not restart keeps the start time, or ends the window. */
  lemma StartTimeStep(s: State, e: Event)
    requires Enabled(s, e) && !Restarts(e)
    ensures var t := Step(s, e); t.startedAt == s.startedAt || (t.mode.WindowNotOpen? && !t.timerRunning)
  {
  }

  /** A restart sets the start time to now and runs the timer, unless closing has begun. */
  lemma RestartSetsTime(s: State, e: Event)
    requires Invariant(s) && Enabled(s, e) && Restarts(e)
    ensures var t := Step(s, e); if s.closing then t.startedAt.None? else t.startedAt == Some(s.now) && t.timerRunning
  {
  }

  /** Without a restart the start time stays until the window is ended. */
  lemma {:induction false} StartTimeStays(s: State, es: seq<Event>) returns (n: nat)
    requires IsRun(s, es)
    requires forall i :: 0 <= i < |es| ==> !Restarts(es[i])
    ensures Exec(s, es).startedAt == s.startedAt || (n <= |es| && IsEnded(Exec(s, es[..n])))
    decreases |es|
  {
    n := 0;
    if es == [] {
    } else {
      var t := Step(s, es[0]);
      StartTimeStep(s, es[0]);
      if t.startedAt != s.startedAt {
        n := 1;
        assert Exec(t, es[..1][1..]) == t;
      } else {
        n := StartTimeStays(t, es[1..]);
        n := n + 1;
        if n <= |es| {
          assert es[..n][1..] == es[1..][..n - 1] && es[..n][0] == es[0];
        }
      }
    }
  }

  predicate IsEnded(s: State) {
    s.mode.WindowNotOpen? && !s.timerRunning
  }

  /**
   * Once the duration is over, and with no restart since, the next announcement closes the window
   * and stops the timer, unless the window was ended before.
   */
  lemma DurationEndsWindow(s: State, es: seq<Event>, e: Event) returns (n: nat)
    requires IsRun(s, es) && Enabled(Exec(s, es), e) && Announces(e)
    requires forall i :: 0 <= i < |es| ==> !Restarts(es[i])
    requires s.startedAt.Some? && Exec(s, es).now - s.startedAt.value > DEVICE_ANNOUNCEMENT_DURATION_MS
    ensures IsEnded(Step(Exec(s, es), e)) || (n <= |es| && IsEnded(Exec(s, es[..n])))
  {
    n := StartTimeStays(s, es);
  }

  // ---- How long a window stays open -------------------------------------------------------

  /** The start time is set and more than 15 minutes ago. */
  predicate Expired(s: State) {
    s.startedAt.Some? && s.now - s.startedAt.value > 15 * 60 * 1000
  }

  /** Commissioning is ended, or an announcement comes when the time is over. */
  predicate Closes(s: State, e: Event) {
    e.End? || e.Close? || (Announces(e) && Expired(s))
  }

  /** Exactly these steps close an open window. */
  lemma ClosesIff(s: State, e: Event)
    requires Enabled(s, e) && !s.mode.WindowNotOpen?
    ensures Step(s, e).mode.WindowNotOpen? <==> Closes(s, e)
  {
    match e
    case Start => StartedStaysOpen(s);
    case AnnounceNow(once) => AnnouncedClosesIff(s, once);
    case Continue(task) => ContinuedClosesIff(s, task);
    case _ => OtherClosesIff(s, e);
  }

  lemma OtherClosesIff(s: State, e: Event)
    requires !s.mode.WindowNotOpen? && !e.Start? && !e.AnnounceNow? && !e.Continue?
    ensures Step(s, e).mode.WindowNotOpen? <==> e.End? || e.Close?
  {
  }

  lemma AnnouncedClosesIff(s: State, once: bool)
    requires !s.mode.WindowNotOpen?
    ensures Announced(s, once).mode.WindowNotOpen? <==> !once && Expired(s)
  {
  }

  lemma StartedStaysOpen(s: State)
    requires !s.mode.WindowNotOpen?
    ensures Started(s).mode == s.mode
  {
  }

  lemma ContinuedClosesIff(s: State, task: Task)
    requires !s.mode.WindowNotOpen?
    ensures Step(s, Continue(task)).mode.WindowNotOpen? <==> task.QueuedAnnouncement? && Expired(s)
  {
    var r := s.(pending := s.pending - multiset{task});
    match task
    case QueuedAnnouncement => AnnouncedClosesIff(r, false);
    case CommissionModeSent => StartedStaysOpen(r);
    case FabricAnnouncementExpired =>
    case PaseServerDerived(_) =>
  }

  /** Over every run: the window is open throughout exactly when none of these steps occurs. */
  lemma OpenThroughoutIff(s: State, es: seq<Event>)
    requires IsRun(s, es) && !s.mode.WindowNotOpen?
    ensures (forall i :: 0 <= i <= |es| ==> !Exec(s, es[..i]).mode.WindowNotOpen?)
       <==> (forall i :: 0 <= i < |es| ==> !Closes(Exec(s, es[..i]), es[i]))
  {
    if forall i :: 0 <= i <= |es| ==> !Exec(s, es[..i]).mode.WindowNotOpen? {
      forall i | 0 <= i < |es| ensures !Closes(Exec(s, es[..i]), es[i]) {
        ExecLast(s, es, i);
        assert !Exec(s, es[..i]).mode.WindowNotOpen? && !Exec(s, es[..i + 1]).mode.WindowNotOpen?;
        ClosesIff(Exec(s, es[..i]), es[i]);
      }
    }
    if forall i :: 0 <= i < |es| ==> !Closes(Exec(s, es[..i]), es[i]) {
      forall i | 0 <= i <= |es| ensures !Exec(s, es[..i]).mode.WindowNotOpen? {
        StaysOpen(s, es, i);
      }
    }
  }

  lemma {:induction false} StaysOpen(s: State, es: seq<Event>, i: nat)
    requires IsRun(s, es) && !s.mode.WindowNotOpen? && i <= |es|
    requires forall j :: 0 <= j < i ==> !Closes(Exec(s, es[..j]), es[j])
    ensures !Exec(s, es[..i]).mode.WindowNotOpen?
  {
    if i == 0 {
    } else {
      StaysOpen(s, es, i - 1);
      ExecLast(s, es, i - 1);
      assert !Closes(Exec(s, es[..i - 1]), es[i - 1]);
      ClosesIff(Exec(s, es[..i - 1]), es[i - 1]);
    }
  }

  /** A closed window is opened by a request for an enhanced one, or by a PASE server that is ready. */
  lemma OpensIff(s: State, e: Event)
    requires Invariant(s) && Enabled(s, e) && s.mode.WindowNotOpen?
    ensures !Step(s, e).mode.WindowNotOpen? <==> e.OpenEnhanced? || (e.Continue? && e.task.PaseServerDerived?)
  {
  }

  // ---- What announcing leads to -----------------------------------------------------------

  /** The device has no fabric and is announced once, or in time and without an open window. */
  predicate Seeks(s: State, e: Event) {
    !s.commissioned &&
    match e
    case AnnounceNow(once) => once || (s.mode.WindowNotOpen? && !Expired(s))
    case Start => s.mode.WindowNotOpen? && !s.closing
    case Continue(QueuedAnnouncement) => s.mode.WindowNotOpen? && !Expired(s)
    case Continue(CommissionModeSent) => s.mode.WindowNotOpen? && !s.closing
    case _ => false
  }

  function Finished(e: Event): multiset<Task> {
    match e
    case Continue(task) => multiset{task}
    case Reject(task) => multiset{task}
    case _ => multiset{}
  }

  /** The task that a step leaves behind: towards a window, for a window that it opens, or for the timer. */
  function LeavesBehind(s: State, e: Event): multiset<Task> {
    if Seeks(s, e) then multiset{FabricAnnouncementExpired}
    else
      match e
      case OpenEnhanced(_, _) => if s.mode.WindowNotOpen? then multiset{CommissionModeSent} else multiset{}
      case Continue(PaseServerDerived(_)) => if s.mode.WindowNotOpen? then multiset{CommissionModeSent} else multiset{}
      case OpenBasic(callback) => if s.mode.EnhancedWindowOpen? then multiset{} else multiset{PaseServerDerived(callback)}
      case Continue(FabricAnnouncementExpired) => if s.mode.EnhancedWindowOpen? then multiset{} else multiset{PaseServerDerived(None)}
      case TimerFires => multiset{QueuedAnnouncement}
      case _ => multiset{}
  }

  /** What is pending behind every step. */
  lemma PendingLaw(s: State, e: Event)
    requires Invariant(s) && Enabled(s, e)
    ensures Step(s, e).pending == s.pending - Finished(e) + LeavesBehind(s, e)
  {
    match e
    case Start => StartedSeeksIff(s);
    case AnnounceNow(once) => AnnouncedSeeksIff(s, once);
    case Continue(task) => ContinuedPending(s, task);
    case _ => OtherPending(s, e);
  }

  lemma OtherPending(s: State, e: Event)
    requires Invariant(s) && Enabled(s, e) && !e.Start? && !e.AnnounceNow? && !e.Continue?
    ensures Step(s, e).pending == s.pending - Finished(e) + LeavesBehind(s, e)
  {
  }

  lemma AnnouncedSeeksIff(s: State, once: bool)
    ensures Announced(s, once).pending
         == s.pending + if !s.commissioned && (once || (!Expired(s) && s.mode.WindowNotOpen?))
                        then multiset{FabricAnnouncementExpired} else multiset{}
  {
  }

  lemma StartedSeeksIff(s: State)
    ensures Started(s).pending
         == s.pending + if !s.closing && !s.commissioned && s.mode.WindowNotOpen?
                        then multiset{FabricAnnouncementExpired} else multiset{}
  {
    if !s.closing {
      AnnouncedSeeksIff(s.(timerRunning := true, startedAt := Some(s.now)), false);
    }
  }

  lemma ContinuedPending(s: State, task: Task)
    requires Invariant(s) && task in s.pending
    ensures Step(s, Continue(task)).pending == s.pending - multiset{task} + LeavesBehind(s, Continue(task))
  {
    match task
    case QueuedAnnouncement => QueuedPending(s);
    case CommissionModeSent => SentPending(s);
    case FabricAnnouncementExpired => ExpiredPending(s);
    case PaseServerDerived(callback) => DerivedPending(s, callback);
  }

  lemma QueuedPending(s: State)
    requires Invariant(s) && QueuedAnnouncement in s.pending
    ensures Step(s, Continue(QueuedAnnouncement)).pending == s.pending - multiset{QueuedAnnouncement} + LeavesBehind(s, Continue(QueuedAnnouncement))
  {
    AnnouncedSeeksIff(s.(pending := s.pending - multiset{QueuedAnnouncement}), false);
  }

  lemma SentPending(s: State)
    requires Invariant(s) && CommissionModeSent in s.pending
    ensures Step(s, Continue(CommissionModeSent)).pending == s.pending - multiset{CommissionModeSent} + LeavesBehind(s, Continue(CommissionModeSent))
  {
    StartedSeeksIff(s.(pending := s.pending - multiset{CommissionModeSent}));
  }

  lemma ExpiredPending(s: State)
    requires Invariant(s) && FabricAnnouncementExpired in s.pending
    ensures Step(s, Continue(FabricAnnouncementExpired)).pending == s.pending - multiset{FabricAnnouncementExpired} + LeavesBehind(s, Continue(FabricAnnouncementExpired))
  {
  }

  lemma DerivedPending(s: State, callback: Option<CallbackId>)
    requires Invariant(s) && PaseServerDerived(callback) in s.pending
    ensures Step(s, Continue(PaseServerDerived(callback))).pending == s.pending - multiset{PaseServerDerived(callback)} + LeavesBehind(s, Continue(PaseServerDerived(callback)))
  {
  }

  /** A request is refused with MatterFlowError exactly while a window of the other kind is open, and then changes nothing. */
  lemma RefusedIff(s: State, verifier: nat, callback: CallbackId, optional: Option<CallbackId>)
    ensures EnhancedAllowed(s, verifier, callback).1 == MatterFlowError <==> s.mode == BasicWindowOpen
    ensures BasicAllowed(s, optional).1 == MatterFlowError <==> s.mode == EnhancedWindowOpen
    ensures s.mode == BasicWindowOpen ==> EnhancedAllowed(s, verifier, callback).0 == s
    ensures s.mode == EnhancedWindowOpen ==> BasicAllowed(s, optional).0 == s
    ensures s.mode != EnhancedWindowOpen ==>
              BasicAllowed(s, optional) == (s.(pending := s.pending + multiset{PaseServerDerived(optional)}), Completed)
  {
  }

  // ---- Chains of continuations end ------------------------------------------------------

  /**
   * What the tasks that are pending can still lead to.  While the duration is over, an announcement
   * may end the window once more; only without an open window does a sent mode lead to a new round.
   */
  function TaskWeight(task: Task, over: bool, idle: bool): nat {
    match task
    case QueuedAnnouncement => 4
    case FabricAnnouncementExpired => if over then 6 else 3
    case PaseServerDerived(_) => if over then 5 else 2
    case CommissionModeSent => if idle then 4 else 1
  }

  function Weight(pending: multiset<Task>, over: bool, idle: bool): int {
    var derived := TaskWeight(PaseServerDerived(None), over, idle);
    derived * |pending|
    + (4 - derived) * pending[QueuedAnnouncement]
    + pending[FabricAnnouncementExpired]
    + (TaskWeight(CommissionModeSent, over, idle) - derived) * pending[CommissionModeSent]
  }

  /** A sent mode can lead to a new round, now or after the window is ended. */
  predicate Idle(s: State) {
    !s.closing && (s.mode.WindowNotOpen? || DurationReached(s))
  }

  function Load(s: State): int {
    Weight(s.pending, DurationReached(s), Idle(s))
  }

  lemma CountsFit(pending: multiset<Task>)
    ensures pending[QueuedAnnouncement] + pending[FabricAnnouncementExpired] + pending[CommissionModeSent] <= |pending|
  {
    var p := pending[QueuedAnnouncement := 0];
    var q := p[FabricAnnouncementExpired := 0];
    assert |p| == |pending| - pending[QueuedAnnouncement];
    assert |q| == |p| - p[FabricAnnouncementExpired];
    assert |q[CommissionModeSent := 0]| == |q| - q[CommissionModeSent];
  }

  lemma WeightIsNatural(pending: multiset<Task>, over: bool, idle: bool)
    ensures 0 <= Weight(pending, over, idle) <= 6 * |pending|
  {
    CountsFit(pending);
  }

  lemma WeightFalls(pending: multiset<Task>, over: bool, idle: bool, over': bool, idle': bool)
    requires (over' ==> over) && (idle' ==> idle)
    ensures Weight(pending, over', idle') <= Weight(pending, over, idle)
  {
    CountsFit(pending);
  }

  lemma WeightWith(pending: multiset<Task>, task: Task, over: bool, idle: bool)
    ensures Weight(pending + multiset{task}, over, idle) == Weight(pending, over, idle) + TaskWeight(task, over, idle)
  {
  }

  lemma AnnouncedLoad(s: State)
    ensures Load(Announced(s, false)) <= Load(s) + if s.mode.WindowNotOpen? && !DurationReached(s) then 3 else 0
  {
    var t := Announced(s, false);
    WeightFalls(s.pending, DurationReached(s), Idle(s), DurationReached(t), Idle(t));
    WeightWith(s.pending, FabricAnnouncementExpired, DurationReached(s), Idle(s));
  }

  lemma OpenedLoad(s: State, callback: Option<CallbackId>)
    ensures Load(Opened(s, BasicWindowOpen, callback).0) < Load(s) + if DurationReached(s) then 5 else 2
  {
    var t := Opened(s, BasicWindowOpen, callback).0;
    WeightFalls(s.pending, DurationReached(s), Idle(s), DurationReached(t), Idle(t));
    WeightWith(s.pending, CommissionModeSent, DurationReached(t), Idle(t));
  }

  lemma StartedLoad(s: State)
    ensures Load(Started(s)) < Load(s) + if Idle(s) then 4 else 1
  {
    var r := s.(timerRunning := true, startedAt := Some(s.now));
    if !s.closing {
      WeightFalls(s.pending, DurationReached(s), Idle(s), DurationReached(r), Idle(r));
      AnnouncedLoad(r);
    }
  }

  lemma ResumedLoad(s: State, task: Task)
    ensures Load(Resumed(s, task).0) < Load(s) + TaskWeight(task, DurationReached(s), Idle(s))
  {
    match task
    case QueuedAnnouncement => AnnouncedLoad(s);
    case FabricAnnouncementExpired => WeightWith(s.pending, PaseServerDerived(None), DurationReached(s), Idle(s));
    case PaseServerDerived(callback) => OpenedLoad(Derived(s), callback);
    case CommissionModeSent => StartedLoad(s);
  }

  /** Continuing a task makes what is pending lighter, in every state. */
  lemma ContinueIsLighter(s: State, task: Task)
    requires task in s.pending
    ensures Load(Step(s, Continue(task))) < Load(s)
  {
    LoadWithout(s, task);
    ResumedLoad(s.(pending := s.pending - multiset{task}), task);
  }

  lemma LoadWithout(s: State, task: Task)
    requires task in s.pending
    ensures var r := s.(pending := s.pending - multiset{task});
            && Load(r) == Load(s) - TaskWeight(task, DurationReached(s), Idle(s))
            && DurationReached(r) == DurationReached(s) && Idle(r) == Idle(s)
  {
    var rest := s.pending - multiset{task};
    assert s.pending == rest + multiset{task};
    WeightWith(rest, task, DurationReached(s), Idle(s));
  }

  /**
   * A run of continuations alone is at most as long as what was pending is heavy, which is six steps
   * a task, from every state and even where it ends a window: announcing, opening a window and
   * announcing it does not go on for ever.
   */
  lemma {:induction false} ContinuationsEnd(s: State, es: seq<Event>)
    requires IsRun(s, es) && forall i :: 0 <= i < |es| ==> es[i].Continue?
    ensures |es| <= Load(s) <= 6 * |s.pending|
    decreases |es|
  {
    WeightIsNatural(s.pending, DurationReached(s), Idle(s));
    if es == [] {
    } else {
      ContinueIsLighter(s, es[0].task);
      ContinuationsEnd(Step(s, es[0]), es[1..]);
    }
  }

  // ---- Who opens windows ------------------------------------------------------------------

  /** Nothing is pending that leads to a window. */
  ghost predicate NothingOpening(s: State) {
    FabricAnnouncementExpired !in s.pending && forall callback :: PaseServerDerived(callback) !in s.pending
  }

  predicate Asks(e: Event) {
    e.OpenEnhanced? || e.OpenBasic? || e.FabricsChange?
  }

  lemma CommissionedStep(s: State, e: Event)
    requires s.commissioned && s.mode.WindowNotOpen? && NothingOpening(s) && Enabled(s, e) && !Asks(e)
    ensures var t := Step(s, e); t.commissioned && t.mode.WindowNotOpen? && NothingOpening(t)
  {
    match e
    case Continue(task) => assert task.QueuedAnnouncement? || task.CommissionModeSent?;
    case _ =>
  }

  /** A commissioned device opens no window unless it is asked to. */
  lemma {:induction false} CommissionedStaysClosed(s: State, es: seq<Event>)
    requires s.commissioned && s.mode.WindowNotOpen? && NothingOpening(s)
    requires IsRun(s, es) && forall i :: 0 <= i < |es| ==> !Asks(es[i])
    ensures Exec(s, es).mode.WindowNotOpen?
    decreases |es|
  {
    if es == [] {
    } else {
      CommissionedStep(s, es[0]);
      CommissionedStaysClosed(Step(s, es[0]), es[1..]);
    }
  }

  /** A device without fabrics that starts announcing opens a basic window, with no one interfering. */
  lemma UncommissionedOpens(s: State, es: seq<Event>)
    requires Invariant(s) && !s.commissioned && !s.closing && s.mode.WindowNotOpen?
    requires |es| == 3 && es[0] == Start && es[1] == Continue(FabricAnnouncementExpired) && es[2] == Continue(PaseServerDerived(None))
    ensures IsRun(s, es)
    ensures var t := Exec(s, es);
            t.mode.BasicWindowOpen? && t.pase == Some(FromPin(s.derived)) && t.timerRunning && t.startedAt == Some(s.now)
  {
    var s1 := s.(timerRunning := true, startedAt := Some(s.now), pending := s.pending + multiset{FabricAnnouncementExpired});
    StartAsks(s);
    ExpiredDerives(s1);
    DerivedOpens(Step(s1, es[1]));
    RunOfThree(s, es);
  }

  lemma StartAsks(s: State)
    requires !s.commissioned && !s.closing && s.mode.WindowNotOpen?
    ensures Started(s)
         == s.(timerRunning := true, startedAt := Some(s.now), pending := s.pending + multiset{FabricAnnouncementExpired})
  {
  }

  lemma ExpiredDerives(s: State)
    requires FabricAnnouncementExpired in s.pending && !s.mode.EnhancedWindowOpen?
    ensures Step(s, Continue(FabricAnnouncementExpired))
         == s.(pending := s.pending - multiset{FabricAnnouncementExpired} + multiset{PaseServerDerived(None)})
  {
  }

  lemma DerivedOpens(s: State)
    requires PaseServerDerived(None) in s.pending && s.mode.WindowNotOpen? && s.endCallback.None?
    ensures var t := Step(s, Continue(PaseServerDerived(None)));
            t.mode.BasicWindowOpen? && t.pase == Some(FromPin(s.derived)) && t.timerRunning == s.timerRunning && t.startedAt == s.startedAt
  {
  }

  lemma RunOfThree(s: State, es: seq<Event>)
    requires |es| == 3
    ensures var s1 := Step(s, es[0]);
            var s2 := Step(s1, es[1]);
            && (IsRun(s, es) <==> Enabled(s, es[0]) && Enabled(s1, es[1]) && Enabled(s2, es[2]))
            && Exec(s, es) == Step(s2, es[2])
  {
    var s1 := Step(s, es[0]);
    var s2 := Step(s1, es[1]);
    var last := es[1..][1..];
    assert last == [es[2]] && last[1..] == [];
    assert IsRun(s2, last) <==> Enabled(s2, es[2]);
    assert IsRun(s1, es[1..]) <==> Enabled(s1, es[1]) && Enabled(s2, es[2]);
    assert Exec(s1, es[1..]) == Exec(s2, last) == Step(s2, es[2]);
  }
}
