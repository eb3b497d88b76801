/** The future object of the NIF (erlfdb_create_future, erlfdb_future_cb, cancel, silence and
    the destructor), and the mailbox of the process its ready message is addressed to. Every
    action is one atomic step of one thread; threads interleave in any order. */
module FutureLifetime {

  /** Where `erlfdb_create_future` stands, reference count by reference count. */
  datatype Create =
    | Allocated       // one reference, the creator's
    | Kept            // a second one, for the callback
    | Setting         // inside fdb_future_set_callback, the callback registered
    | Set             // back from it
    | Made            // the term exists, with a reference of its own
    | Returned        // the creator's reference released, the NIF over
    | SetFailed       // fdb_future_set_callback reported an error
    | ReleasedOnce
    | Failed

  /** On which thread, inside which call, libfdb_c runs the callback. */
  datatype Thread = Network | InCreate | InCancel(caller: nat)

  datatype Callback =
    | Unregistered
    | Registered
    | Entered(on: Thread)    // caller environment chosen, lock not yet taken
    | Locked(on: Thread)
    | Checked(on: Thread)    // message sent, or left out because of the flag
    | Unlocked(on: Thread)
    | Released

  /** Where a call of `future_cancel` or `future_silence` stands. */
  datatype CallAt = AtLock | HasLock | Flagged | LockFreed | InsideCancel

  datatype Call = Call(cancels: bool, at: CallAt)

  datatype Holder = Free | ByCallback | ByCaller(caller: nat)

  /** What the process the message is addressed to is doing with the future: `wait`, or
      `cancel` with `flush`. Its own NIF calls are made under caller 0. */
  datatype Owner = Idle | Blocked | Cancelling | Silencing | Receiving | Returning | TimedOut

  datatype State = State(
    refs: nat, destroyed: nat, cancelled: bool, lock: Holder,
    create: Create, term: bool, callback: Callback, calls: map<nat, Call>,
    sent: nat, staleEnv: bool,
    ready: bool, owner: Owner, mailbox: nat)

  const Start: State := State(1, 0, false, Free, Allocated, false, Unregistered, map[], 0, false, false, Idle, 0)

  /** `enif_release_resource`: the last reference runs the destructor. */
  function Release(s: State): State {
    if s.refs == 1 then s.(refs := 0, destroyed := s.destroyed + 1)
    else if s.refs > 1 then s.(refs := s.refs - 1)
    else s
  }

  datatype Action =
    // erlfdb_create_future
    | Keep
    | SetCallback(ok: bool)
    | BackFromSet
    | MakeTerm
    | CreatorReleases
    | ReleaseAfterError
    // libfdb_c and erlfdb_future_cb
    | BecomeReady
    | EnterCallback(on: Thread)
    | CallbackLocks
    | CallbackSends
    | CallbackUnlocks
    | CallbackReleases
    // erlfdb_future_cancel and erlfdb_future_silence, by any process that has the term
    | BeginCall(caller: nat, cancels: bool)
    | CallLocks(caller: nat)
    | CallSetsFlag(caller: nat)
    | CallUnlocks(caller: nat)
    | CallFdbCancel(caller: nat)
    | EndCall(caller: nat)
    // garbage collection of the last copy of the term
    | DropTerm
    // erlfdb:wait and erlfdb:cancel with flush
    | Wait
    | CancelAndFlush
    | Flush
    | TakeMessage
    | FlushMailbox
    | GiveUp

  /** The callback is running on the stack of this call. */
  predicate RunsInside(c: Callback, on: Thread) {
    (c.Entered? || c.Locked? || c.Checked? || c.Unlocked?) && c.on == on
  }

  predicate CallIs(s: State, caller: nat, at: CallAt) {
    caller in s.calls && s.calls[caller].at == at
  }

  function Move(s: State, caller: nat, at: CallAt): State
    requires caller in s.calls
  {
    s.(calls := s.calls[caller := s.calls[caller].(at := at)])
  }

  /** When a step can be taken. */
  ghost predicate Enabled(s: State, a: Action) {
    match a
    case Keep => s.create.Allocated?
    case SetCallback(_) => s.create.Kept?
    case BackFromSet => s.create.Setting? && !RunsInside(s.callback, InCreate)
    case MakeTerm => s.create.Set?
    case CreatorReleases => s.create.Made?
    case ReleaseAfterError => s.create.SetFailed? || s.create.ReleasedOnce?
    case BecomeReady => !s.create.Allocated? && !s.create.Kept? && s.destroyed == 0
    case EnterCallback(on) => s.callback.Registered? && s.ready &&
      (match on
       case Network => true
       case InCreate => s.create.Setting?
       case InCancel(c) => CallIs(s, c, InsideCancel))
    case CallbackLocks => s.callback.Entered? && s.lock.Free?
    case CallbackSends => s.callback.Locked?
    case CallbackUnlocks => s.callback.Checked?
    case CallbackReleases => s.callback.Unlocked?
    case BeginCall(c, _) => s.create.Returned? && s.term && c !in s.calls && c != 0
    case CallLocks(c) => CallIs(s, c, AtLock) && s.lock.Free?
    case CallSetsFlag(c) => CallIs(s, c, HasLock)
    case CallUnlocks(c) => CallIs(s, c, Flagged)
    case CallFdbCancel(c) => CallIs(s, c, LockFreed) && s.calls[c].cancels
    case EndCall(c) => c in s.calls &&
      (if s.calls[c].cancels then s.calls[c].at.InsideCancel? && !RunsInside(s.callback, InCancel(c))
       else s.calls[c].at.LockFreed?)
    case DropTerm => s.create.Returned? && s.term && NobodyInside(s) && !Busy(s.owner)
    case Wait => s.create.Returned? && s.term && !Busy(s.owner)
    case CancelAndFlush => s.create.Returned? && s.term && !Busy(s.owner)
    case Flush => s.owner.Cancelling? && 0 !in s.calls
    case TakeMessage => s.owner.Blocked? && s.mailbox > 0
    case FlushMailbox => s.owner.Silencing? && 0 !in s.calls
    case GiveUp => s.owner.Blocked?
  }

  /** No call of `future_cancel` or `future_silence` is under way. */
  ghost predicate NobodyInside(s: State) {
    forall c :: c !in s.calls
  }

  /** The owner is in the middle of an operation that uses the term. */
  predicate Busy(o: Owner) {
    o.Blocked? || o.Cancelling? || o.Silencing?
  }

  /** The effect of a step; a step that cannot be taken changes nothing. */
  ghost function Step(s: State, a: Action): State {
    if !Enabled(s, a) then s
    else match a
      case Keep => s.(refs := s.refs + 1, create := Kept)
      case SetCallback(ok) => if ok then s.(create := Setting, callback := Registered) else s.(create := SetFailed)
      case BackFromSet => s.(create := Set)
      case MakeTerm => s.(refs := s.refs + 1, term := true, create := Made)
      case CreatorReleases => Release(s.(create := Returned))
      case ReleaseAfterError => Release(s.(create := if s.create.SetFailed? then ReleasedOnce else Failed))
      case BecomeReady => s.(ready := true)
      case EnterCallback(on) => s.(callback := Entered(on))
      case CallbackLocks => s.(lock := ByCallback, callback := Locked(s.callback.on))
      case CallbackSends =>
        if s.cancelled then s.(callback := Checked(s.callback.on))
        else s.(callback := Checked(s.callback.on), sent := s.sent + 1, mailbox := s.mailbox + 1,
                staleEnv := s.staleEnv || (!s.callback.on.Network? && !s.create.Setting?))
      case CallbackUnlocks => s.(lock := Free, callback := Unlocked(s.callback.on))
      case CallbackReleases => Release(s.(callback := Released))
      case BeginCall(c, cancels) => s.(calls := s.calls[c := Call(cancels, AtLock)])
      case CallLocks(c) => Move(s, c, HasLock).(lock := ByCaller(c))
      case CallSetsFlag(c) => Move(s, c, Flagged).(cancelled := true)
      case CallUnlocks(c) => Move(s, c, LockFreed).(lock := Free)
      case CallFdbCancel(c) => Move(s, c, InsideCancel).(ready := true)
      case EndCall(c) => s.(calls := s.calls - {c})
      case DropTerm => Release(s.(term := false))
      case Wait => if s.ready then BeginSilence(s) else s.(owner := Blocked)
      case CancelAndFlush => s.(owner := Cancelling, calls := s.calls[0 := Call(true, AtLock)])
      case Flush => BeginSilence(s)
      case TakeMessage => s.(mailbox := s.mailbox - 1, owner := Returning)
      case FlushMailbox => s.(mailbox := if s.mailbox > 0 then s.mailbox - 1 else 0, owner := Returning)
      case GiveUp => s.(owner := TimedOut)
  }

  function BeginSilence(s: State): State {
    s.(owner := Silencing, calls := s.calls[0 := Call(false, AtLock)])
  }

  // ---------------------------------------------------------------- invariant

  function Count(b: bool): nat {
    if b then 1 else 0
  }

  predicate CreatorHolds(s: State) {
    !s.create.Returned? && !s.create.ReleasedOnce? && !s.create.Failed?
  }

  predicate CallbackHolds(s: State) {
    !s.create.Allocated? && !s.create.Failed? && !s.callback.Released?
  }

  /** The number of those who still have a reference. */
  function Holders(s: State): nat {
    Count(CreatorHolds(s)) + Count(CallbackHolds(s)) + Count(s.term)
  }

  predicate Registerable(s: State) {
    s.create.Setting? || s.create.Set? || s.create.Made? || s.create.Returned?
  }

  /** The callback has passed the point where it may send. */
  predicate Spent(c: Callback) {
    c.Checked? || c.Unlocked? || c.Released?
  }

  ghost predicate Counted(s: State) {
    && s.refs == Holders(s)
    && s.destroyed == Count(s.refs == 0)
    && (s.term ==> s.create.Made? || s.create.Returned?)
    && (s.create.Made? ==> s.term)
    && (s.callback.Unregistered? <==> !Registerable(s))
  }

  ghost predicate LockOk(s: State) {
    && (s.lock.ByCallback? <==> s.callback.Locked? || s.callback.Checked?)
    && (s.lock.ByCaller? ==> s.lock.caller in s.calls)
    && forall c :: c in s.calls ==>
         (s.lock == ByCaller(c) <==> s.calls[c].at.HasLock? || s.calls[c].at.Flagged?)
  }

  ghost predicate CallsOk(s: State) {
    && (forall c :: c in s.calls ==> s.term && s.create.Returned?)
    && (Busy(s.owner) ==> s.term && s.create.Returned?)
    && (forall c :: c in s.calls ==>
          && (s.calls[c].at.Flagged? || s.calls[c].at.LockFreed? || s.calls[c].at.InsideCancel? ==> s.cancelled)
          && (s.calls[c].at.InsideCancel? ==> s.calls[c].cancels))
    && (0 in s.calls ==> s.owner.Cancelling? || s.owner.Silencing?)
    && (s.owner.Silencing? ==> (0 in s.calls && !s.calls[0].cancels) || s.cancelled)
  }

  /** A callback on a scheduler thread runs inside the call that triggered it. */
  ghost predicate ThreadOk(s: State) {
    RunsInside(s.callback, OnThread(s.callback)) ==>
      match OnThread(s.callback)
      case Network => true
      case InCreate => s.create.Setting?
      case InCancel(c) => CallIs(s, c, InsideCancel)
  }

  function OnThread(c: Callback): Thread {
    if c.Entered? || c.Locked? || c.Checked? || c.Unlocked? then c.on else Network
  }

  /** No ready message is there and none can be sent any more. */
  predicate Quiet(s: State) {
    s.mailbox == 0 && (s.cancelled || Spent(s.callback))
  }

  ghost predicate MailOk(s: State) {
    && s.mailbox <= s.sent <= 1
    && (s.sent == 1 ==> Spent(s.callback))
    && !s.staleEnv
    && (s.owner.Returning? ==> Quiet(s))
  }

  ghost predicate Inv(s: State) {
    Counted(s) && LockOk(s) && CallsOk(s) && ThreadOk(s) && MailOk(s)
  }

  lemma {:induction false} KeepKeepsInv(s: State)
    requires Inv(s)
    ensures Inv(Step(s, Keep))
  {
  }

  lemma {:induction false} SetCallbackKeepsInv(s: State, ok: bool)
    requires Inv(s)
    ensures Inv(Step(s, SetCallback(ok)))
  {
  }

  lemma {:induction false} BackFromSetKeepsInv(s: State)
    requires Inv(s)
    ensures Inv(Step(s, BackFromSet))
  {
  }

  lemma {:induction false} MakeTermKeepsInv(s: State)
    requires Inv(s)
    ensures Inv(Step(s, MakeTerm))
  {
  }

  lemma {:induction false} CreatorReleasesKeepsInv(s: State)
    requires Inv(s)
    ensures Inv(Step(s, CreatorReleases))
  {
  }

  lemma {:induction false} ReleaseAfterErrorKeepsInv(s: State)
    requires Inv(s)
    ensures Inv(Step(s, ReleaseAfterError))
  {
  }

  lemma {:induction false} BecomeReadyKeepsInv(s: State)
    requires Inv(s)
    ensures Inv(Step(s, BecomeReady))
  {
  }

  lemma {:induction false} EnterCallbackKeepsInv(s: State, on: Thread)
    requires Inv(s)
    ensures Inv(Step(s, EnterCallback(on)))
  {
  }

  lemma {:induction false} CallbackLocksKeepsInv(s: State)
    requires Inv(s)
    ensures Inv(Step(s, CallbackLocks))
  {
  }

  lemma {:induction false} CallbackSendsKeepsInv(s: State)
    requires Inv(s)
    ensures Inv(Step(s, CallbackSends))
  {
  }

  lemma {:induction false} CallbackUnlocksKeepsInv(s: State)
    requires Inv(s)
    ensures Inv(Step(s, CallbackUnlocks))
  {
  }

  lemma {:induction false} CallbackReleasesKeepsInv(s: State)
    requires Inv(s)
    ensures Inv(Step(s, CallbackReleases))
  {
  }

  lemma {:induction false} BeginCallKeepsInv(s: State, c: nat, cancels: bool)
    requires Inv(s)
    ensures Inv(Step(s, BeginCall(c, cancels)))
  {
  }

  lemma {:induction false} CallLocksKeepsInv(s: State, c: nat)
    requires Inv(s)
    ensures Inv(Step(s, CallLocks(c)))
  {
  }

  lemma {:induction false} CallSetsFlagKeepsInv(s: State, c: nat)
    requires Inv(s)
    ensures Inv(Step(s, CallSetsFlag(c)))
  {
  }

  lemma {:induction false} CallUnlocksKeepsInv(s: State, c: nat)
    requires Inv(s)
    ensures Inv(Step(s, CallUnlocks(c)))
  {
  }

  lemma {:induction false} CallFdbCancelKeepsInv(s: State, c: nat)
    requires Inv(s)
    ensures Inv(Step(s, CallFdbCancel(c)))
  {
  }

  lemma {:induction false} EndCallKeepsInv(s: State, c: nat)
    requires Inv(s)
    ensures Inv(Step(s, EndCall(c)))
  {
  }

  lemma {:induction false} DropTermKeepsInv(s: State)
    requires Inv(s)
    ensures Inv(Step(s, DropTerm))
  {
  }

  lemma {:induction false} WaitKeepsInv(s: State)
    requires Inv(s)
    ensures Inv(Step(s, Wait))
  {
  }

  lemma {:induction false} CancelAndFlushKeepsInv(s: State)
    requires Inv(s)
    ensures Inv(Step(s, CancelAndFlush))
  {
  }

  lemma {:induction false} FlushKeepsInv(s: State)
    requires Inv(s)
    ensures Inv(Step(s, Flush))
  {
  }

  lemma {:induction false} TakeMessageKeepsInv(s: State)
    requires Inv(s)
    ensures Inv(Step(s, TakeMessage))
  {
  }

  lemma {:induction false} FlushMailboxKeepsInv(s: State)
    requires Inv(s)
    ensures Inv(Step(s, FlushMailbox))
  {
  }

  lemma {:induction false} GiveUpKeepsInv(s: State)
    requires Inv(s)
    ensures Inv(Step(s, GiveUp))
  {
  }

  /** Every step of every thread keeps the invariant. */
  lemma {:induction false} StepKeepsInv(s: State, a: Action)
    requires Inv(s)
    ensures Inv(Step(s, a))
  {
    match a
    case Keep => KeepKeepsInv(s);
    case SetCallback(ok) => SetCallbackKeepsInv(s, ok);
    case BackFromSet => BackFromSetKeepsInv(s);
    case MakeTerm => MakeTermKeepsInv(s);
    case CreatorReleases => CreatorReleasesKeepsInv(s);
    case ReleaseAfterError => ReleaseAfterErrorKeepsInv(s);
    case BecomeReady => BecomeReadyKeepsInv(s);
    case EnterCallback(on) => EnterCallbackKeepsInv(s, on);
    case CallbackLocks => CallbackLocksKeepsInv(s);
    case CallbackSends => CallbackSendsKeepsInv(s);
    case CallbackUnlocks => CallbackUnlocksKeepsInv(s);
    case CallbackReleases => CallbackReleasesKeepsInv(s);
    case BeginCall(c, cancels) => BeginCallKeepsInv(s, c, cancels);
    case CallLocks(c) => CallLocksKeepsInv(s, c);
    case CallSetsFlag(c) => CallSetsFlagKeepsInv(s, c);
    case CallUnlocks(c) => CallUnlocksKeepsInv(s, c);
    case CallFdbCancel(c) => CallFdbCancelKeepsInv(s, c);
    case EndCall(c) => EndCallKeepsInv(s, c);
    case DropTerm => DropTermKeepsInv(s);
    case Wait => WaitKeepsInv(s);
    case CancelAndFlush => CancelAndFlushKeepsInv(s);
    case Flush => FlushKeepsInv(s);
    case TakeMessage => TakeMessageKeepsInv(s);
    case FlushMailbox => FlushMailboxKeepsInv(s);
    case GiveUp => GiveUpKeepsInv(s);
  }

  lemma {:induction false} StartInv()
    ensures Inv(Start)
  {
    StartCounted();
    StartLock();
    StartCalls();
    StartMail();
  }

  lemma {:induction false} StartCounted()
    ensures Counted(Start)
  {
    assert CreatorHolds(Start) && !CallbackHolds(Start) && !Start.term;
    assert Holders(Start) == 1;
  }

  lemma {:induction false} StartLock()
    ensures LockOk(Start)
  {
  }

  lemma {:induction false} StartCalls()
    ensures CallsOk(Start)
  {
  }

  lemma {:induction false} StartMail()
    ensures MailOk(Start) && ThreadOk(Start)
  {
  }

  // ---------------------------------------------------------------- over every run

  /** A run from any state, one step after the other. */
  ghost function Run(s: State, actions: seq<Action>): State
    decreases |actions|
  {
    if actions == [] then s else Run(Step(s, actions[0]), actions[1..])
  }

  lemma {:induction false} RunKeepsInv(s: State, actions: seq<Action>)
    requires Inv(s)
    ensures Inv(Run(s, actions))
    decreases |actions|
  {
    if actions != [] {
      StepKeepsInv(s, actions[0]);
      RunKeepsInv(Step(s, actions[0]), actions[1..]);
    }
  }

  lemma {:induction false} RunOneMore(s: State, actions: seq<Action>, a: Action)
    ensures Run(s, actions + [a]) == Step(Run(s, actions), a)
    decreases |actions|
  {
    if actions == [] {
      assert [a][1..] == [] && [] + [a] == [a];
    } else {
      assert (actions + [a])[0] == actions[0] && (actions + [a])[1..] == actions[1..] + [a];
      RunOneMore(Step(s, actions[0]), actions[1..], a);
    }
  }

  /** Some interleaving leads here. */
  ghost predicate Reachable(s: State) {
    exists actions :: Run(Start, actions) == s
  }

  lemma {:induction false} ReachableInv(s: State)
    requires Reachable(s)
    ensures Inv(s)
  {
    StartInv();
    var actions :| Run(Start, actions) == s;
    RunKeepsInv(Start, actions);
  }

  lemma {:induction false} StepIsReachable(s: State, a: Action)
    requires Reachable(s)
    ensures Reachable(Step(s, a))
  {
    var actions :| Run(Start, actions) == s;
    RunOneMore(Start, actions, a);
  }

  lemma {:induction false} StartIsReachable()
    ensures Reachable(Start)
  {
    assert Run(Start, []) == Start;
  }

  /** Nobody is left who could still use the object: the creating call is over, the callback
      has run to its end or was never registered, and no call is inside. */
  ghost predicate Abandoned(s: State) {
    && !s.term && NobodyInside(s) && s.lock.Free?
    && ((s.create.Returned? && s.callback.Released?) || (s.create.Failed? && s.callback.Unregistered?))
  }

  /** The reference count is the number of holders; the destructor runs once, when nobody is
      left, and exactly then. */
  lemma {:induction false} DestroyedExactlyWhenAbandoned(s: State)
    requires Reachable(s)
    ensures s.refs == Holders(s)
    ensures s.destroyed <= 1
    ensures s.destroyed == 1 <==> Abandoned(s)
  {
    ReachableInv(s);
    CountedMeansAbandoned(s);
  }

  lemma {:induction false} CountedMeansAbandoned(s: State)
    requires Counted(s) && LockOk(s) && CallsOk(s)
    ensures s.destroyed <= 1 && (s.destroyed == 1 <==> Abandoned(s))
  {
  }

  /** After the destructor has run nothing can happen any more: no lock is taken, no reference is
      released, no message is sent. */
  lemma {:induction false} NoUseAfterDestruction(s: State, a: Action)
    requires Reachable(s) && s.destroyed == 1
    ensures !Enabled(s, a)
  {
    ReachableInv(s);
    CountedMeansAbandoned(s);
    AbandonedIsOver(s, a);
  }

  lemma {:induction false} AbandonedIsOver(s: State, a: Action)
    requires Abandoned(s) && CallsOk(s) && s.destroyed == 1
    ensures !Enabled(s, a)
  {
  }

  /** At most one ready message is sent, and the creating environment is handed to `enif_send`
      only while the creating call is still running. */
  lemma {:induction false} OneMessageFromAValidEnvironment(s: State)
    requires Reachable(s)
    ensures s.sent <= 1 && !s.staleEnv
  {
    ReachableInv(s);
  }

  lemma {:induction false} StepKeepsQuiet(s: State, a: Action)
    requires Inv(s) && Quiet(s)
    ensures Quiet(Step(s, a))
  {
  }

  lemma {:induction false} RunKeepsQuiet(s: State, actions: seq<Action>)
    requires Inv(s) && Quiet(s)
    ensures Quiet(Run(s, actions))
    decreases |actions|
  {
    if actions != [] {
      StepKeepsInv(s, actions[0]);
      StepKeepsQuiet(s, actions[0]);
      RunKeepsQuiet(Step(s, actions[0]), actions[1..]);
    }
  }

  /** Once `wait`, or `cancel` with `flush`, has returned, the ready message is not in the
      mailbox and never arrives, whatever happens later. */
  lemma {:induction false} NoStrayMessage(s: State, later: seq<Action>)
    requires Reachable(s) && s.owner.Returning?
    ensures s.mailbox == 0 && Run(s, later).mailbox == 0
  {
    ReachableInv(s);
    RunKeepsQuiet(s, later);
  }

  lemma {:induction false} Take(s: State, a: Action) returns (t: State)
    requires Reachable(s)
    ensures Reachable(t) && t == Step(s, a)
  {
    StepIsReachable(s, a);
    t := Step(s, a);
  }

  /** A `wait` that timed out gives no such promise: here its message arrives after all. */
  lemma {:induction false} TimedOutWaitMayLeaveAMessage() returns (s: State)
    ensures Reachable(s) && s.owner.TimedOut? && s.mailbox == 1
  {
    s := TimedOutWait();
    s := Take(s, BecomeReady);
    s := Take(s, EnterCallback(Network));
    assert s == Waited.(ready := true, callback := Entered(Network));
    s := Take(s, CallbackLocks);
    s := Take(s, CallbackSends);
  }

  const Waited: State :=
    State(2, 0, false, Free, Returned, true, Registered, map[], 0, false, false, TimedOut, 0)

  lemma {:induction false} TimedOutWait() returns (s: State)
    ensures Reachable(s) && s == Waited
  {
    StartIsReachable();
    s := Take(Start, Keep);
    s := Take(s, SetCallback(true));
    assert s == Start.(refs := 2, create := Setting, callback := Registered);
    s := Take(s, BackFromSet);
    s := Take(s, MakeTerm);
    assert s == Start.(refs := 3, create := Made, callback := Registered, term := true);
    s := Take(s, CreatorReleases);
    s := Take(s, Wait);
    assert s == Waited.(owner := Blocked);
    s := Take(s, GiveUp);
  }

  /** The next step of the holder of the lock. */
  function HolderStep(s: State): Action
    requires !s.lock.Free?
  {
    match s.lock
    case ByCallback => if s.callback.Locked? then CallbackSends else CallbackUnlocks
    case ByCaller(c) => if CallIs(s, c, HasLock) then CallSetsFlag(c) else CallUnlocks(c)
  }

  /** The number of steps for which the lock will stay held. */
  function HeldFor(s: State): nat {
    match s.lock
    case Free => 0
    case ByCallback => if s.callback.Locked? then 2 else 1
    case ByCaller(c) => if CallIs(s, c, HasLock) then 2 else 1
  }

  /** The holder of the lock never waits for anyone: its next step can always be taken, and at
      most two of them free the lock. */
  lemma {:induction false} LockIsAlwaysLetGo(s: State)
    requires Reachable(s) && !s.lock.Free?
    ensures Enabled(s, HolderStep(s))
    ensures HeldFor(Step(s, HolderStep(s))) == HeldFor(s) - 1
  {
    ReachableInv(s);
    HolderCanMove(s);
  }

  lemma {:induction false} HolderCanMove(s: State)
    requires LockOk(s) && !s.lock.Free?
    ensures Enabled(s, HolderStep(s))
    ensures HeldFor(Step(s, HolderStep(s))) == HeldFor(s) - 1
  {
  }

  /** A callback that runs inside `fdb_future_cancel` does not find the lock held by the
      cancelling call underneath it, and it finds the flag set. */
  lemma {:induction false} CallbackInsideCancelFindsNoOwnLock(s: State, c: nat)
    requires Reachable(s) && RunsInside(s.callback, InCancel(c))
    ensures s.lock != ByCaller(c) && s.cancelled
  {
    ReachableInv(s);
  }
}
