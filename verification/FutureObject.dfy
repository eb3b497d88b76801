/** `ErlFDBFuture` and the four C functions that work on it, statement by statement. Each method
    is one uninterrupted run of its function; the interleavings are those of FutureLifetime,
    whose state the object carries along as `model` and agrees with after every statement. */
module FutureObject {
  import opened FutureLifetime

  class Future {
    var refs: nat
    var cancelled: bool
    var lock: Holder
    var destroyed: nat
    var sent: nat
    ghost var model: State

    ghost predicate Valid()
      reads this
    {
      && Reachable(model)
      && model.refs == refs && model.cancelled == cancelled && model.lock == lock
      && model.destroyed == destroyed && model.sent == sent
    }

    /** `enif_alloc_resource` and the initial assignments. */
    constructor ()
      ensures Valid() && model == Start
    {
      refs, cancelled, lock, destroyed, sent := 1, false, Free, 0, 0;
      model := Start;
      new;
      StartIsReachable();
    }

    /** `enif_release_resource`. */
    method ReleaseResource()
      requires refs > 0
      modifies this`refs, this`destroyed
      ensures refs == old(refs) - 1
      ensures destroyed == old(destroyed) + if refs == 0 then 1 else 0
    {
      refs := refs - 1;
      if refs == 0 {
        destroyed := destroyed + 1;
      }
    }

    ghost method Advance(a: Action)
      requires Reachable(model) && Enabled(model, a)
      modifies this`model
      ensures model == Step(old(model), a) && Reachable(model)
    {
      StepIsReachable(model, a);
      model := Step(model, a);
    }

    /** `erlfdb_future_cb`. The first run of it finds the callback registered and ready. */
    method Callback(ghost on: Thread)
      requires Valid() && Enabled(model, EnterCallback(on)) && lock.Free?
      modifies this
      ensures Valid() && model == CallbackRun(old(model), on)
      ensures sent == old(sent) + if old(cancelled) then 0 else 1
      ensures refs == old(refs) - 1 && lock.Free? && cancelled == old(cancelled)
      ensures destroyed == old(destroyed) + if refs == 0 then 1 else 0
      ensures model.callback.Released? && model.create == old(model.create) && model.term == old(model.term)
      ensures model.calls == old(model.calls)
      ensures model.mailbox == old(model.mailbox) + if old(cancelled) then 0 else 1
    {
      CallbackBodyIs(model, on);
      CallbackLines(on);
      HoldersFindItAlive(model);
      ReleaseResource();
      Advance(CallbackReleases);
    }

    /** The lines of `erlfdb_future_cb` before the release. */
    method CallbackLines(ghost on: Thread)
      requires Valid() && Enabled(model, EnterCallback(on)) && lock.Free?
      modifies this
      ensures Valid() && model == CallbackBody(old(model), on)
    {
      CallbackSteps(model, on);
      Advance(EnterCallback(on));
      lock := ByCallback;
      Advance(CallbackLocks);
      if !cancelled {
        sent := sent + 1;
      }
      Advance(CallbackSends);
      lock := Free;
      Advance(CallbackUnlocks);
    }

    /** The reference counting of `erlfdb_create_future`; `accepted` is what
        `fdb_future_set_callback` answers and `fires` whether it runs the callback at once. */
    method Create(accepted: bool, fires: bool) returns (made: bool)
      requires Valid() && model == Start
      modifies this
      ensures Valid() && made == accepted
      ensures made && fires ==> refs == 1 && sent == 1 && model.callback.Released?
      ensures made && !fires ==> refs == 2 && sent == 0 && model.callback.Registered?
      ensures made ==> model.create.Returned? && model.term && destroyed == 0 && !cancelled
      ensures !made ==> refs == 0 && destroyed == 1 && sent == 0 && Abandoned(model)
    {
      CreateSteps(accepted);
      refs := refs + 1;
      Advance(Keep);
      Advance(SetCallback(accepted));
      if !accepted {
        ReleaseTwice();
        return false;
      }
      if fires {
        FireInCreate();
      }
      HandOver();
      return true;
    }

    /** The callback run by `fdb_future_set_callback`. */
    method FireInCreate()
      requires Valid() && model == Step(Step(Start, Keep), SetCallback(true))
      modifies this
      ensures Valid() && model.create.Setting? && model.callback.Released? && lock.Free?
      ensures refs == 1 && sent == 1 && destroyed == 0 && !cancelled
    {
      CreateSteps(true);
      Advance(BecomeReady);
      Callback(InCreate);
    }

    /** The error path of `erlfdb_create_future`. */
    method ReleaseTwice()
      requires Valid() && model.create.SetFailed? && refs == 2 && destroyed == 0
      requires !model.term && NobodyInside(model) && lock.Free? && model.callback.Unregistered?
      modifies this
      ensures Valid() && refs == 0 && destroyed == 1 && sent == old(sent) && Abandoned(model)
    {
      ReleaseResource();
      Advance(ReleaseAfterError);
      ReleaseResource();
      Advance(ReleaseAfterError);
    }

    /** The end of `erlfdb_create_future`: the term takes over the creator's reference. */
    method HandOver()
      requires Valid() && model.create.Setting? && !RunsInside(model.callback, InCreate)
      requires refs > 0
      modifies this
      ensures Valid() && model.create.Returned? && model.term && model.callback == old(model.callback)
      ensures refs == old(refs) && destroyed == old(destroyed) && sent == old(sent) && cancelled == old(cancelled)
    {
      Advance(BackFromSet);
      refs := refs + 1;
      Advance(MakeTerm);
      ReleaseResource();
      Advance(CreatorReleases);
    }

    /** The part `erlfdb_future_cancel` and `erlfdb_future_silence` share. */
    method SetFlag(caller: nat)
      requires Valid() && CallIs(model, caller, AtLock) && lock.Free?
      modifies this
      ensures Valid() && model == FlagResult(old(model), caller)
      ensures cancelled && lock.Free? && refs == old(refs) && sent == old(sent)
    {
      FlagSteps(model, caller);
      lock := ByCaller(caller);
      Advance(CallLocks(caller));
      cancelled := true;
      Advance(CallSetsFlag(caller));
      lock := Free;
      Advance(CallUnlocks(caller));
    }

    /** `erlfdb_future_silence`. */
    method Silence(caller: nat)
      requires Valid() && CallIs(model, caller, AtLock) && !model.calls[caller].cancels && lock.Free?
      modifies this
      ensures Valid() && model == Step(FlagResult(old(model), caller), EndCall(caller))
      ensures cancelled && refs == old(refs) && sent == old(sent)
    {
      SetFlag(caller);
      Advance(EndCall(caller));
    }

    /** The end of `erlfdb_future_cancel`: `fdb_future_cancel`, which may run the callback. */
    method CallFdb(caller: nat, fires: bool)
      requires Valid() && CallIs(model, caller, LockFreed) && model.calls[caller].cancels
      requires cancelled && lock.Free?
      requires !RunsInside(model.callback, InCancel(caller))
      requires fires ==> model.callback.Registered?
      modifies this
      ensures Valid() && cancelled && sent == old(sent) && lock.Free?
      ensures refs == old(refs) - if fires then 1 else 0
      ensures model.mailbox == old(model.mailbox) && model.calls == old(model.calls) - {caller}
      ensures fires ==> model.callback.Released?
      ensures destroyed == old(destroyed)
    {
      Advance(CallFdbCancel(caller));
      if fires {
        Callback(InCancel(caller));
        HoldersFindItAlive(model);
      }
      assert model.calls - {caller} == old(model.calls) - {caller};
      Advance(EndCall(caller));
    }

    /** `erlfdb_future_cancel`; `fires` is whether `fdb_future_cancel` runs a callback that has
        not been run yet. The callback then finds the flag set and sends nothing. */
    method Cancel(caller: nat, fires: bool)
      requires Valid() && CallIs(model, caller, AtLock) && model.calls[caller].cancels && lock.Free?
      requires fires ==> model.callback.Registered?
      modifies this
      ensures Valid() && cancelled && sent == old(sent) && lock.Free?
      ensures refs == old(refs) - if fires then 1 else 0
      ensures model.mailbox == old(model.mailbox) && model.calls == old(model.calls) - {caller}
      ensures fires ==> model.callback.Released?
      ensures destroyed == old(destroyed)
    {
      NoCallbackInsideYet(model, caller);
      SetFlag(caller);
      CallFdb(caller, fires);
    }
  }

  ghost function FlagResult(s: State, caller: nat): State
    requires caller in s.calls
  {
    s.(calls := s.calls[caller := s.calls[caller].(at := LockFreed)], cancelled := true)
  }

  /** The three steps under the lock, each of which can be taken. */
  lemma {:induction false} FlagSteps(s: State, caller: nat)
    requires CallIs(s, caller, AtLock) && s.lock.Free?
    ensures var s1 := Move(s, caller, HasLock).(lock := ByCaller(caller));
      var s2 := Move(s1, caller, Flagged).(cancelled := true);
      && Enabled(s, CallLocks(caller)) && Step(s, CallLocks(caller)) == s1
      && Enabled(s1, CallSetsFlag(caller)) && Step(s1, CallSetsFlag(caller)) == s2
      && Enabled(s2, CallUnlocks(caller)) && Step(s2, CallUnlocks(caller)) == FlagResult(s, caller)
  {
    var s1 := Move(s, caller, HasLock).(lock := ByCaller(caller));
    var s2 := Move(s1, caller, Flagged).(cancelled := true);
    assert Move(s2, caller, LockFreed).calls == s.calls[caller := s.calls[caller].(at := LockFreed)];
  }

  /** The states `erlfdb_create_future` goes through up to `fdb_future_set_callback`. */
  lemma {:induction false} CreateSteps(accepted: bool)
    ensures var s1 := Start.(refs := 2, create := Kept);
      var s2 := if accepted then s1.(create := Setting, callback := Registered) else s1.(create := SetFailed);
      && Enabled(Start, Keep) && Step(Start, Keep) == s1
      && Enabled(s1, SetCallback(accepted)) && Step(s1, SetCallback(accepted)) == s2
      && (accepted ==> Enabled(s2, BecomeReady) && Step(s2, BecomeReady) == s2.(ready := true) && Enabled(s2.(ready := true), EnterCallback(InCreate)))
  {
  }

  /** Each step of the callback can be taken after the one before. */
  lemma {:induction false} CallbackSteps(s: State, on: Thread)
    requires Enabled(s, EnterCallback(on)) && s.lock.Free?
    ensures var s1 := s.(callback := Entered(on));
      var s2 := s1.(lock := ByCallback, callback := Locked(on));
      var s3 := Step(s2, CallbackSends);
      && Step(s, EnterCallback(on)) == s1 && Enabled(s1, CallbackLocks) && Step(s1, CallbackLocks) == s2
      && Enabled(s2, CallbackSends) && Enabled(s3, CallbackUnlocks)
  {
  }

  ghost function CallbackRun(s: State, on: Thread): State {
    Step(CallbackBody(s, on), CallbackReleases)
  }

  /** The callback up to its last statement. */
  ghost function CallbackBody(s: State, on: Thread): State {
    Step(Step(Step(Step(s, EnterCallback(on)), CallbackLocks), CallbackSends), CallbackUnlocks)
  }

  lemma {:induction false} CallbackBodyIs(s: State, on: Thread)
    requires Enabled(s, EnterCallback(on)) && s.lock.Free?
    ensures var sends := if s.cancelled then 0 else 1;
      CallbackBody(s, on) == s.(callback := Unlocked(on), sent := s.sent + sends, mailbox := s.mailbox + sends,
        staleEnv := s.staleEnv || (!s.cancelled && !on.Network? && !s.create.Setting?))
  {
    var s1 := s.(callback := Entered(on));
    assert Step(s, EnterCallback(on)) == s1;
    var s2 := s1.(lock := ByCallback, callback := Locked(on));
    assert Step(s1, CallbackLocks) == s2;
    var s3 := Step(s2, CallbackSends);
    assert s3.callback == Checked(on);
    assert Step(s3, CallbackUnlocks) == s3.(lock := Free, callback := Unlocked(on));
  }

  /** Whoever has the callback's reference, or the term, finds the object alive. */
  lemma {:induction false} HoldersFindItAlive(s: State)
    requires Reachable(s)
    ensures s.callback.Unlocked? || CreatorHolds(s) || s.term || !NobodyInside(s) ==> s.refs > 0 && s.destroyed == 0
    ensures s.callback.Unlocked? && (CreatorHolds(s) || s.term) ==> s.refs > 1
  {
    ReachableInv(s);
    CountedMeansAlive(s);
  }

  lemma {:induction false} CountedMeansAlive(s: State)
    requires Counted(s) && CallsOk(s)
    ensures s.callback.Unlocked? || CreatorHolds(s) || s.term || !NobodyInside(s) ==> s.refs > 0 && s.destroyed == 0
    ensures s.callback.Unlocked? && (CreatorHolds(s) || s.term) ==> s.refs > 1
  {
  }

  lemma {:induction false} NoCallbackInsideYet(s: State, caller: nat)
    requires Reachable(s) && CallIs(s, caller, AtLock)
    ensures !RunsInside(s.callback, InCancel(caller))
  {
    ReachableInv(s);
    assert ThreadOk(s);
  }
}
