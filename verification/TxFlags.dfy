/** The flags a transaction resource keeps beside its libfdb_c transaction, the NIF calls that
    change them, and `do_transaction`, which skips the commit on their word. */
module TxFlags {
  import opened ByteStrings

  /** What libfdb_c holds back until the commit. */
  datatype Op =
    | Set(key: Bytes, value: Bytes)
    | Clear(key: Bytes)
    | ClearRange(begin: Bytes, end: Bytes)
    | Atomic(key: Bytes, param: Bytes, mutation: string)
    | WriteConflict(begin: Bytes, end: Bytes)

  const Mutations: set<string> := {"add", "bit_and", "bit_or", "bit_xor", "append_if_fits", "max", "min",
    "byte_min", "byte_max", "set_versionstamped_key", "set_versionstamped_value"}

  /** The calls; `refused` and `recovers` are the answers of libfdb_c. */
  datatype Call =
    | CallSet(key: Bytes, value: Bytes)
    | CallClear(key: Bytes)
    | CallClearRange(begin: Bytes, end: Bytes)
    | CallAtomic(key: Bytes, param: Bytes, mutation: string)
    | CallConflict(begin: Bytes, end: Bytes, kind: string, refused: bool)
    | CallWatch(key: Bytes)
    | CallAllowWrites
    | CallDisallowWrites
    | CallReset
    | CallOnError(recovers: bool)
    | CallNextId

  datatype Reply = Done | Badarg | WritesNotAllowed | FdbError | Id(id: nat)

  datatype Tx = Tx(txid: nat, readOnly: bool, writesAllowed: bool, hasWatches: bool,
                   pending: seq<Op>, watches: seq<Bytes>)

  const Fresh: Tx := Tx(0, true, true, false, [], [])

  const MaxId: nat := 65535

  // ---------------------------------------------------------------- the resource

  class Transaction {
    var txid: nat
    var readOnly: bool
    var writesAllowed: bool
    var hasWatches: bool
    var pending: seq<Op>         // inside libfdb_c
    var watches: seq<Bytes>      // inside libfdb_c

    function Value(): Tx
      reads this
    {
      Tx(txid, readOnly, writesAllowed, hasWatches, pending, watches)
    }

    constructor ()
      ensures Value() == Fresh
    {
      txid, readOnly, writesAllowed, hasWatches := 0, true, true, false;
      pending, watches := [], [];
    }

    /** set, clear, clear_range and atomic_op: the same four lines around another libfdb_c call. */
    method Mutate(op: Op) returns (reply: Reply)
      requires !op.WriteConflict?
      modifies this
      ensures Value() == After(old(Value()), Asks(op)) && reply == ReplyTo(old(Value()), Asks(op))
      ensures reply == if !old(writesAllowed) then WritesNotAllowed
                       else if op.Atomic? && op.mutation !in Mutations then Badarg else Done
      ensures pending == old(pending) + (if reply == Done then [op] else []) && (readOnly <==> old(readOnly) && reply != Done)
    {
      if !writesAllowed {
        return WritesNotAllowed;
      }
      if op.Atomic? && op.mutation !in Mutations {
        return Badarg;
      }
      pending := pending + [op];
      readOnly := false;
      return Done;
    }

    method AddConflictRange(begin: Bytes, end: Bytes, kind: string, refused: bool) returns (reply: Reply)
      modifies this
      ensures var call := CallConflict(begin, end, kind, refused);
        Value() == After(old(Value()), call) && reply == ReplyTo(old(Value()), call)
      ensures reply == if kind != "read" && kind != "write" then Badarg
                       else if kind == "write" && !old(writesAllowed) then WritesNotAllowed
                       else if refused then FdbError else Done
      ensures pending == old(pending) + if reply == Done && kind == "write" then [WriteConflict(begin, end)] else []
    {
      var write := false;
      if kind == "read" {
      } else if kind == "write" {
        if !writesAllowed {
          return WritesNotAllowed;
        }
        write := true;
      } else {
        return Badarg;
      }
      if refused {
        return FdbError;
      }
      if write {
        pending := pending + [WriteConflict(begin, end)];
        readOnly := false;
      }
      return Done;
    }

    method Watch(key: Bytes) returns (reply: Reply)
      modifies this
      ensures Value() == After(old(Value()), CallWatch(key)) && reply == ReplyTo(old(Value()), CallWatch(key))
      ensures reply == if old(writesAllowed) then Done else WritesNotAllowed
      ensures watches == old(watches) + if reply == Done then [key] else []
    {
      if !writesAllowed {
        return WritesNotAllowed;
      }
      watches := watches + [key];
      hasWatches := true;
      return Done;
    }

    method SetWriteOption(allow: bool) returns (reply: Reply)
      modifies this
      ensures var call := if allow then CallAllowWrites else CallDisallowWrites;
        Value() == After(old(Value()), call) && reply == ReplyTo(old(Value()), call)
      ensures reply == if allow || old(readOnly) then Done else Badarg
      ensures reply == Done ==> writesAllowed == allow
      ensures reply != Done ==> Value() == old(Value())
    {
      if allow {
        writesAllowed := true;
        return Done;
      }
      if !readOnly {
        return Badarg;
      }
      writesAllowed := false;
      return Done;
    }

    method Reset()
      modifies this
      ensures Value() == After(old(Value()), CallReset) && Value() == Fresh.(writesAllowed := old(writesAllowed))
    {
      pending, watches := [], [];
      txid := 0;
      readOnly := true;
      hasWatches := false;
    }

    /** The flags are left as they are. */
    method OnError(recovers: bool) returns (reply: Reply)
      modifies this
      ensures Value() == After(old(Value()), CallOnError(recovers))
      ensures reply == ReplyTo(old(Value()), CallOnError(recovers))
      ensures Value() == if reply == Done then old(Value()).(pending := [], watches := []) else old(Value())
    {
      if recovers {
        pending, watches := [], [];
        return Done;
      }
      return FdbError;
    }

    method GetNextId() returns (reply: Reply)
      modifies this
      ensures Value() == After(old(Value()), CallNextId) && reply == ReplyTo(old(Value()), CallNextId)
      ensures reply == (if old(txid) <= 65535 then Id(old(txid)) else Badarg) && txid == old(txid) + if reply.Id? then 1 else 0
    {
      if txid > MaxId {
        return Badarg;
      }
      reply := Id(txid);
      txid := txid + 1;
    }

    method Do(call: Call) returns (reply: Reply)
      modifies this
      ensures Value() == After(old(Value()), call) && reply == ReplyTo(old(Value()), call)
    {
      match call
      case CallSet(k, v) => reply := Mutate(Set(k, v));
      case CallClear(k) => reply := Mutate(Clear(k));
      case CallClearRange(b, e) => reply := Mutate(ClearRange(b, e));
      case CallAtomic(k, p, m) => reply := Mutate(Atomic(k, p, m));
      case CallConflict(b, e, kind, refused) => reply := AddConflictRange(b, e, kind, refused);
      case CallWatch(k) => reply := Watch(k);
      case CallAllowWrites => reply := SetWriteOption(true);
      case CallDisallowWrites => reply := SetWriteOption(false);
      case CallReset => Reset(); reply := Done;
      case CallOnError(r) => reply := OnError(r);
      case CallNextId => reply := GetNextId();
    }

    /** The user's function: the calls it makes until it returns or raises. */
    method DoAll(calls: seq<Call>)
      modifies this
      ensures Value() == AfterAll(old(Value()), calls)
    {
      for i := 0 to |calls|
        invariant Value() == AfterAll(old(Value()), calls[..i])
      {
        AfterOneMore(old(Value()), calls, i);
        var _ := Do(calls[i]);
      }
      assert calls[..|calls|] == calls;
    }

    /** `do_transaction`, with what its attempts do and how they end given. */
    method DoTransaction(attempts: seq<Attempt>) returns (outcome: Outcome)
      modifies this
      ensures outcome == Transact(old(Value()), attempts)
      decreases |attempts|
    {
      if attempts == [] {
        return Unfinished;
      }
      DoAll(attempts[0].calls);
      if attempts[0].ending.Raises? {
        return Raised;
      }
      if attempts[0].ending.Finishes? {
        if readOnly && !hasWatches {
          return Returned(0, [], []);
        }
        if !attempts[0].ending.commitFails {
          return Returned(0, pending, watches);
        }
      }
      var reply := OnError(attempts[0].recovers);
      if reply == FdbError {
        return Raised;
      }
      outcome := DoTransaction(attempts[1..]);
      outcome := Later(outcome);
    }
  }

  // ---------------------------------------------------------------- values

  function Asks(op: Op): Call
    requires !op.WriteConflict?
  {
    match op
    case Set(k, v) => CallSet(k, v)
    case Clear(k) => CallClear(k)
    case ClearRange(b, e) => CallClearRange(b, e)
    case Atomic(k, p, m) => CallAtomic(k, p, m)
  }

  /** The operation a call hands to libfdb_c, if the transaction may write. */
  function OpOf(c: Call): seq<Op> {
    match c
    case CallSet(k, v) => [Set(k, v)]
    case CallClear(k) => [Clear(k)]
    case CallClearRange(b, e) => [ClearRange(b, e)]
    case CallAtomic(k, p, m) => if m in Mutations then [Atomic(k, p, m)] else []
    case CallConflict(b, e, kind, refused) => if kind == "write" && !refused then [WriteConflict(b, e)] else []
    case _ => []
  }

  predicate NeedsWrites(c: Call) {
    c.CallSet? || c.CallClear? || c.CallClearRange? || c.CallAtomic? || c.CallWatch? ||
    (c.CallConflict? && c.kind == "write")
  }

  function ReplyTo(t: Tx, c: Call): Reply {
    if NeedsWrites(c) && !t.writesAllowed then WritesNotAllowed
    else if c.CallAtomic? && c.mutation !in Mutations then Badarg
    else if c.CallConflict? && c.kind != "read" && c.kind != "write" then Badarg
    else if c.CallConflict? && c.refused then FdbError
    else if c.CallDisallowWrites? && !t.readOnly then Badarg
    else if c.CallOnError? && !c.recovers then FdbError
    else if c.CallNextId? then (if t.txid > MaxId then Badarg else Id(t.txid))
    else Done
  }

  function After(t: Tx, c: Call): Tx {
    var reply := ReplyTo(t, c);
    if !reply.Done? && !reply.Id? then t
    else if OpOf(c) != [] then t.(pending := t.pending + OpOf(c), readOnly := false)
    else match c
      case CallWatch(k) => t.(watches := t.watches + [k], hasWatches := true)
      case CallAllowWrites => t.(writesAllowed := true)
      case CallDisallowWrites => t.(writesAllowed := false)
      case CallReset => Tx(0, true, t.writesAllowed, false, [], [])
      case CallOnError(_) => t.(pending := [], watches := [])
      case CallNextId => t.(txid := t.txid + 1)
      case _ => t
  }

  function AfterAll(t: Tx, calls: seq<Call>): Tx {
    if calls == [] then t else After(AfterAll(t, calls[..|calls| - 1]), calls[|calls| - 1])
  }

  lemma {:induction false} AfterOneMore(t: Tx, calls: seq<Call>, i: nat)
    requires i < |calls|
    ensures AfterAll(t, calls[..i + 1]) == After(AfterAll(t, calls[..i]), calls[i])
  {
    assert calls[..i + 1][..i] == calls[..i];
  }

  // ---------------------------------------------------------------- what the flags say

  /** The call that hands this operation to libfdb_c. */
  predicate Hands(c: Call, op: Op) {
    match op
    case Set(k, v) => c == CallSet(k, v)
    case Clear(k) => c == CallClear(k)
    case ClearRange(b, e) => c == CallClearRange(b, e)
    case Atomic(k, p, m) => c == CallAtomic(k, p, m) && m in Mutations
    case WriteConflict(b, e) => c == CallConflict(b, e, "write", false)
  }

  ghost predicate AsksToWrite(c: Call) {
    exists op :: Hands(c, op)
  }

  /** Whether writes are allowed after a history: `disallow_writes` counts only where nothing was
      written since the last reset. */
  ghost predicate Permitted(h: seq<Call>) {
    if h == [] || h[|h| - 1].CallAllowWrites? then true
    else
      var before := h[..|h| - 1];
      Permitted(before) && (h[|h| - 1].CallDisallowWrites? ==> HasWritten(before))
  }

  /** Whether a write was accepted since the last reset. */
  ghost predicate HasWritten(h: seq<Call>) {
    h != [] && !h[|h| - 1].CallReset? &&
    (HasWritten(h[..|h| - 1]) || (AsksToWrite(h[|h| - 1]) && Permitted(h[..|h| - 1])))
  }

  /** Call `i` of the history handed an operation to libfdb_c. */
  ghost predicate Wrote(h: seq<Call>, i: nat)
    requires i < |h|
  {
    AsksToWrite(h[i]) && Permitted(h[..i])
  }

  ghost predicate Watched(h: seq<Call>, i: nat)
    requires i < |h|
  {
    h[i].CallWatch? && Permitted(h[..i])
  }

  /** Where, from some point on, the accepted writes of a history are, and the accepted watches. */
  ghost function WrittenAt(h: seq<Call>, from: nat): (at: seq<nat>)
    ensures forall k :: 0 <= k < |at| ==> from <= at[k] < |h|
  {
    if |h| <= from then []
    else
      var i := |h| - 1;
      WrittenAt(h[..i], from) + if Wrote(h, i) then [i] else []
  }

  ghost function WatchedAt(h: seq<Call>, from: nat): (at: seq<nat>)
    ensures forall k :: 0 <= k < |at| ==> from <= at[k] < |h|
  {
    if |h| <= from then []
    else
      var i := |h| - 1;
      WatchedAt(h[..i], from) + if Watched(h, i) then [i] else []
  }

  /** The part of the history after the last reset starts here. */
  function SinceReset(h: seq<Call>): (r: nat)
    ensures r <= |h|
  {
    if h == [] then 0 else if h[|h| - 1].CallReset? then |h| else SinceReset(h[..|h| - 1])
  }

  /** The part after the last reset or successful `on_error`. */
  function SinceEmptied(h: seq<Call>): (r: nat)
    ensures SinceReset(h) <= r <= |h|
  {
    if h == [] then 0
    else if h[|h| - 1].CallReset? || h[|h| - 1] == CallOnError(true) then |h|
    else SinceEmptied(h[..|h| - 1])
  }

  ghost predicate WroteSince(h: seq<Call>, from: nat) {
    exists i :: from <= i < |h| && Wrote(h, i)
  }

  ghost predicate WatchedSince(h: seq<Call>, from: nat) {
    exists i :: from <= i < |h| && Watched(h, i)
  }

  lemma {:induction false} SinceOneMore(h: seq<Call>, from: nat)
    requires h != [] && from < |h|
    ensures WroteSince(h, from) <==> WroteSince(h[..|h| - 1], from) || Wrote(h, |h| - 1)
    ensures WatchedSince(h, from) <==> WatchedSince(h[..|h| - 1], from) || Watched(h, |h| - 1)
  {
    var p := h[..|h| - 1];
    forall i | 0 <= i < |p|
      ensures Wrote(h, i) == Wrote(p, i) && Watched(h, i) == Watched(p, i)
    {
      assert h[..i] == p[..i];
    }
    assert forall i :: 0 <= i < |p| && Wrote(p, i) ==> Wrote(h, i);
    assert forall i :: 0 <= i < |p| && Watched(p, i) ==> Watched(h, i);
  }

  lemma {:induction false} WritesAre(c: Call)
    ensures AsksToWrite(c) <==> OpOf(c) != []
    ensures OpOf(c) != [] ==> |OpOf(c)| == 1 && Hands(c, OpOf(c)[0]) && NeedsWrites(c)
  {
    if OpOf(c) != [] {
      assert Hands(c, OpOf(c)[0]);
    }
  }

  lemma {:induction false} StateTellsTheHistory(h: seq<Call>)
    ensures var t := AfterAll(Fresh, h);
      (t.writesAllowed <==> Permitted(h)) && (t.readOnly <==> !HasWritten(h)) && (!t.writesAllowed ==> t.readOnly)
  {
    if h != [] {
      var p, c := h[..|h| - 1], h[|h| - 1];
      StateTellsTheHistory(p);
      WritesAre(c);
      StepOfTheFlags(AfterAll(Fresh, p), c);
    }
  }

  lemma {:induction false} WrittenSinceReset(h: seq<Call>)
    ensures HasWritten(h) <==> WroteSince(h, SinceReset(h))
  {
    if h != [] && !h[|h| - 1].CallReset? {
      WrittenSinceReset(h[..|h| - 1]);
      SinceOneMore(h, SinceReset(h));
    }
  }

  /** The flags, read off the history: `read_only` is false exactly when a write was accepted
      since the last reset, `has_watches` true exactly when a watch was; a retry through
      `on_error` empties the transaction but is no reset. Writes are allowed unless they were
      disallowed, with nothing written since the last reset, and not allowed again. */
  lemma {:induction false} FlagsTellTheHistory(h: seq<Call>)
    ensures var t := AfterAll(Fresh, h);
      && (t.readOnly <==> !WroteSince(h, SinceReset(h)))
      && (t.hasWatches <==> WatchedSince(h, SinceReset(h)))
      && (t.pending == [] <==> !WroteSince(h, SinceEmptied(h)))
      && (t.watches == [] <==> !WatchedSince(h, SinceEmptied(h)))
      && (t.writesAllowed <==> Permitted(h)) && (!t.writesAllowed ==> t.readOnly)
  {
    if h != [] {
      var p, c := h[..|h| - 1], h[|h| - 1];
      FlagsTellTheHistory(p);
      StateTellsTheHistory(p);
      StateTellsTheHistory(h);
      WritesAre(c);
      StepOfTheFlags(AfterAll(Fresh, p), c);
      if SinceReset(h) < |h| {
        SinceOneMore(h, SinceReset(h));
      }
      if SinceEmptied(h) < |h| {
        SinceOneMore(h, SinceEmptied(h));
      }
    }
  }

  /** The operations are what the accepted writes from one call on asked for, in the order of the calls,
      and the keys are those of the accepted watches. */
  ghost predicate Tells(h: seq<Call>, from: nat, ops: seq<Op>, keys: seq<Bytes>) {
    HandedAt(h, WrittenAt(h, from), ops) && SetAt(h, WatchedAt(h, from), keys)
  }

  ghost predicate HandedAt(h: seq<Call>, at: seq<nat>, ops: seq<Op>) {
    |ops| == |at| && forall k :: 0 <= k < |at| ==> at[k] < |h| && Hands(h[at[k]], ops[k])
  }

  ghost predicate SetAt(h: seq<Call>, at: seq<nat>, keys: seq<Bytes>) {
    |keys| == |at| && forall k :: 0 <= k < |at| ==> at[k] < |h| && h[at[k]] == CallWatch(keys[k])
  }

  /** What is pending is what the accepted writes since the transaction was last emptied asked for,
      in the order of the calls, and the same of the watches. */
  lemma {:induction false} PendingTellsTheHistory(h: seq<Call>)
    ensures Tells(h, SinceEmptied(h), AfterAll(Fresh, h).pending, AfterAll(Fresh, h).watches)
  {
    if h != [] {
      var p, c := h[..|h| - 1], h[|h| - 1];
      PendingTellsTheHistory(p);
      StateTellsTheHistory(p);
      if SinceEmptied(h) < |h| {
        TellsOneMore(h, p, c, SinceEmptied(h), AfterAll(Fresh, p));
      }
    }
  }

  lemma {:induction false} TellsOneMore(h: seq<Call>, p: seq<Call>, c: Call, from: nat, t: Tx)
    requires h != [] && p == h[..|h| - 1] && c == h[|h| - 1] && from < |h| && !c.CallReset? && c != CallOnError(true)
    requires Tells(p, from, t.pending, t.watches) && (t.writesAllowed <==> Permitted(p))
    ensures Tells(h, from, After(t, c).pending, After(t, c).watches)
  {
    WritesOneMore(h, p, c, from, t);
    WatchesOneMore(h, p, c, from, t);
  }

  lemma {:induction false} WritesOneMore(h: seq<Call>, p: seq<Call>, c: Call, from: nat, t: Tx)
    requires h != [] && p == h[..|h| - 1] && c == h[|h| - 1] && from < |h| && !c.CallReset? && c != CallOnError(true)
    requires HandedAt(p, WrittenAt(p, from), t.pending) && (t.writesAllowed <==> Permitted(p))
    ensures HandedAt(h, WrittenAt(h, from), After(t, c).pending)
  {
    WritesAre(c);
    CallAdds(t, c);
    HandedStill(h, p, WrittenAt(p, from), t.pending);
    if Wrote(h, |p|) {
      HandedMore(h, WrittenAt(p, from), t.pending, |p|, OpOf(c)[0]);
    }
  }

  /** What one call adds. */
  lemma {:induction false} CallAdds(t: Tx, c: Call)
    requires !c.CallReset? && c != CallOnError(true)
    ensures After(t, c).pending == if OpOf(c) != [] && t.writesAllowed then t.pending + [OpOf(c)[0]] else t.pending
    ensures After(t, c).watches == if c.CallWatch? && t.writesAllowed then t.watches + [c.key] else t.watches
  {
  }

  lemma {:induction false} WatchesOneMore(h: seq<Call>, p: seq<Call>, c: Call, from: nat, t: Tx)
    requires h != [] && p == h[..|h| - 1] && c == h[|h| - 1] && from < |h| && !c.CallReset? && c != CallOnError(true)
    requires SetAt(p, WatchedAt(p, from), t.watches) && (t.writesAllowed <==> Permitted(p))
    ensures SetAt(h, WatchedAt(h, from), After(t, c).watches)
  {
    CallAdds(t, c);
    SetStill(h, p, WatchedAt(p, from), t.watches);
    if Watched(h, |p|) {
      SetMore(h, WatchedAt(p, from), t.watches, |p|, c.key);
    }
  }

  lemma {:induction false} HandedStill(h: seq<Call>, p: seq<Call>, at: seq<nat>, ops: seq<Op>)
    requires p <= h && HandedAt(p, at, ops)
    ensures HandedAt(h, at, ops)
  {
  }

  lemma {:induction false} HandedMore(h: seq<Call>, at: seq<nat>, ops: seq<Op>, i: nat, op: Op)
    requires i < |h| && HandedAt(h, at, ops) && Hands(h[i], op)
    ensures HandedAt(h, at + [i], ops + [op])
  {
  }

  lemma {:induction false} SetStill(h: seq<Call>, p: seq<Call>, at: seq<nat>, keys: seq<Bytes>)
    requires p <= h && SetAt(p, at, keys)
    ensures SetAt(h, at, keys)
  {
  }

  lemma {:induction false} SetMore(h: seq<Call>, at: seq<nat>, keys: seq<Bytes>, i: nat, key: Bytes)
    requires i < |h| && SetAt(h, at, keys) && h[i] == CallWatch(key)
    ensures SetAt(h, at + [i], keys + [key])
  {
  }

  /** Every call that writes is accepted exactly if writes are allowed. */
  lemma {:induction false} WritesAreAnswered(h: seq<Call>, c: Call)
    requires AsksToWrite(c) || c.CallWatch?
    ensures ReplyTo(AfterAll(Fresh, h), c) == if Permitted(h) then Done else WritesNotAllowed
  {
    StateTellsTheHistory(h);
    WritesAre(c);
  }

  lemma {:induction false} StepOfTheFlags(t: Tx, c: Call)
    requires !t.writesAllowed ==> t.readOnly
    ensures var u := After(t, c); var writes := OpOf(c) != [] && t.writesAllowed; var watch := c.CallWatch? && t.writesAllowed;
      && (u.readOnly <==> c.CallReset? || (t.readOnly && !writes))
      && (u.hasWatches <==> !c.CallReset? && (t.hasWatches || watch))
      && (u.pending == [] <==> c.CallReset? || c == CallOnError(true) || (t.pending == [] && !writes))
      && (u.watches == [] <==> c.CallReset? || c == CallOnError(true) || (t.watches == [] && !watch))
      && (!u.writesAllowed ==> u.readOnly)
  {
  }

  /** `do_transaction` leaves the commit out only when there is nothing to commit: no mutation,
      no write conflict range and no watch is pending. */
  lemma {:induction false} SkippedCommitLosesNothing(h: seq<Call>)
    requires AfterAll(Fresh, h).readOnly && !AfterAll(Fresh, h).hasWatches
    ensures AfterAll(Fresh, h).pending == [] && AfterAll(Fresh, h).watches == []
  {
    FlagsTellTheHistory(h);
  }

  /** A commit that is not left out has something to commit, except after a retry: exactly when
      what was written or watched since the last reset all came before the last `on_error`. */
  lemma {:induction false} WhenTheCommitIsEmpty(h: seq<Call>)
    ensures var t := AfterAll(Fresh, h);
      (!t.readOnly || t.hasWatches) && t.pending == [] && t.watches == []
      <==>
      (WroteSince(h, SinceReset(h)) || WatchedSince(h, SinceReset(h))) &&
      !WroteSince(h, SinceEmptied(h)) && !WatchedSince(h, SinceEmptied(h))
  {
    FlagsTellTheHistory(h);
  }

  /** `disallow_writes` is accepted exactly when nothing was written since the last reset, so
      a retried transaction may be refused it with nothing pending. */
  lemma {:induction false} DisallowWritesAccepted(h: seq<Call>)
    ensures ReplyTo(AfterAll(Fresh, h), CallDisallowWrites) == Done <==> !WroteSince(h, SinceReset(h))
  {
    FlagsTellTheHistory(h);
  }

  lemma {:induction false} DisallowWritesRefusedOnRetry(key: Bytes, value: Bytes)
    ensures var t := AfterAll(Fresh, [CallSet(key, value), CallOnError(true)]);
      t.pending == [] && t.watches == [] && ReplyTo(t, CallDisallowWrites) == Badarg
  {
    var h := [CallSet(key, value), CallOnError(true)];
    assert h[..1] == [CallSet(key, value)] && [CallSet(key, value)][..0] == [];
    assert AfterAll(Fresh, []) == Fresh;
    assert AfterAll(Fresh, h[..1]) == Fresh.(pending := [Set(key, value)], readOnly := false);
  }

  /** A watch does not stand in the way of `disallow_writes`: it is granted with a watch pending
      exactly when nothing was written since the last reset and something watched since the
      transaction was last emptied. */
  lemma {:induction false} DisallowWritesWithWatches(h: seq<Call>)
    ensures ReplyTo(AfterAll(Fresh, h), CallDisallowWrites) == Done && AfterAll(Fresh, h).watches != []
      <==> !WroteSince(h, SinceReset(h)) && WatchedSince(h, SinceEmptied(h))
  {
    FlagsTellTheHistory(h);
  }

  /** As here, though `watch` itself needs writes to be allowed. */
  lemma {:induction false} WatchSurvivesDisallowWrites(key: Bytes)
    ensures var t := AfterAll(Fresh, [CallWatch(key), CallDisallowWrites]);
      !t.writesAllowed && t.watches == [key] && t.hasWatches
  {
    var h := [CallWatch(key), CallDisallowWrites];
    assert h[..1] == [CallWatch(key)] && [CallWatch(key)][..0] == [];
    assert AfterAll(Fresh, []) == Fresh;
    assert AfterAll(Fresh, h[..1]) == Fresh.(watches := [key], hasWatches := true);
  }

  // ---------------------------------------------------------------- transaction ids

  /** How many times `get_next_tx_id` was called since the last reset. */
  function IdsAsked(h: seq<Call>): nat {
    if h == [] || h[|h| - 1].CallReset? then 0
    else IdsAsked(h[..|h| - 1]) + if h[|h| - 1].CallNextId? then 1 else 0
  }

  lemma {:induction false} TxidCounts(h: seq<Call>)
    ensures AfterAll(Fresh, h).txid == if IdsAsked(h) > MaxId then MaxId + 1 else IdsAsked(h)
  {
    if h != [] {
      TxidCounts(h[..|h| - 1]);
    }
  }

  lemma {:induction false} IdsAskedGrows(h: seq<Call>, i: nat, j: nat)
    requires SinceReset(h) <= i <= j <= |h|
    ensures IdsAsked(h[..i]) <= IdsAsked(h[..j])
    decreases j
  {
    if i < j {
      assert h[..j][..j - 1] == h[..j - 1];
      NoResetSince(h, j - 1);
      IdsAskedGrows(h, i, j - 1);
    }
  }

  lemma {:induction false} NoResetSince(h: seq<Call>, k: nat)
    requires SinceReset(h) <= k < |h|
    ensures !h[k].CallReset?
    decreases |h|
  {
    if k < |h| - 1 {
      NoResetSince(h[..|h| - 1], k);
    }
  }

  /** Between two resets no transaction id is handed out twice, retries included, and after
      65536 of them every further call is refused. */
  lemma {:induction false} IdsAreDistinct(h: seq<Call>, i: nat, j: nat)
    requires SinceReset(h) <= i < j < |h| && h[i].CallNextId? && h[j].CallNextId?
    ensures var first, second := ReplyTo(AfterAll(Fresh, h[..i]), h[i]), ReplyTo(AfterAll(Fresh, h[..j]), h[j]);
      && (second.Id? ==> first.Id? && first.id < second.id == IdsAsked(h[..j]) <= 65535)
      && (IdsAsked(h[..j]) > 65535 <==> second == Badarg)
  {
    TxidCounts(h[..i]);
    TxidCounts(h[..j]);
    assert h[..i + 1][..i] == h[..i];
    assert IdsAsked(h[..i + 1]) == IdsAsked(h[..i]) + 1;
    IdsAskedGrows(h, i + 1, j);
  }

  // ---------------------------------------------------------------- do_transaction

  /** How the user's function ends: it returns and the commit, if there is one, fails or not; an
      `erlfdb_error` comes out of it; or another exception does. */
  datatype Ending = Finishes(commitFails: bool) | FdbErrorInside | Raises

  /** One round of `do_transaction`; `recovers` is what `on_error` would answer. */
  datatype Attempt = Attempt(calls: seq<Call>, ending: Ending, recovers: bool)

  /** What `do_transaction` did: the number of the attempt that returned, with what it made
      durable. */
  datatype Outcome =
    | Returned(attempt: nat, committed: seq<Op>, armed: seq<Bytes>)
    | Raised
    | Unfinished

  function Later(o: Outcome): Outcome {
    if o.Returned? then o.(attempt := o.attempt + 1) else o
  }

  function Transact(t: Tx, attempts: seq<Attempt>): Outcome
    decreases |attempts|
  {
    if attempts == [] then Unfinished
    else
      var u := AfterAll(t, attempts[0].calls);
      if attempts[0].ending.Raises? then Raised
      else if attempts[0].ending.Finishes? && u.readOnly && !u.hasWatches then Returned(0, [], [])
      else if attempts[0].ending == Finishes(false) then Returned(0, u.pending, u.watches)
      else if !attempts[0].recovers then Raised
      else Later(Transact(After(u, CallOnError(true)), attempts[1..]))
  }

  /** The loop without the shortcut: every attempt that finishes is committed. The commit of a
      transaction with nothing in it does not fail. */
  function AlwaysCommits(t: Tx, attempts: seq<Attempt>): Outcome
    decreases |attempts|
  {
    if attempts == [] then Unfinished
    else
      var u := AfterAll(t, attempts[0].calls);
      var fails := attempts[0].ending == Finishes(true) && (u.pending != [] || u.watches != []);
      if attempts[0].ending.Raises? then Raised
      else if attempts[0].ending.Finishes? && !fails then Returned(0, u.pending, u.watches)
      else if !attempts[0].recovers then Raised
      else Later(AlwaysCommits(After(u, CallOnError(true)), attempts[1..]))
  }

  /** With the attempts whose commit of nothing would fail left aside. */
  predicate EmptyCommitsSucceed(t: Tx, attempts: seq<Attempt>)
    decreases |attempts|
  {
    attempts == [] ||
    var u := AfterAll(t, attempts[0].calls);
    && (attempts[0].ending == Finishes(true) ==> u.pending != [] || u.watches != [])
    && EmptyCommitsSucceed(After(u, CallOnError(true)), attempts[1..])
  }

  predicate Truthful(t: Tx) {
    && (t.readOnly ==> t.pending == [])
    && (!t.hasWatches ==> t.watches == [])
    && (!t.writesAllowed ==> t.readOnly)
  }

  lemma {:induction false} CallsKeepTruthful(t: Tx, calls: seq<Call>)
    requires Truthful(t)
    ensures Truthful(AfterAll(t, calls))
  {
    if calls != [] {
      CallsKeepTruthful(t, calls[..|calls| - 1]);
      StepKeepsTruthful(AfterAll(t, calls[..|calls| - 1]), calls[|calls| - 1]);
    }
  }

  lemma {:induction false} StepKeepsTruthful(t: Tx, c: Call)
    requires Truthful(t)
    ensures Truthful(After(t, c))
  {
  }

  /** Over whole runs of `do_transaction`, retries included, the shortcut changes nothing: same
      attempt, same operations made durable, same watches armed. */
  lemma {:induction false} ShortcutIsSound(t: Tx, attempts: seq<Attempt>)
    requires Truthful(t) && EmptyCommitsSucceed(t, attempts)
    ensures Transact(t, attempts) == AlwaysCommits(t, attempts)
    decreases |attempts|
  {
    if attempts != [] {
      var u := AfterAll(t, attempts[0].calls);
      CallsKeepTruthful(t, attempts[0].calls);
      StepKeepsTruthful(u, CallOnError(true));
      ShortcutIsSound(After(u, CallOnError(true)), attempts[1..]);
    }
  }

  /** The transaction at the start of an attempt, all before it having failed. */
  function AtAttempt(t: Tx, attempts: seq<Attempt>, k: nat): Tx
    requires k <= |attempts|
  {
    if k == 0 then t
    else After(AfterAll(AtAttempt(t, attempts, k - 1), attempts[k - 1].calls), CallOnError(true))
  }

  lemma {:induction false} AttemptsAfterTheFirst(t: Tx, attempts: seq<Attempt>, k: nat)
    requires 0 < k <= |attempts|
    ensures AtAttempt(t, attempts, k) == AtAttempt(AtAttempt(t, attempts, 1), attempts[1..], k - 1)
  {
    assert AtAttempt(t, attempts, 0) == t;
    if k > 1 {
      AttemptsAfterTheFirst(t, attempts, k - 1);
    }
  }

  /** The calls up to the start of an attempt, the `on_error` after each failed one included. */
  function Calls(h0: seq<Call>, attempts: seq<Attempt>, k: nat): seq<Call>
    requires k <= |attempts|
  {
    if k == 0 then h0 else Calls(h0, attempts, k - 1) + attempts[k - 1].calls + [CallOnError(true)]
  }

  lemma {:induction false} AfterJoined(t: Tx, g: seq<Call>, h: seq<Call>)
    ensures AfterAll(t, g + h) == AfterAll(AfterAll(t, g), h)
  {
    if h == [] {
      assert g + h == g;
    } else {
      assert (g + h)[..|g + h| - 1] == g + h[..|h| - 1];
      AfterJoined(t, g, h[..|h| - 1]);
    }
  }

  lemma {:induction false} AtAttemptIs(h0: seq<Call>, attempts: seq<Attempt>, k: nat)
    requires k <= |attempts|
    ensures AtAttempt(AfterAll(Fresh, h0), attempts, k) == AfterAll(Fresh, Calls(h0, attempts, k))
  {
    if k > 0 {
      AtAttemptIs(h0, attempts, k - 1);
      var before := Calls(h0, attempts, k - 1);
      AfterJoined(Fresh, before, attempts[k - 1].calls);
      AfterLast(Fresh, before + attempts[k - 1].calls, CallOnError(true));
    }
  }

  lemma {:induction false} AfterLast(t: Tx, h: seq<Call>, c: Call)
    ensures AfterAll(t, h + [c]) == After(AfterAll(t, h), c)
  {
    assert (h + [c])[..|h|] == h;
  }

  /** Whether the commit of an attempt goes through, or there is none to make. */
  predicate Succeeds(t: Tx, a: Attempt) {
    var u := AfterAll(t, a.calls);
    a.ending == Finishes(false) || (a.ending.Finishes? && u.readOnly && !u.hasWatches)
  }

  predicate IsRetried(t: Tx, a: Attempt) {
    !Succeeds(t, a) && !a.ending.Raises? && a.recovers
  }

  /** The attempt that returns is the first that is not to be retried, if that succeeds; if it does
      not, an exception comes out. */
  lemma {:induction false} FirstThatIsNotRetried(t: Tx, attempts: seq<Attempt>, k: nat)
    requires k <= |attempts| && forall j :: 0 <= j < k ==> IsRetried(AtAttempt(t, attempts, j), attempts[j])
    ensures k == |attempts| ==> Transact(t, attempts) == Unfinished
    ensures k < |attempts| && Succeeds(AtAttempt(t, attempts, k), attempts[k]) ==>
      Transact(t, attempts).Returned? && Transact(t, attempts).attempt == k
    ensures k < |attempts| && !Succeeds(AtAttempt(t, attempts, k), attempts[k]) && !IsRetried(AtAttempt(t, attempts, k), attempts[k]) ==>
      Transact(t, attempts) == Raised
    decreases |attempts|
  {
    assert AtAttempt(t, attempts, 0) == t;
    if k > 0 {
      var next := AtAttempt(t, attempts, 1);
      assert IsRetried(AtAttempt(t, attempts, 0), attempts[0]);
      RetriedAfterTheFirst(t, attempts, k, next);
      AttemptsAfterTheFirst(t, attempts, k);
      FirstThatIsNotRetried(next, attempts[1..], k - 1);
      OneRetry(t, attempts, next);
    } else {
      NoRetry(t, attempts);
    }
  }

  lemma {:induction false} RetriedAfterTheFirst(t: Tx, attempts: seq<Attempt>, k: nat, next: Tx)
    requires 0 < k <= |attempts| && forall j :: 0 <= j < k ==> IsRetried(AtAttempt(t, attempts, j), attempts[j])
    requires next == AtAttempt(t, attempts, 1)
    ensures forall j :: 0 <= j < k - 1 ==> IsRetried(AtAttempt(next, attempts[1..], j), attempts[1..][j])
  {
    forall j | 0 <= j < k - 1 ensures IsRetried(AtAttempt(next, attempts[1..], j), attempts[1..][j]) {
      AttemptsAfterTheFirst(t, attempts, j + 1);
      assert IsRetried(AtAttempt(t, attempts, j + 1), attempts[j + 1]);
    }
  }

  lemma {:induction false} OneRetry(t: Tx, attempts: seq<Attempt>, next: Tx)
    requires attempts != [] && IsRetried(t, attempts[0]) && next == AtAttempt(t, attempts, 1)
    ensures Transact(t, attempts) == Later(Transact(next, attempts[1..]))
  {
    assert AtAttempt(t, attempts, 0) == t;
  }

  lemma {:induction false} NoRetry(t: Tx, attempts: seq<Attempt>)
    ensures attempts == [] ==> Transact(t, attempts) == Unfinished
    ensures attempts != [] && Succeeds(t, attempts[0]) ==> Transact(t, attempts).Returned? && Transact(t, attempts).attempt == 0
    ensures attempts != [] && !Succeeds(t, attempts[0]) && !IsRetried(t, attempts[0]) ==> Transact(t, attempts) == Raised
  {
  }

  /** What becomes durable is what one attempt left pending, started with nothing pending. */
  lemma {:induction false} CommittedIsPending(t: Tx, attempts: seq<Attempt>)
    requires Truthful(t) && t.pending == [] && t.watches == [] && Transact(t, attempts).Returned?
    ensures var o := Transact(t, attempts);
      && o.attempt < |attempts|
      && AtAttempt(t, attempts, o.attempt).pending == [] && AtAttempt(t, attempts, o.attempt).watches == []
      && var u := AfterAll(AtAttempt(t, attempts, o.attempt), attempts[o.attempt].calls);
         o.committed == u.pending && o.armed == u.watches
    decreases |attempts|
  {
    var u := AfterAll(t, attempts[0].calls);
    CallsKeepTruthful(t, attempts[0].calls);
    assert AtAttempt(t, attempts, 0) == t;
    var o := Transact(t, attempts);
    if o.attempt > 0 {
      var next := After(u, CallOnError(true));
      StepKeepsTruthful(u, CallOnError(true));
      CommittedIsPending(next, attempts[1..]);
      assert AtAttempt(t, attempts, 1) == next;
      AttemptsAfterTheFirst(t, attempts, o.attempt);
    }
  }

  /** One more call. */
  lemma {:induction false} LaterStill(all: seq<Call>, before: seq<Call>, from: nat, n: nat)
    requires all != [] && before == all[..|all| - 1] && n <= |before|
    requires from < |all| ==> AllFrom(WrittenAt(before, from), n) && AllFrom(WatchedAt(before, from), n)
    ensures AllFrom(WrittenAt(all, from), n) && AllFrom(WatchedAt(all, from), n)
  {
  }

  predicate AllFrom(at: seq<nat>, n: nat) {
    forall k :: 0 <= k < |at| ==> n <= at[k]
  }

  /** The writes of a longer history lie behind the shorter one, if nothing of that is pending. */
  lemma {:induction false} PendingIsLater(h: seq<Call>, calls: seq<Call>)
    requires AfterAll(Fresh, h).pending == [] && AfterAll(Fresh, h).watches == []
    ensures var all := h + calls;
      AllFrom(WrittenAt(all, SinceEmptied(all)), |h|) && AllFrom(WatchedAt(all, SinceEmptied(all)), |h|)
  {
    var all := h + calls;
    if calls == [] {
      assert all == h;
      PendingTellsTheHistory(h);
    } else {
      var p := h + calls[..|calls| - 1];
      assert all[..|all| - 1] == p;
      PendingIsLater(h, calls[..|calls| - 1]);
      LaterStill(all, p, SinceEmptied(all), |h|);
    }
  }

  /** What becomes durable is what one attempt asked for: the operations of its accepted writes since
      it last emptied the transaction, in their order, none of them of an earlier attempt. */
  lemma {:induction false} OneAttemptIsCommitted(h0: seq<Call>, attempts: seq<Attempt>)
    requires AfterAll(Fresh, h0).pending == [] && AfterAll(Fresh, h0).watches == []
    requires Transact(AfterAll(Fresh, h0), attempts).Returned?
    ensures var o := Transact(AfterAll(Fresh, h0), attempts);
      && o.attempt < |attempts|
      && var before := Calls(h0, attempts, o.attempt);
         var h := before + attempts[o.attempt].calls;
      && Tells(h, SinceEmptied(h), o.committed, o.armed)
      && AllFrom(WrittenAt(h, SinceEmptied(h)), |before|) && AllFrom(WatchedAt(h, SinceEmptied(h)), |before|)
  {
    var t := AfterAll(Fresh, h0);
    CallsKeepTruthful(Fresh, h0);
    CommittedIsPending(t, attempts);
    var o := Transact(t, attempts);
    var before := Calls(h0, attempts, o.attempt);
    AtAttemptIs(h0, attempts, o.attempt);
    AfterJoined(Fresh, before, attempts[o.attempt].calls);
    PendingTellsTheHistory(before + attempts[o.attempt].calls);
    PendingIsLater(before, attempts[o.attempt].calls);
  }
}
