/** What one allocation attempt keeps: marks stay accounted for, and every identifier handed
    out is guarded by a conflicting read and a conflicting write. */
module HcaInvariant {
  import opened Options
  import opened ByteStrings
  import opened Terms
  import opened TupleEncode
  import opened HcaKeys
  import opened HcaModel

  // ---------------------------------------------------------------- mutation logs

  /** The mutations the allocator makes: marks, counts, and clears that hit no key of its own. */
  ghost predicate Harmless(prefix: Bytes, m: Mutation) {
    match m
    case SetEmpty(k) => k.Marker?
    case AddOne(k) => k.Counter? && IsWindowStart(k.start)
    case ClearRange(lo, hi) => forall k :: !Covers(prefix, lo, hi, k)
  }

  ghost predicate HarmlessAll(prefix: Bytes, ms: seq<Mutation>) {
    forall i :: 0 <= i < |ms| ==> Harmless(prefix, ms[i])
  }

  /** How often a log counts into a window, and which candidates it marks. */
  function Adds(ms: seq<Mutation>, w: nat): nat {
    if ms == [] then 0 else Adds(ms[..|ms| - 1], w) + if ms[|ms| - 1] == AddOne(Counter(w)) then 1 else 0
  }

  function Marks(ms: seq<Mutation>): set<nat> {
    if ms == [] then {}
    else
      var last := ms[|ms| - 1];
      Marks(ms[..|ms| - 1]) + if last.SetEmpty? && last.key.Marker? then {last.key.candidate} else {}
  }

  lemma {:induction false} Snoc(ms: seq<Mutation>, m: Mutation)
    ensures (ms + [m])[..|ms + [m]| - 1] == ms
    ensures forall w :: Adds(ms + [m], w) == Adds(ms, w) + if m == AddOne(Counter(w)) then 1 else 0
    ensures Marks(ms + [m]) == Marks(ms) + if m.SetEmpty? && m.key.Marker? then {m.key.candidate} else {}
  {
    assert (ms + [m])[..|ms + [m]| - 1] == ms;
  }

  /** What a database of allocator keys looks like. */
  predicate StoreOk(s: Store) {
    forall k :: k in s && k.Counter? ==> IsWindowStart(k.start)
  }

  /** Markers only accumulate and counters only count, as long as 64 bits can hold the sum. */
  ghost predicate Evolved(s: Store, t: Store, ms: seq<Mutation>) {
    && (forall k :: k in t <==> k in s || if k.Marker? then k.candidate in Marks(ms) else Adds(ms, k.start) > 0)
    && (forall w :: CountIn(s, w) + Adds(ms, w) < WORD ==> CountIn(t, w) == CountIn(s, w) + Adds(ms, w))
  }

  lemma {:induction false} ClearKeeps(prefix: Bytes, s: Store, m: Mutation)
    requires m.ClearRange? && Harmless(prefix, m)
    ensures Apply(prefix, s, m) == s
  {
  }

  lemma {:induction false} StoreStaysOk(prefix: Bytes, s: Store, m: Mutation)
    requires StoreOk(s) && Harmless(prefix, m)
    ensures StoreOk(Apply(prefix, s, m))
  {
    if m.ClearRange? {
      ClearKeeps(prefix, s, m);
    }
  }

  lemma {:induction false} CountStep(prefix: Bytes, s: Store, m: Mutation, w: nat)
    requires Harmless(prefix, m)
    requires m == AddOne(Counter(w)) ==> CountIn(s, w) + 1 < WORD
    ensures CountIn(Apply(prefix, s, m), w) == CountIn(s, w) + if m == AddOne(Counter(w)) then 1 else 0
  {
    if m.ClearRange? {
      ClearKeeps(prefix, s, m);
    }
  }

  lemma {:induction false} KeyStep(prefix: Bytes, s: Store, m: Mutation, k: Key)
    requires Harmless(prefix, m)
    ensures k in Apply(prefix, s, m) <==> k in s || m == SetEmpty(k) || m == AddOne(k)
  {
    if m.ClearRange? {
      ClearKeeps(prefix, s, m);
    }
  }

  lemma {:induction false} StoreAll(prefix: Bytes, s: Store, ms: seq<Mutation>)
    requires StoreOk(s) && HarmlessAll(prefix, ms)
    ensures StoreOk(ApplyAll(prefix, s, ms))
  {
    if ms != [] {
      StoreAll(prefix, s, ms[..|ms| - 1]);
      StoreStaysOk(prefix, ApplyAll(prefix, s, ms[..|ms| - 1]), ms[|ms| - 1]);
    }
  }

  lemma {:induction false} KeyAll(prefix: Bytes, s: Store, ms: seq<Mutation>, k: Key)
    requires HarmlessAll(prefix, ms)
    ensures k in ApplyAll(prefix, s, ms)
       <==> k in s || if k.Marker? then k.candidate in Marks(ms) else Adds(ms, k.start) > 0
  {
    if ms != [] {
      KeyAll(prefix, s, ms[..|ms| - 1], k);
      assert Harmless(prefix, ms[|ms| - 1]);
      KeyStep(prefix, ApplyAll(prefix, s, ms[..|ms| - 1]), ms[|ms| - 1], k);
    }
  }

  lemma {:induction false} CountAll(prefix: Bytes, s: Store, ms: seq<Mutation>, w: nat)
    requires HarmlessAll(prefix, ms) && CountIn(s, w) + Adds(ms, w) < WORD
    ensures CountIn(ApplyAll(prefix, s, ms), w) == CountIn(s, w) + Adds(ms, w)
  {
    if ms != [] {
      CountAll(prefix, s, ms[..|ms| - 1], w);
      assert Harmless(prefix, ms[|ms| - 1]);
      CountStep(prefix, ApplyAll(prefix, s, ms[..|ms| - 1]), ms[|ms| - 1], w);
    }
  }

  lemma {:induction false} ApplyAllOk(prefix: Bytes, s: Store, ms: seq<Mutation>)
    requires StoreOk(s) && HarmlessAll(prefix, ms)
    ensures StoreOk(ApplyAll(prefix, s, ms)) && Evolved(s, ApplyAll(prefix, s, ms), ms)
  {
    StoreAll(prefix, s, ms);
    forall k ensures k in ApplyAll(prefix, s, ms)
       <==> k in s || if k.Marker? then k.candidate in Marks(ms) else Adds(ms, k.start) > 0 {
      KeyAll(prefix, s, ms, k);
    }
    forall w | CountIn(s, w) + Adds(ms, w) < WORD
      ensures CountIn(ApplyAll(prefix, s, ms), w) == CountIn(s, w) + Adds(ms, w)
    {
      CountAll(prefix, s, ms, w);
    }
  }

  // ---------------------------------------------------------------- marks in a window

  function MarksIn(marks: set<nat>, w: nat): set<nat> {
    set c | c in marks && InWindow(c, w)
  }

  /** One more count in a window pays for one more mark in it. */
  ghost predicate Accounted(ms: seq<Mutation>) {
    forall w :: IsWindowStart(w) ==> |MarksIn(Marks(ms), w)| <= Adds(ms, w)
  }

  lemma {:induction false} NewMark(marks: set<nat>, c: nat, w: nat)
    ensures MarksIn(marks + {c}, w) == if InWindow(c, w) then MarksIn(marks, w) + {c} else MarksIn(marks, w)
    ensures |MarksIn(marks + {c}, w)| <= |MarksIn(marks, w)| + if InWindow(c, w) then 1 else 0
  {
  }

  // ---------------------------------------------------------------- range/4

  lemma {:induction false} ClearsHarmless(prefix: Bytes, start: nat)
    requires EncodableId(start)
    ensures EncodableAll([COUNTERS]) && EncodableAll([RECENT])
    ensures var c := WindowRange(prefix, COUNTERS, start); Harmless(prefix, ClearRange(c.0, c.1))
    ensures var r := WindowRange(prefix, RECENT, start); Harmless(prefix, ClearRange(r.0, r.1))
  {
    SmallIdsEncodable();
    var c, r := WindowRange(prefix, COUNTERS, start), WindowRange(prefix, RECENT, start);
    forall k ensures !Covers(prefix, c.0, c.1, k) && !Covers(prefix, r.0, r.1, k) {
      if EncodableKey(k) {
        WindowRangeHoldsNoKey(prefix, COUNTERS, start, k);
        WindowRangeHoldsNoKey(prefix, RECENT, start, k);
      }
    }
  }

  lemma {:induction false} SnocHarmless(prefix: Bytes, ms: seq<Mutation>, m: Mutation)
    requires HarmlessAll(prefix, ms) && Harmless(prefix, m)
    ensures HarmlessAll(prefix, ms + [m])
  {
  }

  /** Stepping into a window counts once in it and marks nothing. */
  lemma {:induction false} BumpEffect(prefix: Bytes, tx: Tx, start: nat, advanced: bool)
    requires HarmlessAll(prefix, tx.muts) && EncodableId(start) && IsWindowStart(start)
    ensures var tx1 := BumpWindow(prefix, tx, start, advanced);
      && tx1.base == tx.base && tx1.readKeys == tx.readKeys && tx.spans <= tx1.spans && !tx1.quiet
      && HarmlessAll(prefix, tx1.muts)
      && tx.muts <= tx1.muts
      && Marks(tx1.muts) == Marks(tx.muts)
      && forall w :: Adds(tx1.muts, w) == Adds(tx.muts, w) + if w == start then 1 else 0
  {
    var ms := tx.muts;
    if advanced {
      ClearsHarmless(prefix, start);
      var c, r := WindowRange(prefix, COUNTERS, start), WindowRange(prefix, RECENT, start);
      Snoc(ms, ClearRange(c.0, c.1));
      SnocHarmless(prefix, ms, ClearRange(c.0, c.1));
      ms := ms + [ClearRange(c.0, c.1)];
      Snoc(ms, ClearRange(r.0, r.1));
      SnocHarmless(prefix, ms, ClearRange(r.0, r.1));
      ms := ms + [ClearRange(r.0, r.1)];
    }
    Snoc(ms, AddOne(Counter(start)));
    SnocHarmless(prefix, ms, AddOne(Counter(start)));
  }

  predicate NoneAfter(s: Store, start: nat) {
    forall k :: k in s && k.Counter? ==> k.start <= start
  }

  /** What walking the windows does to a transaction. */
  ghost predicate Walked(prefix: Bytes, tx: Tx, tx1: Tx) {
    && tx1.base == tx.base && tx1.readKeys == tx.readKeys && tx.spans <= tx1.spans
    && (!tx.quiet ==> !tx1.quiet)
    && HarmlessAll(prefix, tx1.muts)
    && tx.muts <= tx1.muts
    && Marks(tx1.muts) == Marks(tx.muts)
    && forall w :: Adds(tx.muts, w) <= Adds(tx1.muts, w)
  }

  /** A window `range/4` settled for: the latest one in the transaction's own view, counted
      into on the way, its counter below half of its size. */
  ghost predicate Settled(prefix: Bytes, tx: Tx, tx1: Tx, w: nat) {
    && IsWindowStart(w) && EncodableId(w)
    && Adds(tx1.muts, w) > Adds(tx.muts, w)
    && CountIn(View(prefix, tx1), w) * 2 < WindowSize(w)
    && IsLatest(View(prefix, tx1), w)
  }

  lemma {:induction false} BumpedIsLatest(prefix: Bytes, tx: Tx, start: nat, advanced: bool)
    requires StoreOk(tx.base) && HarmlessAll(prefix, tx.muts) && EncodableId(start) && IsWindowStart(start)
    requires NoneAfter(View(prefix, tx), start)
    ensures IsLatest(View(prefix, BumpWindow(prefix, tx, start, advanced)), start)
  {
    var tx1 := BumpWindow(prefix, tx, start, advanced);
    BumpEffect(prefix, tx, start, advanced);
    ApplyAllOk(prefix, tx.base, tx.muts);
    ApplyAllOk(prefix, tx.base, tx1.muts);
    forall k | k in View(prefix, tx1) && k.Counter? ensures k.start <= start {
      if k.start != start {
        assert k in View(prefix, tx);
      }
    }
  }

  /** What `range/4` owes from a given start. */
  ghost predicate RangeOk(prefix: Bytes, tx: Tx, start: nat, r: (Tx, Option<nat>)) {
    Walked(prefix, tx, r.0) && (r.1.Some? ==> start <= r.1.value && Settled(prefix, tx, r.0, r.1.value))
  }

  lemma {:induction false} RangeEffect(prefix: Bytes, tx: Tx, start: nat, advanced: bool)
    requires StoreOk(tx.base) && HarmlessAll(prefix, tx.muts) && IsWindowStart(start)
    requires NoneAfter(View(prefix, tx), start)
    ensures RangeOk(prefix, tx, start, RangeFrom(prefix, tx, start, advanced))
    decreases IdCeiling() - start
  {
    if !EncodableId(start) {
      RangeEnds(prefix, tx, start, advanced);
    } else if StopsAt(prefix, tx, start, advanced) {
      StopsOk(prefix, tx, start, advanced);
    } else {
      NextReady(prefix, tx, start, advanced);
      var tx1, next := BumpWindow(prefix, tx, start, advanced), start + WindowSize(start);
      RangeEffect(prefix, tx1, next, true);
      GoesOnOk(prefix, tx, start, advanced, RangeFrom(prefix, tx1, next, true));
    }
  }

  /** The window at `start` is less than half full once it is counted into. */
  predicate StopsAt(prefix: Bytes, tx: Tx, start: nat, advanced: bool)
    requires EncodableId(start)
  {
    CountIn(View(prefix, BumpWindow(prefix, tx, start, advanced)), start) * 2 < WindowSize(start)
  }

  /** The walk can go on from the next window. */
  lemma {:induction false} NextReady(prefix: Bytes, tx: Tx, start: nat, advanced: bool)
    requires StoreOk(tx.base) && HarmlessAll(prefix, tx.muts) && IsWindowStart(start) && EncodableId(start)
    requires NoneAfter(View(prefix, tx), start)
    ensures var tx1, next := BumpWindow(prefix, tx, start, advanced), start + WindowSize(start);
      && StoreOk(tx1.base) && HarmlessAll(prefix, tx1.muts) && IsWindowStart(next) && NoneAfter(View(prefix, tx1), next)
    ensures start < IdCeiling()
  {
    BumpEffect(prefix, tx, start, advanced);
    BumpedIsLatest(prefix, tx, start, advanced);
    WindowsTile(start, 0);
  }

  lemma {:induction false} RangeEnds(prefix: Bytes, tx: Tx, start: nat, advanced: bool)
    requires !EncodableId(start) && HarmlessAll(prefix, tx.muts)
    ensures RangeOk(prefix, tx, start, RangeFrom(prefix, tx, start, advanced))
  {
  }

  lemma {:induction false} StopsOk(prefix: Bytes, tx: Tx, start: nat, advanced: bool)
    requires StoreOk(tx.base) && HarmlessAll(prefix, tx.muts) && IsWindowStart(start) && EncodableId(start)
    requires NoneAfter(View(prefix, tx), start) && StopsAt(prefix, tx, start, advanced)
    ensures RangeOk(prefix, tx, start, RangeFrom(prefix, tx, start, advanced))
  {
    BumpedIsLatest(prefix, tx, start, advanced);
    BumpEffect(prefix, tx, start, advanced);
    RangeStops(prefix, tx, start, advanced);
  }

  lemma {:induction false} GoesOnOk(prefix: Bytes, tx: Tx, start: nat, advanced: bool, r: (Tx, Option<nat>))
    requires HarmlessAll(prefix, tx.muts) && IsWindowStart(start) && EncodableId(start)
    requires !StopsAt(prefix, tx, start, advanced)
    requires r == RangeFrom(prefix, BumpWindow(prefix, tx, start, advanced), start + WindowSize(start), true)
    requires RangeOk(prefix, BumpWindow(prefix, tx, start, advanced), start + WindowSize(start), r)
    ensures RangeOk(prefix, tx, start, RangeFrom(prefix, tx, start, advanced))
  {
    RangeGoesOn(prefix, tx, start, advanced);
    BumpEffect(prefix, tx, start, advanced);
    WalksJoin(prefix, tx, BumpWindow(prefix, tx, start, advanced), start, start + WindowSize(start), r);
  }

  /** What one more window adds to a walk. */
  lemma {:induction false} WalksJoin(prefix: Bytes, tx: Tx, tx1: Tx, start: nat, next: nat, r: (Tx, Option<nat>))
    requires Walked(prefix, tx, tx1) && RangeOk(prefix, tx1, next, r) && start <= next
    ensures RangeOk(prefix, tx, start, r)
  {
    assert forall w :: Adds(tx.muts, w) <= Adds(tx1.muts, w) <= Adds(r.0.muts, w);
  }

  lemma {:induction false} RangeStops(prefix: Bytes, tx: Tx, start: nat, advanced: bool)
    requires EncodableId(start) && StopsAt(prefix, tx, start, advanced)
    ensures RangeFrom(prefix, tx, start, advanced) == (BumpWindow(prefix, tx, start, advanced), Some(start))
  {
  }

  lemma {:induction false} RangeGoesOn(prefix: Bytes, tx: Tx, start: nat, advanced: bool)
    requires EncodableId(start) && !StopsAt(prefix, tx, start, advanced)
    ensures RangeFrom(prefix, tx, start, advanced)
         == RangeFrom(prefix, BumpWindow(prefix, tx, start, advanced), start + WindowSize(start), true)
  {
  }

  // ---------------------------------------------------------------- the first that fits

  /** The windows from `start` up to the one settled for; all there are, if none was. */
  predicate SteppedInto(start: nat, settled: Option<nat>, v: nat) {
    IsWindowStart(v) && start <= v && if settled.Some? then v <= settled.value else EncodableId(v)
  }

  /** Each of these windows is counted into once and no other; and all but the one settled for are
      at least half full after that. */
  ghost predicate FirstFit(prefix: Bytes, tx: Tx, start: nat, r: (Tx, Option<nat>)) {
    && (r.1.Some? ==> start <= r.1.value && CountIn(View(prefix, r.0), r.1.value) * 2 < WindowSize(r.1.value))
    && (forall v: nat :: Adds(r.0.muts, v) == Adds(tx.muts, v) + if SteppedInto(start, r.1, v) then 1 else 0)
    && (forall v: nat :: SteppedInto(start, r.1, v) && r.1 != Some(v) ==> CountIn(View(prefix, r.0), v) * 2 >= WindowSize(v))
  }

  /** What is written on the way: every window but the first has two ranges cleared, and each is counted
      into. */
  ghost function WalkLog(prefix: Bytes, start: nat, settled: nat, advanced: bool): seq<Mutation>
    decreases if start < settled then settled - start else 0
  {
    if !EncodableId(start) then []
    else
      WindowRangeIs(prefix, start);
      var counter, recent := Pack([Int(0), Int(start)], prefix).value, Pack([Int(1), Int(start)], prefix).value;
      (if advanced then [ClearRange(counter + [0x00], counter + [0xFF]), ClearRange(recent + [0x00], recent + [0xFF])] else [])
        + [AddOne(Counter(start))]
        + (if start < settled then WalkLog(prefix, start + WindowSize(start), settled, true) else [])
  }

  lemma {:induction false} BumpLog(prefix: Bytes, tx: Tx, start: nat, advanced: bool)
    requires EncodableId(start)
    ensures BumpWindow(prefix, tx, start, advanced).muts == tx.muts + WalkLog(prefix, start, start, advanced)
  {
    WindowRangeIs(prefix, start);
  }

  lemma {:induction false} LogGoesOn(prefix: Bytes, ms: seq<Mutation>, start: nat, settled: nat, advanced: bool)
    requires EncodableId(start) && start < settled
    ensures ms + WalkLog(prefix, start, start, advanced) + WalkLog(prefix, start + WindowSize(start), settled, true)
      == ms + WalkLog(prefix, start, settled, advanced)
  {
  }

  lemma {:induction false} RangeLog(prefix: Bytes, tx: Tx, start: nat, advanced: bool)
    requires RangeFrom(prefix, tx, start, advanced).1.Some?
    ensures var r := RangeFrom(prefix, tx, start, advanced);
      start <= r.1.value && r.0.muts == tx.muts + WalkLog(prefix, start, r.1.value, advanced)
    decreases IdCeiling() - start
  {
    BumpLog(prefix, tx, start, advanced);
    if !StopsAt(prefix, tx, start, advanced) {
      RangeGoesOn(prefix, tx, start, advanced);
      var tx1, next := BumpWindow(prefix, tx, start, advanced), start + WindowSize(start);
      RangeLog(prefix, tx1, next, true);
      LogGoesOn(prefix, tx.muts, start, RangeFrom(prefix, tx1, next, true).1.value, advanced);
    }
  }

  /** The conflict ranges left on the way: the counters, and the first range cleared of each window but
      the first. */
  ghost function WalkSpans(prefix: Bytes, start: nat, settled: nat, advanced: bool): set<(Bytes, Bytes)>
    decreases if start < settled then settled - start else 0
  {
    if !EncodableId(start) then {}
    else
      WindowRangeIs(prefix, start);
      var counter := Pack([Int(0), Int(start)], prefix).value;
      (if advanced then {(counter + [0x00], counter + [0xFF])} else {})
        + {(counter, counter + [0x00])}
        + (if start < settled then WalkSpans(prefix, start + WindowSize(start), settled, true) else {})
  }

  lemma {:induction false} BumpSpans(prefix: Bytes, tx: Tx, start: nat, advanced: bool)
    requires EncodableId(start) && !tx.quiet
    ensures var tx1 := BumpWindow(prefix, tx, start, advanced);
      tx1.readKeys == tx.readKeys && !tx1.quiet && tx1.spans == tx.spans + WalkSpans(prefix, start, start, advanced)
  {
    WindowRangeIs(prefix, start);
  }

  lemma {:induction false} SpansGoOn(prefix: Bytes, spans: set<(Bytes, Bytes)>, start: nat, settled: nat, advanced: bool)
    requires EncodableId(start) && start < settled
    ensures spans + WalkSpans(prefix, start, start, advanced) + WalkSpans(prefix, start + WindowSize(start), settled, true)
      == spans + WalkSpans(prefix, start, settled, advanced)
  {
  }

  lemma {:induction false} RangeSpans(prefix: Bytes, tx: Tx, start: nat, advanced: bool)
    requires RangeFrom(prefix, tx, start, advanced).1.Some? && !tx.quiet
    ensures var r := RangeFrom(prefix, tx, start, advanced);
      && start <= r.1.value && r.0.readKeys == tx.readKeys && !r.0.quiet
      && r.0.spans == tx.spans + WalkSpans(prefix, start, r.1.value, advanced)
    decreases IdCeiling() - start
  {
    BumpSpans(prefix, tx, start, advanced);
    if !StopsAt(prefix, tx, start, advanced) {
      RangeGoesOn(prefix, tx, start, advanced);
      var tx1, next := BumpWindow(prefix, tx, start, advanced), start + WindowSize(start);
      RangeSpans(prefix, tx1, next, true);
      SpansGoOn(prefix, tx.spans, start, RangeFrom(prefix, tx1, next, true).1.value, advanced);
    } else {
      RangeStops(prefix, tx, start, advanced);
    }
  }

  lemma {:induction false} NextWindow(start: nat, settled: Option<nat>, v: nat)
    requires IsWindowStart(start) && EncodableId(start) && (settled.Some? ==> start + WindowSize(start) <= settled.value)
    ensures SteppedInto(start, settled, v) <==> v == start || SteppedInto(start + WindowSize(start), settled, v)
  {
    if IsWindowStart(v) && start <= v < start + WindowSize(start) {
      WindowsTile(start, v);
      WindowsTile(v, v);
    }
  }

  lemma {:induction false} EncodableBelow(m: nat, n: nat)
    requires EncodableId(n) && m <= n
    ensures EncodableId(m)
  {
    if m > 0 {
      UnsignedLengthMonotone(m, n);
    }
  }

  /** What is not counted into keeps its count. */
  lemma {:induction false} CountUntouched(prefix: Bytes, s: Store, ms: seq<Mutation>, all: seq<Mutation>, w: nat)
    requires HarmlessAll(prefix, all) && ms <= all && Adds(all, w) == Adds(ms, w)
    ensures CountIn(ApplyAll(prefix, s, all), w) == CountIn(ApplyAll(prefix, s, ms), w)
    decreases |all|
  {
    if |ms| < |all| {
      var front, m := all[..|all| - 1], all[|all| - 1];
      AddsGrow(ms, front, w);
      assert Harmless(prefix, m);
      CountUntouched(prefix, s, ms, front, w);
      UntouchedStep(prefix, ApplyAll(prefix, s, front), m, w);
    } else {
      assert all == ms;
    }
  }

  lemma {:induction false} UntouchedStep(prefix: Bytes, s: Store, m: Mutation, w: nat)
    requires Harmless(prefix, m) && m != AddOne(Counter(w))
    ensures CountIn(Apply(prefix, s, m), w) == CountIn(s, w)
  {
    if m.ClearRange? {
      ClearKeeps(prefix, s, m);
    }
  }

  lemma {:induction false} AddsGrow(ms: seq<Mutation>, all: seq<Mutation>, w: nat)
    requires ms <= all
    ensures Adds(ms, w) <= Adds(all, w)
    decreases |all|
  {
    if |ms| < |all| {
      AddsGrow(ms, all[..|all| - 1], w);
    } else {
      assert all == ms;
    }
  }

  /** `range/4` settles for the first window that is less than half full once counted into. */
  lemma {:induction false} RangeIsFirstFit(prefix: Bytes, tx: Tx, start: nat, advanced: bool)
    requires StoreOk(tx.base) && HarmlessAll(prefix, tx.muts) && IsWindowStart(start) && NoneAfter(View(prefix, tx), start)
    ensures FirstFit(prefix, tx, start, RangeFrom(prefix, tx, start, advanced))
    decreases IdCeiling() - start
  {
    if !EncodableId(start) {
      NoneFits(prefix, tx, start);
    } else if StopsAt(prefix, tx, start, advanced) {
      FirstFits(prefix, tx, start, advanced);
    } else {
      var tx1, next := BumpWindow(prefix, tx, start, advanced), start + WindowSize(start);
      NextReady(prefix, tx, start, advanced);
      RangeIsFirstFit(prefix, tx1, next, true);
      RangeEffect(prefix, tx1, next, true);
      LaterFits(prefix, tx, start, advanced, tx1, RangeFrom(prefix, tx1, next, true));
    }
  }

  lemma {:induction false} LaterFits(prefix: Bytes, tx: Tx, start: nat, advanced: bool, tx1: Tx, r: (Tx, Option<nat>))
    requires StoreOk(tx.base) && HarmlessAll(prefix, tx.muts) && IsWindowStart(start) && NoneAfter(View(prefix, tx), start)
    requires EncodableId(start) && !StopsAt(prefix, tx, start, advanced) && tx1 == BumpWindow(prefix, tx, start, advanced)
    requires r == RangeFrom(prefix, tx1, start + WindowSize(start), true)
    requires RangeOk(prefix, tx1, start + WindowSize(start), r) && FirstFit(prefix, tx1, start + WindowSize(start), r)
    ensures FirstFit(prefix, tx, start, RangeFrom(prefix, tx, start, advanced))
  {
    BumpEffect(prefix, tx, start, advanced);
    RangeGoesOn(prefix, tx, start, advanced);
    OneWindowMore(prefix, tx, tx1, start, r);
  }

  lemma {:induction false} NoneFits(prefix: Bytes, tx: Tx, start: nat)
    requires !EncodableId(start)
    ensures FirstFit(prefix, tx, start, (tx, None))
  {
    forall v ensures !SteppedInto(start, None, v) {
      if SteppedInto(start, None, v) {
        EncodableBelow(start, v);
      }
    }
  }

  lemma {:induction false} FirstFits(prefix: Bytes, tx: Tx, start: nat, advanced: bool)
    requires StoreOk(tx.base) && HarmlessAll(prefix, tx.muts) && IsWindowStart(start) && NoneAfter(View(prefix, tx), start)
    requires EncodableId(start) && StopsAt(prefix, tx, start, advanced)
    ensures FirstFit(prefix, tx, start, RangeFrom(prefix, tx, start, advanced))
  {
    BumpEffect(prefix, tx, start, advanced);
    RangeStops(prefix, tx, start, advanced);
  }

  lemma {:induction false} OneWindowMore(prefix: Bytes, tx: Tx, tx1: Tx, start: nat, r: (Tx, Option<nat>))
    requires IsWindowStart(start) && EncodableId(start) && Walked(prefix, tx1, r.0)
    requires forall w :: Adds(tx1.muts, w) == Adds(tx.muts, w) + if w == start then 1 else 0
    requires CountIn(View(prefix, tx1), start) * 2 >= WindowSize(start)
    requires FirstFit(prefix, tx1, start + WindowSize(start), r)
    ensures FirstFit(prefix, tx, start, r)
  {
    forall v ensures SteppedInto(start, r.1, v) <==> v == start || SteppedInto(start + WindowSize(start), r.1, v) {
      NextWindow(start, r.1, v);
    }
    assert Adds(r.0.muts, start) == Adds(tx1.muts, start);
    CountUntouched(prefix, tx.base, tx1.muts, r.0.muts, start);
    CountUntouched(prefix, tx1.base, tx1.muts, r.0.muts, start);
  }

  /** What one attempt answers: it starts from the latest counter there is, or from 0, settles for the
      first window that fits, and hands out the candidate drawn there exactly if it is not marked. */
  lemma {:induction false} AttemptIs(prefix: Bytes, tx: Tx, draw: nat, start: nat)
    requires StoreOk(tx.base) && HarmlessAll(prefix, tx.muts)
    requires if exists k :: k in View(prefix, tx) && k.Counter? then IsLatest(View(prefix, tx), start) else start == 0
    ensures var (tx1, w) := Walk(prefix, tx);
      && FirstFit(prefix, tx, start, (tx1, w))
      && var o := Attempt(prefix, tx, draw).1;
         if w.None? then o == Failed
         else
           var c := w.value + draw % WindowSize(w.value);
           o == if !EncodableId(c) then Failed else if Marker(c) in View(prefix, tx) then Retry else Allocated(c)
    ensures var (tx1, w) := Walk(prefix, tx);
      w.Some? ==>
        && tx1.muts == tx.muts + WalkLog(prefix, start, w.value, false)
        && var (tx2, o) := Attempt(prefix, tx, draw);
           var c := w.value + draw % WindowSize(w.value);
           EncodableId(c) ==>
             && tx2.muts == tx1.muts + [SetEmpty(Marker(c))]
             && tx2.spans == tx1.spans + if o.Allocated? then {Point(prefix, Marker(c))} else {}
  {
    var (tx1, w) := Walk(prefix, tx);
    WalkIs(prefix, tx, start, tx1, w);
    if w.Some? {
      SearchIs(prefix, tx, tx1, w.value, draw);
    }
  }

  lemma {:induction false} WalkIs(prefix: Bytes, tx: Tx, start: nat, tx1: Tx, w: Option<nat>)
    requires StoreOk(tx.base) && HarmlessAll(prefix, tx.muts) && (tx1, w) == Walk(prefix, tx)
    requires if exists k :: k in View(prefix, tx) && k.Counter? then IsLatest(View(prefix, tx), start) else start == 0
    ensures FirstFit(prefix, tx, start, (tx1, w)) && Walked(prefix, tx, tx1)
    ensures w.Some? ==> IsLatest(View(prefix, tx1), w.value) && tx1.muts == tx.muts + WalkLog(prefix, start, w.value, false)
  {
    CurrentIs(prefix, tx, start);
    CurrentIsStart(prefix, tx);
    RangeIsFirstFit(prefix, tx, start, false);
    WalkEffect(prefix, tx);
    if w.Some? {
      RangeLog(prefix, tx, start, false);
    }
  }

  lemma {:induction false} SearchIs(prefix: Bytes, tx: Tx, tx1: Tx, w: nat, draw: nat)
    requires HarmlessAll(prefix, tx.muts) && Walked(prefix, tx, tx1) && IsLatest(View(prefix, tx1), w)
    ensures var c := w + draw % WindowSize(w);
      var (tx2, o) := Search(prefix, tx1, w, draw);
      && o == (if !EncodableId(c) then Failed else if Marker(c) in View(prefix, tx) then Retry else Allocated(c))
      && (EncodableId(c) ==>
            && tx2.muts == tx1.muts + [SetEmpty(Marker(c))]
            && tx2.spans == tx1.spans + if o.Allocated? then {Point(prefix, Marker(c))} else {})
  {
    var c := Candidate(w, draw);
    SearchCandidate(prefix, tx1, w, draw);
    KeyAll(prefix, tx.base, tx.muts, Marker(c));
    KeyAll(prefix, tx1.base, tx1.muts, Marker(c));
  }

  /** The conflicts of one attempt: those of the walk, and the candidate's key, read and in the end written. */
  lemma {:induction false} AttemptConflicts(prefix: Bytes, tx: Tx, draw: nat, start: nat)
    requires StoreOk(tx.base) && HarmlessAll(prefix, tx.muts) && !tx.quiet
    requires if exists k :: k in View(prefix, tx) && k.Counter? then IsLatest(View(prefix, tx), start) else start == 0
    requires Attempt(prefix, tx, draw).1.Allocated?
    ensures var (tx2, o) := Attempt(prefix, tx, draw);
      && Walk(prefix, tx).1.Some? && EncodableId(o.id) && !tx2.quiet
      && tx2.readKeys == tx.readKeys + {Marker(o.id)}
      && tx2.spans == tx.spans + WalkSpans(prefix, start, Walk(prefix, tx).1.value, false) + {Point(prefix, Marker(o.id))}
  {
    CurrentIs(prefix, tx, start);
    var (tx1, w) := Walk(prefix, tx);
    RangeSpans(prefix, tx, start, false);
    WalkEffect(prefix, tx);
    UnreadKey(prefix, tx1, Candidate(w.value, draw));
  }

  lemma {:induction false} CurrentIs(prefix: Bytes, tx: Tx, start: nat)
    requires if exists k :: k in View(prefix, tx) && k.Counter? then IsLatest(View(prefix, tx), start) else start == 0
    ensures CurrentStart(View(prefix, tx)) == start
  {
    if exists k :: k in View(prefix, tx) && k.Counter? {
      LatestIs(View(prefix, tx), start);
    }
  }

  lemma {:induction false} CurrentIsStart(prefix: Bytes, tx: Tx)
    requires StoreOk(tx.base) && HarmlessAll(prefix, tx.muts)
    ensures IsWindowStart(CurrentStart(View(prefix, tx)))
    ensures NoneAfter(View(prefix, tx), CurrentStart(View(prefix, tx)))
  {
    var s := View(prefix, tx);
    ApplyAllOk(prefix, tx.base, tx.muts);
    if Latest(s).Some? {
      var start: nat :| IsLatest(s, start) && Latest(s) == Some(start);
    } else {
      forall k | k in s && k.Counter? ensures false {
        HasLatest(s, k.start);
      }
    }
  }

  lemma {:induction false} HasLatest(s: Store, start: nat)
    requires Counter(start) in s
    ensures exists w: nat :: IsLatest(s, w)
    decreases set k | k in s && k.Counter? && k.start > start
  {
    if !IsLatest(s, start) {
      var k :| k in s && k.Counter? && k.start > start;
      var above, higher := (set j | j in s && j.Counter? && j.start > start), (set j | j in s && j.Counter? && j.start > k.start);
      assert k in above && k !in higher && higher <= above;
      HasLatest(s, k.start);
    }
  }

  // ---------------------------------------------------------------- one attempt

  /** An identifier handed out was read as absent, with a conflict, and is about to be marked,
      with a conflict. */
  ghost predicate Guarded(prefix: Bytes, tx: Tx, id: nat) {
    && EncodableId(id)
    && id in Marks(tx.muts)
    && Marker(id) !in tx.base
    && Marker(id) in tx.readKeys
    && Point(prefix, Marker(id)) in tx.spans
  }

  predicate Distinct(ids: seq<nat>) {
    forall i, j :: 0 <= i < j < |ids| ==> ids[i] != ids[j]
  }

  ghost predicate TxOk(prefix: Bytes, tx: Tx, ids: seq<nat>) {
    && StoreOk(tx.base) && HarmlessAll(prefix, tx.muts) && Accounted(tx.muts) && !tx.quiet
    && Distinct(ids)
    && forall i :: 0 <= i < |ids| ==> Guarded(prefix, tx, ids[i])
  }

  lemma {:induction false} UnreadKey(prefix: Bytes, tx: Tx, c: nat)
    requires HarmlessAll(prefix, tx.muts) && Marker(c) !in View(prefix, tx)
    ensures Marker(c) !in tx.base && c !in Marks(tx.muts)
    ensures Marker(c) in TxRead(prefix, tx, Marker(c)).readKeys
  {
    KeyAll(prefix, tx.base, tx.muts, Marker(c));
    forall i | 0 <= i < |tx.muts|
      ensures tx.muts[i] != SetEmpty(Marker(c))
      ensures tx.muts[i].ClearRange? ==> !Covers(prefix, tx.muts[i].lo, tx.muts[i].hi, Marker(c))
    {
      assert Harmless(prefix, tx.muts[i]);
      if tx.muts[i] == SetEmpty(Marker(c)) {
        MarkedBy(tx.muts, i, c);
      }
    }
  }

  lemma {:induction false} MarkedBy(ms: seq<Mutation>, i: nat, c: nat)
    requires i < |ms| && ms[i] == SetEmpty(Marker(c))
    ensures c in Marks(ms)
  {
    if i < |ms| - 1 {
      MarkedBy(ms[..|ms| - 1], i, c);
    }
  }

  /** The mark a search leaves, whatever its outcome, is paid for by the count of its window. */
  lemma {:induction false} MarkIsPaid(tx0: Tx, tx: Tx, w: nat, c: nat)
    requires Accounted(tx0.muts) && Marks(tx.muts) == Marks(tx0.muts)
    requires (forall v :: Adds(tx0.muts, v) <= Adds(tx.muts, v)) && Adds(tx0.muts, w) < Adds(tx.muts, w)
    requires IsWindowStart(w) && InWindow(c, w)
    ensures Accounted(tx.muts + [SetEmpty(Marker(c))])
  {
    var ms := tx.muts + [SetEmpty(Marker(c))];
    Snoc(tx.muts, SetEmpty(Marker(c)));
    forall v | IsWindowStart(v) ensures |MarksIn(Marks(ms), v)| <= Adds(ms, v) {
      NewMark(Marks(tx.muts), c, v);
      WindowsTile(v, c);
      WindowsTile(w, c);
    }
  }

  lemma {:induction false} SearchCandidate(prefix: Bytes, tx: Tx, start: nat, draw: nat)
    requires IsLatest(View(prefix, tx), start)
    ensures var c := Candidate(start, draw);
      (EncodableId(c) ==>
        var k, o := Marker(c), Search(prefix, tx, start, draw);
        && (o.1 == Retry <==> k in View(prefix, tx))
        && (o.1 != Retry ==> o.1 == Allocated(c))
        && o.0.base == tx.base && !o.0.quiet
        && o.0.muts == tx.muts + [SetEmpty(k)]
        && o.0.readKeys == TxRead(prefix, tx, k).readKeys
        && tx.spans <= o.0.spans
        && o.0.spans == tx.spans + (if o.1 == Allocated(c) then {Point(prefix, k)} else {})
        && (o.1 == Allocated(c) ==> Point(prefix, k) in o.0.spans))
  {
    LatestIs(View(prefix, tx), start);
  }

  lemma {:induction false} KeepsGuard(prefix: Bytes, tx: Tx, tx1: Tx, id: nat)
    requires Guarded(prefix, tx, id)
    requires tx1.base == tx.base && tx.readKeys <= tx1.readKeys && tx.spans <= tx1.spans
    requires Marks(tx.muts) <= Marks(tx1.muts)
    ensures Guarded(prefix, tx1, id)
  {
  }

  /** The second look at the counters never finds a newer window: reads are of one version
      and see the count just written. An attempt is retried only because its candidate is
      already marked. */
  lemma {:induction false} RetryMeansTaken(prefix: Bytes, tx: Tx, draw: nat)
    requires StoreOk(tx.base) && HarmlessAll(prefix, tx.muts)
    ensures Attempt(prefix, tx, draw).1.Retry? ==>
      var (tx1, w) := Walk(prefix, tx);
      w.Some? && Marker(Candidate(w.value, draw)) in View(prefix, tx1)
  {
    WalkEffect(prefix, tx);
    var (tx1, w) := Walk(prefix, tx);
    if w.Some? {
      SearchCandidate(prefix, tx1, w.value, draw);
    }
  }

  lemma {:induction false} WalkEffect(prefix: Bytes, tx: Tx)
    requires StoreOk(tx.base) && HarmlessAll(prefix, tx.muts)
    ensures var (tx1, w) := Walk(prefix, tx);
      Walked(prefix, tx, tx1) && (w.Some? ==> Settled(prefix, tx, tx1, w.value))
  {
    CurrentIsStart(prefix, tx);
    RangeEffect(prefix, tx, CurrentStart(View(prefix, tx)), false);
  }

  /** Every attempt, successful or not, keeps the transaction accounted for and its
      identifiers guarded and distinct. */
  lemma {:induction false} AttemptKeepsOk(prefix: Bytes, tx: Tx, ids: seq<nat>, draw: nat)
    requires TxOk(prefix, tx, ids)
    ensures var (tx1, o) := Attempt(prefix, tx, draw);
      tx1.base == tx.base && TxOk(prefix, tx1, if o.Allocated? then ids + [o.id] else ids)
  {
    WalkEffect(prefix, tx);
    var (tx1, w) := Walk(prefix, tx);
    WalkKeepsOk(prefix, tx, tx1, ids);
    if w.Some? {
      SearchKeepsOk(prefix, tx, tx1, ids, w.value, draw);
    }
  }

  /** Every candidate marked in a transaction is one of its identifiers or was marked before. */
  ghost predicate Given(tx: Tx, ids: seq<nat>) {
    forall c :: c in Marks(tx.muts) ==> c in ids || Marker(c) in tx.base
  }

  lemma {:induction false} AttemptKeepsGiven(prefix: Bytes, tx: Tx, ids: seq<nat>, draw: nat)
    requires TxOk(prefix, tx, ids) && Given(tx, ids)
    ensures var (tx1, o) := Attempt(prefix, tx, draw);
      Given(tx1, if o.Allocated? then ids + [o.id] else ids)
  {
    WalkEffect(prefix, tx);
    var (tx1, w) := Walk(prefix, tx);
    if w.Some? {
      SearchKeepsGiven(prefix, tx1, ids, w.value, draw);
    }
  }

  lemma {:induction false} SearchKeepsGiven(prefix: Bytes, tx: Tx, ids: seq<nat>, w: nat, draw: nat)
    requires HarmlessAll(prefix, tx.muts) && Given(tx, ids) && IsLatest(View(prefix, tx), w)
    ensures var (tx1, o) := Search(prefix, tx, w, draw);
      Given(tx1, if o.Allocated? then ids + [o.id] else ids)
  {
    var c := Candidate(w, draw);
    SearchCandidate(prefix, tx, w, draw);
    if EncodableId(c) {
      KeyAll(prefix, tx.base, tx.muts, Marker(c));
      Snoc(tx.muts, SetEmpty(Marker(c)));
    }
  }

  lemma {:induction false} WalkKeepsOk(prefix: Bytes, tx: Tx, tx1: Tx, ids: seq<nat>)
    requires TxOk(prefix, tx, ids) && Walked(prefix, tx, tx1)
    ensures TxOk(prefix, tx1, ids)
  {
    forall i | 0 <= i < |ids| ensures Guarded(prefix, tx1, ids[i]) {
      KeepsGuard(prefix, tx, tx1, ids[i]);
    }
  }

  lemma {:induction false} SearchKeepsOk(prefix: Bytes, tx0: Tx, tx: Tx, ids: seq<nat>, w: nat, draw: nat)
    requires TxOk(prefix, tx0, ids) && TxOk(prefix, tx, ids)
    requires Walked(prefix, tx0, tx) && Settled(prefix, tx0, tx, w)
    ensures var (tx1, o) := Search(prefix, tx, w, draw);
      tx1.base == tx.base && TxOk(prefix, tx1, if o.Allocated? then ids + [o.id] else ids)
  {
    var c := Candidate(w, draw);
    SearchCandidate(prefix, tx, w, draw);
    if EncodableId(c) {
      var r := Search(prefix, tx, w, draw);
      MarkIsPaid(tx0, tx, w, c);
      MarkedOk(prefix, tx, r.0, ids, c);
      if r.1 == Allocated(c) {
        UnreadKey(prefix, tx, c);
        OneMoreId(prefix, tx, r.0, ids, c);
      }
    }
  }

  /** Marking a candidate keeps the identifiers guarded that were. */
  lemma {:induction false} MarkedOk(prefix: Bytes, tx: Tx, tx1: Tx, ids: seq<nat>, c: nat)
    requires TxOk(prefix, tx, ids) && EncodableId(c) && Accounted(tx.muts + [SetEmpty(Marker(c))])
    requires tx1.base == tx.base && !tx1.quiet && tx1.muts == tx.muts + [SetEmpty(Marker(c))]
    requires tx1.readKeys == TxRead(prefix, tx, Marker(c)).readKeys && tx.spans <= tx1.spans
    ensures TxOk(prefix, tx1, ids) && c in Marks(tx1.muts)
  {
    SnocHarmless(prefix, tx.muts, SetEmpty(Marker(c)));
    Snoc(tx.muts, SetEmpty(Marker(c)));
    forall i | 0 <= i < |ids| ensures Guarded(prefix, tx1, ids[i]) {
      KeepsGuard(prefix, tx, tx1, ids[i]);
    }
  }

  /** And an identifier read as free, marked and guarded by a conflict key is one more. */
  lemma {:induction false} OneMoreId(prefix: Bytes, tx: Tx, tx1: Tx, ids: seq<nat>, c: nat)
    requires TxOk(prefix, tx, ids) && TxOk(prefix, tx1, ids) && Guarded(prefix, tx1, c)
    requires c !in Marks(tx.muts)
    ensures TxOk(prefix, tx1, ids + [c])
  {
    forall i | 0 <= i < |ids| ensures ids[i] != c {
      assert Guarded(prefix, tx, ids[i]);
    }
  }
}
