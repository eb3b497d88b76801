/** erlfdb_hca as it runs: step by step on a transaction object. */
module Hca {
  import opened Options
  import opened ByteStrings
  import opened Terms
  import opened TupleEncode
  import opened HcaKeys
  import opened HcaModel

  /** The transaction handle: what libfdb_c does with the calls the allocator makes. */
  class Transaction {
    const prefix: Bytes
    const base: Store
    var muts: seq<Mutation>
    var readKeys: set<Key>
    var spans: set<(Bytes, Bytes)>
    var quiet: bool

    function Value(): Tx
      reads this
    {
      Tx(base, muts, readKeys, spans, quiet)
    }

    /** Every key of the database, and every key written, has bytes. */
    predicate Valid()
      reads this
    {
      Sound(base) && KeysEncodable(muts)
    }

    constructor (prefix: Bytes, base: Store)
      requires Sound(base)
      ensures Valid() && this.prefix == prefix && Value() == NewTx(base)
    {
      this.prefix, this.base := prefix, base;
      muts, readKeys, spans, quiet := [], {}, {}, false;
    }

    method Add(k: Key)
      requires Valid() && EncodableKey(k)
      modifies this
      ensures Valid() && Value() == TxAdd(prefix, old(Value()), k)
    {
      if !quiet {
        spans := spans + {Point(prefix, k)};
      }
      muts := muts + [AddOne(k)];
      quiet := false;
    }

    method Set(k: Key)
      requires Valid() && EncodableKey(k)
      modifies this
      ensures Valid() && Value() == TxSet(prefix, old(Value()), k)
    {
      if !quiet {
        spans := spans + {Point(prefix, k)};
      }
      muts := muts + [SetEmpty(k)];
      quiet := false;
    }

    method ClearRange(lo: Bytes, hi: Bytes)
      requires Valid()
      modifies this
      ensures Valid() && Value() == TxClearRange(old(Value()), lo, hi)
    {
      if !quiet {
        spans := spans + {(lo, hi)};
      }
      muts := muts + [Mutation.ClearRange(lo, hi)];
      quiet := false;
    }

    /** `set_option(Tx, next_write_no_write_conflict_range)`. */
    method NextWriteNoConflict()
      modifies this`quiet
      ensures Value() == old(Value()).(quiet := true)
    {
      quiet := true;
    }

    method AddWriteConflictKey(k: Key)
      requires EncodableKey(k)
      modifies this`spans
      ensures Value() == old(Value()).(spans := old(spans) + {Point(prefix, k)})
    {
      spans := spans + {Point(prefix, k)};
    }

    /** `get_ss`. */
    method GetSnapshot(k: Key) returns (value: Option<nat>)
      ensures value == if k in View(prefix, Value()) then Some(View(prefix, Value())[k]) else None
    {
      var view := View(prefix, Value());
      value := if k in view then Some(view[k]) else None;
    }

    /** `get`. */
    method Get(k: Key) returns (found: bool)
      modifies this`readKeys
      ensures Value() == TxRead(prefix, old(Value()), k)
      ensures found <==> k in View(prefix, Value())
    {
      found := k in View(prefix, Value());
      if !Overwritten(prefix, Value(), k) {
        readKeys := readKeys + {k};
      }
    }

    /** `get_range` with a limit of 1, reversed, at snapshot isolation. */
    method GetLast(lo: Bytes, hi: Bytes) returns (row: Option<Key>)
      ensures IsLastRow(prefix, View(prefix, Value()), lo, hi, row)
    {
      var view := View(prefix, Value());
      if k :| k in view && Covers(prefix, lo, hi, k) {
        LastRowExists(prefix, view, lo, hi, k);
        var g :| g in view && IsLastRow(prefix, view, lo, hi, Some(g));
        row := Some(g);
      } else {
        row := None;
      }
    }
  }

  predicate KeysEncodable(ms: seq<Mutation>) {
    forall i :: 0 <= i < |ms| ==> ms[i].ClearRange? || EncodableKey(ms[i].key)
  }

  lemma {:induction false} ViewSound(prefix: Bytes, s: Store, ms: seq<Mutation>)
    requires Sound(s) && KeysEncodable(ms)
    ensures Sound(ApplyAll(prefix, s, ms))
  {
    if ms != [] {
      ViewSound(prefix, s, ms[..|ms| - 1]);
      ApplySound(prefix, ApplyAll(prefix, s, ms[..|ms| - 1]), ms[|ms| - 1]);
    }
  }

  lemma {:induction false} ApplySound(prefix: Bytes, s: Store, m: Mutation)
    requires Sound(s) && (m.ClearRange? || EncodableKey(m.key))
    ensures Sound(Apply(prefix, s, m))
  {
  }

  /** A finite database has a greatest row in any range that has one at all. */
  lemma {:induction false} LastRowExists(prefix: Bytes, s: Store, lo: Bytes, hi: Bytes, k: Key)
    requires k in s && Covers(prefix, lo, hi, k)
    ensures exists g :: g in s && IsLastRow(prefix, s, lo, hi, Some(g))
  {
    var rows := set j | j in s && Covers(prefix, lo, hi, j) :: KeyBytes(prefix, j);
    assert KeyBytes(prefix, k) in rows;
    var m := GreatestExists(rows);
    var g :| g in s && Covers(prefix, lo, hi, g) && KeyBytes(prefix, g) == m;
    assert IsLastRow(prefix, s, lo, hi, Some(g));
  }

  // ---------------------------------------------------------------- erlfdb_hca

  lemma {:induction false} RowIsLatest(prefix: Bytes, s: Store, row: Option<Key>)
    requires Sound(s) && IsLastRow(prefix, s, CounterRange(prefix).0, CounterRange(prefix).1, row)
    ensures row.None? ==> forall k :: k in s ==> !k.Counter?
    ensures row.Some? ==> row.value.Counter? && row.value in s && forall k :: k in s && k.Counter? ==> k.start <= row.value.start
  {
    CounterRows(prefix, s);
    if row.Some? {
      forall k | k in s && k.Counter? ensures k.start <= row.value.start {
        assert IsCounterRow(prefix, k);
        LaterRowLaterStart(prefix, k, row.value);
      }
    } else {
      forall k | k in s ensures !k.Counter? {
        assert IsCounterRow(prefix, k) <==> k.Counter?;
      }
    }
  }

  /** The start of the latest window, from the one row of a reverse scan. */
  method ReadCurrentStart(tx: Transaction) returns (start: nat)
    requires tx.Valid()
    ensures start == CurrentStart(View(tx.prefix, tx.Value()))
    ensures var view := View(tx.prefix, tx.Value());
      if exists k :: k in view && k.Counter? then
        Counter(start) in view && forall k :: k in view && k.Counter? ==> k.start <= start
      else start == 0
  {
    var range := CounterRange(tx.prefix);
    var row := tx.GetLast(range.0, range.1);
    ViewSound(tx.prefix, tx.base, tx.muts);
    LastCounterRow(tx.prefix, View(tx.prefix, tx.Value()), row);
    RowIsLatest(tx.prefix, View(tx.prefix, tx.Value()), row);
    match row {
      case None => start := 0;
      case Some(k) => start := k.start;
    }
  }

  method ClearPreviousWindow(tx: Transaction, start: nat)
    requires tx.Valid() && EncodableId(start)
    modifies tx
    ensures tx.Valid() && tx.Value() == ClearPrevious(tx.prefix, old(tx.Value()), start)
    ensures EncodableAll([Int(0), Int(start)]) && EncodableAll([Int(1), Int(start)])
    ensures var counter, recent := Pack([Int(0), Int(start)], tx.prefix).value, Pack([Int(1), Int(start)], tx.prefix).value;
      && tx.muts == old(tx.muts) + [Mutation.ClearRange(counter + [0x00], counter + [0xFF]), Mutation.ClearRange(recent + [0x00], recent + [0xFF])]
      && tx.spans == old(tx.spans) + (if old(tx.quiet) then {} else {(counter + [0x00], counter + [0xFF])})
      && tx.readKeys == old(tx.readKeys) && !tx.quiet
  {
    SmallIdsEncodable();
    WindowRangeIs(tx.prefix, start);
    var c, r := WindowRange(tx.prefix, COUNTERS, start), WindowRange(tx.prefix, RECENT, start);
    tx.ClearRange(c.0, c.1);
    tx.NextWriteNoConflict();
    tx.ClearRange(r.0, r.1);
  }

  method FindWindow(tx: Transaction, start: nat, advanced: bool) returns (window: Option<nat>)
    requires tx.Valid()
    modifies tx
    ensures tx.Valid() && (tx.Value(), window) == RangeFrom(tx.prefix, old(tx.Value()), start, advanced)
    decreases IdCeiling() - start
  {
    if !EncodableId(start) {
      return None;
    }
    if advanced {
      ClearPreviousWindow(tx, start);
    }
    tx.Add(Counter(start));
    var value := tx.GetSnapshot(Counter(start));
    var count := match value case Some(c) => c case None => 0;
    if count * 2 < WindowSize(start) {
      window := Some(start);
    } else {
      window := FindWindow(tx, start + WindowSize(start), true);
    }
  }

  method SearchCandidate(tx: Transaction, start: nat, draw: nat) returns (o: Outcome)
    requires tx.Valid()
    modifies tx
    ensures tx.Valid() && (tx.Value(), o) == Search(tx.prefix, old(tx.Value()), start, draw)
  {
    var candidate := Candidate(start, draw);
    if !EncodableId(candidate) {
      return Failed;
    }
    var range := CounterRange(tx.prefix);
    var row := tx.GetLast(range.0, range.1);
    ViewSound(tx.prefix, tx.base, tx.muts);
    LastCounterRow(tx.prefix, View(tx.prefix, tx.Value()), row);
    var taken := tx.Get(Marker(candidate));
    tx.NextWriteNoConflict();
    tx.Set(Marker(candidate));
    if row.Some? && row.value.start != start {
      return Retry;
    }
    if taken {
      return Retry;
    }
    tx.AddWriteConflictKey(Marker(candidate));
    o := Allocated(candidate);
  }

  /** The function `allocate/2` hands to `transactional`. */
  method AllocateOnce(tx: Transaction, draw: nat) returns (o: Outcome)
    requires tx.Valid()
    modifies tx
    ensures tx.Valid() && (tx.Value(), o) == Attempt(tx.prefix, old(tx.Value()), draw)
  {
    var start := ReadCurrentStart(tx);
    var window := FindWindow(tx, start, false);
    match window {
      case None => o := Failed;
      case Some(w) => o := SearchCandidate(tx, w, draw);
    }
  }
}
