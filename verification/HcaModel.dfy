/** The allocator as a function of a transaction: what erlfdb_hca reads, writes and returns. */
module HcaModel {
  import opened Options
  import opened ByteStrings
  import opened HcaKeys

  // ---------------------------------------------------------------- windows

  /** `window_size/1`. */
  function WindowSize(start: nat): (size: nat)
    ensures size > 0
  {
    if start < 255 then 64 else if start < 65535 then 1024 else 8192
  }

  /** The starts `range/4` can reach from 0 by stepping over whole windows. */
  predicate IsWindowStart(s: nat) {
    || (s <= 256 && s % 64 == 0)
    || (256 <= s <= 65792 && (s - 256) % 1024 == 0)
    || (65792 <= s && (s - 65792) % 8192 == 0)
  }

  predicate InWindow(c: nat, start: nat) {
    start <= c < start + WindowSize(start)
  }

  /** The start of the window a candidate belongs to. */
  function WindowOf(c: nat): (s: nat)
    ensures IsWindowStart(s) && InWindow(c, s)
  {
    if c < 256 then c - c % 64
    else if c < 65792 then c - (c - 256) % 1024
    else c - (c - 65792) % 8192
  }

  /** Window starts tile the naturals: the next start follows the last candidate of a window,
      and every number lies in exactly one window. */
  lemma {:induction false} WindowsTile(s: nat, c: nat)
    requires IsWindowStart(s)
    ensures IsWindowStart(s + WindowSize(s))
    ensures InWindow(c, s) <==> WindowOf(c) == s
  {
    if InWindow(c, s) {
      if s < 255 {
        assert c / 64 == s / 64;
      } else if s < 65535 {
        assert (c - 256) / 1024 == (s - 256) / 1024;
      } else {
        assert (c - 65792) / 8192 == (s - 65792) / 8192;
      }
    }
  }

  /** The window of every candidate is of the size its number tells. */
  lemma {:induction false} SizesByCandidate(s: nat, c: nat)
    requires IsWindowStart(s) && InWindow(c, s)
    ensures WindowSize(s) == if c < 256 then 64 else if c < 65792 then 1024 else 8192
  {
    WindowsTile(s, c);
  }

  // ---------------------------------------------------------------- the store

  /** Counters hold little-endian 64-bit numbers, markers the empty value, written 0 here. */
  type Store = map<Key, nat>

  const WORD: nat := 0x1_0000_0000_0000_0000

  datatype Mutation = SetEmpty(key: Key) | AddOne(key: Key) | ClearRange(lo: Bytes, hi: Bytes)

  predicate Covers(prefix: Bytes, lo: Bytes, hi: Bytes, k: Key) {
    EncodableKey(k) && InRange(KeyBytes(prefix, k), lo, hi)
  }

  /** Adding one to a 64-bit number. */
  function Increment(n: nat): nat {
    if n + 1 == WORD then 0 else n + 1
  }

  /** What the database does with a mutation; an atomic add to nothing stores its operand. */
  function Apply(prefix: Bytes, s: Store, m: Mutation): Store {
    match m
    case SetEmpty(k) => s[k := 0]
    case AddOne(k) => s[k := if k in s then Increment(s[k]) else 1]
    case ClearRange(lo, hi) => map k | k in s && !Covers(prefix, lo, hi, k) :: s[k]
  }

  function ApplyAll(prefix: Bytes, s: Store, ms: seq<Mutation>): Store {
    if ms == [] then s
    else Apply(prefix, ApplyAll(prefix, s, ms[..|ms| - 1]), ms[|ms| - 1])
  }

  // ---------------------------------------------------------------- a transaction

  /** The database as of the read version, the mutations so far, the keys read and the key
      ranges written for conflict checking, and whether the next write leaves the latter out. */
  datatype Tx = Tx(base: Store, muts: seq<Mutation>, readKeys: set<Key>, spans: set<(Bytes, Bytes)>, quiet: bool)

  function NewTx(base: Store): Tx {
    Tx(base, [], {}, {}, false)
  }

  /** Reads see the transaction's own writes. */
  function View(prefix: Bytes, tx: Tx): Store {
    ApplyAll(prefix, tx.base, tx.muts)
  }

  /** The key range `[key, key 00)`. */
  function Point(prefix: Bytes, k: Key): (Bytes, Bytes)
    requires EncodableKey(k)
  {
    (KeyBytes(prefix, k), KeyBytes(prefix, k) + [0])
  }

  function Write(tx: Tx, m: Mutation, span: (Bytes, Bytes)): Tx {
    tx.(muts := tx.muts + [m], spans := if tx.quiet then tx.spans else tx.spans + {span}, quiet := false)
  }

  function TxSet(prefix: Bytes, tx: Tx, k: Key): Tx
    requires EncodableKey(k)
  {
    Write(tx, SetEmpty(k), Point(prefix, k))
  }

  function TxAdd(prefix: Bytes, tx: Tx, k: Key): Tx
    requires EncodableKey(k)
  {
    Write(tx, AddOne(k), Point(prefix, k))
  }

  function TxClearRange(tx: Tx, lo: Bytes, hi: Bytes): Tx {
    Write(tx, ClearRange(lo, hi), (lo, hi))
  }

  /** A key whose value no longer depends on the database. */
  predicate Overwritten(prefix: Bytes, tx: Tx, k: Key) {
    exists i :: 0 <= i < |tx.muts| &&
      (tx.muts[i] == SetEmpty(k) || (tx.muts[i].ClearRange? && Covers(prefix, tx.muts[i].lo, tx.muts[i].hi, k)))
  }

  /** The conflict a plain `get` leaves behind: none for a key the transaction wrote itself. */
  function TxRead(prefix: Bytes, tx: Tx, k: Key): Tx {
    if Overwritten(prefix, tx, k) then tx else tx.(readKeys := tx.readKeys + {k})
  }

  // ---------------------------------------------------------------- erlfdb_hca

  /** The row a reverse read with limit 1 returns. */
  predicate IsLastRow(prefix: Bytes, s: Store, lo: Bytes, hi: Bytes, row: Option<Key>) {
    match row
    case None => forall k :: k in s ==> !Covers(prefix, lo, hi, k)
    case Some(k) =>
      && k in s && Covers(prefix, lo, hi, k)
      && forall j :: j in s && Covers(prefix, lo, hi, j) ==> Lex(KeyBytes(prefix, j), KeyBytes(prefix, k)) <= 0
  }

  predicate IsLatest(s: Store, start: nat) {
    Counter(start) in s && forall k :: k in s && k.Counter? ==> k.start <= start
  }

  ghost function Latest(s: Store): Option<nat> {
    if start: nat :| IsLatest(s, start) then Some(start) else None
  }

  /** Every key the database holds can be written as bytes. */
  predicate Sound(s: Store) {
    forall k :: k in s ==> EncodableKey(k)
  }

  predicate IsCounterRow(prefix: Bytes, k: Key) {
    Covers(prefix, CounterRange(prefix).0, CounterRange(prefix).1, k)
  }

  lemma {:induction false} CounterRows(prefix: Bytes, s: Store)
    requires Sound(s)
    ensures forall k :: k in s ==> (IsCounterRow(prefix, k) <==> k.Counter?)
  {
    forall k | k in s ensures IsCounterRow(prefix, k) <==> k.Counter? {
      CounterRangeIsExact(prefix, k);
    }
  }

  lemma {:induction false} LaterRowLaterStart(prefix: Bytes, j: Key, k: Key)
    requires EncodableKey(j) && EncodableKey(k) && j.Counter? && k.Counter?
    requires Lex(KeyBytes(prefix, j), KeyBytes(prefix, k)) <= 0
    ensures j.start <= k.start
  {
    CounterOrder(prefix, j.start, k.start);
  }

  lemma {:induction false} LatestIs(s: Store, start: nat)
    requires IsLatest(s, start)
    ensures Latest(s) == Some(start)
  {
  }

  /** The reverse scan of the counter range finds the numerically greatest window start. */
  lemma {:induction false} LastCounterRow(prefix: Bytes, s: Store, row: Option<Key>)
    requires Sound(s)
    requires IsLastRow(prefix, s, CounterRange(prefix).0, CounterRange(prefix).1, row)
    ensures row == match Latest(s) case None => None case Some(start) => Some(Counter(start))
  {
    CounterRows(prefix, s);
    match row
    case None =>
      forall start: nat ensures !IsLatest(s, start) {
        assert Counter(start) in s ==> IsCounterRow(prefix, Counter(start));
      }
    case Some(k) =>
      assert IsCounterRow(prefix, k);
      forall j | j in s && j.Counter? ensures j.start <= k.start {
        assert IsCounterRow(prefix, j);
        LaterRowLaterStart(prefix, j, k);
      }
      LatestIs(s, k.start);
  }

  /** `current_start/2`. */
  ghost function CurrentStart(s: Store): nat {
    match Latest(s) case None => 0 case Some(start) => start
  }

  /** `clear_previous_window/3`: only the second of the two ranges is kept out of the
      conflict ranges. */
  function ClearPrevious(prefix: Bytes, tx: Tx, start: nat): Tx
    requires EncodableId(start)
  {
    SmallIdsEncodable();
    var c, r := WindowRange(prefix, COUNTERS, start), WindowRange(prefix, RECENT, start);
    TxClearRange(TxClearRange(tx, c.0, c.1).(quiet := true), r.0, r.1)
  }

  function BumpWindow(prefix: Bytes, tx: Tx, start: nat, advanced: bool): Tx
    requires EncodableId(start)
  {
    TxAdd(prefix, if advanced then ClearPrevious(prefix, tx, start) else tx, Counter(start))
  }

  function CountIn(s: Store, start: nat): nat {
    if Counter(start) in s then s[Counter(start)] else 0
  }

  ghost predicate AboveIds(bound: nat) {
    forall n: nat :: EncodableId(n) ==> n < bound
  }

  lemma {:induction false} IdsAreBounded()
    ensures exists bound: nat :: AboveIds(bound)
  {
    forall n: nat | EncodableId(n) ensures n < Pow256(255) {
      Pow256Monotone(|EncodeUnsigned(n)|, 255);
    }
    assert AboveIds(Pow256(255));
  }

  /** Integers of at most 255 bytes are bounded, so stepping from window to window ends. */
  ghost function IdCeiling(): (bound: nat)
    ensures AboveIds(bound)
  {
    IdsAreBounded();
    var bound: nat :| AboveIds(bound);
    bound
  }

  /** `range/4`: the first window, from `start` on, that is less than half used. `None` is
      the error of packing an integer of more than 255 bytes. */
  function RangeFrom(prefix: Bytes, tx: Tx, start: nat, advanced: bool): (Tx, Option<nat>)
    decreases IdCeiling() - start
  {
    if !EncodableId(start) then (tx, None)
    else
      var tx1 := BumpWindow(prefix, tx, start, advanced);
      if CountIn(View(prefix, tx1), start) * 2 < WindowSize(start) then (tx1, Some(start))
      else RangeFrom(prefix, tx1, start + WindowSize(start), true)
  }

  datatype Outcome = Allocated(id: nat) | Retry | Failed

  /** `draw` stands for the random number. */
  function Candidate(start: nat, draw: nat): (c: nat)
    ensures InWindow(c, start)
  {
    start + draw % WindowSize(start)
  }

  /** `search_candidate/3`. */
  ghost function Search(prefix: Bytes, tx: Tx, start: nat, draw: nat): (Tx, Outcome) {
    var candidate := Candidate(start, draw);
    if !EncodableId(candidate) then (tx, Failed)
    else
      var k := Marker(candidate);
      var taken := k in View(prefix, tx);
      var latest := Latest(View(prefix, tx));
      var tx1 := TxSet(prefix, TxRead(prefix, tx, k).(quiet := true), k);
      if latest.Some? && latest.value != start then (tx1, Retry)
      else if taken then (tx1, Retry)
      else (tx1.(spans := tx1.spans + {Point(prefix, k)}), Allocated(candidate))
  }

  /** The window the latest counter leads to. */
  ghost function Walk(prefix: Bytes, tx: Tx): (Tx, Option<nat>) {
    RangeFrom(prefix, tx, CurrentStart(View(prefix, tx)), false)
  }

  /** The function `allocate/2` runs; it is run again in the same transaction on `Retry`. */
  ghost function Attempt(prefix: Bytes, tx: Tx, draw: nat): (Tx, Outcome) {
    var (tx1, window) := Walk(prefix, tx);
    match window
    case None => (tx1, Failed)
    case Some(start) => Search(prefix, tx1, start, draw)
  }
}
