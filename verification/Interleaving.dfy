/** Waiting for many reads at once (wait_and_apply, folding_apply and
    wait_for_all_interleaving of erlfdb), and get_range on top of it. */
module Interleaving {
  import opened Options
  import opened ByteStrings
  import opened Keys
  import opened Batching
  import opened Paging

  /** What a future that is not a fold, or a value in its place, comes to. */
  datatype Result = Listing(rows: seq<Row>) | Scalar(token: nat)

  datatype Source = Fold(st: FoldSt) | Plain(result: Result)

  /** The term a fold state is found by: its first future, or the item itself. */
  datatype Ref = FutureRef(n: nat) | ValueRef(value: Result)

  /** A `#fold_st{}` with the future that is out for it. */
  datatype Pending = Pending(from: Ref, idx: nat, source: Source)

  /** An element of the accumulator tuple: pages newest first, or a single value. */
  datatype Slot = Chunks(chunks: seq<seq<Row>>) | Single(token: nat)

  /** `Fun` of `wait_for_all_interleaving`. */
  function Put(acc: seq<Slot>, idx: nat, r: Result): (acc': seq<Slot>)
    requires idx < |acc|
    ensures |acc'| == |acc|
  {
    match r
    case Listing(l) => acc[idx := Chunks([l] + if acc[idx].Chunks? then acc[idx].chunks else [])]
    case Scalar(t) => acc[idx := Single(t)]
  }

  /** Where `lists:keyfind(From, #fold_st.from, Sts)` stops. */
  function Position(sts: seq<Pending>, from: Ref): (p: nat)
    ensures p <= |sts| && (p < |sts| ==> sts[p].from == from)
    ensures forall i :: 0 <= i < p ==> sts[i].from != from
  {
    if sts == [] || sts[0].from == from then 0 else 1 + Position(sts[1..], from)
  }

  function RemoveAt<T>(s: seq<T>, p: nat): seq<T>
    requires p < |s|
  {
    s[..p] + s[p + 1..]
  }

  predicate InBounds(sts: seq<Pending>, acc: seq<Slot>) {
    forall p :: 0 <= p < |sts| ==> sts[p].idx < |acc|
  }

  /** One future of the fold: its result, the states it leaves and the slots it fills. */
  function ProcessOne(rows: seq<Row>, server: Server, ff: Pending, sts: seq<Pending>, acc: seq<Slot>)
    : (r: (seq<Pending>, seq<Slot>))
    requires ServerOk(rows, server) && InBounds(sts, acc) && ff.idx < |acc|
    requires Position(sts, ff.from) < |sts|
    ensures InBounds(r.0, r.1) && |r.1| == |acc|
  {
    var p := Position(sts, ff.from);
    match ff.source
    case Plain(result) => (RemoveAt(sts, p), Put(acc, sts[p].idx, result))
    case Fold(st) =>
      match FoldRound(rows, server, st)
      case Done(page) => (RemoveAt(sts, p), Put(acc, sts[p].idx, Listing(page)))
      case More(page, next) => (sts[p := ff.(source := Fold(next))], Put(acc, ff.idx, Listing(page)))
  }

  // ---------------------------------------------------------------- keys of the states

  /** States share a reference only if they stand for the same finished value. */
  predicate Agree(a: Pending, b: Pending) {
    a.from == b.from ==> a.source == b.source && a.source.Plain?
  }

  predicate Consistent(sts: seq<Pending>) {
    forall p, q :: 0 <= p < q < |sts| ==> Agree(sts[p], sts[q])
  }

  function CountFrom(sts: seq<Pending>, from: Ref): nat {
    if sts == [] then 0 else (if sts[0].from == from then 1 else 0) + CountFrom(sts[1..], from)
  }

  predicate SameState(a: Pending, b: Pending) {
    a.from == b.from ==> a.source == b.source && (a.source.Fold? ==> a.idx == b.idx)
  }

  /** The futures still to be waited for find their states, and find them unchanged. */
  ghost predicate Matched(ffs: seq<Pending>, sts: seq<Pending>) {
    && (forall from :: CountFrom(ffs, from) <= CountFrom(sts, from))
    && (forall i, p :: 0 <= i < |ffs| && 0 <= p < |sts| ==> SameState(ffs[i], sts[p]))
  }

  lemma {:induction false} SelfMatched(sts: seq<Pending>)
    requires Consistent(sts)
    ensures Matched(sts, sts)
  {
    forall i, p | 0 <= i < |sts| && 0 <= p < |sts| ensures SameState(sts[i], sts[p]) {
      if i < p {
        assert Agree(sts[i], sts[p]);
      } else if p < i {
        assert Agree(sts[p], sts[i]);
      }
    }
  }

  lemma {:induction false} CountedIsFound(sts: seq<Pending>, from: Ref)
    requires CountFrom(sts, from) > 0
    ensures Position(sts, from) < |sts|
  {
    if sts[0].from != from {
      CountedIsFound(sts[1..], from);
    }
  }

  lemma {:induction false} MatchedIsFound(ffs: seq<Pending>, sts: seq<Pending>)
    requires ffs != [] && Matched(ffs, sts)
    ensures Position(sts, ffs[0].from) < |sts|
    ensures sts[Position(sts, ffs[0].from)].source == ffs[0].source
    ensures ffs[0].source.Fold? ==> sts[Position(sts, ffs[0].from)].idx == ffs[0].idx
  {
    assert CountFrom(ffs, ffs[0].from) <= CountFrom(sts, ffs[0].from);
    CountedIsFound(sts, ffs[0].from);
    assert SameState(ffs[0], sts[Position(sts, ffs[0].from)]);
  }

  lemma {:induction false} CountAt(sts: seq<Pending>, p: nat, s: Pending, from: Ref)
    requires p < |sts|
    ensures CountFrom(RemoveAt(sts, p), from) == CountFrom(sts, from) - if sts[p].from == from then 1 else 0
    ensures s.from == sts[p].from ==> CountFrom(sts[p := s], from) == CountFrom(sts, from)
  {
    if p == 0 {
      assert RemoveAt(sts, 0) == sts[1..] == sts[0 := s][1..];
    } else {
      CountAt(sts[1..], p - 1, s, from);
      assert RemoveAt(sts, p)[1..] == RemoveAt(sts[1..], p - 1);
      assert sts[p := s][1..] == sts[1..][p - 1 := s];
    }
  }

  lemma {:induction false} RemovedKeepsKeys(ffs: seq<Pending>, sts: seq<Pending>, p: nat)
    requires ffs != [] && Consistent(sts) && Matched(ffs, sts) && p < |sts| && sts[p].from == ffs[0].from
    ensures Consistent(RemoveAt(sts, p)) && Matched(ffs[1..], RemoveAt(sts, p))
  {
    var sts' := RemoveAt(sts, p);
    assert forall q :: 0 <= q < |sts'| ==> sts'[q] == sts[if q < p then q else q + 1];
    forall from ensures CountFrom(ffs[1..], from) <= CountFrom(sts', from) {
      assert CountFrom(ffs, from) <= CountFrom(sts, from);
      CountAt(sts, p, sts[p], from);
    }
  }

  lemma {:induction false} ReplacedKeepsKeys(ffs: seq<Pending>, sts: seq<Pending>, p: nat, s: Pending)
    requires ffs != [] && Consistent(ffs) && Consistent(sts) && Matched(ffs, sts)
    requires p < |sts| && s.from == sts[p].from == ffs[0].from && sts[p].source.Fold? && ffs[0].source.Fold?
    ensures Consistent(sts[p := s]) && Matched(ffs[1..], sts[p := s])
  {
    ReplacedConsistent(sts, p, s);
    forall from ensures CountFrom(ffs[1..], from) <= CountFrom(sts[p := s], from) {
      assert CountFrom(ffs, from) <= CountFrom(sts, from);
      CountAt(sts, p, s, from);
    }
    forall i | 0 <= i < |ffs[1..]| ensures SameState(ffs[1..][i], s) {
      assert Agree(ffs[0], ffs[i + 1]);
    }
  }

  lemma {:induction false} ProcessKeepsKeys(rows: seq<Row>, server: Server, ffs: seq<Pending>, sts: seq<Pending>, acc: seq<Slot>)
    requires ServerOk(rows, server) && InBounds(sts, acc) && InBounds(ffs, acc)
    requires ffs != [] && Consistent(ffs) && Consistent(sts) && Matched(ffs, sts)
    requires Position(sts, ffs[0].from) < |sts|
    ensures Consistent(ffs[1..])
    ensures var (sts', _) := ProcessOne(rows, server, ffs[0], sts, acc);
      Consistent(sts') && Matched(ffs[1..], sts')
  {
    var p := Position(sts, ffs[0].from);
    MatchedIsFound(ffs, sts);
    var (sts', _) := ProcessOne(rows, server, ffs[0], sts, acc);
    if |sts'| == |sts| {
      ReplacedKeepsKeys(ffs, sts, p, sts'[p]);
    } else {
      RemovedKeepsKeys(ffs, sts, p);
    }
  }

  lemma {:induction false} ReplacedConsistent(sts: seq<Pending>, p: nat, s: Pending)
    requires Consistent(sts) && p < |sts| && s.from == sts[p].from && sts[p].source.Fold?
    ensures Consistent(sts[p := s])
  {
    forall q | 0 <= q < |sts| && q != p ensures sts[q].from != s.from {
      assert Agree(sts[if p < q then p else q], sts[if p < q then q else p]);
    }
  }

  // ---------------------------------------------------------------- termination

  function Weight(rows: seq<Row>, s: Source): nat {
    match s
    case Fold(st) => 1 + |Rest(rows, st)|
    case Plain(_) => 1
  }

  function Work(rows: seq<Row>, sts: seq<Pending>): nat {
    if sts == [] then 0 else Weight(rows, sts[0].source) + Work(rows, sts[1..])
  }

  lemma {:induction false} WorkAt(rows: seq<Row>, sts: seq<Pending>, p: nat, s: Pending)
    requires p < |sts|
    ensures Work(rows, RemoveAt(sts, p)) == Work(rows, sts) - Weight(rows, sts[p].source)
    ensures Work(rows, sts[p := s]) == Work(rows, sts) - Weight(rows, sts[p].source) + Weight(rows, s.source)
  {
    if p == 0 {
      assert RemoveAt(sts, 0) == sts[1..] == sts[0 := s][1..];
    } else {
      WorkAt(rows, sts[1..], p - 1, s);
      assert RemoveAt(sts, p)[1..] == RemoveAt(sts[1..], p - 1);
      assert sts[p := s][1..] == sts[1..][p - 1 := s];
    }
  }

  lemma {:induction false} ProcessShrinks(rows: seq<Row>, server: Server, ff: Pending, sts: seq<Pending>, acc: seq<Slot>)
    requires Sorted(rows) && ServerOk(rows, server) && InBounds(sts, acc) && ff.idx < |acc|
    requires Position(sts, ff.from) < |sts| && sts[Position(sts, ff.from)].source == ff.source
    ensures Work(rows, ProcessOne(rows, server, ff, sts, acc).0) < Work(rows, sts)
  {
    var p := Position(sts, ff.from);
    if ff.source.Fold? {
      NextRequestContinues(rows, server, ff.source.st);
      var r := FoldRound(rows, server, ff.source.st);
      WorkAt(rows, sts, p, if r.More? then ff.(source := Fold(r.next)) else ff);
    } else {
      WorkAt(rows, sts, p, ff);
    }
  }

  // ---------------------------------------------------------------- rounds

  /** The fold over the futures of one round. */
  function Round(rows: seq<Row>, server: Server, ffs: seq<Pending>, sts: seq<Pending>, acc: seq<Slot>)
    : (r: (seq<Pending>, seq<Slot>))
    requires Sorted(rows) && ServerOk(rows, server) && InBounds(sts, acc) && InBounds(ffs, acc)
    requires Consistent(ffs) && Consistent(sts) && Matched(ffs, sts)
    ensures InBounds(r.0, r.1) && |r.1| == |acc| && Consistent(r.0)
    ensures Work(rows, r.0) <= Work(rows, sts) && (ffs != [] ==> Work(rows, r.0) < Work(rows, sts))
  {
    if ffs == [] then (sts, acc)
    else
      MatchedIsFound(ffs, sts);
      ProcessKeepsKeys(rows, server, ffs, sts, acc);
      ProcessShrinks(rows, server, ffs[0], sts, acc);
      var (sts', acc') := ProcessOne(rows, server, ffs[0], sts, acc);
      Round(rows, server, ffs[1..], sts', acc')
  }

  /** `wait_and_apply/5`: round after round until no state is left. */
  function WaitAndApply(rows: seq<Row>, server: Server, sts: seq<Pending>, acc: seq<Slot>): (r: seq<Slot>)
    requires Sorted(rows) && ServerOk(rows, server) && InBounds(sts, acc) && Consistent(sts)
    ensures |r| == |acc|
    decreases Work(rows, sts)
  {
    SelfMatched(sts);
    var (sts', acc') := Round(rows, server, sts, sts, acc);
    if sts' == [] then acc'
    else
      assert sts != [];
      WaitAndApply(rows, server, sts', acc')
  }

  function Content(slot: Slot): Result {
    match slot
    case Chunks(cs) => Listing(Append(Reverse(cs)))
    case Single(t) => Scalar(t)
  }

  /** An item of the list of futures: a fold future, another future, or a value. */
  datatype Item = FoldItem(from: nat, st: FoldSt) | FutureItem(n: nat, result: Result) | ValueItem(value: Result)

  function RefOf(item: Item): Ref {
    match item
    case FoldItem(n, _) => FutureRef(n)
    case FutureItem(n, _) => FutureRef(n)
    case ValueItem(v) => ValueRef(v)
  }

  function SourceOf(item: Item): Source {
    match item
    case FoldItem(n, st) => Fold(st.(from := n))
    case FutureItem(_, r) => Plain(r)
    case ValueItem(v) => Plain(v)
  }

  /** Different fold futures have different references, and a future has one result. */
  predicate ProperItems(items: seq<Item>) {
    forall i, j :: 0 <= i < j < |items| && RefOf(items[i]) == RefOf(items[j]) ==>
      items[i] == items[j] && !items[i].FoldItem?
  }

  function Tagged(items: seq<Item>): (r: seq<Pending>)
    ensures |r| == |items|
    ensures forall i :: 0 <= i < |items| ==> r[i] == Pending(RefOf(items[i]), i, SourceOf(items[i]))
  {
    seq(|items|, i requires 0 <= i < |items| => Pending(RefOf(items[i]), i, SourceOf(items[i])))
  }

  /** `wait_for_all_interleaving/3`. */
  function WaitForAllInterleaving(rows: seq<Row>, server: Server, items: seq<Item>): (r: seq<Result>)
    requires Sorted(rows) && ServerOk(rows, server) && ProperItems(items)
    ensures |r| == |items|
  {
    var acc := seq(|items|, i requires 0 <= i < |items| => Chunks([]));
    var slots := WaitAndApply(rows, server, Tagged(items), acc);
    seq(|items|, i requires 0 <= i < |items| => Content(slots[i]))
  }

  // ---------------------------------------------------------------- what every slot is owed

  function Owed(rows: seq<Row>, s: Source): Result {
    match s
    case Fold(st) => Listing(First(Rest(rows, st), st.limit))
    case Plain(r) => r
  }

  /** A slot as it will be once `r` has been added to it. */
  function After(slot: Slot, r: Result): Result {
    match r
    case Listing(l) => Listing((if slot.Chunks? then Append(Reverse(slot.chunks)) else []) + l)
    case Scalar(t) => Scalar(t)
  }

  /** The slot of a pending state is what was wanted, short of what the state still owes. */
  predicate SlotDue(rows: seq<Row>, s: Pending, acc: seq<Slot>, want: seq<Result>) {
    s.idx < |acc| == |want| && acc[s.idx].Chunks? && After(acc[s.idx], Owed(rows, s.source)) == want[s.idx]
  }

  ghost predicate Settles(rows: seq<Row>, sts: seq<Pending>, acc: seq<Slot>, want: seq<Result>) {
    && |acc| == |want|
    && (forall p, q :: 0 <= p < q < |sts| ==> sts[p].idx != sts[q].idx)
    && (forall p :: 0 <= p < |sts| ==> SlotDue(rows, sts[p], acc, want))
    && (forall i :: 0 <= i < |acc| && !Claimed(sts, i) ==> Content(acc[i]) == want[i])
  }

  predicate Claimed(sts: seq<Pending>, i: nat) {
    exists p :: 0 <= p < |sts| && sts[p].idx == i
  }

  lemma {:induction false} PutContent(acc: seq<Slot>, idx: nat, r: Result)
    requires idx < |acc| && acc[idx].Chunks?
    ensures Content(Put(acc, idx, r)[idx]) == After(acc[idx], r)
    ensures forall i :: 0 <= i < |acc| && i != idx ==> Put(acc, idx, r)[i] == acc[i]
  {
    if r.Listing? {
      NewestBatch(acc[idx].chunks, r.rows);
    }
  }

  /** A state that is done fills its slot for good. */
  lemma {:induction false} DoneSettles(rows: seq<Row>, sts: seq<Pending>, acc: seq<Slot>, want: seq<Result>, p: nat, r: Result)
    requires Settles(rows, sts, acc, want) && p < |sts| && Owed(rows, sts[p].source) == r
    requires sts[p].idx < |acc|
    ensures Settles(rows, RemoveAt(sts, p), Put(acc, sts[p].idx, r), want)
  {
    var idx, sts' := sts[p].idx, RemoveAt(sts, p);
    var acc' := Put(acc, idx, r);
    assert SlotDue(rows, sts[p], acc, want);
    PutContent(acc, idx, r);
    OthersStayDue(rows, sts, acc, acc', want, p);
    forall i | 0 <= i < |acc'| ensures Claimed(sts', i) || Content(acc'[i]) == want[i] {
      if i != idx {
        ClaimedStill(sts, p, i);
      }
    }
  }

  lemma {:induction false} OthersStayDue(rows: seq<Row>, sts: seq<Pending>, acc: seq<Slot>, acc': seq<Slot>, want: seq<Result>, p: nat)
    requires p < |sts| && |acc'| == |acc| == |want|
    requires forall i, j :: 0 <= i < j < |sts| ==> sts[i].idx != sts[j].idx
    requires forall q :: 0 <= q < |sts| ==> SlotDue(rows, sts[q], acc, want)
    requires forall i :: 0 <= i < |acc| && i != sts[p].idx ==> acc'[i] == acc[i]
    ensures forall i, j :: 0 <= i < j < |RemoveAt(sts, p)| ==> RemoveAt(sts, p)[i].idx != RemoveAt(sts, p)[j].idx
    ensures forall q :: 0 <= q < |RemoveAt(sts, p)| ==> SlotDue(rows, RemoveAt(sts, p)[q], acc', want)
  {
    var sts' := RemoveAt(sts, p);
    forall q | 0 <= q < |sts'| ensures SlotDue(rows, sts'[q], acc', want) {
      assert sts'[q] == sts[if q < p then q else q + 1];
      assert SlotDue(rows, sts[if q < p then q else q + 1], acc, want);
    }
  }

  lemma {:induction false} ClaimedStill(sts: seq<Pending>, p: nat, i: nat)
    requires p < |sts| && i != sts[p].idx
    ensures Claimed(sts, i) ==> Claimed(RemoveAt(sts, p), i)
  {
    if Claimed(sts, i) {
      var q :| 0 <= q < |sts| && sts[q].idx == i;
      assert RemoveAt(sts, p)[if q < p then q else q - 1] == sts[q];
    }
  }

  lemma {:induction false} AfterPage(acc: seq<Slot>, idx: nat, page: seq<Row>, rest: seq<Row>)
    requires idx < |acc| && acc[idx].Chunks?
    ensures Put(acc, idx, Listing(page))[idx].Chunks?
    ensures After(Put(acc, idx, Listing(page))[idx], Listing(rest)) == After(acc[idx], Listing(page + rest))
  {
    var chunks := acc[idx].chunks;
    NewestBatch(chunks, page);
    assert Append(Reverse(chunks)) + (page + rest) == Append(Reverse(chunks)) + page + rest;
  }

  lemma {:induction false} StillClaimed(sts: seq<Pending>, p: nat, s: Pending, i: nat)
    requires p < |sts| && s.idx == sts[p].idx
    ensures Claimed(sts, i) ==> Claimed(sts[p := s], i)
  {
    if Claimed(sts, i) {
      var q :| 0 <= q < |sts| && sts[q].idx == i;
      assert sts[p := s][q].idx == i;
    }
  }

  /** A state that goes on takes a page off what it owes. */
  lemma {:induction false} MoreSettles(rows: seq<Row>, sts: seq<Pending>, acc: seq<Slot>, want: seq<Result>, p: nat, s: Pending, page: seq<Row>)
    requires Settles(rows, sts, acc, want) && p < |sts| && s.idx == sts[p].idx < |acc|
    requires sts[p].source.Fold? && s.source.Fold?
    requires Owed(rows, sts[p].source).rows == page + Owed(rows, s.source).rows
    ensures Settles(rows, sts[p := s], Put(acc, s.idx, Listing(page)), want)
  {
    var sts', acc' := sts[p := s], Put(acc, s.idx, Listing(page));
    assert SlotDue(rows, sts[p], acc, want);
    PutContent(acc, s.idx, Listing(page));
    forall q | 0 <= q < |sts'| ensures SlotDue(rows, sts'[q], acc', want) {
      assert SlotDue(rows, sts[q], acc, want);
      if q == p {
        AfterPage(acc, s.idx, page, Owed(rows, s.source).rows);
      }
    }
    forall i | 0 <= i < |acc'| && !Claimed(sts', i) ensures Content(acc'[i]) == want[i] {
      assert sts'[p].idx == s.idx;
      assert !Claimed(sts, i) by { StillClaimed(sts, p, s, i); }
    }
  }

  lemma {:induction false} ProcessSettles(rows: seq<Row>, server: Server, ff: Pending, sts: seq<Pending>, acc: seq<Slot>, want: seq<Result>)
    requires Sorted(rows) && ServerOk(rows, server) && InBounds(sts, acc) && ff.idx < |acc|
    requires Position(sts, ff.from) < |sts| && sts[Position(sts, ff.from)].source == ff.source
    requires ff.source.Fold? ==> sts[Position(sts, ff.from)].idx == ff.idx
    requires Settles(rows, sts, acc, want)
    ensures var (sts', acc') := ProcessOne(rows, server, ff, sts, acc);
      Settles(rows, sts', acc', want)
  {
    var p := Position(sts, ff.from);
    match ff.source
    case Plain(result) => DoneSettles(rows, sts, acc, want, p, result);
    case Fold(st) =>
      RoundAccounts(rows, server, st);
      match FoldRound(rows, server, st)
      case Done(page) => DoneSettles(rows, sts, acc, want, p, Listing(page));
      case More(page, next) => MoreSettles(rows, sts, acc, want, p, ff.(source := Fold(next)), page);
  }

  lemma {:induction false} RoundSettles(rows: seq<Row>, server: Server, ffs: seq<Pending>, sts: seq<Pending>, acc: seq<Slot>, want: seq<Result>)
    requires Sorted(rows) && ServerOk(rows, server) && InBounds(sts, acc) && InBounds(ffs, acc)
    requires Consistent(ffs) && Consistent(sts) && Matched(ffs, sts)
    requires Settles(rows, sts, acc, want)
    ensures var (sts', acc') := Round(rows, server, ffs, sts, acc);
      Settles(rows, sts', acc', want)
  {
    if ffs != [] {
      MatchedIsFound(ffs, sts);
      ProcessKeepsKeys(rows, server, ffs, sts, acc);
      ProcessSettles(rows, server, ffs[0], sts, acc, want);
      var (sts', acc') := ProcessOne(rows, server, ffs[0], sts, acc);
      RoundSettles(rows, server, ffs[1..], sts', acc', want);
    }
  }

  lemma {:induction false} WaitSettles(rows: seq<Row>, server: Server, sts: seq<Pending>, acc: seq<Slot>, want: seq<Result>)
    requires Sorted(rows) && ServerOk(rows, server) && InBounds(sts, acc) && Consistent(sts)
    requires Settles(rows, sts, acc, want)
    ensures forall i :: 0 <= i < |acc| ==> Content(WaitAndApply(rows, server, sts, acc)[i]) == want[i]
    decreases Work(rows, sts)
  {
    SelfMatched(sts);
    RoundSettles(rows, server, sts, sts, acc, want);
    var (sts', acc') := Round(rows, server, sts, sts, acc);
    if sts' != [] {
      assert sts != [];
      WaitSettles(rows, server, sts', acc', want);
    }
  }

  /** Interleaved waiting: slot by slot the result is what the item stands for, the first
      `limit` rows of its range for a fold, however many rounds each of them needs and
      wherever the server cuts its pages. */
  lemma {:induction false} InterleavingDelivers(rows: seq<Row>, server: Server, items: seq<Item>, i: nat)
    requires Sorted(rows) && ServerOk(rows, server) && ProperItems(items) && i < |items|
    ensures WaitForAllInterleaving(rows, server, items)[i] ==
      if items[i].FoldItem? then
        var st := items[i].st;
        var range := Slice(rows, st.begin, st.end);
        Listing(First(if st.reverse != 0 then Reverse(range) else range, st.limit))
      else if items[i].FutureItem? then items[i].result
      else items[i].value
  {
    var acc := seq(|items|, i requires 0 <= i < |items| => Chunks([]));
    var want := seq(|items|, i requires 0 <= i < |items| => Owed(rows, SourceOf(items[i])));
    var sts := Tagged(items);
    forall p | 0 <= p < |sts| ensures SlotDue(rows, sts[p], acc, want) {
      EmptySlot(Owed(rows, sts[p].source));
    }
    assert forall k :: 0 <= k < |acc| ==> sts[k].idx == k;
    WaitSettles(rows, server, sts, acc, want);
  }

  lemma {:induction false} EmptySlot(r: Result)
    ensures After(Chunks([]), r) == r
  {
    assert Reverse<seq<Row>>([]) == [];
    if r.Listing? {
      assert [] + r.rows == r.rows;
    }
  }

  /** Interleaving changes nothing: every item ends up with what waiting for it alone gives,
      even from a server that cuts its pages differently. */
  lemma {:induction false} InterleavingEqualsAlone(rows: seq<Row>, server: Server, other: Server, items: seq<Item>, i: nat)
    requires Sorted(rows) && ServerOk(rows, server) && ServerOk(rows, other)
    requires ProperItems(items) && i < |items|
    ensures WaitForAllInterleaving(rows, server, items)[i] == WaitForAllInterleaving(rows, other, [items[i]])[0]
  {
    InterleavingDelivers(rows, server, items, i);
    InterleavingDelivers(rows, other, [items[i]], 0);
  }

  // ---------------------------------------------------------------- get_range

  datatype RangeOptions = RangeOptions(limit: nat, reverse: int)

  function StateOf(begin: Selector, end: Selector, options: RangeOptions): FoldSt {
    FoldSt(begin, end, options.limit, 1, options.reverse, 0)
  }

  /** `folding_get_range_and_wait/6` with the `Fun` of `get_range`: the loop over one fold state,
      each page put in front of those before it. */
  function FoldPages(rows: seq<Row>, server: Server, st: FoldSt, pages: seq<seq<Row>>): seq<seq<Row>>
    requires Sorted(rows) && ServerOk(rows, server)
    decreases |Rest(rows, st)|
  {
    match FoldRound(rows, server, st)
    case Done(page) => [page] + pages
    case More(page, next) =>
      NextRequestContinues(rows, server, st);
      FoldPages(rows, server, next, [page] + pages)
  }

  /** `get_range/4` with `{wait, true}`. */
  function GetRange(rows: seq<Row>, server: Server, begin: Selector, end: Selector, options: RangeOptions): seq<Row>
    requires Sorted(rows) && ServerOk(rows, server)
  {
    Append(Reverse(FoldPages(rows, server, StateOf(begin, end, options), [])))
  }

  lemma {:induction false} FoldPagesStep(rows: seq<Row>, server: Server, st: FoldSt, pages: seq<seq<Row>>)
    requires Sorted(rows) && ServerOk(rows, server)
    ensures var r := FoldRound(rows, server, st);
      FoldPages(rows, server, st, pages) ==
        if r.More? then FoldPages(rows, server, r.next, [r.rows] + pages) else [r.rows] + pages
    ensures var r := FoldRound(rows, server, st);
      r.More? ==> |Rest(rows, r.next)| < |Rest(rows, st)|
  {
    NextRequestContinues(rows, server, st);
  }

  lemma {:induction false} OnePageMore(pages: seq<seq<Row>>, page: seq<Row>, rest: seq<Row>)
    ensures Append(Reverse([page] + pages)) + rest == Append(Reverse(pages)) + (page + rest)
  {
    NewestBatch(pages, page);
    assert (Append(Reverse(pages)) + page) + rest == Append(Reverse(pages)) + (page + rest);
  }

  /** The pages so far and those still to come are what was asked for. */
  lemma {:induction false} PagesAddUp(rows: seq<Row>, server: Server, st: FoldSt, pages: seq<seq<Row>>)
    requires Sorted(rows) && ServerOk(rows, server)
    ensures Append(Reverse(FoldPages(rows, server, st, pages))) == Append(Reverse(pages)) + First(Rest(rows, st), st.limit)
    decreases |Rest(rows, st)|
  {
    var r := FoldRound(rows, server, st);
    RoundAccounts(rows, server, st);
    FoldPagesStep(rows, server, st, pages);
    if r.More? {
      PagesAddUp(rows, server, r.next, [r.rows] + pages);
      OnePageMore(pages, r.rows, First(Rest(rows, r.next), r.next.limit));
    } else {
      NewestBatch(pages, r.rows);
    }
  }

  lemma {:induction false} NothingYet(rows: seq<Row>)
    ensures Append(Reverse<seq<Row>>([])) + rows == rows
  {
    assert Reverse<seq<Row>>([]) == [];
  }

  /** Paging refines a single read: whatever the selectors, the limit, the direction and the
      page cuts, the pages add up to the first rows of the range, all of them for limit 0. */
  lemma {:induction false} GetRangeReadsTheRange(rows: seq<Row>, server: Server, begin: Selector, end: Selector, options: RangeOptions)
    requires Sorted(rows) && ServerOk(rows, server)
    ensures GetRange(rows, server, begin, end, options) ==
      var range := Slice(rows, begin, end);
      First(if options.reverse != 0 then Reverse(range) else range, options.limit)
  {
    var st := StateOf(begin, end, options);
    PagesAddUp(rows, server, st, []);
    NothingYet(First(Rest(rows, st), st.limit));
  }

  /** And waiting for the range as a single fold future gives the same rows as the plain loop. */
  lemma {:induction false} PlainLoopEqualsWaiting(rows: seq<Row>, server: Server, other: Server, from: nat, begin: Selector, end: Selector, options: RangeOptions)
    requires Sorted(rows) && ServerOk(rows, server) && ServerOk(rows, other)
    ensures WaitForAllInterleaving(rows, server, [FoldItem(from, StateOf(begin, end, options))])[0]
      == Listing(GetRange(rows, other, begin, end, options))
  {
    InterleavingDelivers(rows, server, [FoldItem(from, StateOf(begin, end, options))], 0);
    GetRangeReadsTheRange(rows, other, begin, end, options);
  }

  /** The ranges `{wait, interleaving}` asks for, one fold each. */
  function ChunkItems(ranges: seq<(Bytes, Bytes)>): (items: seq<Item>)
    ensures |items| == |ranges| && ProperItems(items)
  {
    seq(|ranges|, i requires 0 <= i < |ranges| =>
      FoldItem(i, StateOf(FirstGreaterOrEqual(ranges[i].0), FirstGreaterOrEqual(ranges[i].1), RangeOptions(0, 0))))
  }

  function Joined(results: seq<Result>): seq<Row> {
    if results == [] then []
    else (if results[0].Listing? then results[0].rows else []) + Joined(results[1..])
  }

  /** `get_range/4` with `{wait, interleaving}`, given the split points, no limit and not
      reversed. */
  function GetRangeInterleaving(rows: seq<Row>, server: Server, points: seq<Bytes>): Option<seq<Row>>
    requires Sorted(rows) && ServerOk(rows, server)
  {
    match ListToRanges(points)
    case None => None
    case Some(ranges) => Some(Joined(WaitForAllInterleaving(rows, server, ChunkItems(ranges))))
  }

  predicate Ascending(points: seq<Bytes>) {
    forall i, j :: 0 <= i < j < |points| ==> Lex(points[i], points[j]) <= 0
  }

  function At(rows: seq<Row>, k: Bytes): nat {
    Resolve(rows, FirstGreaterOrEqual(k))
  }

  lemma {:induction false} CountMonotone(rows: seq<Row>, x: Selector, y: Selector)
    requires !x.orEqual && !y.orEqual && Lex(x.key, y.key) <= 0
    ensures CountBefore(rows, x) <= CountBefore(rows, y)
  {
    if rows != [] {
      CountMonotone(rows[..|rows| - 1], x, y);
      if Before(rows[|rows| - 1].key, x) {
        LexTransitive(rows[|rows| - 1].key, x.key, y.key);
      }
    }
  }

  lemma {:induction false} AtMonotone(rows: seq<Row>, x: Bytes, y: Bytes)
    requires Lex(x, y) <= 0
    ensures At(rows, x) <= At(rows, y)
  {
    CountMonotone(rows, FirstGreaterOrEqual(x), FirstGreaterOrEqual(y));
  }

  predicate IsChunk(rows: seq<Row>, from: Bytes, to: Bytes, r: Result) {
    At(rows, from) <= At(rows, to) && r == Listing(rows[At(rows, from)..At(rows, to)])
  }

  lemma {:induction false} TwoSlices(rows: seq<Row>, a: nat, b: nat, c: nat)
    requires a <= b <= c <= |rows|
    ensures rows[a..b] + rows[b..c] == rows[a..c]
  {
  }

  /** The rows of consecutive ranges, one after another, are the rows of the whole range. */
  lemma {:induction false} ChunksJoin(rows: seq<Row>, points: seq<Bytes>, results: seq<Result>)
    requires points != [] && |results| == |points| - 1
    requires forall i :: 0 <= i < |results| ==> IsChunk(rows, points[i], points[i + 1], results[i])
    ensures IsChunk(rows, points[0], points[|points| - 1], Listing(Joined(results)))
  {
    if |points| > 1 {
      assert points[1..][|points| - 2] == points[|points| - 1];
      forall i | 0 <= i < |results[1..]| ensures IsChunk(rows, points[1..][i], points[1..][i + 1], results[1..][i]) {
        assert IsChunk(rows, points[i + 1], points[i + 2], results[i + 1]);
      }
      ChunksJoin(rows, points[1..], results[1..]);
      assert IsChunk(rows, points[0], points[1], results[0]);
      TwoSlices(rows, At(rows, points[0]), At(rows, points[1]), At(rows, points[|points| - 1]));
    }
  }

  /** Splitting a range at ascending points and reading the parts interleaved gives the plain
      read of the whole range. */
  lemma {:induction false} InterleavedRangeEqualsPlainRead(rows: seq<Row>, server: Server, other: Server, points: seq<Bytes>)
    requires Sorted(rows) && ServerOk(rows, server) && ServerOk(rows, other)
    requires |points| >= 2 && Ascending(points)
    ensures GetRangeInterleaving(rows, server, points) == Some(
      GetRange(rows, other, FirstGreaterOrEqual(points[0]), FirstGreaterOrEqual(points[|points| - 1]), RangeOptions(0, 0)))
  {
    var ranges := ListToRanges(points).value;
    RangesAreConsecutive(points, []);
    var items := ChunkItems(ranges);
    var results := WaitForAllInterleaving(rows, server, items);
    forall i | 0 <= i < |results| ensures IsChunk(rows, points[i], points[i + 1], results[i]) {
      assert ranges[i] == (points[i], points[i + 1]);
      InterleavingDelivers(rows, server, items, i);
      AtMonotone(rows, points[i], points[i + 1]);
    }
    ChunksJoin(rows, points, results);
    AtMonotone(rows, points[0], points[|points| - 1]);
    GetRangeReadsTheRange(rows, other, FirstGreaterOrEqual(points[0]), FirstGreaterOrEqual(points[|points| - 1]), RangeOptions(0, 0));
  }
}
