/** erlfdb_iterator: running many iterators side by side; and erlfdb_range_iterator. */
module Iterators {
  import opened ByteStrings
  import opened Keys
  import opened Batching
  import opened Paging
  import opened Interleaving

  /** An iterator by what its successive `handle_next` calls return. A finite tree is an
      iterator that comes to an end. */
  datatype Iterator<T> =
    | Halt
    | HaltWith(results: seq<T>)
    | Cont(results: seq<T>, next: Iterator<T>)

  /** Everything an iterator gives, in order, when it is driven alone. */
  function Yield<T>(it: Iterator<T>): seq<T> {
    match it
    case Halt => []
    case HaltWith(results) => results
    case Cont(results, next) => results + Yield(next)
  }

  function Steps<T>(it: Iterator<T>): nat {
    match it
    case Cont(_, next) => 1 + Steps(next)
    case _ => 1
  }

  /** An element of the accumulator tuple: batches newest first, or the final results. */
  datatype Cell<T> = Gathering(batches: seq<seq<T>>) | Finished(results: seq<T>)

  /** The accumulator of the fold over the iterators: those still going with their places, the cells
      of the results, and how often each iterator was stopped. */
  datatype Run<T> = Run(remaining: seq<(nat, Iterator<T>)>, cells: seq<Cell<T>>, stops: seq<nat>)

  function Batches<T>(cell: Cell<T>): seq<seq<T>> {
    match cell case Gathering(b) => b case Finished(_) => []
  }

  /** The fun `pipeline/2` folds with, for one iterator; `stops` logs the calls of `stop/1`. */
  function Advance<T>(ix: nat, it: Iterator<T>, r: Run<T>): (r': Run<T>)
    requires ix < |r.cells|
    ensures |r'.cells| == |r.cells|
  {
    var batches := Batches(r.cells[ix]);
    match it
    case Halt =>
      r.(cells := r.cells[ix := Finished(Append(Reverse(batches)))], stops := r.stops + [ix])
    case HaltWith(results) =>
      var all := if results == [] then batches else [results] + batches;
      r.(cells := r.cells[ix := Finished(Append(Reverse(all)))], stops := r.stops + [ix])
    case Cont(results, next) =>
      var more := [(ix, next)] + r.remaining;
      if results == [] then r.(remaining := more)
      else r.(remaining := more, cells := r.cells[ix := Gathering([results] + batches)])
  }

  predicate Indexed<T>(list: seq<(nat, Iterator<T>)>, n: nat) {
    forall i :: 0 <= i < |list| ==> list[i].0 < n
  }

  function Size<T>(list: seq<(nat, Iterator<T>)>): nat {
    if list == [] then 0 else Steps(list[0].1) + Size(list[1..])
  }

  lemma {:induction false} SizeConcat<T>(a: seq<(nat, Iterator<T>)>, b: seq<(nat, Iterator<T>)>)
    ensures Size(a + b) == Size(a) + Size(b)
  {
    if a == [] {
      assert a + b == b;
    } else {
      assert (a + b)[1..] == a[1..] + b;
      SizeConcat(a[1..], b);
    }
  }

  lemma {:induction false} SizeReverse<T>(list: seq<(nat, Iterator<T>)>)
    ensures Size(Reverse(list)) == Size(list)
  {
    if list != [] {
      SizeReverse(list[1..]);
      SizeConcat(Reverse(list[1..]), [list[0]]);
      assert Reverse(list) == Reverse(list[1..]) + [list[0]];
      var one := [list[0]];
      assert |one[1..]| == 0;
    }
  }

  /** One round of the fold. */
  function RoundOf<T>(list: seq<(nat, Iterator<T>)>, r: Run<T>): (r': Run<T>)
    requires Indexed(list, |r.cells|) && Indexed(r.remaining, |r.cells|)
    ensures |r'.cells| == |r.cells| && Indexed(r'.remaining, |r.cells|)
    ensures Size(r'.remaining) + |list| <= Size(r.remaining) + Size(list)
  {
    if list == [] then r else RoundOf(list[1..], Advance(list[0].0, list[0].1, r))
  }

  /** `pipeline/2`. */
  function PipelineFrom<T>(list: seq<(nat, Iterator<T>)>, cells: seq<Cell<T>>, stops: seq<nat>): (r: Run<T>)
    requires Indexed(list, |cells|)
    ensures |r.cells| == |cells|
    decreases Size(list)
  {
    if list == [] then Run([], cells, stops)
    else
      var r := RoundOf(list, Run([], cells, stops));
      SizeReverse(r.remaining);
      PipelineFrom(Reverse(r.remaining), r.cells, r.stops)
  }

  /** `pipeline/1`. */
  function Pipeline<T>(iterators: seq<Iterator<T>>): (r: Run<T>)
    ensures |r.cells| == |iterators|
  {
    PipelineFrom(Numbered(iterators), seq(|iterators|, i requires 0 <= i < |iterators| => Gathering([])), [])
  }

  function Numbered<T>(iterators: seq<Iterator<T>>): (list: seq<(nat, Iterator<T>)>)
    ensures |list| == |iterators| && forall i :: 0 <= i < |list| ==> list[i] == (i, iterators[i])
  {
    seq(|iterators|, i requires 0 <= i < |iterators| => (i, iterators[i]))
  }

  // ---------------------------------------------------------------- what it keeps

  /** A cell whose iterator still has `it` to give is on the way to `want`. */
  predicate OnTheWay<T(==)>(cell: Cell<T>, it: Iterator<T>, want: seq<T>) {
    cell.Gathering? && Append(Reverse(cell.batches)) + Yield(it) == want
  }

  predicate Waits<T>(list: seq<(nat, Iterator<T>)>, i: nat) {
    exists p :: 0 <= p < |list| && list[p].0 == i
  }

  predicate DistinctIndices<T>(list: seq<(nat, Iterator<T>)>) {
    forall p, q :: 0 <= p < q < |list| ==> list[p].0 != list[q].0
  }

  ghost predicate Ready<T>(list: seq<(nat, Iterator<T>)>, cells: seq<Cell<T>>, want: seq<seq<T>>) {
    forall p :: 0 <= p < |list| ==>
      list[p].0 < |cells| == |want| && OnTheWay(cells[list[p].0], list[p].1, want[list[p].0])
  }

  /** While some iterators wait to be advanced (`list`) and others already have been: every
      other cell is finished, and exactly those were stopped, once each. */
  ghost predicate Keeps<T>(list: seq<(nat, Iterator<T>)>, r: Run<T>, want: seq<seq<T>>) {
    && |r.cells| == |want|
    && DistinctIndices(list + r.remaining)
    && Ready(list + r.remaining, r.cells, want)
    && forall i :: 0 <= i < |want| ==>
         if Waits(list + r.remaining, i) then multiset(r.stops)[i] == 0
         else r.cells[i] == Finished(want[i]) && multiset(r.stops)[i] == 1
  }

  lemma {:induction false} AdvanceCell<T>(ix: nat, it: Iterator<T>, r: Run<T>, want: seq<T>)
    requires ix < |r.cells| && OnTheWay(r.cells[ix], it, want)
    ensures var r' := Advance(ix, it, r);
      if it.Cont? then OnTheWay(r'.cells[ix], it.next, want) && r'.stops == r.stops && r'.remaining == [(ix, it.next)] + r.remaining
      else r'.cells[ix] == Finished(want) && r'.stops == r.stops + [ix] && r'.remaining == r.remaining
    ensures forall i :: 0 <= i < |r.cells| && i != ix ==> Advance(ix, it, r).cells[i] == r.cells[i]
  {
    var batches := Batches(r.cells[ix]);
    if !it.Halt? {
      NewestBatch(batches, it.results);
      if it.Cont? {
        assert Append(Reverse(batches)) + it.results + Yield(it.next) == want;
      }
    }
  }

  lemma {:induction false} SameWaiting<T>(a: seq<(nat, Iterator<T>)>, b: seq<(nat, Iterator<T>)>, i: nat)
    requires forall p :: 0 <= p < |a| ==> a[p] in b
    ensures Waits(a, i) ==> Waits(b, i)
  {
    if Waits(a, i) {
      var p :| 0 <= p < |a| && a[p].0 == i;
      assert a[p] in b;
    }
  }

  lemma {:induction false} Rotated<T>(head: (nat, Iterator<T>), it: Iterator<T>, list: seq<(nat, Iterator<T>)>, rem: seq<(nat, Iterator<T>)>)
    requires DistinctIndices([head] + list + rem)
    ensures DistinctIndices(list + ([(head.0, it)] + rem))
    ensures forall i :: Waits(list + ([(head.0, it)] + rem), i) <==> Waits([head] + list + rem, i)
  {
    var before, after := [head] + list + rem, list + ([(head.0, it)] + rem);
    var n := |list|;
    assert forall p :: 0 <= p < n ==> after[p] == before[p + 1];
    assert forall p :: n < p < |after| ==> after[p] == before[p];
    forall p, q | 0 <= p < q < |after| ensures after[p].0 != after[q].0 {
      var p', q' := if p == n then 0 else if p < n then p + 1 else p, if q == n then 0 else if q < n then q + 1 else q;
      assert before[p'].0 == after[p].0 && before[q'].0 == after[q].0 && p' != q';
    }
    forall i ensures Waits(after, i) <==> Waits(before, i) {
      if Waits(after, i) {
        var p :| 0 <= p < |after| && after[p].0 == i;
        assert before[if p == n then 0 else if p < n then p + 1 else p].0 == i;
      }
      if Waits(before, i) {
        var p :| 0 <= p < |before| && before[p].0 == i;
        assert after[if p == 0 then n else if p <= n then p - 1 else p].0 == i;
      }
    }
  }

  lemma {:induction false} Dropped<T>(all: seq<(nat, Iterator<T>)>)
    requires all != [] && DistinctIndices(all)
    ensures DistinctIndices(all[1..])
    ensures forall i :: Waits(all[1..], i) <==> Waits(all, i) && i != all[0].0
  {
    var rest := all[1..];
    assert forall p :: 0 <= p < |rest| ==> rest[p] == all[p + 1];
    forall i ensures Waits(rest, i) <==> Waits(all, i) && i != all[0].0 {
      if Waits(all, i) && i != all[0].0 {
        var p :| 0 <= p < |all| && all[p].0 == i;
        assert rest[p - 1].0 == i;
      }
    }
  }

  lemma {:induction false} ContinuedKeeps<T>(list: seq<(nat, Iterator<T>)>, r: Run<T>, want: seq<seq<T>>)
    requires list != [] && Keeps(list, r, want) && Indexed(list, |r.cells|) && list[0].1.Cont?
    ensures Keeps(list[1..], Advance(list[0].0, list[0].1, r), want)
  {
    var (ix, it) := list[0];
    var all := list + r.remaining;
    assert all[0] == (ix, it);
    AdvanceCell(ix, it, r, want[ix]);
    var r' := Advance(ix, it, r);
    var all' := list[1..] + r'.remaining;
    assert all == [list[0]] + list[1..] + r.remaining;
    Rotated(list[0], it.next, list[1..], r.remaining);
    forall p | 0 <= p < |all'| ensures all'[p].0 < |want| && OnTheWay(r'.cells[all'[p].0], all'[p].1, want[all'[p].0]) {
      var n := |list| - 1;
      if p != n {
        assert all'[p] == all[if p < n then p + 1 else p];
      }
    }
    assert Waits(all, ix);
  }

  lemma {:induction false} HaltedKeeps<T>(list: seq<(nat, Iterator<T>)>, r: Run<T>, want: seq<seq<T>>)
    requires list != [] && Keeps(list, r, want) && Indexed(list, |r.cells|) && !list[0].1.Cont?
    ensures Keeps(list[1..], Advance(list[0].0, list[0].1, r), want)
  {
    var (ix, it) := list[0];
    var all := list + r.remaining;
    assert all[0] == (ix, it);
    AdvanceCell(ix, it, r, want[ix]);
    assert list[1..] + r.remaining == all[1..];
    Dropped(all);
    assert Waits(all, ix);
  }

  lemma {:induction false} AdvanceKeeps<T>(list: seq<(nat, Iterator<T>)>, r: Run<T>, want: seq<seq<T>>)
    requires list != [] && Keeps(list, r, want) && Indexed(list, |r.cells|)
    ensures Keeps(list[1..], Advance(list[0].0, list[0].1, r), want)
  {
    if list[0].1.Cont? {
      ContinuedKeeps(list, r, want);
    } else {
      HaltedKeeps(list, r, want);
    }
  }

  lemma {:induction false} RoundKeeps<T>(list: seq<(nat, Iterator<T>)>, r: Run<T>, want: seq<seq<T>>)
    requires Keeps(list, r, want) && Indexed(list, |r.cells|) && Indexed(r.remaining, |r.cells|)
    ensures Keeps([], RoundOf(list, r), want)
  {
    if list != [] {
      AdvanceKeeps(list, r, want);
      RoundKeeps(list[1..], Advance(list[0].0, list[0].1, r), want);
    }
  }

  lemma {:induction false} ReversedKeeps<T>(r: Run<T>, want: seq<seq<T>>)
    requires Keeps([], r, want)
    ensures Keeps(Reverse(r.remaining), Run([], r.cells, r.stops), want)
  {
    var a, b := [] + r.remaining, Reverse(r.remaining) + [];
    assert forall p :: 0 <= p < |b| ==> b[p] == a[|b| - 1 - p];
    assert forall p :: 0 <= p < |a| ==> a[p] == b[|b| - 1 - p];
    forall i ensures Waits(a, i) <==> Waits(b, i) {
      SameWaiting(a, b, i);
      SameWaiting(b, a, i);
    }
  }

  lemma {:induction false} PipelineKeeps<T>(list: seq<(nat, Iterator<T>)>, cells: seq<Cell<T>>, stops: seq<nat>, want: seq<seq<T>>)
    requires Keeps(list, Run([], cells, stops), want) && Indexed(list, |cells|)
    ensures Keeps([], PipelineFrom(list, cells, stops), want)
    ensures PipelineFrom(list, cells, stops).remaining == []
    decreases Size(list)
  {
    if list != [] {
      var r := RoundOf(list, Run([], cells, stops));
      RoundKeeps(list, Run([], cells, stops), want);
      ReversedKeeps(r, want);
      SizeReverse(r.remaining);
      PipelineKeeps(Reverse(r.remaining), r.cells, r.stops, want);
    }
  }

  /** `pipeline` returns, in the order of its input, what each iterator gives when driven
      alone, and stops each of them exactly once. */
  lemma {:induction false} PipelineDelivers<T>(iterators: seq<Iterator<T>>, i: nat)
    requires i < |iterators|
    ensures Pipeline(iterators).cells[i] == Finished(Yield(iterators[i]))
    ensures multiset(Pipeline(iterators).stops)[i] == 1
  {
    var list := Numbered(iterators);
    var cells := seq(|iterators|, i requires 0 <= i < |iterators| => Gathering([]));
    var want := seq(|iterators|, i requires 0 <= i < |iterators| => Yield(iterators[i]));
    PipelineStarts(iterators, cells, want);
    PipelineKeeps(list, cells, [], want);
    var done := PipelineFrom(list, cells, []);
    assert [] + done.remaining == [];
    assert !Waits([] + done.remaining, i);
  }

  /** Before the first round nothing is gathered and everything waits. */
  lemma {:induction false} PipelineStarts<T>(iterators: seq<Iterator<T>>, cells: seq<Cell<T>>, want: seq<seq<T>>)
    requires |cells| == |want| == |iterators|
    requires forall i :: 0 <= i < |iterators| ==> cells[i] == Gathering([]) && want[i] == Yield(iterators[i])
    ensures Keeps(Numbered(iterators), Run([], cells, []), want)
  {
    var list := Numbered(iterators);
    assert list + [] == list;
    forall p | 0 <= p < |list| ensures OnTheWay(cells[list[p].0], list[p].1, want[list[p].0]) {
      assert Reverse<seq<T>>([]) == [];
      assert [] + Yield(iterators[p]) == Yield(iterators[p]);
    }
    forall k | 0 <= k < |want| ensures Waits(list, k) {
      assert list[k].0 == k;
    }
  }

  // ---------------------------------------------------------------- erlfdb_range_iterator

  /** `#state{}`: the request that is out, or no future. */
  datatype RangeState = Active(st: FoldSt) | Idle

  datatype Reply = Reply(halt: bool, pages: seq<seq<Row>>, state: RangeState)

  function NextState(last: Bytes, count: nat, st: FoldSt): FoldSt {
    var next := if st.reverse != 0 then st.(end := FirstGreaterOrEqual(last)) else st.(begin := FirstGreaterThan(last));
    next.(limit := if st.limit >= count then st.limit - count else 0, iteration := st.iteration + 1)
  }

  /** `handle_result/2`; sending the next request makes its state the active one. */
  function HandleResult(st: FoldSt, raw: seq<Row>, more: bool): Reply {
    var rows := if st.limit == 0 || st.limit > |raw| then raw else raw[..st.limit];
    var recurse := rows != [] && (st.limit == 0 || st.limit > |raw|) && more;
    var state := if recurse then Active(NextState(rows[|rows| - 1].key, |raw|, st)) else Idle;
    Reply(!recurse, if rows == [] then [] else [rows], state)
  }

  /** The iterator a state of the range iterator is, call of `handle_next` by call. */
  function Unrolled(rows: seq<Row>, server: Server, state: RangeState): (it: Iterator<seq<Row>>)
    requires Sorted(rows) && ServerOk(rows, server)
    decreases if state.Active? then 1 + |Rest(rows, state.st)| else 0
  {
    match state
    case Idle => Halt
    case Active(st) =>
      var reply := HandleResult(st, Page(rows, server, st), server(st).1);
      if reply.halt then (if reply.pages == [] then Halt else HaltWith(reply.pages))
      else
        NextRequestContinues(rows, server, st);
        SameContinuation(rows, server, st);
        Cont(reply.pages, Unrolled(rows, server, reply.state))
  }

  /** The iterator goes on exactly as a fold does. */
  lemma {:induction false} SameContinuation(rows: seq<Row>, server: Server, st: FoldSt)
    requires ServerOk(rows, server)
    ensures var reply := HandleResult(st, Page(rows, server, st), server(st).1);
      var r := FoldRound(rows, server, st);
      reply == if r.More? then Reply(false, [r.rows], Active(r.next))
               else Reply(true, if r.rows == [] then [] else [r.rows], Idle)
  {
    SameStep(st, Page(rows, server, st), server(st).1);
  }

  /** The two functions take the same turn on any page. */
  lemma {:induction false} SameStep(st: FoldSt, raw: seq<Row>, more: bool)
    ensures var reply, r := HandleResult(st, raw, more), HandleFoldResult(st, raw, more);
      reply == if r.More? then Reply(false, [r.rows], Active(r.next))
               else Reply(true, if r.rows == [] then [] else [r.rows], Idle)
  {
    if !more {
      assert HandleFoldResult(st, raw, more).Done?;
    } else if st.limit == 0 || st.limit > |raw| {
      if raw != [] {
        assert HandleResult(st, raw, more).state == Active(HandleFoldResult(st, raw, more).next);
      }
    } else {
      assert HandleFoldResult(st, raw, more) == Done(raw[..st.limit]);
    }
  }

  /** The iterator halts with the last page, or goes on with the next request. */
  lemma {:induction false} UnrolledStep(rows: seq<Row>, server: Server, st: FoldSt)
    requires Sorted(rows) && ServerOk(rows, server)
    ensures var r := FoldRound(rows, server, st);
      if r.More? then Unrolled(rows, server, Active(st)) == Cont([r.rows], Unrolled(rows, server, Active(r.next)))
      else Unrolled(rows, server, Active(st)) == if r.rows == [] then Halt else HaltWith([r.rows])
  {
    SameContinuation(rows, server, st);
  }

  lemma {:induction false} JoinOne(page: seq<Row>, later: seq<seq<Row>>)
    ensures Append([page] + later) == page + Append(later)
  {
    assert ([page] + later)[0] == page && ([page] + later)[1..] == later;
  }

  lemma {:induction false} PagesJoin(rows: seq<Row>, server: Server, st: FoldSt)
    requires Sorted(rows) && ServerOk(rows, server)
    ensures Append(Yield(Unrolled(rows, server, Active(st)))) == First(Rest(rows, st), st.limit)
    decreases |Rest(rows, st)|
  {
    RoundAccounts(rows, server, st);
    UnrolledStep(rows, server, st);
    var r := FoldRound(rows, server, st);
    if r.More? {
      NextRequestContinues(rows, server, st);
      PagesJoin(rows, server, r.next);
      JoinOne(r.rows, Yield(Unrolled(rows, server, Active(r.next))));
    } else {
      JoinOne(r.rows, []);
      assert [r.rows] + [] == [r.rows];
    }
  }

  /** Running the range iterator, alone or in a pipeline, and putting its pages together
      gives the rows of `get_range`. */
  lemma {:induction false} IteratorEqualsGetRange(rows: seq<Row>, server: Server, other: Server, iterators: seq<Iterator<seq<Row>>>, i: nat,
                                                  begin: Selector, end: Selector, options: RangeOptions)
    requires Sorted(rows) && ServerOk(rows, server) && ServerOk(rows, other) && i < |iterators|
    requires iterators[i] == Unrolled(rows, server, Active(StateOf(begin, end, options)))
    ensures Pipeline(iterators).cells[i].Finished?
    ensures Append(Pipeline(iterators).cells[i].results) == GetRange(rows, other, begin, end, options)
    ensures Append(Pipeline(iterators).cells[i].results) ==
      var range := Slice(rows, begin, end);
      First(if options.reverse != 0 then Reverse(range) else range, options.limit)
  {
    PipelineDelivers(iterators, i);
    PagesJoin(rows, server, StateOf(begin, end, options));
    GetRangeReadsTheRange(rows, other, begin, end, options);
  }
}
