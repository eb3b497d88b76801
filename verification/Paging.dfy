/** Reading a range page by page: key selectors, server pages, and the step from one page to
    the next request (handle_fold_st_result of erlfdb). */
module Paging {
  import opened Options
  import opened ByteStrings
  import opened Keys
  import opened Batching

  /** A key and whatever the row carries besides: a value, or the rows a mapper attached. */
  datatype Row = Row(key: Bytes, value: Bytes)

  /** The database at the transaction's read version. */
  predicate Sorted(rows: seq<Row>) {
    forall i, j :: 0 <= i < j < |rows| ==> Lex(rows[i].key, rows[j].key) < 0
  }

  predicate Before(k: Bytes, sel: Selector) {
    if sel.orEqual then Lex(k, sel.key) <= 0 else Lex(k, sel.key) < 0
  }

  /** How many rows lie before the anchor of a selector. */
  function CountBefore(rows: seq<Row>, sel: Selector): (n: nat)
    ensures n <= |rows|
  {
    if rows == [] then 0 else CountBefore(rows[..|rows| - 1], sel) + if Before(rows[|rows| - 1].key, sel) then 1 else 0
  }

  function Clamp(n: int, hi: nat): (r: nat)
    ensures r <= hi
  {
    if n < 0 then 0 else if n > hi then hi else n
  }

  /** The row a selector resolves to: the last one before the anchor, then `offset` rows on,
      stopping at either end of the database. */
  function Resolve(rows: seq<Row>, sel: Selector): (r: nat)
    ensures r <= |rows|
  {
    Clamp(CountBefore(rows, sel) - 1 + sel.offset, |rows|)
  }

  function Slice(rows: seq<Row>, begin: Selector, end: Selector): seq<Row> {
    var b, e := Resolve(rows, begin), Resolve(rows, end);
    if b <= e then rows[b..e] else []
  }

  /** `#fold_st{}`; `limit` 0 asks for every row, `from` is the reference of its first future. */
  datatype FoldSt = FoldSt(begin: Selector, end: Selector, limit: nat, iteration: nat, reverse: int, from: nat)

  /** The rows a request covers, in the order it wants them. */
  function Rest(rows: seq<Row>, st: FoldSt): seq<Row> {
    var s := Slice(rows, st.begin, st.end);
    if st.reverse != 0 then Reverse(s) else s
  }

  function First<T>(s: seq<T>, limit: nat): seq<T> {
    if limit == 0 || limit > |s| then s else s[..limit]
  }

  /** How the server answers a request: the number of rows on the page, and whether it says
      there are more. Requests of different folds differ by `from`, so the server may cut their
      pages differently even when they ask for the same. */
  type Server = FoldSt -> (nat, bool)

  /** What FoundationDB owes: pages are cut from the front of what is left, anywhere; `more`
      comes with at least one row, and without it nothing that was asked for is left. */
  ghost predicate ServerOk(rows: seq<Row>, server: Server) {
    forall st :: PageOk(|Rest(rows, st)|, st.limit, server(st).0, server(st).1)
  }

  predicate PageOk(left: nat, limit: nat, count: nat, more: bool) {
    && count <= left
    && (more ==> count > 0)
    && (!more ==> count == left || 0 < limit <= count)
  }

  function Page(rows: seq<Row>, server: Server, st: FoldSt): seq<Row>
    requires ServerOk(rows, server)
  {
    assert PageOk(|Rest(rows, st)|, st.limit, server(st).0, server(st).1);
    Rest(rows, st)[..server(st).0]
  }

  datatype FoldStep = Done(rows: seq<Row>) | More(rows: seq<Row>, next: FoldSt)

  /** `handle_fold_st_result/2` on a page of rows. */
  function HandleFoldResult(st: FoldSt, raw: seq<Row>, more: bool): FoldStep {
    var rows := if st.limit == 0 || st.limit > |raw| then raw else raw[..st.limit];
    if rows != [] && (st.limit == 0 || st.limit > |raw|) && more then
      var last := rows[|rows| - 1].key;
      var next := if st.reverse != 0 then st.(end := FirstGreaterOrEqual(last)) else st.(begin := FirstGreaterThan(last));
      More(rows, next.(limit := if st.limit == 0 then 0 else st.limit - |raw|, iteration := st.iteration + 1))
    else Done(rows)
  }

  function FoldRound(rows: seq<Row>, server: Server, st: FoldSt): FoldStep
    requires ServerOk(rows, server)
  {
    HandleFoldResult(st, Page(rows, server, st), server(st).1)
  }

  // ---------------------------------------------------------------- the next request

  lemma {:induction false} CountBeforeKey(rows: seq<Row>, i: nat, orEqual: bool, offset: int)
    requires Sorted(rows) && i < |rows|
    ensures CountBefore(rows, Selector(rows[i].key, orEqual, offset)) == i + if orEqual then 1 else 0
  {
    var sel, n := Selector(rows[i].key, orEqual, offset), |rows| - 1;
    var front := rows[..n];
    if i == n {
      AllBefore(front, sel);
      LexAntisymmetric(rows[i].key, rows[i].key);
    } else {
      CountBeforeKey(front, i, orEqual, offset);
      LexAntisymmetric(rows[i].key, rows[n].key);
    }
  }

  lemma {:induction false} AllBefore(rows: seq<Row>, sel: Selector)
    requires forall i :: 0 <= i < |rows| ==> Lex(rows[i].key, sel.key) < 0
    ensures CountBefore(rows, sel) == |rows|
  {
    if rows != [] {
      AllBefore(rows[..|rows| - 1], sel);
    }
  }

  lemma {:induction false} CountBeforeIs(rows: seq<Row>, sel: Selector, n: nat)
    requires n <= |rows|
    requires forall j :: 0 <= j < |rows| ==> (Before(rows[j].key, sel) <==> j < n)
    ensures CountBefore(rows, sel) == n
  {
    if rows != [] {
      CountBeforeIs(rows[..|rows| - 1], sel, if n < |rows| then n else n - 1);
    }
  }

  /** The term is accepted and leads to this row, or to the end that lies in between. */
  predicate Leads(rows: seq<Row>, t: SelectorTerm, to: int) {
    SelectorOf(t).Some? && Resolve(rows, SelectorOf(t).value) == if to < 0 then 0 else if to > |rows| then |rows| else to
  }

  lemma {:induction false} SelectorLeads(rows: seq<Row>, t: SelectorTerm, sel: Selector, n: nat)
    requires SelectorOf(t) == Some(sel) && n <= |rows|
    requires forall j :: 0 <= j < |rows| ==> (Before(rows[j].key, sel) <==> j < n)
    ensures Leads(rows, t, n - 1 + sel.offset)
  {
    CountBeforeIs(rows, sel, n);
  }

  /** Where the selector terms lead, `less` being the number of rows before the key and `upTo` that of
      the rows up to it: to the first row from the key on or after it, the last one before it or up to
      it, and from there on by the offset given. */
  lemma {:induction false} SelectorTermsResolve(rows: seq<Row>, key: Bytes, less: nat, upTo: nat, add: int)
    requires less <= |rows| && forall j :: 0 <= j < |rows| ==> (Lex(rows[j].key, key) < 0 <==> j < less)
    requires upTo <= |rows| && forall j :: 0 <= j < |rows| ==> (Lex(rows[j].key, key) <= 0 <==> j < upTo)
    ensures Leads(rows, Pair(Some(key), Gteq), less) && Leads(rows, Triple(Some(key), Gteq, Some(add)), less + add)
    ensures Leads(rows, Pair(Some(key), Gt), upTo) && Leads(rows, Triple(Some(key), Gt, Some(add)), upTo + add)
    ensures Leads(rows, Pair(Some(key), Lt), less - 1) && Leads(rows, Triple(Some(key), Lt, Some(add)), less - 1 + add)
    ensures Leads(rows, Pair(Some(key), Lteq), upTo - 1) && Leads(rows, Triple(Some(key), Lteq, Some(add)), upTo - 1 + add)
  {
    SelectorLeads(rows, Pair(Some(key), Gteq), Selector(key, false, 1), less);
    SelectorLeads(rows, Pair(Some(key), Gt), Selector(key, true, 1), upTo);
    SelectorLeads(rows, Pair(Some(key), Lt), Selector(key, false, 0), less);
    SelectorLeads(rows, Pair(Some(key), Lteq), Selector(key, true, 0), upTo);
    SelectorLeads(rows, Triple(Some(key), Gteq, Some(add)), Selector(key, false, 1 + add), less);
    SelectorLeads(rows, Triple(Some(key), Gt, Some(add)), Selector(key, true, 1 + add), upTo);
    SelectorLeads(rows, Triple(Some(key), Lt, Some(add)), Selector(key, false, add), less);
    SelectorLeads(rows, Triple(Some(key), Lteq, Some(add)), Selector(key, true, add), upTo);
  }

  /** A selector given by its parts, with a flag or a number, counts from the same two places. */
  lemma {:induction false} RawSelectorsResolve(rows: seq<Row>, key: Bytes, less: nat, upTo: nat, flag: int, add: int)
    requires less <= |rows| && forall j :: 0 <= j < |rows| ==> (Lex(rows[j].key, key) < 0 <==> j < less)
    requires upTo <= |rows| && forall j :: 0 <= j < |rows| ==> (Lex(rows[j].key, key) <= 0 <==> j < upTo)
    ensures Leads(rows, Pair(Some(key), AtomTrue), upTo - 1) && Leads(rows, Triple(Some(key), AtomTrue, Some(add)), upTo - 1 + add)
    ensures Leads(rows, Pair(Some(key), AtomFalse), less - 1) && Leads(rows, Triple(Some(key), AtomFalse, Some(add)), less - 1 + add)
    ensures Leads(rows, Pair(Some(key), Number(flag)), (if flag == 0 then less else upTo) - 1)
    ensures Leads(rows, Triple(Some(key), Number(flag), Some(add)), (if flag == 0 then less else upTo) - 1 + add)
  {
    SelectorLeads(rows, Pair(Some(key), AtomTrue), Selector(key, true, 0), upTo);
    SelectorLeads(rows, Pair(Some(key), AtomFalse), Selector(key, false, 0), less);
    SelectorLeads(rows, Pair(Some(key), Number(flag)), Selector(key, flag != 0, 0), if flag == 0 then less else upTo);
    SelectorLeads(rows, Triple(Some(key), AtomTrue, Some(add)), Selector(key, true, add), upTo);
    SelectorLeads(rows, Triple(Some(key), AtomFalse, Some(add)), Selector(key, false, add), less);
    SelectorLeads(rows, Triple(Some(key), Number(flag), Some(add)), Selector(key, flag != 0, add), if flag == 0 then less else upTo);
  }

  /** The selectors of the next request cut off exactly the rows up to a given one. */
  lemma {:induction false} SelectorsCut(rows: seq<Row>, i: nat)
    requires Sorted(rows) && i < |rows|
    ensures Resolve(rows, FirstGreaterThan(rows[i].key)) == i + 1
    ensures Resolve(rows, FirstGreaterOrEqual(rows[i].key)) == i
  {
    CountBeforeKey(rows, i, true, 1);
    CountBeforeKey(rows, i, false, 1);
  }

  lemma {:induction false} ForwardCut(rows: seq<Row>, b: nat, e: nat, n: nat)
    requires Sorted(rows) && b <= e <= |rows| && 0 < n <= e - b
    ensures Resolve(rows, FirstGreaterThan(rows[b..e][n - 1].key)) == b + n
    ensures rows[b + n..e] == rows[b..e][n..]
  {
    SelectorsCut(rows, b + n - 1);
  }

  lemma {:induction false} BackwardCut(rows: seq<Row>, b: nat, e: nat, n: nat)
    requires Sorted(rows) && b <= e <= |rows| && 0 < n <= e - b
    ensures Resolve(rows, FirstGreaterOrEqual(Reverse(rows[b..e])[n - 1].key)) == e - n
    ensures Reverse(rows[b..e - n]) == Reverse(rows[b..e])[n..]
  {
    assert Reverse(rows[b..e])[n - 1] == rows[e - n];
    SelectorsCut(rows, e - n);
    ReverseTail(rows[b..e], n);
    assert rows[b..e][..e - b - n] == rows[b..e - n];
  }

  lemma {:induction false} ReverseTail<T>(s: seq<T>, n: nat)
    requires n <= |s|
    ensures Reverse(s)[n..] == Reverse(s[..|s| - n])
  {
    var x, y := Reverse(s)[n..], Reverse(s[..|s| - n]);
    assert |x| == |y|;
    forall i | 0 <= i < |x| ensures x[i] == y[i] {
      assert x[i] == Reverse(s)[n + i];
    }
  }

  /** The request that asks for what lies beyond the first `n` rows of another. */
  lemma {:induction false} Continues(rows: seq<Row>, st: FoldSt, n: nat, next: FoldSt)
    requires Sorted(rows) && 0 < n <= |Rest(rows, st)| && next.reverse == st.reverse
    requires st.reverse != 0 ==>
      next.begin == st.begin && next.end == FirstGreaterOrEqual(Rest(rows, st)[n - 1].key)
    requires st.reverse == 0 ==>
      next.begin == FirstGreaterThan(Rest(rows, st)[n - 1].key) && next.end == st.end
    ensures Rest(rows, next) == Rest(rows, st)[n..]
  {
    var b, e := Resolve(rows, st.begin), Resolve(rows, st.end);
    RestBetween(rows, st, b, e);
    if st.reverse != 0 {
      BackwardCut(rows, b, e, n);
      BackwardContinues(rows, st, next, b, e, n);
    } else {
      ForwardCut(rows, b, e, n);
      ForwardContinues(rows, st, next, b, e, n);
    }
  }

  lemma {:induction false} BackwardContinues(rows: seq<Row>, st: FoldSt, next: FoldSt, b: nat, e: nat, n: nat)
    requires b == Resolve(rows, st.begin) == Resolve(rows, next.begin) && e == Resolve(rows, st.end)
    requires st.reverse != 0 && next.reverse != 0 && b + n <= e && Resolve(rows, next.end) == e - n
    requires Reverse(rows[b..e - n]) == Reverse(rows[b..e])[n..]
    ensures Rest(rows, next) == Rest(rows, st)[n..]
  {
  }

  lemma {:induction false} ForwardContinues(rows: seq<Row>, st: FoldSt, next: FoldSt, b: nat, e: nat, n: nat)
    requires b == Resolve(rows, st.begin) && e == Resolve(rows, st.end) == Resolve(rows, next.end)
    requires st.reverse == 0 && next.reverse == 0 && b + n <= e && Resolve(rows, next.begin) == b + n
    requires rows[b + n..e] == rows[b..e][n..]
    ensures Rest(rows, next) == Rest(rows, st)[n..]
  {
  }

  lemma {:induction false} RestBetween(rows: seq<Row>, st: FoldSt, b: nat, e: nat)
    requires b == Resolve(rows, st.begin) && e == Resolve(rows, st.end)
    ensures Rest(rows, st) ==
      var s := if b <= e then rows[b..e] else [];
      if st.reverse != 0 then Reverse(s) else s
  {
  }

  /** Each request for more asks for what the pages so far have left over, no row repeated and
      none skipped, and a limit that is not spent never turns into the unlimited 0. */
  lemma {:induction false} NextRequestContinues(rows: seq<Row>, server: Server, st: FoldSt)
    requires Sorted(rows) && ServerOk(rows, server)
    ensures var r := FoldRound(rows, server, st);
      r.More? ==>
        && 0 < |r.rows| <= |Rest(rows, st)| && r.rows == Rest(rows, st)[..|r.rows|]
        && Rest(rows, r.next) == Rest(rows, st)[|r.rows|..]
        && (st.limit == 0 <==> r.next.limit == 0)
        && (st.limit > 0 ==> r.next.limit == st.limit - |r.rows|)
        && r.next.reverse == st.reverse && r.next.iteration == st.iteration + 1 && r.next.from == st.from
  {
    var r := FoldRound(rows, server, st);
    if r.More? {
      assert r.rows == Page(rows, server, st);
      Continues(rows, st, |r.rows|, r.next);
    }
  }

  /** One round plus what it leaves to the next requests is what the request asked for. */
  lemma {:induction false} RoundAccounts(rows: seq<Row>, server: Server, st: FoldSt)
    requires Sorted(rows) && ServerOk(rows, server)
    ensures var r := FoldRound(rows, server, st);
      var owed := First(Rest(rows, st), st.limit);
      if r.More? then owed == r.rows + First(Rest(rows, r.next), r.next.limit) else owed == r.rows
  {
    NextRequestContinues(rows, server, st);
    var r, left := FoldRound(rows, server, st), Rest(rows, st);
    if r.More? {
      PageAndRest(left, |r.rows|, st.limit);
    } else {
      assert PageOk(|left|, st.limit, server(st).0, server(st).1);
      LastPage(left, server(st).0, st.limit, server(st).1);
    }
  }

  lemma {:induction false} PageAndRest<T>(left: seq<T>, n: nat, limit: nat)
    requires n <= |left| && (limit == 0 || n < limit)
    ensures First(left, limit) == left[..n] + First(left[n..], if limit == 0 then 0 else limit - n)
  {
    if limit > 0 {
      FirstAfter(left, n, limit);
    } else {
      assert left == left[..n] + left[n..];
    }
  }

  /** The last page, cut to the limit, is all that was asked for. */
  lemma {:induction false} LastPage<T>(left: seq<T>, count: nat, limit: nat, more: bool)
    requires PageOk(|left|, limit, count, more)
    requires !(count > 0 && (limit == 0 || limit > count) && more)
    ensures First(left, limit) == First(left[..count], limit)
  {
    if limit > 0 && limit <= count {
      assert left[..count][..limit] == left[..limit];
    } else {
      assert left[..count] == left;
    }
  }

  lemma {:induction false} FirstAfter<T>(s: seq<T>, n: nat, limit: nat)
    requires n <= |s| && n < limit
    ensures First(s, limit) == s[..n] + First(s[n..], limit - n)
  {
    if limit <= |s| {
      assert s[n..][..limit - n] == s[n..limit];
    } else {
      assert s == s[..n] + s[n..];
    }
  }
}
