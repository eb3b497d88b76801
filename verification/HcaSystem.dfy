/** Any number of clients allocating against one database with optimistic commits. */
module HcaSystem {
  import opened ByteStrings
  import opened HcaKeys
  import opened HcaModel
  import opened HcaInvariant

  /** An open transaction: the version it reads, and what `allocate` has returned inside it. */
  datatype Client = Client(version: nat, tx: Tx, ids: seq<nat>)

  /** The transactions committed so far, in commit order, and the open ones. */
  datatype System = System(history: seq<Client>, clients: map<nat, Client>)

  /** The database at a version: the effect of the first `v` commits. */
  function StoreAt(prefix: Bytes, history: seq<Client>, v: nat): Store
    requires v <= |history|
  {
    if v == 0 then map[] else ApplyAll(prefix, StoreAt(prefix, history, v - 1), history[v - 1].tx.muts)
  }

  /** Some key read by the client was written by a commit it has not seen. */
  predicate Conflicts(prefix: Bytes, history: seq<Client>, client: Client) {
    exists j, k, span ::
      && client.version <= j < |history| && k in client.tx.readKeys && span in history[j].tx.spans
      && Covers(prefix, span.0, span.1, k)
  }

  /** `Begin` reads any committed version, the latest or a stale one, and drops whatever the
      client had open: it also stands for resets, crashes and retries after an error.
      `Allocate` is one run of the function inside `allocate`, again and again in the same
      transaction after `hca_retry` or for several allocations. After `CommitUnknown` the
      client never learns whether the commit was applied. */
  datatype Action =
    | Begin(who: nat, version: nat)
    | Allocate(who: nat, draw: nat)
    | Commit(who: nat)
    | CommitUnknown(who: nat, applied: bool)

  function TryCommit(prefix: Bytes, sys: System, who: nat): System
    requires who in sys.clients
  {
    var client := sys.clients[who];
    System(if Conflicts(prefix, sys.history, client) then sys.history else sys.history + [client],
           sys.clients - {who})
  }

  ghost function Step(prefix: Bytes, sys: System, a: Action): System {
    if a.Begin? then
      if a.version <= |sys.history| then
        var client := Client(a.version, NewTx(StoreAt(prefix, sys.history, a.version)), []);
        sys.(clients := sys.clients[a.who := client])
      else sys
    else if a.who !in sys.clients then sys
    else match a
      case Allocate(who, draw) =>
        var client := sys.clients[who];
        var (tx, o) := Attempt(prefix, client.tx, draw);
        var ids := if o.Allocated? then client.ids + [o.id] else client.ids;
        sys.(clients := sys.clients[who := client.(tx := tx, ids := ids)])
      case Commit(who) => TryCommit(prefix, sys, who)
      case CommitUnknown(who, applied) =>
        if applied then TryCommit(prefix, sys, who) else sys.(clients := sys.clients - {who})
  }

  ghost function Run(prefix: Bytes, actions: seq<Action>): System {
    if actions == [] then System([], map[])
    else Step(prefix, Run(prefix, actions[..|actions| - 1]), actions[|actions| - 1])
  }

  // ---------------------------------------------------------------- invariants

  ghost predicate ClientOk(prefix: Bytes, history: seq<Client>, client: Client) {
    && client.version <= |history|
    && client.tx.base == StoreAt(prefix, history, client.version)
    && TxOk(prefix, client.tx, client.ids)
  }

  ghost predicate HistoryOk(prefix: Bytes, history: seq<Client>) {
    forall j :: 0 <= j < |history| ==> ClientOk(prefix, history[..j], history[j])
  }

  ghost predicate Inv(prefix: Bytes, sys: System) {
    && HistoryOk(prefix, sys.history)
    && (forall i, j :: 0 <= i < j < |sys.history| ==> Disjoint(sys.history[i], sys.history[j]))
    && forall who :: who in sys.clients ==> ClientOk(prefix, sys.history, sys.clients[who])
  }

  predicate Disjoint(a: Client, b: Client) {
    forall i, j :: 0 <= i < |a.ids| && 0 <= j < |b.ids| ==> a.ids[i] != b.ids[j]
  }

  lemma {:induction false} StoreAtStable(prefix: Bytes, history: seq<Client>, v: nat, n: nat)
    requires v <= n <= |history|
    ensures StoreAt(prefix, history[..n], v) == StoreAt(prefix, history, v)
  {
    if v > 0 {
      StoreAtStable(prefix, history, v - 1, n);
    }
  }

  lemma {:induction false} MuchHarmless(prefix: Bytes, history: seq<Client>, j: nat)
    requires HistoryOk(prefix, history) && j < |history|
    ensures HarmlessAll(prefix, history[j].tx.muts) && Accounted(history[j].tx.muts)
  {
    assert ClientOk(prefix, history[..j], history[j]);
  }

  /** No marker is ever cleared. */
  lemma {:induction false} MarkerStays(prefix: Bytes, history: seq<Client>, v: nat, j: nat, c: nat)
    requires HistoryOk(prefix, history) && j < v <= |history| && c in Marks(history[j].tx.muts)
    ensures Marker(c) in StoreAt(prefix, history, v)
  {
    MuchHarmless(prefix, history, v - 1);
    KeyAll(prefix, StoreAt(prefix, history, v - 1), history[v - 1].tx.muts, Marker(c));
    if j < v - 1 {
      MarkerStays(prefix, history, v - 1, j, c);
    }
  }

  lemma {:induction false} CommittedStoreOk(prefix: Bytes, history: seq<Client>, v: nat)
    requires HistoryOk(prefix, history) && v <= |history|
    ensures StoreOk(StoreAt(prefix, history, v))
  {
    if v > 0 {
      CommittedStoreOk(prefix, history, v - 1);
      MuchHarmless(prefix, history, v - 1);
      StoreAll(prefix, StoreAt(prefix, history, v - 1), history[v - 1].tx.muts);
    }
  }

  lemma {:induction false} PointCovers(prefix: Bytes, k: Key)
    requires EncodableKey(k)
    ensures Covers(prefix, Point(prefix, k).0, Point(prefix, k).1, k)
  {
    PrefixIsAtMost(KeyBytes(prefix, k), KeyBytes(prefix, k));
    StrictlyLonger(KeyBytes(prefix, k));
  }

  lemma {:induction false} StrictlyLonger(b: Bytes)
    ensures Lex(b, b + [0]) < 0
  {
    assert b == b + [];
    LexCommonPrefix(b, [], [0]);
  }

  /** A commit that goes through hands out nothing that was handed out before: an earlier
      owner either left a marker the transaction could see or wrote a key it had read. */
  lemma {:induction false} CommitIsFresh(prefix: Bytes, sys: System, client: Client, i: nat)
    requires Inv(prefix, sys) && ClientOk(prefix, sys.history, client)
    requires !Conflicts(prefix, sys.history, client) && i < |sys.history|
    ensures Disjoint(sys.history[i], client)
  {
    var h := sys.history;
    assert ClientOk(prefix, h[..i], h[i]);
    forall p, q | 0 <= p < |h[i].ids| && 0 <= q < |client.ids| ensures h[i].ids[p] != client.ids[q] {
      var id := client.ids[q];
      assert Guarded(prefix, client.tx, id) && Guarded(prefix, h[i].tx, h[i].ids[p]);
      if h[i].ids[p] == id {
        if i < client.version {
          MarkerStays(prefix, h, client.version, i, id);
        } else {
          PointCovers(prefix, Marker(id));
        }
      }
    }
  }

  lemma {:induction false} CommitKeepsInv(prefix: Bytes, sys: System, who: nat)
    requires Inv(prefix, sys) && who in sys.clients
    ensures Inv(prefix, TryCommit(prefix, sys, who))
  {
    var client, h := sys.clients[who], sys.history;
    var h1 := h + [client];
    if !Conflicts(prefix, h, client) {
      assert h1[..|h|] == h;
      forall j | 0 <= j < |h1| ensures ClientOk(prefix, h1[..j], h1[j]) {
        assert h1[..j] == h[..j];
        assert h[..|h|] == h;
      }
      forall i | 0 <= i < |h| ensures Disjoint(h1[i], client) {
        CommitIsFresh(prefix, sys, client, i);
      }
      forall c | c in sys.clients ensures ClientOk(prefix, h1, sys.clients[c]) {
        StoreAtStable(prefix, h1, sys.clients[c].version, |h|);
      }
    }
  }

  lemma {:induction false} FreshTxOk(prefix: Bytes, base: Store)
    requires StoreOk(base)
    ensures TxOk(prefix, NewTx(base), [])
  {
    forall w ensures |MarksIn(Marks([]), w)| == 0 {
      assert MarksIn(Marks([]), w) == {};
    }
  }

  lemma {:induction false} StepKeepsInv(prefix: Bytes, sys: System, a: Action)
    requires Inv(prefix, sys)
    ensures Inv(prefix, Step(prefix, sys, a))
  {
    match a {
      case Begin(who, version) =>
        if version <= |sys.history| {
          CommittedStoreOk(prefix, sys.history, version);
          FreshTxOk(prefix, StoreAt(prefix, sys.history, version));
        }
      case Allocate(who, draw) =>
        if who in sys.clients {
          AttemptKeepsOk(prefix, sys.clients[who].tx, sys.clients[who].ids, draw);
        }
      case Commit(who) =>
        if who in sys.clients {
          CommitKeepsInv(prefix, sys, who);
        }
      case CommitUnknown(who, applied) =>
        if who in sys.clients && applied {
          CommitKeepsInv(prefix, sys, who);
        }
    }
  }

  lemma {:induction false} RunKeepsInv(prefix: Bytes, actions: seq<Action>)
    ensures Inv(prefix, Run(prefix, actions))
  {
    if actions != [] {
      RunKeepsInv(prefix, actions[..|actions| - 1]);
      StepKeepsInv(prefix, Run(prefix, actions[..|actions| - 1]), actions[|actions| - 1]);
    }
  }

  // ---------------------------------------------------------------- uniqueness

  /** All identifiers handed out by committed transactions, whether or not the client was
      told of the commit. */
  function CommittedIds(history: seq<Client>): seq<nat> {
    if history == [] then [] else CommittedIds(history[..|history| - 1]) + history[|history| - 1].ids
  }

  lemma {:induction false} OwnerOf(history: seq<Client>, p: nat) returns (i: nat, q: nat)
    requires p < |CommittedIds(history)|
    ensures i < |history| && q < |history[i].ids| && history[i].ids[q] == CommittedIds(history)[p]
  {
    var front := history[..|history| - 1];
    if p < |CommittedIds(front)| {
      i, q := OwnerOf(front, p);
    } else {
      i, q := |front|, p - |CommittedIds(front)|;
    }
  }

  lemma {:induction false} DisjointHistoryIsDistinct(prefix: Bytes, history: seq<Client>)
    requires HistoryOk(prefix, history)
    requires forall i, j :: 0 <= i < j < |history| ==> Disjoint(history[i], history[j])
    ensures Distinct(CommittedIds(history))
  {
    forall j | 0 <= j < |history| ensures Distinct(history[j].ids) {
      assert ClientOk(prefix, history[..j], history[j]);
    }
    DisjointIdsAreDistinct(history);
  }

  lemma {:induction false} DisjointIdsAreDistinct(history: seq<Client>)
    requires forall j :: 0 <= j < |history| ==> Distinct(history[j].ids)
    requires forall i, j :: 0 <= i < j < |history| ==> Disjoint(history[i], history[j])
    ensures Distinct(CommittedIds(history))
  {
    if history != [] {
      var n := |history| - 1;
      var front := history[..n];
      DisjointIdsAreDistinct(front);
      var ids, last := CommittedIds(front), history[n].ids;
      forall a, b | 0 <= a < |ids| && 0 <= b < |last| ensures ids[a] != last[b] {
        var i, q := OwnerOf(front, a);
        assert Disjoint(history[i], history[n]);
      }
      DistinctJoins(ids, last);
    }
  }

  lemma {:induction false} DistinctJoins(a: seq<nat>, b: seq<nat>)
    requires Distinct(a) && Distinct(b) && forall i, j :: 0 <= i < |a| && 0 <= j < |b| ==> a[i] != b[j]
    ensures Distinct(a + b)
  {
  }

  /** Uniqueness: in every interleaving of any number of transactions, no identifier is
      handed out twice by transactions that commit. */
  lemma {:induction false} AllocationsAreUnique(prefix: Bytes, actions: seq<Action>)
    ensures Distinct(CommittedIds(Run(prefix, actions).history))
  {
    RunKeepsInv(prefix, actions);
    DisjointHistoryIsDistinct(prefix, Run(prefix, actions).history);
  }

  // ---------------------------------------------------------------- what is handed out

  ghost predicate AllGiven(sys: System) {
    && (forall j :: 0 <= j < |sys.history| ==> Given(sys.history[j].tx, sys.history[j].ids))
    && (forall who :: who in sys.clients ==> Given(sys.clients[who].tx, sys.clients[who].ids))
  }

  lemma {:induction false} AllocateKeepsGiven(prefix: Bytes, sys: System, who: nat, draw: nat)
    requires Inv(prefix, sys) && AllGiven(sys) && who in sys.clients
    ensures AllGiven(Step(prefix, sys, Allocate(who, draw)))
  {
    var client := sys.clients[who];
    assert ClientOk(prefix, sys.history, client);
    AttemptKeepsGiven(prefix, client.tx, client.ids, draw);
  }

  lemma {:induction false} CommitKeepsGiven(prefix: Bytes, sys: System, who: nat)
    requires AllGiven(sys) && who in sys.clients
    ensures AllGiven(TryCommit(prefix, sys, who))
  {
  }

  lemma {:induction false} BeginKeepsGiven(prefix: Bytes, sys: System, who: nat, version: nat)
    requires AllGiven(sys)
    ensures AllGiven(Step(prefix, sys, Begin(who, version)))
  {
  }

  lemma {:induction false} StepKeepsGiven(prefix: Bytes, sys: System, a: Action)
    requires Inv(prefix, sys) && AllGiven(sys)
    ensures AllGiven(Step(prefix, sys, a))
  {
    if a.Begin? {
      BeginKeepsGiven(prefix, sys, a.who, a.version);
    } else if a.who in sys.clients {
      match a
      case Allocate(who, draw) => AllocateKeepsGiven(prefix, sys, who, draw);
      case Commit(who) => CommitKeepsGiven(prefix, sys, who);
      case CommitUnknown(who, applied) => CommitKeepsGiven(prefix, sys, who);
    }
  }

  lemma {:induction false} RunKeepsGiven(prefix: Bytes, actions: seq<Action>)
    ensures AllGiven(Run(prefix, actions))
  {
    if actions != [] {
      RunKeepsInv(prefix, actions[..|actions| - 1]);
      RunKeepsGiven(prefix, actions[..|actions| - 1]);
      StepKeepsGiven(prefix, Run(prefix, actions[..|actions| - 1]), actions[|actions| - 1]);
    }
  }

  lemma {:induction false} MarkersStay(prefix: Bytes, history: seq<Client>, u: nat, v: nat, c: nat)
    requires HistoryOk(prefix, history) && u <= v <= |history| && Marker(c) in StoreAt(prefix, history, u)
    ensures Marker(c) in StoreAt(prefix, history, v)
    decreases v - u
  {
    if u < v {
      MuchHarmless(prefix, history, u);
      MarkerKept(prefix, StoreAt(prefix, history, u), history[u].tx.muts, Marker(c));
      MarkersStay(prefix, history, u + 1, v, c);
    }
  }

  lemma {:induction false} MarkerKept(prefix: Bytes, s: Store, muts: seq<Mutation>, k: Key)
    requires HarmlessAll(prefix, muts) && k in s
    ensures k in ApplyAll(prefix, s, muts)
  {
    KeyAll(prefix, s, muts, k);
  }

  lemma {:induction false} MarkedIfHandedOut(prefix: Bytes, history: seq<Client>, v: nat, c: nat)
    requires HistoryOk(prefix, history) && v <= |history|
    requires forall j :: 0 <= j < |history| ==> Given(history[j].tx, history[j].ids)
    ensures c in CommittedIds(history[..v]) <==> Marker(c) in StoreAt(prefix, history, v)
  {
    if v > 0 {
      var client, h := history[v - 1], history[..v];
      assert h[..|h| - 1] == history[..v - 1] && ClientOk(prefix, history[..v - 1], client);
      MarkedIfHandedOut(prefix, history, v - 1, c);
      MuchHarmless(prefix, history, v - 1);
      KeyAll(prefix, StoreAt(prefix, history, v - 1), client.tx.muts, Marker(c));
      StoreAtStable(prefix, history, client.version, v - 1);
      if c in client.ids {
        var q :| 0 <= q < |client.ids| && client.ids[q] == c;
        assert Guarded(prefix, client.tx, client.ids[q]);
      } else if c in Marks(client.tx.muts) {
        MarkersStay(prefix, history, client.version, v - 1, c);
      }
    }
  }

  /** In every committed state the marked candidates are exactly the identifiers handed out by the
      transactions that have committed. */
  lemma {:induction false} MarkedExactlyIfHandedOut(prefix: Bytes, actions: seq<Action>, c: nat)
    ensures var h := Run(prefix, actions).history;
      c in CommittedIds(h) <==> Marker(c) in StoreAt(prefix, h, |h|)
  {
    var h := Run(prefix, actions).history;
    RunKeepsInv(prefix, actions);
    RunKeepsGiven(prefix, actions);
    assert h[..|h|] == h;
    MarkedIfHandedOut(prefix, h, |h|, c);
  }

  /** From any reachable state, a transaction that begins at the latest version and is not overtaken
      commits, and hands out the identifier its attempt found. */
  lemma {:induction false} UndisturbedCommits(prefix: Bytes, actions: seq<Action>, who: nat, draw: nat)
    ensures var h := Run(prefix, actions).history;
      var later := Run(prefix, actions + [Begin(who, |h|)] + [Allocate(who, draw)] + [Commit(who)]).history;
      var o := Attempt(prefix, NewTx(StoreAt(prefix, h, |h|)), draw).1;
      CommittedIds(later) == CommittedIds(h) + if o.Allocated? then [o.id] else []
  {
    var begun := actions + [Begin(who, |Run(prefix, actions).history|)];
    RunSnoc(prefix, actions, Begin(who, |Run(prefix, actions).history|));
    RunSnoc(prefix, begun, Allocate(who, draw));
    RunSnoc(prefix, begun + [Allocate(who, draw)], Commit(who));
    var sys := Run(prefix, begun + [Allocate(who, draw)]);
    assert !Conflicts(prefix, sys.history, sys.clients[who]);
    assert (sys.history + [sys.clients[who]])[..|sys.history|] == sys.history;
  }

  lemma {:induction false} RunSnoc(prefix: Bytes, actions: seq<Action>, a: Action)
    ensures Run(prefix, actions + [a]) == Step(prefix, Run(prefix, actions), a)
  {
    assert (actions + [a])[..|actions|] == actions;
  }

  // ---------------------------------------------------------------- accounting

  /** How often the committed transactions counted into a window. */
  function TotalAdds(history: seq<Client>, v: nat, w: nat): nat
    requires v <= |history|
  {
    if v == 0 then 0 else TotalAdds(history, v - 1, w) + Adds(history[v - 1].tx.muts, w)
  }

  function StoreMarks(s: Store, w: nat): set<nat> {
    set k | k in s && k.Marker? && InWindow(k.candidate, w) :: k.candidate
  }

  lemma {:induction false} MarksAfter(prefix: Bytes, s: Store, ms: seq<Mutation>, w: nat)
    requires HarmlessAll(prefix, ms)
    ensures StoreMarks(ApplyAll(prefix, s, ms), w) == StoreMarks(s, w) + MarksIn(Marks(ms), w)
    ensures |StoreMarks(ApplyAll(prefix, s, ms), w)| <= |StoreMarks(s, w)| + |MarksIn(Marks(ms), w)|
  {
    var t := ApplyAll(prefix, s, ms);
    forall c ensures c in StoreMarks(t, w) <==> c in StoreMarks(s, w) || c in MarksIn(Marks(ms), w) {
      KeyAll(prefix, s, ms, Marker(c));
      MarkMembership(s, w, c);
      MarkMembership(t, w, c);
    }
    UnionSize(StoreMarks(s, w), MarksIn(Marks(ms), w));
  }

  lemma {:induction false} MarkMembership(s: Store, w: nat, c: nat)
    ensures c in StoreMarks(s, w) <==> Marker(c) in s && InWindow(c, w)
  {
    if Marker(c) in s && InWindow(c, w) {
      assert Marker(c).candidate in StoreMarks(s, w);
    }
  }

  lemma {:induction false} UnionSize(a: set<nat>, b: set<nat>)
    ensures |a + b| <= |a| + |b|
  {
    assert a + b == a + (b - a);
    assert b == (b - a) + (b * a);
  }

  /** In every committed state a window's counter, while 64 bits hold it, is the number of
      attempts that entered the window, and at least the number of its markers. */
  lemma {:induction false} CountersCoverMarkers(prefix: Bytes, history: seq<Client>, v: nat, w: nat)
    requires HistoryOk(prefix, history) && v <= |history| && IsWindowStart(w)
    ensures |StoreMarks(StoreAt(prefix, history, v), w)| <= TotalAdds(history, v, w)
    ensures TotalAdds(history, v, w) < WORD ==> CountIn(StoreAt(prefix, history, v), w) == TotalAdds(history, v, w)
  {
    if v > 0 {
      CountersCoverMarkers(prefix, history, v - 1, w);
      var s, ms := StoreAt(prefix, history, v - 1), history[v - 1].tx.muts;
      MuchHarmless(prefix, history, v - 1);
      MarksAfter(prefix, s, ms, w);
      if TotalAdds(history, v, w) < WORD {
        CountAll(prefix, s, ms, w);
      }
    } else {
      assert StoreMarks(map[], w) == {};
    }
  }

  /** Accounting over whole runs. */
  lemma {:induction false} CommittedCountersCoverMarkers(prefix: Bytes, actions: seq<Action>, w: nat)
    requires IsWindowStart(w)
    ensures var h := Run(prefix, actions).history;
      var s := StoreAt(prefix, h, |h|);
      TotalAdds(h, |h|, w) < 0x1_0000_0000_0000_0000 ==> |StoreMarks(s, w)| <= CountIn(s, w) == TotalAdds(h, |h|, w)
  {
    RunKeepsInv(prefix, actions);
    var h := Run(prefix, actions).history;
    CountersCoverMarkers(prefix, h, |h|, w);
  }

  /** Progress: in any reachable state, once a client has settled for a window, fewer than
      half of its candidates are taken in the client's own view, unless the window's counter
      has wrapped round. */
  lemma {:induction false} MostCandidatesAreFree(prefix: Bytes, actions: seq<Action>, who: nat)
    ensures var sys := Run(prefix, actions);
      who in sys.clients ==>
        var client := sys.clients[who];
        var (tx, w) := Walk(prefix, client.tx);
        (w.Some? && client.version <= |sys.history|
         && TotalAdds(sys.history, client.version, w.value) + Adds(tx.muts, w.value) < 0x1_0000_0000_0000_0000 ==>
           |StoreMarks(View(prefix, tx), w.value)| * 2 < WindowSize(w.value))
  {
    RunKeepsInv(prefix, actions);
    var sys := Run(prefix, actions);
    if who in sys.clients {
      var client := sys.clients[who];
      WalkEffect(prefix, client.tx);
      var (tx, w) := Walk(prefix, client.tx);
      if w.Some? && TotalAdds(sys.history, client.version, w.value) + Adds(tx.muts, w.value) < WORD {
        SettledIsFree(prefix, sys.history, client, tx, w.value);
      }
    }
  }

  lemma {:induction false} SettledIsFree(prefix: Bytes, history: seq<Client>, client: Client, tx: Tx, w: nat)
    requires HistoryOk(prefix, history) && ClientOk(prefix, history, client)
    requires Walked(prefix, client.tx, tx) && Settled(prefix, client.tx, tx, w)
    requires TotalAdds(history, client.version, w) + Adds(tx.muts, w) < WORD
    ensures |StoreMarks(View(prefix, tx), w)| * 2 < WindowSize(w)
  {
    CountersCoverMarkers(prefix, history, client.version, w);
    MarksAfter(prefix, tx.base, tx.muts, w);
    CountAll(prefix, tx.base, tx.muts, w);
  }
}
