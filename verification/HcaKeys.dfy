/** The keys of the high-contention allocator (erlfdb_hca) and the ranges it reads and clears. */
module HcaKeys {
  import opened Options
  import opened ByteStrings
  import opened Terms
  import opened TupleEncode
  import opened TupleOrder
  import opened TupleDecode
  import opened Subspaces

  /** A window counter, or the marker of a candidate that has been handed out. */
  datatype Key = Counter(start: nat) | Marker(candidate: nat)

  predicate EncodableId(n: nat) {
    Encodable(Int(n))
  }

  predicate EncodableKey(k: Key) {
    EncodableId(if k.Counter? then k.start else k.candidate)
  }

  const COUNTERS: Term := Int(0)
  const RECENT: Term := Int(1)

  lemma {:induction false} SmallIdsEncodable()
    ensures EncodableAll([COUNTERS]) && EncodableAll([RECENT])
  {
    assert |EncodeUnsigned(0)| == 1 && |EncodeUnsigned(1)| == 1;
  }

  /** `create/1`: the two subspaces, behind `{0}` and `{1}`. */
  function Space(prefix: Bytes, section: Term): Bytes
    requires EncodableAll([section])
  {
    Pack([section], prefix).value
  }

  /** `?ERLFDB_EXTEND(Counters, Start)` and `?ERLFDB_EXTEND(Recent, Candidate)`. */
  function KeyBytes(prefix: Bytes, k: Key): Bytes
    requires EncodableKey(k)
  {
    SmallIdsEncodable();
    if k.Counter? then Pack([Int(k.start)], Space(prefix, COUNTERS)).value
    else Pack([Int(k.candidate)], Space(prefix, RECENT)).value
  }

  /** `counter_range/1`. */
  function CounterRange(prefix: Bytes): (Bytes, Bytes) {
    SmallIdsEncodable();
    RangeIn(Create([], Space(prefix, COUNTERS)).value, []).value
  }

  /** `?ERLFDB_RANGE(Section, Start)`: what `clear_previous_window` clears. */
  function WindowRange(prefix: Bytes, section: Term, start: nat): (Bytes, Bytes)
    requires EncodableAll([section]) && EncodableId(start)
  {
    RangeIn(Create([Int(start)], Space(prefix, section)).value, []).value
  }

  /** The tuple a key packs, counted from the allocator's own prefix. */
  function KeyTuple(k: Key): Tuple {
    if k.Counter? then [COUNTERS, Int(k.start)] else [RECENT, Int(k.candidate)]
  }

  lemma {:induction false} KeyTupleWellFormed(k: Key)
    requires EncodableKey(k)
    ensures WellFormedAll(KeyTuple(k)) && EncodableAll(KeyTuple(k))
  {
    SmallIdsEncodable();
    assert Encodable([COUNTERS][0]) && Encodable([RECENT][0]);
    AllEncodable(KeyTuple(k));
  }

  lemma {:induction false} PackInSpace(prefix: Bytes, section: Term, ts: Tuple)
    requires EncodableAll([section]) && EncodableAll(ts)
    ensures Pack(ts, Space(prefix, section)) == Pack([section] + ts, prefix)
    ensures EncodableAll([section] + ts)
  {
    SubspacesCompose([section], ts, prefix);
    EncodableConcat([section], ts);
  }

  lemma {:induction false} KeyBytesArePacked(prefix: Bytes, k: Key)
    requires EncodableKey(k)
    ensures Pack(KeyTuple(k), prefix) == Some(KeyBytes(prefix, k))
  {
    SmallIdsEncodable();
    var id := Int(if k.Counter? then k.start else k.candidate);
    PackInSpace(prefix, if k.Counter? then COUNTERS else RECENT, [id]);
    assert KeyTuple(k) == [if k.Counter? then COUNTERS else RECENT] + [id];
  }

  lemma {:induction false} SectionRangeIsTupleRange(prefix: Bytes, section: Term, ts: Tuple)
    requires EncodableAll([section]) && EncodableAll(ts)
    ensures Create(ts, Space(prefix, section)).Some?
    ensures RangeIn(Create(ts, Space(prefix, section)).value, []) == Range([section] + ts, prefix)
    ensures Range([section] + ts, prefix).Some?
  {
    PackInSpace(prefix, section, ts);
    var s := Create(ts, Space(prefix, section)).value;
    RangeInIsRange(s, []);
    assert Range([], s.prefix).value == (s.prefix + [] + [0x00], s.prefix + [] + [0xFF]);
    assert s.prefix + [] == s.prefix;
  }

  /** The reverse scan over `counter_range` meets counters and nothing else. */
  lemma {:induction false} CounterRangeIsExact(prefix: Bytes, k: Key)
    requires EncodableKey(k)
    ensures InRange(KeyBytes(prefix, k), CounterRange(prefix).0, CounterRange(prefix).1) <==> k.Counter?
  {
    SmallIdsEncodable();
    KeyTupleWellFormed(k);
    KeyBytesArePacked(prefix, k);
    SectionRangeIsTupleRange(prefix, COUNTERS, []);
    assert [COUNTERS] + [] == [COUNTERS];
    RangeIsExact([COUNTERS], KeyTuple(k), prefix);
    SectionOfKey(k);
  }

  lemma {:induction false} SectionOfKey(k: Key)
    ensures StrictlyExtends(KeyTuple(k), [COUNTERS]) <==> k.Counter?
  {
    assert KeyTuple(k)[..1] == [KeyTuple(k)[0]];
    CompareOne(KeyTuple(k)[0], COUNTERS);
  }

  lemma {:induction false} CompareOne(a: Term, b: Term)
    ensures Compare([a], [b]) == CompareElems(a, b)
  {
    assert [a][1..] == [] && [b][1..] == [];
  }

  /** The two ranges of a window, and the two kinds of key. */
  lemma {:induction false} WindowRangeIs(prefix: Bytes, start: nat)
    requires EncodableId(start)
    ensures EncodableAll([COUNTERS]) && EncodableAll([RECENT]) && EncodableAll([Int(0), Int(start)]) && EncodableAll([Int(1), Int(start)])
    ensures var counter, recent := Pack([Int(0), Int(start)], prefix).value, Pack([Int(1), Int(start)], prefix).value;
      && KeyBytes(prefix, Counter(start)) == counter && KeyBytes(prefix, Marker(start)) == recent
      && WindowRange(prefix, COUNTERS, start) == (counter + [0x00], counter + [0xFF])
      && WindowRange(prefix, RECENT, start) == (recent + [0x00], recent + [0xFF])
  {
    SmallIdsEncodable();
    KeyTupleWellFormed(Counter(start));
    KeyTupleWellFormed(Marker(start));
    KeyBytesArePacked(prefix, Counter(start));
    KeyBytesArePacked(prefix, Marker(start));
    SectionRangeIsTupleRange(prefix, COUNTERS, [Int(start)]);
    SectionRangeIsTupleRange(prefix, RECENT, [Int(start)]);
    assert [COUNTERS] + [Int(start)] == [Int(0), Int(start)] && [RECENT] + [Int(start)] == [Int(1), Int(start)];
  }

  /** The ranges cleared when a window advances hold proper sub-tuples of `{Start}` only, so
      no counter and no marker. */
  lemma {:induction false} WindowRangeHoldsNoKey(prefix: Bytes, section: Term, start: nat, k: Key)
    requires EncodableKey(k) && EncodableId(start) && (section == COUNTERS || section == RECENT)
    ensures EncodableAll([section])
    ensures !InRange(KeyBytes(prefix, k), WindowRange(prefix, section, start).0, WindowRange(prefix, section, start).1)
  {
    SmallIdsEncodable();
    KeyTupleWellFormed(k);
    KeyBytesArePacked(prefix, k);
    SectionRangeIsTupleRange(prefix, section, [Int(start)]);
    var t := [section] + [Int(start)];
    assert WellFormedAll(t) by {
      assert Encodable([section][0]);
    }
    RangeIsExact(t, KeyTuple(k), prefix);
  }

  /** Byte order on counters is numeric order on window starts. */
  lemma {:induction false} CounterOrder(prefix: Bytes, s: nat, t: nat)
    requires EncodableId(s) && EncodableId(t)
    ensures Lex(KeyBytes(prefix, Counter(s)), KeyBytes(prefix, Counter(t))) == Sign(s - t)
  {
    var a, b := Counter(s), Counter(t);
    KeyTupleWellFormed(a);
    KeyTupleWellFormed(b);
    KeyBytesArePacked(prefix, a);
    KeyBytesArePacked(prefix, b);
    PackIsOrderEmbedding(KeyTuple(a), KeyTuple(b), prefix);
    assert KeyTuple(a)[1..] == [Int(s)] && KeyTuple(b)[1..] == [Int(t)];
    CompareOne(Int(s), Int(t));
  }

  /** Different keys have different bytes. */
  lemma {:induction false} KeyBytesInjective(prefix: Bytes, j: Key, k: Key)
    requires EncodableKey(j) && EncodableKey(k) && KeyBytes(prefix, j) == KeyBytes(prefix, k)
    ensures j == k
  {
    KeyTupleWellFormed(j);
    KeyTupleWellFormed(k);
    KeyBytesArePacked(prefix, j);
    KeyBytesArePacked(prefix, k);
    PackInjective(KeyTuple(j), KeyTuple(k), prefix);
    var a, b := CanonAll(KeyTuple(j)), CanonAll(KeyTuple(k));
    assert a[0] == KeyTuple(j)[0] && a[1] == KeyTuple(j)[1] && b[0] == KeyTuple(k)[0] && b[1] == KeyTuple(k)[1];
  }

  /** Allocated identifiers, as the packed integers `allocate` returns. */
  function IdBytes(n: nat): Bytes
    requires EncodableId(n)
  {
    Pack([Int(n)], []).value
  }

  /** No identifier's bytes are a prefix of another's: the head gives the size away. */
  lemma {:induction false} IdsArePrefixFree(a: nat, b: nat)
    requires EncodableId(a) && EncodableId(b) && IsPrefix(IdBytes(a), IdBytes(b))
    ensures a == b
  {
    var x, y := IdBytes(a), IdBytes(b);
    IdLayout(a);
    IdLayout(b);
    var z := y[|x|..];
    assert y + [] == x + z;
    SignedOrder(a, b, z, []);
  }

  lemma {:induction false} IdLayout(n: nat)
    requires EncodableId(n)
    ensures IdBytes(n) == EncInt(n)
  {
    EncAllCons([Int(n)], 0);
    EncodedLayout(Int(n), 0);
    assert [Int(n)][1..] == [] && EncInt(n) + [] == EncInt(n) && [] + EncInt(n) == EncInt(n);
  }
}
