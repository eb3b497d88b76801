/** `is_prefix_free`: one row and one probe decide how a new name stands to all others. */
module DirectoryNames {
  import opened Options
  import opened ByteStrings
  import opened Terms
  import opened TupleEncode
  import opened TupleOrder
  import opened TupleDecode
  import opened Subspaces
  import opened Keys
  import opened DirectoryTree
  import opened DirectoryKeys

  type Store = map<Bytes, Bytes>

  /** Everything behind the node prefix was put there by the directory layer. */
  ghost predicate NodeSpace(store: Store, np: Name) {
    forall k :: k in store && IsPrefix(np, k) ==> IsNodeKey(np, k)
  }

  ghost predicate IsNodeKey(np: Name, k: Bytes) {
    exists d :: Valid(d) && k == KeyOf(np, d)
  }

  /** Some key belongs to this name. */
  ghost predicate HasName(store: Store, np: Name, m: Name) {
    exists d :: Valid(d) && KeyOf(np, d) in store && Owner(np, d) == m
  }

  ghost predicate NamesApart(store: Store, np: Name) {
    forall a, b :: HasName(store, np, a) && HasName(store, np, b) && IsPrefix(a, b) ==> a == b
  }

  // ---------------------------------------------------------------- the reads

  /** The one row of a reverse range read with limit 1. */
  function LastKey(store: Store, lo: Bytes, hi: Bytes): (r: Option<Bytes>)
    ensures r.None? <==> !AnyKey(store, lo, hi)
    ensures r.Some? ==> IsGreatest(KeysIn(store, lo, hi), r.value)
  {
    var inside := KeysIn(store, lo, hi);
    if inside == {} then
      assert forall k :: k in store && InRange(k, lo, hi) ==> k in inside;
      None
    else
      Some(Greatest(inside))
  }

  function Greatest(s: set<Bytes>): (m: Bytes)
    requires s != {}
    ensures IsGreatest(s, m)
  {
    SomeGreatest(s);
    OneGreatest(s);
    var m :| IsGreatest(s, m);
    m
  }

  function KeysIn(store: Store, lo: Bytes, hi: Bytes): set<Bytes> {
    set k | k in store && InRange(k, lo, hi)
  }

  predicate AnyKey(store: Store, lo: Bytes, hi: Bytes) {
    exists k :: k in store && InRange(k, lo, hi)
  }

  // ---------------------------------------------------------------- is_prefix_free

  /** The end of the first read, `?ERLFDB_PACK(NodePrefix, {NodeName, null})`. */
  function BelowName(np: Name, name: Name): Bytes {
    assert EncodableAll([Blob(name), Null]) by {
      BlobsEncodable([Blob(name)]);
      assert Encodable(Null);
    }
    Pack([Blob(name), Null], np).value
  }

  /** Whether the name of the node a row belongs to begins the new name. A row whose key is
      not the layer's would make the code fail instead. */
  predicate RowBegins(np: Name, key: Bytes, name: Name) {
    var u := UnpackIn(Subspace(np), key);
    u.Unpacked? && u.tuple != [] && u.tuple[0].Blob? && IsPrefix(u.tuple[0].bin, name)
  }

  /** `is_prefix_free`; `None` is the error `strinc` raises. */
  function IsPrefixFree(store: Store, np: Name, name: Name): Option<bool> {
    if name == [] then Some(false)
    else if IsPrefix(NodeId(np, np), name) then Some(false)
    else
      var last := LastKey(store, np + [0x00], BelowName(np, name));
      if last.Some? && RowBegins(np, last.value, name) then Some(false)
      else
        match Strinc(name)
        case None => None
        case Some(next) => Some(!AnyKey(store, NodeId(np, name), NodeId(np, next)))
  }

  // ---------------------------------------------------------------- what the reads see

  lemma {:induction false} OwnerInRow(np: Name, d: NodeKey, name: Name)
    requires Valid(d)
    ensures RowBegins(np, KeyOf(np, d), name) <==> IsPrefix(Owner(np, d), name)
  {
    UnpackedKey(np, d);
    assert TupleOf(np, d)[0] == Blob(Owner(np, d));
  }

  /** The keys before `{name, null}` are those that belong to smaller names. */
  lemma {:induction false} BeforeName(np: Name, d: NodeKey, name: Name)
    requires Valid(d)
    ensures InRange(KeyOf(np, d), np + [0x00], BelowName(np, name)) <==> Lex(Owner(np, d), name) < 0
  {
    KeyIsPacked(np, d);
    TupleWellFormed(np, d);
    BehindZero(np, d);
    var end := [Blob(name), Null];
    assert WellFormedAll(end) by { BlobsEncodable([Blob(name)]); }
    assert end == [Blob(name)] + [Null];
    PackIsOrderEmbedding(TupleOf(np, d), end, np);
    CompareBlobs(Owner(np, d), name, Rest(d), [Null]);
  }

  lemma {:induction false} BehindZero(np: Name, d: NodeKey)
    requires Valid(d)
    ensures Lex(np + [0x00], KeyOf(np, d)) <= 0
  {
    KeyIsPacked(np, d);
    TupleWellFormed(np, d);
    var ts := TupleOf(np, d);
    EncAllCons(ts, 0);
    FirstByteIsCode(ts[0], 0);
    assert ts[0].Blob?;
    LexCommonPrefix(np, [0x00], EncAll(ts, 0));
    LexFirst([0x00], EncAll(ts, 0));
  }

  /** The keys of the probe are those that belong to names beginning with the new one. */
  lemma {:induction false} ProbeRange(np: Name, d: NodeKey, name: Name)
    requires Valid(d) && Strinc(name).Some?
    ensures InRange(KeyOf(np, d), NodeId(np, name), NodeId(np, Strinc(name).value)) <==> IsPrefix(name, Owner(np, d))
  {
    KeyAgainstId(np, d, name);
    KeyAgainstId(np, d, Strinc(name).value);
    LexAntisymmetric(NodeId(np, name), KeyOf(np, d));
    LexAntisymmetric(name, Owner(np, d));
    StrincRangeIsExact(name, Owner(np, d));
  }

  /** A key stands to the id of a node as its owner stands to the node's name, and after it
      when they are the same. */
  lemma {:induction false} KeyAgainstId(np: Name, d: NodeKey, name: Name)
    requires Valid(d)
    ensures Lex(KeyOf(np, d), NodeId(np, name)) == if Owner(np, d) == name then 1 else Lex(Owner(np, d), name)
  {
    KeyIsPacked(np, d);
    TupleWellFormed(np, d);
    BlobsEncodable([Blob(name)]);
    assert [Blob(name)] + [] == [Blob(name)];
    PackIsOrderEmbedding(TupleOf(np, d), [Blob(name)], np);
    CompareBlobs(Owner(np, d), name, Rest(d), []);
  }

  /** Both ranges lie behind the node prefix, so all rows in them are the layer's. */
  lemma {:induction false} RangesBehindPrefix(np: Name, lo: Bytes, hi: Bytes, k: Bytes)
    requires IsPrefix(np, lo) && IsPrefix(np, hi) && InRange(k, lo, hi)
    ensures IsPrefix(np, k)
  {
    PrefixIsAtMost(np, lo);
    LexTransitive(np, lo, k);
    BetweenPrefixAndExtension(np, k, hi);
  }

  lemma {:induction false} NodeIdBehindPrefix(np: Name, name: Name)
    ensures IsPrefix(np, NodeId(np, name))
  {
    BlobsEncodable([Blob(name)]);
    PackedBehindPrefix(np, [Blob(name)]);
  }

  lemma {:induction false} BelowNameBehindPrefix(np: Name, name: Name)
    ensures IsPrefix(np, BelowName(np, name))
  {
    BlobsEncodable([Blob(name)]);
    assert EncodableAll([Blob(name), Null]) by {
      assert Encodable(Null);
    }
    PackedBehindPrefix(np, [Blob(name), Null]);
  }

  lemma {:induction false} PackedBehindPrefix(np: Name, ts: Tuple)
    requires EncodableAll(ts)
    ensures IsPrefix(np, Pack(ts, np).value)
  {
    assert (np + EncAll(ts, 0))[..|np|] == np;
  }

  /** The row just below the new name is enough to tell whether any name begins it. */
  lemma {:induction false} LastRowDecides(store: Store, np: Name, name: Name)
    requires NodeSpace(store, np) && NamesApart(store, np)
    ensures var last := LastKey(store, np + [0x00], BelowName(np, name));
      last.Some? && RowBegins(np, last.value, name) <==>
      exists m :: HasName(store, np, m) && IsPrefix(m, name) && m != name
  {
    var lo, hi := np + [0x00], BelowName(np, name);
    var last := LastKey(store, lo, hi);
    if last.Some? {
      BelowNameBehindPrefix(np, name);
      assert lo[..|np|] == np;
      RangesBehindPrefix(np, lo, hi, last.value);
      assert IsNodeKey(np, last.value);
      var e :| Valid(e) && last.value == KeyOf(np, e);
      OwnerInRow(np, e, name);
      BeforeName(np, e, name);
      assert HasName(store, np, Owner(np, e));
      forall m | HasName(store, np, m) && IsPrefix(m, name) && m != name
        ensures RowBegins(np, last.value, name)
      {
        NameBelow(store, np, name, m, e);
      }
    } else {
      forall m | HasName(store, np, m) && IsPrefix(m, name) ensures m == name {
        var d :| Valid(d) && KeyOf(np, d) in store && Owner(np, d) == m;
        PrefixIsAtMost(m, name);
        BeforeName(np, d, name);
      }
    }
  }

  /** The owner of the last row lies between any name that begins the new one and the new one,
      so it is that name. */
  lemma {:induction false} NameBelow(store: Store, np: Name, name: Name, m: Name, e: NodeKey)
    requires NamesApart(store, np) && Valid(e) && HasName(store, np, m) && IsPrefix(m, name) && m != name
    requires LastKey(store, np + [0x00], BelowName(np, name)) == Some(KeyOf(np, e))
    ensures Owner(np, e) == m
  {
    var d :| Valid(d) && KeyOf(np, d) in store && Owner(np, d) == m;
    PrefixIsAtMost(m, name);
    BeforeName(np, d, name);
    BeforeName(np, e, name);
    OwnersInOrder(np, d, e);
    BetweenPrefixAndExtension(m, Owner(np, e), name);
    assert HasName(store, np, Owner(np, e));
  }

  lemma {:induction false} OwnersInOrder(np: Name, d: NodeKey, e: NodeKey)
    requires Valid(d) && Valid(e) && Lex(KeyOf(np, d), KeyOf(np, e)) <= 0
    ensures Lex(Owner(np, d), Owner(np, e)) <= 0
  {
    KeyIsPacked(np, d);
    KeyIsPacked(np, e);
    TupleWellFormed(np, d);
    TupleWellFormed(np, e);
    PackIsOrderEmbedding(TupleOf(np, d), TupleOf(np, e), np);
    CompareBlobs(Owner(np, d), Owner(np, e), Rest(d), Rest(e));
  }

  /** The probe is enough to tell whether the new name begins any name, itself included. */
  lemma {:induction false} ProbeDecides(store: Store, np: Name, name: Name)
    requires NodeSpace(store, np) && Strinc(name).Some?
    ensures AnyKey(store, NodeId(np, name), NodeId(np, Strinc(name).value)) <==>
      exists m :: HasName(store, np, m) && IsPrefix(name, m)
  {
    var lo, hi := NodeId(np, name), NodeId(np, Strinc(name).value);
    NodeIdBehindPrefix(np, name);
    NodeIdBehindPrefix(np, Strinc(name).value);
    if k :| k in store && InRange(k, lo, hi) {
      RangesBehindPrefix(np, lo, hi, k);
      assert IsNodeKey(np, k);
      var d :| Valid(d) && k == KeyOf(np, d);
      ProbeRange(np, d, name);
      assert HasName(store, np, Owner(np, d)) && IsPrefix(name, Owner(np, d));
    }
    forall m | HasName(store, np, m) && IsPrefix(name, m) ensures AnyKey(store, lo, hi) {
      var d :| Valid(d) && KeyOf(np, d) in store && Owner(np, d) == m;
      ProbeRange(np, d, name);
    }
  }

  /** `is_prefix_free` answers the whole question in both directions: a name is accepted when
      no existing name begins with it and it begins with none. */
  lemma {:induction false} IsPrefixFreeDecides(store: Store, np: Name, name: Name)
    requires NodeSpace(store, np) && NamesApart(store, np)
    ensures IsPrefixFree(store, np, name) == Some(true) <==>
      && name != [] && !AllFf(name) && !IsPrefix(NodeId(np, np), name)
      && forall m :: HasName(store, np, m) ==> Apart(m, name)
    ensures IsPrefixFree(store, np, name).None? <==>
      && name != [] && AllFf(name) && !IsPrefix(NodeId(np, np), name)
      && forall m :: HasName(store, np, m) && IsPrefix(m, name) ==> m == name
  {
    LastRowDecides(store, np, name);
    StrippedEnd(name);
    if Strinc(name).Some? {
      ProbeDecides(store, np, name);
    }
    assert IsPrefix(name, name);
    var last := LastKey(store, np + [0x00], BelowName(np, name));
    var begun := last.Some? && RowBegins(np, last.value, name);
    if begun {
      var m :| HasName(store, np, m) && IsPrefix(m, name) && m != name;
      assert !Apart(m, name);
    } else if Strinc(name).Some? && AnyKey(store, NodeId(np, name), NodeId(np, Strinc(name).value)) {
      var m :| HasName(store, np, m) && IsPrefix(name, m);
      assert !Apart(m, name);
    }
  }

  /** Once the root has a key of its own, the separate test for the root's id adds nothing. */
  lemma {:induction false} RootTestIsImplied(store: Store, np: Name, name: Name)
    requires HasName(store, np, np) && forall m :: HasName(store, np, m) ==> Apart(m, name)
    ensures !IsPrefix(NodeId(np, np), name)
  {
    assert Apart(np, name);
    NodeIdBehindPrefix(np, np);
    PrefixesChain(np, NodeId(np, np), name);
  }

  /** Before that the root's name is not protected: in an empty store the node prefix itself
      is accepted as the name of a new directory. */
  lemma {:induction false} EmptyStoreAcceptsTheRootsName(np: Name)
    requires np != [] && !AllFf(np)
    ensures IsPrefixFree(map[], np, np) == Some(true)
  {
    IsPrefixFreeDecides(map[], np, np);
    NodeIdIsLonger(np);
  }

  lemma {:induction false} NodeIdIsLonger(np: Name)
    ensures |NodeId(np, np)| > |np|
  {
    BlobsEncodable([Blob(np)]);
    EncAllCons([Blob(np)], 0);
    FirstByte(Blob(np), 0);
  }
}
