/** The keys under which the directory layer stores its tree, and the ranges it reads and
    clears. */
module DirectoryKeys {
  import opened Options
  import opened ByteStrings
  import opened Terms
  import opened TupleEncode
  import opened TupleOrder
  import opened TupleDecode
  import opened Subspaces
  import Keys
  import HcaKeys
  import opened DirectoryTree

  const SUBDIRS: Term := Int(0)
  const LAYER: Bytes := [0x6C, 0x61, 0x79, 0x65, 0x72]
  const VERSION: Bytes := [0x76, 0x65, 0x72, 0x73, 0x69, 0x6F, 0x6E]
  const HCA: Bytes := [0x68, 0x63, 0x61]

  /** What lives below a node prefix; the root is the node named like the prefix. */
  datatype NodeKey =
    | Entry(owner: Name, part: Part)
    | LayerOf(name: Name)
    | Version
    | Allocator(key: HcaKeys.Key)

  predicate Valid(d: NodeKey) {
    d.Allocator? ==> HcaKeys.EncodableKey(d.key)
  }

  lemma {:induction false} BlobsEncodable(ts: Tuple)
    requires forall i :: 0 <= i < |ts| ==> ts[i].Blob?
    ensures EncodableAll(ts) && WellFormedAll(ts)
  {
    forall i | 0 <= i < |ts| ensures Encodable(ts[i]) && WellFormed(ts[i]) {
    }
  }

  // ---------------------------------------------------------------- as the code builds them

  /** `get_id` of the node of this name. */
  function NodeId(np: Name, name: Name): Bytes {
    BlobsEncodable([Blob(name)]);
    Pack([Blob(name)], np).value
  }

  /** The prefix of the root's allocator. */
  function AllocatorPrefix(np: Name): Bytes {
    BlobsEncodable([Blob(HCA)]);
    Pack([Blob(HCA)], NodeId(np, np)).value
  }

  function KeyOf(np: Name, d: NodeKey): Bytes
    requires Valid(d)
  {
    match d
    case Entry(o, part) =>
      SmallEncodable(part);
      Pack([SUBDIRS, Utf8(part)], NodeId(np, o)).value
    case LayerOf(n) =>
      BlobsEncodable([Blob(n), Blob(LAYER)]);
      Pack([Blob(n), Blob(LAYER)], np).value
    case Version =>
      BlobsEncodable([Blob(VERSION)]);
      Pack([Blob(VERSION)], NodeId(np, np)).value
    case Allocator(k) => HcaKeys.KeyBytes(AllocatorPrefix(np), k)
  }

  /** The range `list` reads. */
  function SubdirRange(np: Name, name: Name): (Bytes, Bytes) {
    HcaKeys.SmallIdsEncodable();
    var subdirs := Pack([SUBDIRS], NodeId(np, name)).value;
    (subdirs + [0x00], subdirs + [0xFF])
  }

  /** The two ranges `remove_recursive` clears. */
  function NodeRange(np: Name, name: Name): (Bytes, Bytes) {
    RangeIn(Create([], NodeId(np, name)).value, []).value
  }

  function ContentRange(name: Name): (Bytes, Bytes) {
    RangeIn(Create([], name).value, []).value
  }

  // ---------------------------------------------------------------- as tuples

  /** The name a key belongs to. */
  function Owner(np: Name, d: NodeKey): Name {
    match d
    case Entry(o, part) => o
    case LayerOf(n) => n
    case _ => np
  }

  function Rest(d: NodeKey): Tuple {
    match d
    case Entry(o, part) => [SUBDIRS, Utf8(part)]
    case LayerOf(_) => [Blob(LAYER)]
    case Version => [Blob(VERSION)]
    case Allocator(k) => [Blob(HCA)] + HcaKeys.KeyTuple(k)
  }

  function TupleOf(np: Name, d: NodeKey): Tuple {
    [Blob(Owner(np, d))] + Rest(d)
  }

  lemma {:induction false} SmallEncodable(part: Part)
    ensures EncodableAll([SUBDIRS, Utf8(part)]) && EncodableAll([SUBDIRS])
  {
    assert |EncodeUnsigned(0)| == 1;
  }

  lemma {:induction false} TupleWellFormed(np: Name, d: NodeKey)
    requires Valid(d)
    ensures WellFormedAll(TupleOf(np, d)) && EncodableAll(TupleOf(np, d)) && EncodableAll(Rest(d))
    ensures CanonicalAll(TupleOf(np, d))
  {
    RestIsGood(d);
    assert [Blob(Owner(np, d))][0] == Blob(Owner(np, d));
    AllEncodable(TupleOf(np, d));
    AllEncodable(Rest(d));
  }

  lemma {:induction false} RestIsGood(d: NodeKey)
    requires Valid(d)
    ensures WellFormedAll(Rest(d)) && CanonicalAll(Rest(d))
  {
    SmallEncodable([]);
    if d.Allocator? {
      HcaKeys.KeyTupleWellFormed(d.key);
    }
  }

  lemma {:induction false} PackBehindName(np: Name, name: Name, ts: Tuple)
    requires EncodableAll(ts)
    ensures Pack(ts, NodeId(np, name)) == Pack([Blob(name)] + ts, np)
  {
    SubspacesCompose([Blob(name)], ts, np);
  }

  lemma {:induction false} PackBehindHca(np: Name, ts: Tuple)
    requires EncodableAll(ts)
    ensures EncodableAll([Blob(HCA)] + ts)
    ensures Pack(ts, AllocatorPrefix(np)) == Pack([Blob(np)] + ([Blob(HCA)] + ts), np)
  {
    SubspacesCompose([Blob(HCA)], ts, NodeId(np, np));
    PackBehindName(np, np, [Blob(HCA)] + ts);
  }

  /** Every key of the layer packs the tuple of its owner's name and the rest. */
  lemma {:induction false} KeyIsPacked(np: Name, d: NodeKey)
    requires Valid(d)
    ensures Pack(TupleOf(np, d), np) == Some(KeyOf(np, d))
  {
    TupleWellFormed(np, d);
    match d
    case Entry(o, part) => PackBehindName(np, o, Rest(d));
    case LayerOf(n) => assert [Blob(n)] + [Blob(LAYER)] == [Blob(n), Blob(LAYER)];
    case Version => PackBehindName(np, np, Rest(d));
    case Allocator(k) =>
      HcaKeys.KeyBytesArePacked(AllocatorPrefix(np), k);
      PackBehindHca(np, HcaKeys.KeyTuple(k));
  }

  /** The tuples, spelled out: `layer`, `version` and `hca` in ASCII. */
  lemma {:induction false} KeysAreSpelledOut(np: Name, name: Name, part: Part)
    ensures Spells(np, Entry(name, part), [Blob(name), Int(0), Utf8(part)])
    ensures Spells(np, LayerOf(name), [Blob(name), Blob([0x6C, 0x61, 0x79, 0x65, 0x72])])
    ensures Spells(np, Version, [Blob(np), Blob([0x76, 0x65, 0x72, 0x73, 0x69, 0x6F, 0x6E])])
  {
    Spelled(np, Entry(name, part), [Blob(name), Int(0), Utf8(part)]);
    Spelled(np, LayerOf(name), [Blob(name), Blob([0x6C, 0x61, 0x79, 0x65, 0x72])]);
    Spelled(np, Version, [Blob(np), Blob([0x76, 0x65, 0x72, 0x73, 0x69, 0x6F, 0x6E])]);
  }

  lemma {:induction false} AllocatorKeysAreSpelledOut(np: Name, id: nat)
    requires HcaKeys.EncodableId(id)
    ensures Spells(np, Allocator(HcaKeys.Counter(id)), [Blob(np), Blob([0x68, 0x63, 0x61]), Int(0), Int(id)])
    ensures Spells(np, Allocator(HcaKeys.Marker(id)), [Blob(np), Blob([0x68, 0x63, 0x61]), Int(1), Int(id)])
  {
    Spelled(np, Allocator(HcaKeys.Counter(id)), [Blob(np), Blob([0x68, 0x63, 0x61]), Int(0), Int(id)]);
    Spelled(np, Allocator(HcaKeys.Marker(id)), [Blob(np), Blob([0x68, 0x63, 0x61]), Int(1), Int(id)]);
  }

  lemma {:induction false} Spelled(np: Name, d: NodeKey, tuple: Tuple)
    requires Valid(d) && tuple == TupleOf(np, d)
    ensures Spells(np, d, tuple)
  {
    KeyIsPacked(np, d);
  }

  predicate Spells(np: Name, d: NodeKey, tuple: Tuple) {
    Valid(d) && Pack(tuple, np) == Some(KeyOf(np, d))
  }

  lemma {:induction false} TupleTellsKey(np: Name, c: NodeKey, d: NodeKey)
    requires TupleOf(np, c) == TupleOf(np, d)
    ensures c == d
  {
    assert TupleOf(np, c)[0] == TupleOf(np, d)[0];
    assert TupleOf(np, c)[1..] == Rest(c) && TupleOf(np, d)[1..] == Rest(d);
    assert Rest(c)[0] == Rest(d)[0];
    if c.Entry? {
      assert Rest(c)[1] == Rest(d)[1];
    } else if c.Allocator? {
      assert Rest(c)[1..] == HcaKeys.KeyTuple(c.key) && Rest(d)[1..] == HcaKeys.KeyTuple(d.key);
    }
  }

  /** No two of them have the same bytes. */
  lemma {:induction false} KeyOfInjective(np: Name, c: NodeKey, d: NodeKey)
    requires Valid(c) && Valid(d) && KeyOf(np, c) == KeyOf(np, d)
    ensures c == d
  {
    KeyIsPacked(np, c);
    KeyIsPacked(np, d);
    UnpackedKey(np, c);
    UnpackedKey(np, d);
    TupleTellsKey(np, c, d);
  }

  /** Unpacking a key behind the node prefix gives the tuple back. */
  lemma {:induction false} UnpackedKey(np: Name, d: NodeKey)
    requires Valid(d)
    ensures UnpackIn(Subspace(np), KeyOf(np, d)) == Unpacked(TupleOf(np, d))
    ensures IsPrefix(np, KeyOf(np, d))
  {
    KeyIsPacked(np, d);
    TupleWellFormed(np, d);
    SubspaceRoundTrip(Subspace(np), TupleOf(np, d));
    PackUnpackRoundTrip(TupleOf(np, d), np);
  }

  // ---------------------------------------------------------------- ranges

  lemma {:induction false} CompareBlobs(a: Name, b: Name, s: Tuple, t: Tuple)
    ensures Compare([Blob(a)] + s, [Blob(b)] + t) == Then(Lex(a, b), Compare(s, t))
  {
    assert ([Blob(a)] + s)[1..] == s && ([Blob(b)] + t)[1..] == t;
  }

  /** The range cleared for a node holds the keys that belong to its name and no other. */
  lemma {:induction false} NodeRangeIsExact(np: Name, name: Name, d: NodeKey)
    requires Valid(d)
    ensures InRange(KeyOf(np, d), NodeRange(np, name).0, NodeRange(np, name).1) <==> Owner(np, d) == name
  {
    KeyIsPacked(np, d);
    TupleWellFormed(np, d);
    NodeRangeIs(np, name);
    RangeIsExact([Blob(name)], TupleOf(np, d), np);
    assert TupleOf(np, d)[..1] == [Blob(Owner(np, d))] + [] && [Blob(name)] + [] == [Blob(name)];
    CompareBlobs(Owner(np, d), name, [], []);
  }

  lemma {:induction false} NodeRangeIs(np: Name, name: Name)
    ensures Range([Blob(name)], np) == Some(NodeRange(np, name))
    ensures NodeRange(np, name) == (NodeId(np, name) + [0x00], NodeId(np, name) + [0xFF])
  {
    BlobsEncodable([Blob(name)]);
    EmptyRange(NodeId(np, name));
  }

  /** The range of the whole subspace behind a prefix. */
  lemma {:induction false} EmptyRange(prefix: Bytes)
    ensures Create([], prefix).Some? && RangeIn(Create([], prefix).value, []).Some?
    ensures RangeIn(Create([], prefix).value, []).value == (prefix + [0x00], prefix + [0xFF])
  {
    assert EncAll([], 0) == [];
    assert prefix + [] == prefix;
    RangeInIsRange(Subspace(prefix), []);
  }

  /** The range `list` reads holds the entries of the node and no other key. */
  lemma {:induction false} SubdirRangeIsExact(np: Name, name: Name, d: NodeKey)
    requires Valid(d)
    ensures InRange(KeyOf(np, d), SubdirRange(np, name).0, SubdirRange(np, name).1)
        <==> d.Entry? && d.owner == name
  {
    KeyIsPacked(np, d);
    TupleWellFormed(np, d);
    var t := [Blob(name)] + [SUBDIRS];
    SubdirBase(np, name);
    RangeIsExact(t, TupleOf(np, d), np);
    var u := TupleOf(np, d);
    assert u[..2] == [Blob(Owner(np, d))] + [Rest(d)[0]];
    CompareBlobs(Owner(np, d), name, [Rest(d)[0]], [SUBDIRS]);
    HcaKeys.CompareOne(Rest(d)[0], SUBDIRS);
  }

  lemma {:induction false} SubdirBase(np: Name, name: Name)
    ensures WellFormedAll([Blob(name)] + [SUBDIRS])
    ensures Range([Blob(name)] + [SUBDIRS], np) == Some(SubdirRange(np, name))
  {
    SmallEncodable([]);
    var t := [Blob(name)] + [SUBDIRS];
    PackBehindName(np, name, [SUBDIRS]);
    forall i | 0 <= i < |t| ensures WellFormed(t[i]) {
      assert t[i] == if i == 0 then Blob(name) else SUBDIRS;
      assert Encodable([SUBDIRS][0]);
    }
    AllEncodable(t);
  }

  /** What `list` reads the child's path name from: the key behind the subdirectory prefix. */
  function ListedPart(np: Name, name: Name, key: Bytes): Option<Part> {
    HcaKeys.SmallIdsEncodable();
    match UnpackIn(Subspace(Pack([SUBDIRS], NodeId(np, name)).value), key)
    case Unpacked(ts) => if |ts| == 1 && ts[0].Utf8? then Some(ts[0].text) else None
    case _ => None
  }

  lemma {:induction false} ListedPartIsPart(np: Name, owner: Name, part: Part)
    ensures ListedPart(np, owner, KeyOf(np, Entry(owner, part))) == Some(part)
  {
    SmallEncodable(part);
    HcaKeys.SmallIdsEncodable();
    SubspacesCompose([SUBDIRS], [Utf8(part)], NodeId(np, owner));
    assert [SUBDIRS] + [Utf8(part)] == [SUBDIRS, Utf8(part)];
    SubspaceRoundTrip(Create([SUBDIRS], NodeId(np, owner)).value, [Utf8(part)]);
    assert CanonAll([Utf8(part)]) == [Utf8(part)];
  }

  /** The content range of a name: the name itself and what goes on with 0xFF stay out of it,
      everything else that begins with the name is in it. */
  lemma {:induction false} ContentRangeIsExact(name: Name, k: Bytes)
    ensures InRange(k, ContentRange(name).0, ContentRange(name).1)
        <==> |name| < |k| && IsPrefix(name, k) && k[|name|] != 0xFF
  {
    EmptyRange(name);
    InsideBase(name, k);
  }

  /** So everything packed into the directory's subspace is in it. */
  lemma {:induction false} PackedContentIsInRange(name: Name, tuple: Tuple)
    requires EncodableAll(tuple) && tuple != []
    ensures Pack(tuple, name).Some?
    ensures InRange(Pack(tuple, name).value, ContentRange(name).0, ContentRange(name).1)
  {
    EncAllCons(tuple, 0);
    FirstByte(tuple[0], 0);
    var k := Pack(tuple, name).value;
    assert k == name + EncAll(tuple, 0);
    assert k[..|name|] == name && k[|name|] == EncAll(tuple, 0)[0];
    ContentRangeIsExact(name, k);
  }

  /** Clearing the content of one name leaves alone what begins with a name apart from it. */
  lemma {:induction false} ContentOfOthersIsOutside(name: Name, other: Name, k: Bytes)
    requires Apart(name, other) && IsPrefix(other, k)
    ensures !InRange(k, ContentRange(name).0, ContentRange(name).1)
  {
    ContentRangeIsExact(name, k);
    if IsPrefix(name, k) {
      PrefixesOfOne(name, other, k);
    }
  }

  /** The node range of a name holds only keys behind the node prefix. */
  lemma {:induction false} NodeRangeIsBehindPrefix(np: Name, name: Name, k: Bytes)
    requires InRange(k, NodeRange(np, name).0, NodeRange(np, name).1)
    ensures IsPrefix(np, k)
  {
    NodeRangeIs(np, name);
    InsideBase(NodeId(np, name), k);
    assert NodeId(np, name)[..|np|] == np;
    assert k[..|np|] == k[..|NodeId(np, name)|][..|np|];
  }
}
