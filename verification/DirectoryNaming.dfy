/** Names for new nodes: what the allocator gives, which names meet one it may give, and how the
    store grows without touching a name. */
module DirectoryNaming {
  import opened Options
  import opened ByteStrings
  import opened Terms
  import opened TupleEncode
  import opened Keys
  import HcaKeys
  import opened DirectoryTree
  import opened DirectoryPartitions
  import opened DirectoryKeys
  import opened DirectoryNames
  import opened DirectoryStore
  import opened DirectoryNodes
  import opened DirectoryVersions

  // ---------------------------------------------------------------- allocations

  /** What `allocate` answers and leaves in the store: a marker, and a counter at its window. */
  datatype Allocation = Allocation(id: nat, start: nat, counter: Bytes)

  predicate Storable(a: Allocation) {
    HcaKeys.EncodableId(a.id) && HcaKeys.EncodableId(a.start)
  }

  predicate AllStorable(allocs: seq<Allocation>) {
    forall i :: 0 <= i < |allocs| ==> Storable(allocs[i])
  }

  function Allocated(store: Store, h: Bytes, a: Allocation): Store
    requires Storable(a)
  {
    store[KeyOf(h, Allocator(HcaKeys.Counter(a.start))) := a.counter][KeyOf(h, Allocator(HcaKeys.Marker(a.id))) := []]
  }

  function AllocatedName(contentPrefix: Bytes, a: Allocation): Name
    requires Storable(a)
  {
    contentPrefix + HcaKeys.IdBytes(a.id)
  }

  /** Different identifiers give names apart from each other. */
  lemma {:induction false} AllocatedNamesApart(contentPrefix: Bytes, a: Allocation, b: Allocation)
    requires Storable(a) && Storable(b)
    ensures Apart(AllocatedName(contentPrefix, a), AllocatedName(contentPrefix, b)) <==> a.id != b.id
  {
    var x, y := HcaKeys.IdBytes(a.id), HcaKeys.IdBytes(b.id);
    ApartBehind(contentPrefix, x, y);
    if a.id == b.id {
      assert IsPrefix(x, y);
    } else if IsPrefix(x, y) {
      HcaKeys.IdsArePrefixFree(a.id, b.id);
    } else if IsPrefix(y, x) {
      HcaKeys.IdsArePrefixFree(b.id, a.id);
    }
  }

  lemma {:induction false} ApartBehind(p: Bytes, x: Bytes, y: Bytes)
    ensures Apart(p + x, p + y) <==> Apart(x, y)
  {
    PrefixBehind(p, x, y);
    PrefixBehind(p, y, x);
  }

  lemma {:induction false} PrefixBehind(p: Bytes, x: Bytes, y: Bytes)
    ensures IsPrefix(p + x, p + y) <==> IsPrefix(x, y)
  {
    if |x| <= |y| {
      assert (p + y)[..|p + x|] == p + y[..|x|];
      assert (p + x)[|p|..] == x && (p + y[..|x|])[|p|..] == y[..|x|];
    }
  }

  // ---------------------------------------------------------------- meeting an identifier

  /** The bytes begin as a packed identifier does, as far as they go: the type code, the size where
      it is spelled out, and no leading zero. */
  predicate MeetsAnId(s: Bytes) {
    s != [] && (
      || s[0] == 0x14
      || (0x15 <= s[0] <= 0x1C && (|s| == 1 || s[1] != 0))
      || (s[0] == 0x1D && (|s| == 1 || (9 <= s[1] && (|s| == 2 || s[2] != 0)))))
  }

  /** It is exactly to begin some identifier or to begin with one. */
  lemma {:induction false} MeetsAnIdIff(s: Bytes)
    requires s != []
    ensures MeetsAnId(s) <==> exists n: nat :: HcaKeys.EncodableId(n) && !Apart(HcaKeys.IdBytes(n), s)
  {
    if n: nat :| HcaKeys.EncodableId(n) && !Apart(HcaKeys.IdBytes(n), s) {
      IdMeets(n, s);
    }
    if MeetsAnId(s) {
      var n := SomeIdMeets(s);
    }
  }

  /** The bytes of an identifier: the type code, the size of long ones, the magnitude. */
  lemma {:induction false} IdIs(n: nat)
    requires HcaKeys.EncodableId(n)
    ensures HcaKeys.IdBytes(n) == if n == 0 then [0x14] else IntHead(false, |EncodeUnsigned(n)|) + EncodeUnsigned(n)
  {
    HcaKeys.IdLayout(n);
  }

  lemma {:induction false} IdStart(n: nat)
    requires HcaKeys.EncodableId(n)
    ensures HcaKeys.IdBytes(n) != [] && 0x14 <= HcaKeys.IdBytes(n)[0] <= 0x1D
  {
    IdIs(n);
  }

  lemma {:induction false} SameBytes(x: Bytes, y: Bytes, i: nat)
    requires !Apart(x, y) && i < |x| && i < |y|
    ensures x[i] == y[i]
  {
  }

  lemma {:induction false} IdMeets(n: nat, s: Bytes)
    requires s != [] && HcaKeys.EncodableId(n) && !Apart(HcaKeys.IdBytes(n), s)
    ensures MeetsAnId(s)
  {
    var id := HcaKeys.IdBytes(n);
    IdIs(n);
    SameBytes(id, s, 0);
    if |id| > 1 && |s| > 1 {
      SameBytes(id, s, 1);
    }
    if |id| > 2 && |s| > 2 {
      SameBytes(id, s, 2);
    }
  }

  /** A magnitude of the given size that meets the bytes. */
  function Completed(s: Bytes, size: nat): (m: Bytes)
    requires size > 0 && (s != [] ==> s[0] != 0)
    ensures |m| == size && m[0] != 0 && !Apart(m, s)
  {
    if size <= |s| then s[..size]
    else if s == [] then [1] + seq(size - 1, _ => 0)
    else
      var m: Bytes := s + seq(size - |s|, _ => 0);
      assert m[..|s|] == s;
      m
  }

  lemma {:induction false} EncodesAgain(m: Bytes)
    requires m != [] && m[0] != 0
    ensures EncodeUnsigned(BeValue(m)) == m && BeValue(m) > 0
  {
    var v := BeValue(m);
    BeValueHead(m);
    TimesAtLeast(m[0], Pow256(|m| - 1));
    var r := EncodeUnsigned(v);
    UnsignedBounds(v);
    if |r| < |m| {
      Pow256Monotone(|r|, |m| - 1);
    } else if |m| < |r| {
      Pow256Monotone(|m|, |r| - 1);
    }
    BeValueInjective(r, m);
  }

  lemma {:induction false} SomeIdMeets(s: Bytes) returns (n: nat)
    requires MeetsAnId(s)
    ensures HcaKeys.EncodableId(n) && !Apart(HcaKeys.IdBytes(n), s)
  {
    if s[0] == 0x14 {
      n := 0;
      SmallestIdMeets(s);
    } else if s[0] == 0x1D {
      n := LongIdMeets(s);
    } else {
      var m := Completed(s[1..], s[0] - 0x14);
      n := BeValue(m);
      EncodesAgain(m);
      IdIs(n);
      assert s == [s[0]] + s[1..];
      ApartBehind([s[0]], m, s[1..]);
    }
  }

  lemma {:induction false} SmallestIdMeets(s: Bytes)
    requires s != [] && s[0] == 0x14
    ensures HcaKeys.EncodableId(0) && !Apart(HcaKeys.IdBytes(0), s)
  {
    HcaKeys.SmallIdsEncodable();
    assert Encodable([HcaKeys.COUNTERS][0]);
    IdIs(0);
    assert s[..1] == [0x14];
  }

  lemma {:induction false} LongIdMeets(s: Bytes) returns (n: nat)
    requires MeetsAnId(s) && s[0] == 0x1D
    ensures HcaKeys.EncodableId(n) && !Apart(HcaKeys.IdBytes(n), s)
  {
    var size := if |s| == 1 then 9 else s[1];
    var rest := if |s| <= 2 then [] else s[2..];
    var m := Completed(rest, size);
    n := BeValue(m);
    EncodesAgain(m);
    IdIs(n);
    var id := HcaKeys.IdBytes(n);
    assert id == [0x1D, size] + m;
    if |s| == 1 {
      assert id[..1] == s;
    } else {
      assert s == [0x1D, size] + rest;
      ApartBehind([0x1D, size], m, rest);
    }
  }

  /** The name meets no name the allocator can give behind this content prefix. */
  predicate MeetsNoName(contentPrefix: Bytes, name: Name) {
    !IsPrefix(name, contentPrefix) && (IsPrefix(contentPrefix, name) ==> !MeetsAnId(name[|contentPrefix|..]))
  }

  lemma {:induction false} MeetsNoNameIff(contentPrefix: Bytes, name: Name)
    ensures MeetsNoName(contentPrefix, name)
      <==> forall n: nat :: HcaKeys.EncodableId(n) ==> Apart(contentPrefix + HcaKeys.IdBytes(n), name)
  {
    if IsPrefix(name, contentPrefix) {
      SmallestIdMeets([0x14]);
      assert IsPrefix(contentPrefix, contentPrefix + HcaKeys.IdBytes(0)) by {
        assert (contentPrefix + HcaKeys.IdBytes(0))[..|contentPrefix|] == contentPrefix;
      }
      PrefixesChain(name, contentPrefix, contentPrefix + HcaKeys.IdBytes(0));
    } else if IsPrefix(contentPrefix, name) {
      var rest := name[|contentPrefix|..];
      assert name == contentPrefix + rest;
      MeetsAnIdIff(rest);
      forall n: nat | HcaKeys.EncodableId(n)
        ensures Apart(contentPrefix + HcaKeys.IdBytes(n), name) <==> Apart(HcaKeys.IdBytes(n), rest)
      {
        ApartBehind(contentPrefix, HcaKeys.IdBytes(n), rest);
      }
    } else {
      forall n: nat | HcaKeys.EncodableId(n) ensures Apart(contentPrefix + HcaKeys.IdBytes(n), name) {
        ElsewhereIsApart(contentPrefix, HcaKeys.IdBytes(n), name);
      }
    }
  }

  lemma {:induction false} ElsewhereIsApart(p: Bytes, x: Bytes, name: Name)
    requires Apart(p, name)
    ensures Apart(p + x, name)
  {
    assert (p + x)[..|p|] == p;
    if IsPrefix(p + x, name) {
      PrefixesChain(p, p + x, name);
    } else if IsPrefix(name, p + x) {
      PrefixesOfOne(p, name, p + x);
    }
  }

  // ---------------------------------------------------------------- existing keys

  /** No key begins with the name. */
  predicate Unused(store: Store, name: Name) {
    forall k :: k in store ==> !IsPrefix(name, k)
  }

  /** The check for existing keys sees all that begin with the name. */
  lemma {:induction false} NothingInRange(store: Store, name: Name)
    requires Strinc(name).Some?
    ensures Unused(store, name) <==> !AnyKey(store, name, Strinc(name).value)
  {
    forall k | k in store ensures IsPrefix(name, k) <==> InRange(k, name, Strinc(name).value) {
      StrincRangeIsExact(name, k);
    }
  }

  /** `is_prefix_free` is the question whether a name is fresh. */
  lemma {:induction false} PrefixFreeIsFresh(store: Store, t: Tree, h: Bytes, name: Name)
    requires Well(store, t) && IsSpace(t, h) && (HasName(store, h, h) || Apart(h, name))
    ensures IsPrefixFree(store, h, name) == Some(true) <==> Fresh(t, h, name) && !AllFf(name)
  {
    StoreNamesApart(store, t, h);
    IsPrefixFreeDecides(store, h, name);
    if IsPrefixFree(store, h, name) == Some(true) {
      AcceptedIsApart(store, t, h, name);
    } else if Fresh(t, h, name) && !AllFf(name) {
      NotBehindRootId(h, name);
      forall m | HasName(store, h, m) ensures Apart(m, name) {
        NamesAreKnown(store, t, h, m);
        assert m != h ==> Id(h, m).home == h && Id(h, m) in t.layers;
      }
    }
  }

  /** An accepted name is fresh exactly when the root's name was protected: when the root has a
      key of its own, or the name is apart from the node prefix anyway. */
  lemma {:induction false} AcceptedIsFreshIff(store: Store, t: Tree, h: Bytes, name: Name)
    requires Well(store, t) && IsSpace(t, h) && IsPrefixFree(store, h, name) == Some(true)
    ensures Fresh(t, h, name) <==> HasName(store, h, h) || Apart(h, name)
  {
    if HasName(store, h, h) || Apart(h, name) {
      PrefixFreeIsFresh(store, t, h, name);
    }
  }

  /** And the name of no node there is. */
  lemma {:induction false} AcceptedIsNew(store: Store, t: Tree, h: Bytes, name: Name)
    requires Well(store, t) && IsSpace(t, h) && IsPrefixFree(store, h, name) == Some(true)
    ensures Id(h, name) !in t.layers
  {
    StoreNamesApart(store, t, h);
    IsPrefixFreeDecides(store, h, name);
    if Id(h, name) in t.layers {
      KnownHasName(store, t, Id(h, name));
    }
    assert IsPrefix(name, name);
  }

  lemma {:induction false} NotBehindRootId(np: Bytes, name: Name)
    requires Apart(np, name)
    ensures !IsPrefix(NodeId(np, np), name)
  {
    NodeIdBehindPrefix(np, np);
    PrefixesChain(np, NodeId(np, np), name);
  }

  /** The directory layer's own keys do not begin with a name apart from the node prefix. */
  lemma {:induction false} NodeKeysUseNoName(store: Store, h: Bytes, name: Name, d: NodeKey, value: Bytes)
    requires Apart(h, name) && DirectoryKeys.Valid(d)
    ensures Unused(store, name) ==> Unused(store[KeyOf(h, d) := value], name)
    ensures NothingBehind(store, name) ==> NothingBehind(store[KeyOf(h, d) := value], name)
  {
    UnpackedKey(h, d);
    BehindUsesNoName(h, name, KeyOf(h, d));
  }

  lemma {:induction false} BehindUsesNoName(h: Bytes, name: Name, k: Bytes)
    requires Apart(h, name) && IsPrefix(h, k)
    ensures !IsPrefix(name, k) && !IsPrefix(Space(name), k)
  {
    if IsPrefix(name, k) {
      PrefixesOfOne(h, name, k);
    }
    assert Space(name)[..|name|] == name;
    PrefixesChain(name, Space(name), k);
  }

  /** All keys that came are behind this node prefix, none went, and the version says what it did. */
  ghost predicate Grows(before: Store, after: Store, h: Bytes) {
    && (forall k :: k in after && k !in before ==> IsPrefix(h, k))
    && (forall k :: k in before ==> k in after)
    && (forall write :: VersionError(after, h, write) == VersionError(before, h, write))
  }

  lemma {:induction false} GrowsOn(a: Store, b: Store, c: Store, h: Bytes)
    requires Grows(a, b, h) && Grows(b, c, h)
    ensures Grows(a, c, h)
  {
  }

  /** So a name apart from the node prefix is used as before. */
  lemma {:induction false} GrowthUsesNoName(before: Store, after: Store, h: Bytes, name: Name)
    requires Grows(before, after, h) && Apart(h, name)
    ensures Unused(before, name) <==> Unused(after, name)
    ensures NothingBehind(before, name) <==> NothingBehind(after, name)
  {
    forall k | k in after && k !in before ensures !IsPrefix(name, k) && !IsPrefix(Space(name), k) {
      BehindUsesNoName(h, name, k);
    }
  }

  lemma {:induction false} KeyGrows(store: Store, h: Bytes, d: NodeKey, value: Bytes)
    requires DirectoryKeys.Valid(d) && d != Version
    ensures Grows(store, store[KeyOf(h, d) := value], h)
  {
    UnpackedKey(h, d);
    if KeyOf(h, d) == KeyOf(h, Version) {
      KeyOfInjective(h, d, Version);
    }
  }

  lemma {:induction false} InitializedGrows(store: Store, h: Bytes)
    ensures Grows(store, Initialized(store, h), h)
  {
    UnpackedKey(h, Version);
    PresentVersion();
  }

  /** The root has a key of its own afterwards. */
  lemma {:induction false} AllocatedGrows(store: Store, h: Bytes, a: Allocation)
    requires Storable(a)
    ensures HasName(Allocated(store, h, a), h, h) && Grows(store, Allocated(store, h, a), h)
  {
    var counter, marker := Allocator(HcaKeys.Counter(a.start)), Allocator(HcaKeys.Marker(a.id));
    KeyGrows(store, h, counter, a.counter);
    KeyGrows(store[KeyOf(h, counter) := a.counter], h, marker, []);
    GrowsOn(store, store[KeyOf(h, counter) := a.counter], Allocated(store, h, a), h);
    assert Owner(h, marker) == h;
  }
}
