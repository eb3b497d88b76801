/** How the store carries the tree, and what each write and clear does to both. */
module DirectoryStore {
  import opened Options
  import opened ByteStrings
  import opened DirectoryTree
  import opened DirectoryPartitions
  import opened DirectoryKeys
  import opened DirectoryNames

  /** The name under which the entries of a node are stored: a partition's are stored like those
      of a root, whose name is its own node prefix. */
  function InnerName(t: Tree, n: Id): Name {
    if IsPartition(t, n) then Space(n.name) else n.name
  }

  function EntryKey(t: Tree, s: Slot): Bytes {
    KeyOf(Inside(t, s.parent), Entry(InnerName(t, s.parent), s.part))
  }

  function LayerKey(n: Id): Bytes {
    KeyOf(n.home, LayerOf(n.name))
  }

  ghost predicate EntryAgrees(store: Store, t: Tree, s: Slot) {
    var key := EntryKey(t, s);
    (s in t.children <==> key in store) && (s in t.children ==> store[key] == t.children[s].name)
  }

  ghost predicate LayerAgrees(store: Store, t: Tree, n: Id) {
    var key := LayerKey(n);
    (n in t.layers <==> key in store) && (n in t.layers ==> store[key] == t.layers[n])
  }

  predicate StoresEntry(store: Store, h: Bytes, m: Name, part: Part) {
    KeyOf(h, Entry(m, part)) in store
  }

  /** Entries behind `h` under the name `m` are those of a node of the tree. */
  ghost predicate IsPlace(t: Tree, h: Bytes, m: Name) {
    exists n :: IsAt(t, n, h, m)
  }

  predicate IsAt(t: Tree, n: Id, h: Bytes, m: Name) {
    Known(t, n) && Inside(t, n) == h && InnerName(t, n) == m
  }

  /** The entries and layers in the store are those of the tree. */
  ghost predicate Refines(store: Store, t: Tree) {
    && (forall s: Slot {:trigger EntryAgrees(store, t, s)} :: Known(t, s.parent) ==> EntryAgrees(store, t, s))
    && (forall n: Id {:trigger LayerAgrees(store, t, n)} :: IsSpace(t, n.home) ==> LayerAgrees(store, t, n))
    && (forall h, m, part :: IsSpace(t, h) && StoresEntry(store, h, m, part) ==> IsPlace(t, h, m))
  }

  /** Behind every node prefix in use there is nothing but keys of the directory layer. */
  ghost predicate Spaced(store: Store, t: Tree) {
    forall h :: IsSpace(t, h) ==> NodeSpace(store, h)
  }

  /** What holds between operations. */
  ghost predicate Well(store: Store, t: Tree) {
    Refines(store, t) && Spaced(store, t) && Sound(t) && Named(t) && Tidy(t)
  }

  // ---------------------------------------------------------------- keys and nodes

  /** Two trees with the same layers have the same node prefixes and places. */
  lemma {:induction false} SameLayers(t: Tree, u: Tree)
    requires t.layers == u.layers && t.root == u.root
    ensures forall n :: Inside(t, n) == Inside(u, n) && InnerName(t, n) == InnerName(u, n)
    ensures forall h :: IsSpace(t, h) <==> IsSpace(u, h)
    ensures forall h, m :: IsPlace(t, h, m) <==> IsPlace(u, h, m)
    ensures Named(t) <==> Named(u)
  {
    forall h ensures IsSpace(t, h) <==> IsSpace(u, h) {
      if p :| IsPartition(t, p) && h == Space(p.name) {
        assert IsPartition(u, p);
      }
      if p :| IsPartition(u, p) && h == Space(p.name) {
        assert IsPartition(t, p);
      }
    }
    forall h, m ensures IsPlace(t, h, m) <==> IsPlace(u, h, m) {
      if n :| IsAt(t, n, h, m) {
        assert IsAt(u, n, h, m);
      }
      if n :| IsAt(u, n, h, m) {
        assert IsAt(t, n, h, m);
      }
    }
    forall a ensures HasHome(t, a) <==> HasHome(u, a) {
      if p :| Under(t, a, p) {
        assert Under(u, a, p);
      }
      if p :| Under(u, a, p) {
        assert Under(t, a, p);
      }
    }
  }

  /** The place tells the node. */
  lemma {:induction false} PlaceTellsNode(t: Tree, m: Id, n: Id)
    requires Named(t) && Origin(t) !in t.layers && Known(t, m) && Known(t, n)
    requires Inside(t, m) == Inside(t, n) && InnerName(t, m) == InnerName(t, n)
    ensures m == n
  {
    if IsPartition(t, m) && IsPartition(t, n) {
      SpaceTellsPartition(t, m, n);
    } else if IsPartition(t, m) {
      PartitionIsNoDirectory(t, m, n);
    } else if IsPartition(t, n) {
      PartitionIsNoDirectory(t, n, m);
    }
  }

  lemma {:induction false} PartitionIsNoDirectory(t: Tree, p: Id, n: Id)
    requires Named(t) && Known(t, n) && IsPartition(t, p)
    ensures !(Space(p.name) == n.home == n.name)
  {
    RootAgainstSpace(t, p);
    assert IsPrefix(n.name, n.name);
  }

  /** A key tells the node prefix it is behind. */
  lemma {:induction false} KeyTellsSpace(t: Tree, g: Bytes, h: Bytes, c: NodeKey, d: NodeKey)
    requires Named(t) && IsSpace(t, g) && IsSpace(t, h) && Valid(c) && Valid(d) && KeyOf(g, c) == KeyOf(h, d)
    ensures g == h && c == d
  {
    UnpackedKey(g, c);
    UnpackedKey(h, d);
    PrefixesOfOne(g, h, KeyOf(g, c));
    if IsPrefix(g, h) {
      SpacesApart(t, g, h);
    } else {
      SpacesApart(t, h, g);
    }
    KeyOfInjective(g, c, d);
  }

  /** A tree over which keys can be told apart. */
  ghost predicate Keyed(t: Tree) {
    Named(t) && Origin(t) !in t.layers
  }

  lemma {:induction false} EntryKeyTellsSlot(t: Tree, s: Slot, x: Slot)
    requires Keyed(t) && Known(t, s.parent) && Known(t, x.parent) && EntryKey(t, s) == EntryKey(t, x)
    ensures s == x
  {
    InsideIsSpace(t, s.parent);
    InsideIsSpace(t, x.parent);
    KeyTellsSpace(t, Inside(t, s.parent), Inside(t, x.parent),
      Entry(InnerName(t, s.parent), s.part), Entry(InnerName(t, x.parent), x.part));
    PlaceTellsNode(t, s.parent, x.parent);
  }

  /** An entry has the key of no other kind, and only its own among entries. */
  lemma {:induction false} EntryKeyIsOnly(t: Tree, s: Slot, h: Bytes, d: NodeKey)
    requires Keyed(t) && Known(t, s.parent) && IsSpace(t, h) && Valid(d) && EntryKey(t, s) == KeyOf(h, d)
    ensures h == Inside(t, s.parent) && d == Entry(InnerName(t, s.parent), s.part)
  {
    InsideIsSpace(t, s.parent);
    KeyTellsSpace(t, Inside(t, s.parent), h, Entry(InnerName(t, s.parent), s.part), d);
  }

  // ---------------------------------------------------------------- names

  lemma {:induction false} NamesAreKnown(store: Store, t: Tree, h: Bytes, m: Name)
    requires Refines(store, t) && IsSpace(t, h) && HasName(store, h, m)
    ensures m == h || Id(h, m) in t.layers
  {
    var d :| Valid(d) && KeyOf(h, d) in store && Owner(h, d) == m;
    if d.Entry? {
      assert StoresEntry(store, h, m, d.part);
      var n :| IsAt(t, n, h, m);
      assert !IsPartition(t, n) ==> n == Id(h, m);
    } else if d.LayerOf? {
      assert LayerAgrees(store, t, Id(h, m));
    }
  }

  lemma {:induction false} KnownHasName(store: Store, t: Tree, n: Id)
    requires Refines(store, t) && n in t.layers && IsSpace(t, n.home)
    ensures HasName(store, n.home, n.name)
  {
    assert LayerAgrees(store, t, n);
    assert Valid(LayerOf(n.name)) && Owner(n.home, LayerOf(n.name)) == n.name;
  }

  lemma {:induction false} StoreNamesApart(store: Store, t: Tree, h: Bytes)
    requires Refines(store, t) && Named(t) && IsSpace(t, h)
    ensures NamesApart(store, h)
  {
    forall a, b | HasName(store, h, a) && HasName(store, h, b) && IsPrefix(a, b) ensures a == b {
      NamesAreKnown(store, t, h, a);
      NamesAreKnown(store, t, h, b);
      assert a != h ==> Apart(Id(h, a).name, Id(h, a).home);
      assert b != h ==> Apart(Id(h, b).name, Id(h, b).home);
    }
  }

  /** The name is apart from the node prefix and from every name behind it. */
  ghost predicate Fresh(t: Tree, h: Bytes, name: Name) {
    name != [] && Apart(h, name) && forall n :: n in t.layers && n.home == h ==> Apart(n.name, name)
  }

  /** A name accepted by `is_prefix_free` is apart from every name behind the node prefix; from
      the prefix too, if the root there has a key. */
  lemma {:induction false} AcceptedIsApart(store: Store, t: Tree, h: Bytes, name: Name)
    requires Well(store, t) && IsSpace(t, h) && IsPrefixFree(store, h, name) == Some(true)
    requires HasName(store, h, h) || Apart(h, name)
    ensures Fresh(t, h, name)
  {
    StoreNamesApart(store, t, h);
    IsPrefixFreeDecides(store, h, name);
    forall n | n in t.layers && n.home == h ensures Apart(n.name, name) {
      KnownHasName(store, t, n);
    }
  }

  // ---------------------------------------------------------------- writes

  function PutEntry(t: Tree, s: Slot, name: Name): Tree {
    t.(children := t.children[s := Id(Inside(t, s.parent), name)])
  }

  lemma {:induction false} SetEntry(store: Store, t: Tree, s: Slot, name: Name)
    requires Refines(store, t) && Keyed(t) && Known(t, s.parent)
    ensures Refines(store[EntryKey(t, s) := name], PutEntry(t, s, name))
  {
    var store', u := store[EntryKey(t, s) := name], PutEntry(t, s, name);
    SameLayers(t, u);
    forall x: Slot | Known(u, x.parent) ensures EntryAgrees(store', u, x) {
      assert EntryAgrees(store, t, x);
      if EntryKey(t, x) == EntryKey(t, s) { EntryKeyTellsSlot(t, x, s); }
    }
    forall n: Id | IsSpace(u, n.home) ensures LayerAgrees(store', u, n) {
      assert LayerAgrees(store, t, n);
      if EntryKey(t, s) == LayerKey(n) { EntryKeyIsOnly(t, s, n.home, LayerOf(n.name)); }
    }
    forall h, m, part | IsSpace(u, h) && StoresEntry(store', h, m, part) ensures IsPlace(u, h, m) {
      if EntryKey(t, s) == KeyOf(h, Entry(m, part)) {
        EntryKeyIsOnly(t, s, h, Entry(m, part));
        assert IsAt(t, s.parent, h, m);
      } else {
        assert StoresEntry(store, h, m, part);
      }
    }
  }

  lemma {:induction false} ClearEntry(store: Store, t: Tree, s: Slot)
    requires Refines(store, t) && Keyed(t) && Known(t, s.parent)
    ensures Refines(store - {EntryKey(t, s)}, t.(children := t.children - {s}))
  {
    var store', u := store - {EntryKey(t, s)}, t.(children := t.children - {s});
    SameLayers(t, u);
    forall x: Slot | Known(u, x.parent) ensures EntryAgrees(store', u, x) {
      assert EntryAgrees(store, t, x);
      if EntryKey(t, x) == EntryKey(t, s) { EntryKeyTellsSlot(t, x, s); }
    }
    forall n: Id | IsSpace(u, n.home) ensures LayerAgrees(store', u, n) {
      assert LayerAgrees(store, t, n);
      if EntryKey(t, s) == LayerKey(n) { EntryKeyIsOnly(t, s, n.home, LayerOf(n.name)); }
    }
    forall h, m, part | IsSpace(u, h) && StoresEntry(store', h, m, part) ensures IsPlace(u, h, m) {
      assert StoresEntry(store, h, m, part);
    }
  }

  /** A key that is neither an entry's nor a layer's behind a node prefix in use. */
  ghost predicate Neutral(t: Tree, key: Bytes) {
    forall h, d :: IsSpace(t, h) && Valid(d) && (d.Entry? || d.LayerOf?) ==> KeyOf(h, d) != key
  }

  lemma {:induction false} SetNeutral(store: Store, t: Tree, key: Bytes, value: Bytes)
    requires Refines(store, t) && Keyed(t) && Neutral(t, key)
    ensures Refines(store[key := value], t)
  {
    var after := store[key := value];
    forall x: Slot | Known(t, x.parent) ensures EntryAgrees(after, t, x) {
      assert EntryAgrees(store, t, x);
      InsideIsSpace(t, x.parent);
    }
    forall n: Id | IsSpace(t, n.home) ensures LayerAgrees(after, t, n) {
      assert LayerAgrees(store, t, n);
    }
    forall h, m, part | IsSpace(t, h) && StoresEntry(after, h, m, part) ensures IsPlace(t, h, m) {
      assert StoresEntry(store, h, m, part);
    }
  }

  /** The version and the allocator's keys are no part of the tree. */
  lemma {:induction false} RootKeyIsNeutral(t: Tree, h: Bytes, d: NodeKey)
    requires Named(t) && IsSpace(t, h) && Valid(d) && (d.Version? || d.Allocator?)
    ensures Neutral(t, KeyOf(h, d))
  {
    forall g, c | IsSpace(t, g) && Valid(c) && (c.Entry? || c.LayerOf?) ensures KeyOf(g, c) != KeyOf(h, d) {
      if KeyOf(g, c) == KeyOf(h, d) {
        KeyTellsSpace(t, g, h, c, d);
      }
    }
  }

  /** Nor is anything that begins with no node prefix. */
  lemma {:induction false} OutsideIsNeutral(t: Tree, key: Bytes)
    requires forall h :: IsSpace(t, h) ==> !IsPrefix(h, key)
    ensures Neutral(t, key)
  {
    forall h, d | IsSpace(t, h) && Valid(d) && (d.Entry? || d.LayerOf?) ensures KeyOf(h, d) != key {
      UnpackedKey(h, d);
    }
  }

  lemma {:induction false} SetKeepsNodeSpace(store: Store, h: Bytes, key: Bytes, value: Bytes)
    requires NodeSpace(store, h) && (IsPrefix(h, key) ==> IsNodeKey(h, key))
    ensures NodeSpace(store[key := value], h)
  {
  }

  /** A key of the layer behind one node prefix is behind no other. */
  lemma {:induction false} KeyKeepsSpaced(store: Store, t: Tree, h: Bytes, d: NodeKey, value: Bytes)
    requires Spaced(store, t) && Named(t) && IsSpace(t, h) && Valid(d)
    ensures Spaced(store[KeyOf(h, d) := value], t)
  {
    UnpackedKey(h, d);
    forall g | IsSpace(t, g) ensures NodeSpace(store[KeyOf(h, d) := value], g) {
      if IsPrefix(g, KeyOf(h, d)) {
        PrefixesOfOne(g, h, KeyOf(h, d));
        if IsPrefix(g, h) { SpacesApart(t, g, h); } else { SpacesApart(t, h, g); }
        assert IsNodeKey(g, KeyOf(h, d));
      }
      SetKeepsNodeSpace(store, g, KeyOf(h, d), value);
    }
  }

  // ---------------------------------------------------------------- a new node

  function PutLayer(t: Tree, n: Id, layer: Bytes): Tree {
    t.(layers := t.layers[n := layer])
  }

  /** A node that may be added: its name fresh behind its node prefix, and after the name of the
      partition it is in. */
  ghost predicate Addable(t: Tree, n: Id) {
    n !in t.layers && IsSpace(t, n.home) && Fresh(t, n.home, n.name) && HasHome(t, n)
  }

  lemma {:induction false} AddKeepsNamed(t: Tree, n: Id, layer: Bytes)
    requires Named(t) && Addable(t, n)
    ensures Named(PutLayer(t, n, layer))
  {
    var u := PutLayer(t, n, layer);
    forall a | a in u.layers ensures HasHome(u, a) {
      HomeAfterAdding(t, n, layer, a);
    }
  }

  lemma {:induction false} HomeAfterAdding(t: Tree, n: Id, layer: Bytes, a: Id)
    requires n !in t.layers && HasHome(t, a)
    ensures HasHome(PutLayer(t, n, layer), a)
  {
    if a.home != t.root {
      var p :| Under(t, a, p);
      assert Under(PutLayer(t, n, layer), a, p);
    }
  }

  lemma {:induction false} SpacesOfNew(t: Tree, n: Id, layer: Bytes, h: Bytes)
    requires n !in t.layers
    ensures IsSpace(PutLayer(t, n, layer), h) <==> IsSpace(t, h) || (layer == PARTITION && h == Space(n.name))
  {
    var u := PutLayer(t, n, layer);
    if IsSpace(t, h) && h != t.root {
      var p :| IsPartition(t, p) && h == Space(p.name);
      assert IsPartition(u, p);
    }
    if layer == PARTITION {
      assert IsPartition(u, n);
    }
    if IsSpace(u, h) && h != u.root {
      var p :| IsPartition(u, p) && h == Space(p.name);
      assert p != n ==> IsPartition(t, p);
    }
  }

  lemma {:induction false} NewPlace(t: Tree, n: Id)
    requires Keyed(t) && Addable(t, n)
    ensures !IsPlace(t, n.home, n.name) && !Known(t, n)
  {
    assert IsPrefix(n.name, n.name);
    forall m ensures !IsAt(t, m, n.home, n.name) {
    }
  }

  lemma {:induction false} PlacesStay(t: Tree, n: Id, layer: Bytes, h: Bytes, m: Name)
    requires !Known(t, n) && IsPlace(t, h, m)
    ensures IsPlace(PutLayer(t, n, layer), h, m)
  {
    var x :| IsAt(t, x, h, m);
    assert IsAt(PutLayer(t, n, layer), x, h, m);
  }

  /** Nothing in the store begins with the node prefix of a partition of this name. */
  predicate NothingBehind(store: Store, name: Name) {
    forall k :: k in store ==> !IsPrefix(Space(name), k)
  }

  lemma {:induction false} NoEntriesYet(store: Store, t: Tree, n: Id, layer: Bytes, part: Part)
    requires Refines(store, t) && Keyed(t) && Addable(t, n)
    requires layer == PARTITION ==> NothingBehind(store, n.name)
    ensures EntryKey(PutLayer(t, n, layer), Slot(n, part)) !in store
  {
    var u := PutLayer(t, n, layer);
    NewPlace(t, n);
    if layer == PARTITION {
      UnpackedKey(Space(n.name), Entry(Space(n.name), part));
    } else {
      assert !StoresEntry(store, n.home, n.name, part);
    }
  }

  lemma {:induction false} SetLayer(store: Store, t: Tree, n: Id, layer: Bytes)
    requires Refines(store, t) && Keyed(t) && Addable(t, n)
    requires layer == PARTITION ==> NothingBehind(store, n.name)
    requires forall s :: s in t.children ==> s.parent != n
    ensures Refines(store[LayerKey(n) := layer], PutLayer(t, n, layer))
  {
    var store', u := store[LayerKey(n) := layer], PutLayer(t, n, layer);
    AddKeepsNamed(t, n, layer);
    NewPlace(t, n);
    SpacesOfNew(t, n, layer, n.home);
    forall x: Slot | Known(u, x.parent) ensures EntryAgrees(store', u, x) {
      EntryAgreesWithNew(store, t, n, layer, x);
    }
    forall m: Id | IsSpace(u, m.home) ensures LayerAgrees(store', u, m) {
      LayerAgreesWithNew(store, t, n, layer, m);
    }
    forall h, m, part | IsSpace(u, h) && StoresEntry(store', h, m, part) ensures IsPlace(u, h, m) {
      SpacesOfNew(t, n, layer, h);
      if KeyOf(h, Entry(m, part)) == LayerKey(n) {
        KeyTellsSpace(u, h, n.home, Entry(m, part), LayerOf(n.name));
      }
      if IsSpace(t, h) {
        assert StoresEntry(store, h, m, part);
        PlacesStay(t, n, layer, h, m);
      } else {
        UnpackedKey(h, Entry(m, part));
      }
    }
  }

  lemma {:induction false} EntryAgreesWithNew(store: Store, t: Tree, n: Id, layer: Bytes, x: Slot)
    requires Refines(store, t) && Keyed(t) && Addable(t, n) && Known(PutLayer(t, n, layer), x.parent)
    requires layer == PARTITION ==> NothingBehind(store, n.name)
    requires forall s :: s in t.children ==> s.parent != n
    ensures EntryAgrees(store[LayerKey(n) := layer], PutLayer(t, n, layer), x)
  {
    var u := PutLayer(t, n, layer);
    AddKeepsNamed(t, n, layer);
    NewPlace(t, n);
    SpacesOfNew(t, n, layer, n.home);
    if EntryKey(u, x) == LayerKey(n) {
      EntryKeyIsOnly(u, x, n.home, LayerOf(n.name));
    }
    if x.parent == n {
      assert x == Slot(n, x.part);
      NoEntriesYet(store, t, n, layer, x.part);
    } else {
      assert EntryAgrees(store, t, x);
    }
  }

  lemma {:induction false} LayerAgreesWithNew(store: Store, t: Tree, n: Id, layer: Bytes, m: Id)
    requires Refines(store, t) && Keyed(t) && Addable(t, n) && IsSpace(PutLayer(t, n, layer), m.home)
    requires layer == PARTITION ==> NothingBehind(store, n.name)
    ensures LayerAgrees(store[LayerKey(n) := layer], PutLayer(t, n, layer), m)
  {
    var u := PutLayer(t, n, layer);
    AddKeepsNamed(t, n, layer);
    SpacesOfNew(t, n, layer, n.home);
    SpacesOfNew(t, n, layer, m.home);
    if LayerKey(m) == LayerKey(n) {
      KeyTellsSpace(u, m.home, n.home, LayerOf(m.name), LayerOf(n.name));
    } else if IsSpace(t, m.home) {
      assert LayerAgrees(store, t, m);
    } else {
      UnpackedKey(m.home, LayerOf(m.name));
      if m in t.layers {
        InsideIsSpace(t, m);
      }
    }
  }

  lemma {:induction false} AddKeepsSpaced(store: Store, t: Tree, n: Id, layer: Bytes)
    requires Spaced(store, t) && Keyed(t) && Addable(t, n)
    requires layer == PARTITION ==> NothingBehind(store, n.name)
    ensures Spaced(store[LayerKey(n) := layer], PutLayer(t, n, layer))
  {
    var u := PutLayer(t, n, layer);
    AddKeepsNamed(t, n, layer);
    forall h | IsSpace(u, h) ensures NodeSpace(store, h) {
      SpacesOfNew(t, n, layer, h);
    }
    SpacesOfNew(t, n, layer, n.home);
    KeyKeepsSpaced(store, u, n.home, LayerOf(n.name), layer);
  }

  // ---------------------------------------------------------------- cleared ranges

  predicate InPair(k: Bytes, range: (Bytes, Bytes)) {
    InRange(k, range.0, range.1)
  }

  function ClearRange(store: Store, range: (Bytes, Bytes)): Store {
    map k | k in store && !InPair(k, range) :: store[k]
  }

  /** What `remove_recursive` clears on behalf of one node: its content and the keys of `get_id`. */
  predicate OfNode(t: Tree, n: Id, k: Bytes) {
    InPair(k, ContentRange(n.name)) || InPair(k, NodeRange(Inside(t, n), InnerName(t, n)))
  }

  ghost predicate Swept(t: Tree, gone: set<Id>, k: Bytes) {
    exists n :: n in gone && OfNode(t, n, k)
  }

  /** The store without the node keys and the content of a set of nodes. */
  ghost function Sweep(store: Store, t: Tree, gone: set<Id>): Store {
    map k | k in store && !Swept(t, gone, k) :: store[k]
  }

  lemma {:induction false} SweepJoins(store: Store, t: Tree, a: set<Id>, b: set<Id>)
    ensures Sweep(Sweep(store, t, a), t, b) == Sweep(store, t, a + b)
  {
    forall k | k in store ensures Swept(t, a + b, k) <==> Swept(t, a, k) || Swept(t, b, k) {
    }
  }

  lemma {:induction false} SweepNothing(store: Store, t: Tree)
    ensures Sweep(store, t, {}) == store
  {
  }

  lemma {:induction false} SweepOne(store: Store, t: Tree, n: Id)
    ensures ClearRange(ClearRange(store, ContentRange(n.name)), NodeRange(Inside(t, n), InnerName(t, n))) == Sweep(store, t, {n})
  {
    assert n in {n};
    forall k | k in store ensures Swept(t, {n}, k) <==> OfNode(t, n, k) {
    }
  }

  /** The name of a directory meets no node prefix in use. */
  lemma {:induction false} DirectoryApartFromSpaces(t: Tree, n: Id, h: Bytes)
    requires Named(t) && n in t.layers && !IsPartition(t, n) && IsSpace(t, h)
    ensures Apart(n.name, h)
  {
    if h == t.root {
      NameApartFromRoot(t, n);
    } else {
      var p :| IsPartition(t, p) && h == Space(p.name);
      NameAgainstSpace(t, n, p);
    }
  }

  /** For a directory those of the layer's own keys are cleared that belong to it, no others. */
  lemma {:induction false} DirectoryKeySwept(t: Tree, n: Id, h: Bytes, d: NodeKey)
    requires Keyed(t) && n in t.layers && !IsPartition(t, n) && IsSpace(t, h) && Valid(d)
    ensures OfNode(t, n, KeyOf(h, d)) <==> h == n.home && Owner(h, d) == n.name
  {
    DirectoryApartFromSpaces(t, n, h);
    UnpackedKey(h, d);
    ContentOfOthersIsOutside(n.name, h, KeyOf(h, d));
    if h == n.home {
      NodeRangeIsExact(h, n.name, d);
    } else if InPair(KeyOf(h, d), NodeRange(n.home, n.name)) {
      NodeRangeIsBehindPrefix(n.home, n.name, KeyOf(h, d));
      InsideIsSpace(t, n);
      PrefixesOfOne(h, n.home, KeyOf(h, d));
      if IsPrefix(h, n.home) { SpacesApart(t, h, n.home); } else { SpacesApart(t, n.home, h); }
    }
  }

  /** For a partition all that is behind its node prefix is content of its name. */
  lemma {:induction false} PartitionSweeps(t: Tree, p: Id, k: Bytes)
    requires IsPartition(t, p)
    ensures OfNode(t, p, k) <==> IsPrefix(p.name, k) && |p.name| < |k| && k[|p.name|] != 0xFF
    ensures IsPrefix(Space(p.name), k) ==> OfNode(t, p, k)
  {
    ContentRangeIsExact(p.name, k);
    SpaceMeets(p.name, k);
    if InPair(k, NodeRange(Space(p.name), Space(p.name))) {
      NodeRangeIsBehindPrefix(Space(p.name), Space(p.name), k);
    }
  }

  /** Behind which node prefixes it clears keys of the layer. */
  lemma {:induction false} PartitionKeySwept(t: Tree, p: Id, h: Bytes, d: NodeKey) returns (q: Id)
    requires Named(t) && IsPartition(t, p) && IsSpace(t, h) && Valid(d)
    ensures h == Space(p.name) ==> OfNode(t, p, KeyOf(h, d))
    ensures OfNode(t, p, KeyOf(h, d)) ==> IsPartition(t, q) && h == Space(q.name) && IsPrefix(p.name, q.name)
  {
    var k := KeyOf(h, d);
    UnpackedKey(h, d);
    PartitionSweeps(t, p, k);
    NameApartFromRoot(t, p);
    q := p;
    if IsPrefix(p.name, k) {
      PrefixesOfOne(p.name, h, k);
      if h != t.root {
        q :| IsPartition(t, q) && h == Space(q.name);
        NameAgainstSpace(t, p, q);
        SpaceMeets(q.name, p.name);
        assert IsPrefix(h, h);
      }
    }
  }

  /** Which of the layer's keys are cleared on behalf of a set of nodes. */
  ghost predicate KeyTaken(t: Tree, gone: set<Id>, h: Bytes, owner: Name) {
    (Id(h, owner) in gone && !IsPartition(t, Id(h, owner))) || exists p :: p in gone && IsPartition(t, p) && h == Space(p.name)
  }

  /** Where the set is closed: the keys of its directories, and all that is behind the node prefixes
      of its partitions. */
  lemma {:induction false} KeySwept(t: Tree, gone: set<Id>, h: Bytes, d: NodeKey)
    requires Sound(t) && Named(t) && Tidy(t) && Closed(t, gone) && Valid(d)
    requires IsSpace(Without(t, gone), h)
    ensures IsSpace(t, h)
    ensures Swept(t, gone, KeyOf(h, d)) <==> KeyTaken(t, gone, h, Owner(h, d))
  {
    WithoutKeepsNamed(t, gone);
    if n :| n in gone && OfNode(t, n, KeyOf(h, d)) {
      if IsPartition(t, n) {
        SweptInside(t, gone, n, h, d);
      } else {
        DirectoryKeySwept(t, n, h, d);
      }
    }
    if Id(h, Owner(h, d)) in gone && !IsPartition(t, Id(h, Owner(h, d))) {
      DirectoryKeySwept(t, Id(h, Owner(h, d)), h, d);
    }
    if p :| p in gone && IsPartition(t, p) && h == Space(p.name) {
      var q := PartitionKeySwept(t, p, h, d);
    }
  }

  lemma {:induction false} SweptInside(t: Tree, gone: set<Id>, n: Id, h: Bytes, d: NodeKey)
    requires Sound(t) && Named(t) && Tidy(t) && Closed(t, gone) && Valid(d)
    requires IsSpace(Without(t, gone), h) && IsSpace(t, h) && n in gone && IsPartition(t, n) && OfNode(t, n, KeyOf(h, d))
    ensures exists p :: p in gone && IsPartition(t, p) && h == Space(p.name)
  {
    var w := Without(t, gone);
    var q := PartitionKeySwept(t, n, h, d);
    RootAgainstSpace(t, q);
    assert IsPrefix(t.root, t.root);
    var x :| IsPartition(w, x) && h == Space(x.name);
    SpaceTellsPartition(t, q, x);
    NestedIsBelow(t, n, q);
    assert Below(t, n) <= gone;
  }

  /** Clearing the ranges of all of them takes them out of the tree. */
  lemma {:induction false} SweepIsWithout(store: Store, t: Tree, gone: set<Id>)
    requires Well(store, t) && Closed(t, gone)
    ensures Refines(Sweep(store, t, gone), Without(t, gone)) && Spaced(Sweep(store, t, gone), Without(t, gone))
    ensures Keyed(Without(t, gone))
  {
    var after, w := Sweep(store, t, gone), Without(t, gone);
    WithoutKeepsNamed(t, gone);
    forall s: Slot | Known(w, s.parent) ensures EntryAgrees(after, w, s) {
      SweptEntry(store, t, gone, s);
    }
    forall n: Id | IsSpace(w, n.home) ensures LayerAgrees(after, w, n) {
      assert LayerAgrees(store, t, n);
      KeySwept(t, gone, n.home, LayerOf(n.name));
    }
    forall h, m, part | IsSpace(w, h) && StoresEntry(after, h, m, part) ensures IsPlace(w, h, m) {
      SweptPlace(store, t, gone, h, m, part);
    }
  }

  lemma {:induction false} SweptEntry(store: Store, t: Tree, gone: set<Id>, s: Slot)
    requires Well(store, t) && Closed(t, gone) && Known(Without(t, gone), s.parent)
    ensures EntryAgrees(Sweep(store, t, gone), Without(t, gone), s)
  {
    assert EntryAgrees(store, t, s);
    EntrySwept(t, gone, s);
  }

  lemma {:induction false} EntrySwept(t: Tree, gone: set<Id>, s: Slot)
    requires Sound(t) && Named(t) && Tidy(t) && Closed(t, gone) && Known(Without(t, gone), s.parent)
    ensures Swept(t, gone, EntryKey(t, s)) <==> s.parent in gone
    ensures EntryKey(Without(t, gone), s) == EntryKey(t, s)
  {
    WithoutKeepsNamed(t, gone);
    InsideIsSpace(Without(t, gone), s.parent);
    KeySwept(t, gone, Inside(t, s.parent), Entry(InnerName(t, s.parent), s.part));
    ParentTaken(t, gone, s.parent);
  }

  /** The entries of a node are cleared exactly if it goes. */
  lemma {:induction false} ParentTaken(t: Tree, gone: set<Id>, n: Id)
    requires Sound(t) && Named(t) && Closed(t, gone) && Known(Without(t, gone), n)
    ensures KeyTaken(t, gone, Inside(t, n), InnerName(t, n)) <==> n in gone
  {
    var h := Inside(t, n);
    if IsPartition(t, n) {
      if Id(h, h) in gone {
        assert Apart(Id(h, h).name, Id(h, h).home) && IsPrefix(h, h);
      }
      if p :| p in gone && IsPartition(t, p) && h == Space(p.name) {
        SpaceTellsPartition(t, p, n);
      }
    } else if n == Origin(t) {
      if p :| p in gone && IsPartition(t, p) && h == Space(p.name) {
        RootAgainstSpace(t, p);
        assert IsPrefix(h, h);
      }
    }
  }

  lemma {:induction false} SweptPlace(store: Store, t: Tree, gone: set<Id>, h: Bytes, m: Name, part: Part)
    requires Well(store, t) && Closed(t, gone) && IsSpace(Without(t, gone), h)
    requires StoresEntry(Sweep(store, t, gone), h, m, part)
    ensures IsPlace(Without(t, gone), h, m)
  {
    var w := Without(t, gone);
    KeySwept(t, gone, h, Entry(m, part));
    assert StoresEntry(store, h, m, part);
    var x :| IsAt(t, x, h, m);
    if IsPartition(t, x) {
      RootAgainstSpace(t, x);
      assert IsPrefix(h, h);
      var y :| IsPartition(w, y) && h == Space(y.name);
      SpaceTellsPartition(t, x, y);
    }
    assert IsAt(w, x, h, m);
  }

  // ---------------------------------------------------------------- what a removal spares

  /** What belongs to a name that stays is left alone. */
  lemma {:induction false} SweepSparesOthers(t: Tree, gone: set<Id>, other: Name, k: Bytes)
    requires forall n :: n in gone ==> Apart(n.name, other) && Apart(other, Inside(t, n))
    requires IsPrefix(other, k)
    ensures !Swept(t, gone, k)
  {
    forall n | n in gone ensures !OfNode(t, n, k) {
      ContentOfOthersIsOutside(n.name, other, k);
      NotInNodeRange(t, n, other, k);
    }
  }

  lemma {:induction false} NotInNodeRange(t: Tree, n: Id, other: Name, k: Bytes)
    requires Apart(other, Inside(t, n)) && IsPrefix(other, k)
    ensures !InPair(k, NodeRange(Inside(t, n), InnerName(t, n)))
  {
    if InPair(k, NodeRange(Inside(t, n), InnerName(t, n))) {
      NodeRangeIsBehindPrefix(Inside(t, n), InnerName(t, n), k);
      PrefixesOfOne(Inside(t, n), other, k);
    }
  }

  /** Of what begins with the name of a removed directory everything is cleared except the bare
      name and what goes on with 0xFF. */
  lemma {:induction false} SweepTakesContent(t: Tree, gone: set<Id>, n: Id, k: Bytes)
    requires n in gone && IsPrefix(n.name, k)
    requires forall m :: m in gone ==> Apart(n.name, Inside(t, m)) && (m == n || Apart(m.name, n.name))
    ensures Swept(t, gone, k) <==> |n.name| < |k| && k[|n.name|] != 0xFF
  {
    ContentRangeIsExact(n.name, k);
    forall m | m in gone ensures OfNode(t, m, k) ==> m == n && InPair(k, ContentRange(n.name)) {
      NotInNodeRange(t, m, n.name, k);
      if m != n {
        ContentOfOthersIsOutside(m.name, n.name, k);
      }
    }
  }
}
