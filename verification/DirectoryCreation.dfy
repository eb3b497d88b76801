/** Names for new nodes, and how the tree and the store grow while a path is created. */
module DirectoryCreation {
  import opened Options
  import opened ByteStrings
  import opened Keys
  import HcaKeys
  import opened DirectoryTree
  import opened DirectoryPartitions
  import opened DirectoryKeys
  import opened DirectoryNames
  import opened DirectoryStore
  import opened DirectoryNodes
  import opened DirectoryVersions
  import opened DirectoryNaming

  /** What a new name must be below a node: fresh behind its node prefix, and inside a partition
      after the partition's own name. */
  ghost predicate Namable(t: Tree, h: Bytes, name: Name) {
    Fresh(t, h, name) && HasHome(t, Id(h, name))
  }

  /** An allocated name is in the right place, and so is any name where manual ones are allowed. */
  lemma {:induction false} AllocatedHasHome(t: Tree, root: Node, n: Node, a: Allocation)
    requires IsNode(t, root, n) && Storable(a)
    ensures HasHome(t, Id(GetNodePrefix(n), AllocatedName(ContentPrefix(n), a)))
  {
    RootOfNode(t, root, n);
    RootsAnswer(n);
    var r := GetRoot(n);
    NodeAtIs(t, root, GetPath(r));
    if r.Partition? {
      var p, name := IdOf(t, r), AllocatedName(r.name, a);
      RootsTree(t, root, n);
      FoundHasLayer(t, GetPath(r));
      IdStart(a.id);
      assert name[..|r.name|] == r.name && name[|r.name|] == HcaKeys.IdBytes(a.id)[0];
      assert Under(t, Id(GetNodePrefix(n), name), p);
    } else {
      RootsTree(t, root, n);
    }
  }

  /** The root a node goes by: the absolute root, or a partition. */
  lemma {:induction false} RootsTree(t: Tree, root: Node, n: Node)
    requires IsNode(t, root, n)
    ensures GetRoot(n).Root? ==> GetNodePrefix(n) == t.root
    ensures GetRoot(n).Partition? ==> GetNodePrefix(n) == Space(GetRoot(n).name)
    ensures !GetRoot(n).Dir?
  {
    RootsAnswer(n);
    RootOfNode(t, root, n);
    NodeAtIs(t, root, GetPath(GetRoot(n)));
    InsideOfRoot(t, GetPath(n));
  }

  lemma {:induction false} ManualHasHome(t: Tree, root: Node, n: Node, name: Name)
    requires IsNode(t, root, n) && AllowManual(n)
    ensures HasHome(t, Id(GetNodePrefix(n), name))
  {
    RootsAnswer(n);
    RootsTree(t, root, n);
  }

  /** Node prefix, content prefix and permission are those of the root. */
  lemma {:induction false} RootsAnswer(n: Node)
    ensures GetNodePrefix(n) == GetNodePrefix(GetRoot(n))
    ensures ContentPrefix(n) == ContentPrefix(GetRoot(n)) && AllowManual(n) == AllowManual(GetRoot(n))
  {
  }

  /** What `create_node_name` answers. A name of the caller's choice must pass `is_prefix_free`; one
      from the allocator must besides have no key, and fails it exactly if it is not fresh. */
  ghost function NameAnswer(store: Store, t: Tree, n: Node, manual: Option<Name>, a: Allocation): (r: Result<Name>)
    requires Storable(a)
    ensures r.Ok? ==> r.value == if manual.Some? then manual.value else AllocatedName(ContentPrefix(n), a)
  {
    var h := GetNodePrefix(n);
    if manual.Some? then
      if !AllowManual(n) then Fail(ManualNamesProhibited) else Checked(IsPrefixFree(store, h, manual.value), manual.value, NodeNameInUse)
    else
      var name := AllocatedName(ContentPrefix(n), a);
      if !Unused(Allocated(store, h, a), name) then Fail(KeysExistForAllocatedName)
      else if !Fresh(t, h, name) then Fail(NamesConflict)
      else Ok(name)
  }

  function Checked(free: Option<bool>, name: Name, error: Error): Result<Name> {
    if free.None? then Fail(NoNextKey) else if free.value then Ok(name) else Fail(error)
  }

  /** What creating one node below an existing one answers: the errors of the name, of the version,
      or the node. */
  ghost function ChildAnswer(store: Store, t: Tree, parent: Node, part: Part, layer: Bytes, a: Allocation): (r: Result<Node>)
    requires Storable(a)
    ensures r.Ok? ==> !r.value.Root? && r.value.name == AllocatedName(ContentPrefix(parent), a)
  {
    var name, e := NameAnswer(store, t, parent, None, a), VersionError(store, GetNodePrefix(parent), true);
    if name.Fail? then Fail(name.error)
    else if e.Some? then Fail(e.value)
    else Ok(InitNode(parent, name.value, part, layer))
  }

  /** An allocated name passes the test of `strinc`: no identifier begins with 0xFF. */
  lemma {:induction false} AllocatedHasNext(contentPrefix: Bytes, a: Allocation)
    requires Storable(a)
    ensures !AllFf(AllocatedName(contentPrefix, a)) && Strinc(AllocatedName(contentPrefix, a)).Some?
  {
    IdStart(a.id);
    assert AllocatedName(contentPrefix, a)[|contentPrefix|] == HcaKeys.IdBytes(a.id)[0];
    StrippedEnd(AllocatedName(contentPrefix, a));
  }

  // ---------------------------------------------------------------- one new node

  /** One node was added, under a name apart from all others behind its node prefix. */
  ghost predicate Created(before: Tree, after: Tree, root: Node, parent: Node, part: Part, layer: Bytes, node: Node) {
    && IsNode(before, root, parent) && Find(before, GetPath(parent) + [part]).None?
    && !node.Root? && Fresh(before, GetNodePrefix(parent), node.name)
    && after == WithNode(before, IdOf(before, parent), part, node.name, layer)
    && node == InitNode(parent, node.name, part, layer) && IsNode(after, root, node)
  }

  lemma {:induction false} FreshIsNew(t: Tree, h: Bytes, name: Name)
    requires Fresh(t, h, name)
    ensures Id(h, name) !in t.layers && Id(h, name) != Origin(t)
  {
    assert IsPrefix(name, name);
  }

  /** The tree after the two writes of `create_node`. */
  lemma {:induction false} NewNodeFits(t: Tree, root: Node, parent: Node, part: Part, name: Name, layer: Bytes)
    requires IsNode(t, root, parent) && Named(t) && Tidy(t) && Namable(t, GetNodePrefix(parent), name)
    requires Find(t, GetPath(parent) + [part]).None?
    ensures var u := WithNode(t, IdOf(t, parent), part, name, layer);
      && Sound(u) && Named(u) && Tidy(u) && Created(t, u, root, parent, part, layer, InitNode(parent, name, part, layer))
  {
    NewNodeSound(t, root, parent, part, name, layer);
    NewNodeNamed(t, root, parent, part, name, layer);
    NewNodeTidy(t, root, parent, part, name, layer);
    NewNodeAt(t, root, parent, part, name, layer);
  }

  lemma {:induction false} NewNodeTidy(t: Tree, root: Node, parent: Node, part: Part, name: Name, layer: Bytes)
    requires IsNode(t, root, parent) && Named(t) && Tidy(t) && Namable(t, GetNodePrefix(parent), name)
    requires Find(t, GetPath(parent) + [part]).None?
    ensures Tidy(WithNode(t, IdOf(t, parent), part, name, layer))
  {
    var u, made := WithNode(t, IdOf(t, parent), part, name, layer), Id(GetNodePrefix(parent), name);
    NodeAtIs(t, root, GetPath(parent));
    NewNodeSound(t, root, parent, part, name, layer);
    NewNodeNamed(t, root, parent, part, name, layer);
    CreateKeepsSound(t, GetPath(parent), part, name, layer);
    forall p, n | n in u.layers && Holds(u, p, n) ensures Placed(u, p) {
      if p != made {
        if n != made {
          assert Holds(t, p, n);
        } else {
          HolderPlaced(t, root, parent, p);
        }
      }
    }
  }

  /** The partition a node's children are stored in is found. */
  lemma {:induction false} HolderPlaced(t: Tree, root: Node, n: Node, p: Id)
    requires IsNode(t, root, n) && Named(t) && IsPartition(t, p) && GetNodePrefix(n) == Space(p.name)
    ensures Placed(t, p)
  {
    NodeAtIs(t, root, GetPath(n));
    InsideOfRoot(t, GetPath(n));
    RootAgainstSpace(t, p);
    assert IsPrefix(t.root, t.root);
    SpaceTellsPartition(t, p, Find(t, RootOf(t, GetPath(n))).value);
  }

  lemma {:induction false} NewNodeSound(t: Tree, root: Node, parent: Node, part: Part, name: Name, layer: Bytes)
    requires IsNode(t, root, parent) && Namable(t, GetNodePrefix(parent), name)
    requires Find(t, GetPath(parent) + [part]).None?
    ensures CanCreate(t, GetPath(parent), part, name) && Sound(WithNode(t, IdOf(t, parent), part, name, layer))
  {
    NodeAtIs(t, root, GetPath(parent));
    FreshIsNew(t, GetNodePrefix(parent), name);
    CreateKeepsSound(t, GetPath(parent), part, name, layer);
  }

  lemma {:induction false} NewNodeNamed(t: Tree, root: Node, parent: Node, part: Part, name: Name, layer: Bytes)
    requires IsNode(t, root, parent) && Named(t) && Namable(t, GetNodePrefix(parent), name)
    ensures Named(WithNode(t, IdOf(t, parent), part, name, layer))
  {
    var id, n := IdOf(t, parent), Id(GetNodePrefix(parent), name);
    NodeAtIs(t, root, GetPath(parent));
    FreshIsNew(t, GetNodePrefix(parent), name);
    FoundHasLayer(t, GetPath(parent));
    InsideIsSpace(t, id);
    AddKeepsNamed(t, n, layer);
    SameLayers(PutLayer(t, n, layer), WithNode(t, id, part, name, layer));
  }

  lemma {:induction false} NewNodeAt(t: Tree, root: Node, parent: Node, part: Part, name: Name, layer: Bytes)
    requires IsNode(t, root, parent) && CanCreate(t, GetPath(parent), part, name)
    requires Sound(WithNode(t, IdOf(t, parent), part, name, layer))
    ensures var u, node := WithNode(t, IdOf(t, parent), part, name, layer), InitNode(parent, name, part, layer);
      IsNode(u, root, node)
  {
    var p := GetPath(parent);
    var u, next := WithNode(t, IdOf(t, parent), part, name, layer), p + [part];
    CreateStillFinds(t, p, part, name, layer);
    CreateAddsOnePath(t, p, part, name, layer, next);
    NodeAtStays(t, u, root, next, p);
    LastNodeAt(u, root, p, part);
  }

  lemma {:induction false} CreateStillFinds(t: Tree, p: Path, part: Part, name: Name, layer: Bytes)
    requires Sound(t) && CanCreate(t, p, part, name)
    ensures var u := WithNode(t, Find(t, p).value, part, name, layer);
      && (forall q :: StillFound(t, u, p + [part], q))
      && (forall n :: n in t.layers ==> n in u.layers && u.layers[n] == t.layers[n])
  {
    var u := WithNode(t, Find(t, p).value, part, name, layer);
    forall q ensures StillFound(t, u, p + [part], q) {
      CreateAddsOnePath(t, p, part, name, layer, q);
    }
  }

  /** A name makes a good node exactly if it is fresh: under any other name, entry and layer make two
      nodes one, or names begin one another. */
  lemma {:induction false} GoodNameIff(t: Tree, root: Node, parent: Node, part: Part, name: Name, layer: Bytes)
    requires IsNode(t, root, parent) && Named(t) && Find(t, GetPath(parent) + [part]).None?
    requires var n := Id(GetNodePrefix(parent), name); HasHome(t, n) && (n in t.layers ==> Placed(t, n))
    ensures var w := WithNode(t, IdOf(t, parent), part, name, layer);
      Sound(w) && Named(w) <==> Fresh(t, GetNodePrefix(parent), name)
  {
    var w, h := WithNode(t, IdOf(t, parent), part, name, layer), GetNodePrefix(parent);
    NodeAtIs(t, root, GetPath(parent));
    if Fresh(t, h, name) {
      NewNodeSound(t, root, parent, part, name, layer);
      NewNodeNamed(t, root, parent, part, name, layer);
    } else if Sound(w) && Named(w) {
      GoodIsFresh(t, root, parent, part, name, layer);
    }
  }

  lemma {:induction false} GoodIsFresh(t: Tree, root: Node, parent: Node, part: Part, name: Name, layer: Bytes)
    requires IsNode(t, root, parent) && Find(t, GetPath(parent) + [part]).None?
    requires var n := Id(GetNodePrefix(parent), name); n in t.layers ==> Placed(t, n)
    requires var w := WithNode(t, IdOf(t, parent), part, name, layer); Sound(w) && Named(w)
    ensures Fresh(t, GetNodePrefix(parent), name)
  {
    var w, h := WithNode(t, IdOf(t, parent), part, name, layer), GetNodePrefix(parent);
    var made, s := Id(h, name), Slot(IdOf(t, parent), part);
    NodeAtIs(t, root, GetPath(parent));
    FoundThroughSlot(t, GetPath(parent) + [part]);
    EndOfPath(GetPath(parent), part);
    assert w.children[s] == made;
    if made in t.layers {
      OldNodeTwice(t, w, s, made);
    }
    forall n | n in t.layers && n.home == h ensures Apart(n.name, name) {
      assert n in w.layers && made in w.layers;
    }
    assert Apart(made.name, made.home) && IsPrefix([], h);
  }

  lemma {:induction false} OldNodeTwice(t: Tree, w: Tree, s: Slot, made: Id)
    requires Sound(t) && made in t.layers && Placed(t, made) && s !in t.children
    requires w.children == t.children[s := made]
    ensures !Sound(w)
  {
    var p :| Find(t, p) == Some(made);
    FoundHasLayer(t, p);
    FoundThroughSlot(t, p);
    var u := SlotOf(t, p);
    assert w.children[u] == w.children[s] && u != s;
  }

  /** Both writes, on the store. */
  lemma {:induction false} NewNodeStored(store: Store, t: Tree, root: Node, parent: Node, part: Part, name: Name, layer: Bytes)
    requires Well(store, t) && IsNode(t, root, parent) && Namable(t, GetNodePrefix(parent), name)
    requires layer == PARTITION ==> NothingBehind(store, name)
    ensures var h, s := GetNodePrefix(parent), Slot(IdOf(t, parent), part);
      var after := store[NodeEntryId(parent, part) := name][NodeLayerId(parent, name) := layer];
      Refines(after, WithNode(t, IdOf(t, parent), part, name, layer)) && Spaced(after, WithNode(t, IdOf(t, parent), part, name, layer))
  {
    var h, id := GetNodePrefix(parent), IdOf(t, parent);
    NodeAtIs(t, root, GetPath(parent));
    FoundHasLayer(t, GetPath(parent));
    InsideIsSpace(t, id);
    FreshIsNew(t, h, name);
    EntryStored(store, t, Slot(id, part), name);
    var u := PutEntry(t, Slot(id, part), name);
    LayerStored(store[EntryKey(t, Slot(id, part)) := name], u, Id(h, name), layer);
  }

  lemma {:induction false} EntryStored(store: Store, t: Tree, s: Slot, name: Name)
    requires Refines(store, t) && Spaced(store, t) && Keyed(t) && Known(t, s.parent)
    requires Addable(t, Id(Inside(t, s.parent), name))
    ensures var after, u := store[EntryKey(t, s) := name], PutEntry(t, s, name);
      && Refines(after, u) && Spaced(after, u) && Keyed(u) && Addable(u, Id(Inside(t, s.parent), name))
      && (NothingBehind(store, name) ==> NothingBehind(after, name))
  {
    var h := Inside(t, s.parent);
    var d := Entry(InnerName(t, s.parent), s.part);
    SetEntry(store, t, s, name);
    KeyKeepsSpaced(store, t, h, d, name);
    SameLayers(t, PutEntry(t, s, name));
    SameHomes(t, PutEntry(t, s, name), Id(h, name));
    NodeKeysUseNoName(store, h, name, d, name);
  }

  lemma {:induction false} SameHomes(t: Tree, u: Tree, n: Id)
    requires t.layers == u.layers && t.root == u.root && HasHome(t, n)
    ensures HasHome(u, n)
  {
    if n.home != t.root {
      var p :| Under(t, n, p);
      assert Under(u, n, p);
    }
  }

  lemma {:induction false} LayerStored(store: Store, t: Tree, n: Id, layer: Bytes)
    requires Refines(store, t) && Spaced(store, t) && Keyed(t) && Addable(t, n)
    requires layer == PARTITION ==> NothingBehind(store, n.name)
    requires forall s :: s in t.children ==> s.parent != n
    ensures Refines(store[LayerKey(n) := layer], PutLayer(t, n, layer))
    ensures Spaced(store[LayerKey(n) := layer], PutLayer(t, n, layer))
  {
    SetLayer(store, t, n, layer);
    AddKeepsSpaced(store, t, n, layer);
  }

  // ---------------------------------------------------------------- growth

  /** Every path that led to a node leads to it still, with its layer; new paths are beginnings
      of the path asked for. */
  ghost predicate Grown(before: Tree, after: Tree, path: Path) {
    && after.root == before.root
    && (forall n :: n in before.layers ==> n in after.layers && after.layers[n] == before.layers[n])
    && (forall p :: StillFound(before, after, path, p))
  }

  predicate StillFound(before: Tree, after: Tree, path: Path, p: Path) {
    && (Find(before, p).Some? ==> Find(after, p) == Find(before, p))
    && (Find(after, p).Some? && Find(before, p).None? ==> p <= path)
  }

  lemma {:induction false} GrownTowards(before: Tree, after: Tree, p: Path, q: Path)
    requires Grown(before, after, p) && p <= q
    ensures Grown(before, after, q)
  {
    forall r ensures StillFound(before, after, q, r) {
      assert StillFound(before, after, p, r);
    }
  }

  /** A node is held as before. */
  lemma {:induction false} NodeAtStays(t: Tree, u: Tree, root: Node, path: Path, p: Path)
    requires Sound(t) && Sound(u) && Find(t, p).Some? && u.root == t.root
    requires forall n :: n in t.layers ==> n in u.layers && u.layers[n] == t.layers[n]
    requires forall q :: StillFound(t, u, path, q)
    ensures Find(u, p).Some? && NodeAt(u, root, p) == NodeAt(t, root, p)
    decreases |p|
  {
    assert StillFound(t, u, path, p);
    if p != [] {
      FoundThroughSlot(t, p);
      FoundHasLayer(t, p);
      NodeAtStays(t, u, root, path, Front(p));
    }
  }

  /** One more node, behind the path reached so far. */
  lemma {:induction false} OneMoreGrown(first: Tree, before: Tree, after: Tree, root: Node, parent: Node, part: Part, layer: Bytes, node: Node)
    requires Grown(first, before, GetPath(parent)) && Created(before, after, root, parent, part, layer, node)
    ensures Grown(first, after, GetPath(parent) + [part])
  {
    var path, longer := GetPath(parent), GetPath(parent) + [part];
    GrownTowards(first, before, path, longer);
    CreatedGrows(before, after, root, parent, part, layer, node);
    forall p ensures StillFound(first, after, longer, p) {
      assert StillFound(first, before, longer, p);
      assert StillFound(before, after, longer, p);
    }
  }

  lemma {:induction false} CreatedGrows(before: Tree, after: Tree, root: Node, parent: Node, part: Part, layer: Bytes, node: Node)
    requires Created(before, after, root, parent, part, layer, node)
    ensures Grown(before, after, GetPath(parent) + [part])
    ensures forall n :: n in after.layers <==> n in before.layers || n == Id(GetNodePrefix(parent), node.name)
  {
    NodeAtIs(before, root, GetPath(parent));
    FreshIsNew(before, GetNodePrefix(parent), node.name);
    CreateStillFinds(before, GetPath(parent), part, node.name, layer);
  }

  /** `find_deepest`: the last node on a path that is there. */
  function Deepest(t: Tree, p: Path): (d: Path)
    ensures d <= p && Find(t, d).Some?
    decreases |p|
  {
    if p == [] || Find(t, p).Some? then p else assert Front(p) <= p; Deepest(t, Front(p))
  }

  lemma {:induction false} DeepestBelow(t: Tree, p: Path, q: Path)
    requires p <= q && Find(t, p).None?
    ensures Find(t, q).None? && Deepest(t, q) == Deepest(t, p)
    decreases |q|
  {
    if Find(t, q).Some? {
      BeginningExists(t, p, q);
    }
    if p == q {
    } else {
      assert p <= Front(q);
      DeepestBelow(t, p, Front(q));
    }
  }

  predicate IsAllocated(contentPrefix: Bytes, allocs: seq<Allocation>, name: Name) {
    exists i :: 0 <= i < |allocs| && Storable(allocs[i]) && name == AllocatedName(contentPrefix, allocs[i])
  }

  ghost predicate NewNamesAllocated(before: Tree, after: Tree, contentPrefix: Bytes, allocs: seq<Allocation>) {
    forall n :: n in after.layers && n !in before.layers ==> IsAllocated(contentPrefix, allocs, n.name)
  }

  /** What opening a path and creating what is missing of it has done so far: nothing, if the
      path was there; else it grew towards it, below and behind the deepest node that was. */
  ghost predicate GrownBy(first: Tree, store0: Store, t: Tree, store: Store, root: Node, p: Path, allocs: seq<Allocation>)
    requires Sound(first)
  {
    if Find(first, p).Some? then t == first && store == store0
    else
      var d := NodeAt(first, root, Deepest(first, p));
      Grown(first, t, p) && NewNamesAllocated(first, t, ContentPrefix(d), allocs) && Grows(store0, store, GetNodePrefix(d))
  }

  lemma {:induction false} GrownByTowards(first: Tree, store0: Store, t: Tree, store: Store, root: Node, p: Path, q: Path, allocs: seq<Allocation>)
    requires Sound(first) && GrownBy(first, store0, t, store, root, p, allocs) && p <= q
    ensures GrownBy(first, store0, t, store, root, q, allocs)
  {
    if Find(first, p).None? {
      DeepestBelow(first, p, q);
      GrownTowards(first, t, p, q);
    }
  }

  lemma {:induction false} GrownByIsGrown(first: Tree, store0: Store, t: Tree, store: Store, root: Node, p: Path, allocs: seq<Allocation>)
    requires Sound(first) && GrownBy(first, store0, t, store, root, p, allocs)
    ensures Grown(first, t, p)
  {
  }

  /** A node the path has come to, with the root the deepest node goes by. */
  ghost predicate Reached(first: Tree, t: Tree, root: Node, p: Path, node: Node)
    requires Sound(first)
  {
    IsNode(t, root, node) && GetPath(node) == p && GetRoot(node) == GetRoot(NodeAt(first, root, Deepest(first, p)))
  }

  /** What was not there at first is not there until it is created. */
  lemma {:induction false} NotYetGrown(first: Tree, store0: Store, t: Tree, store: Store, root: Node, p: Path, part: Part, allocs: seq<Allocation>)
    requires Sound(first) && GrownBy(first, store0, t, store, root, p, allocs)
    ensures Find(first, p + [part]).None? <==> Find(t, p + [part]).None?
    ensures Find(first, p + [part]).Some? ==> Find(first, p).Some?
  {
    BeginningThere(first, p, part);
    if Find(first, p).None? {
      assert StillFound(first, t, p, p + [part]);
    }
  }

  lemma {:induction false} BeginningThere(t: Tree, p: Path, part: Part)
    ensures Find(t, p + [part]).Some? ==> Find(t, p).Some?
  {
    FoundThroughSlot(t, p + [part]);
    assert Front(p + [part]) == p;
  }

  lemma {:induction false} DeepestStep(t: Tree, p: Path, part: Part)
    requires Find(t, p + [part]).None?
    ensures Deepest(t, p + [part]) == Deepest(t, p)
  {
    assert Front(p + [part]) == p;
  }

  /** After one more creation. */
  lemma {:induction false} GrownByOneMore(first: Tree, store0: Store, before: Tree, between: Store, after: Tree, store: Store, root: Node,
      parent: Node, part: Part, layer: Bytes, node: Node, allocs: seq<Allocation>)
    requires Sound(first) && IsAbsolute(first, root)
    requires GrownBy(first, store0, before, between, root, GetPath(parent), allocs)
    requires Reached(first, before, root, GetPath(parent), parent)
    requires Created(before, after, root, parent, part, layer, node) && Grows(between, store, GetNodePrefix(parent))
    requires IsAllocated(ContentPrefix(parent), allocs, node.name)
    ensures GrownBy(first, store0, after, store, root, GetPath(parent) + [part], allocs)
    ensures layer != PARTITION ==> Reached(first, after, root, GetPath(parent) + [part], node)
  {
    var p := GetPath(parent);
    var d := NodeAt(first, root, Deepest(first, p));
    NotYetGrown(first, store0, before, between, root, p, part, allocs);
    DeepestStep(first, p, part);
    RootsAnswer(parent);
    RootsAnswer(d);
    GrownByIsGrown(first, store0, before, between, root, p, allocs);
    OneMoreGrown(first, before, after, root, parent, part, layer, node);
    CreatedGrows(before, after, root, parent, part, layer, node);
  }

  /** A failed creation may have touched the store, behind the same node prefix. */
  lemma {:induction false} GrownByFailure(first: Tree, store0: Store, t: Tree, between: Store, store: Store, root: Node,
      parent: Node, part: Part, allocs: seq<Allocation>)
    requires Sound(first) && IsAbsolute(first, root)
    requires GrownBy(first, store0, t, between, root, GetPath(parent), allocs)
    requires Reached(first, t, root, GetPath(parent), parent)
    requires Find(t, GetPath(parent) + [part]).None? && Grows(between, store, GetNodePrefix(parent))
    ensures GrownBy(first, store0, t, store, root, GetPath(parent) + [part], allocs)
  {
    var p := GetPath(parent);
    NotYetGrown(first, store0, t, between, root, p, part, allocs);
    DeepestStep(first, p, part);
    RootsAnswer(parent);
    RootsAnswer(NodeAt(first, root, Deepest(first, p)));
    GrownByIsGrown(first, store0, t, between, root, p, allocs);
    GrownTowards(first, t, p, p + [part]);
  }

  // ---------------------------------------------------------------- the exact growth

  /** The deepest node that was there on the way to `p`. */
  ghost function DeepestNode(t: Tree, root: Node, p: Path): Node
    requires Sound(t)
  {
    NodeAt(t, root, Deepest(t, p))
  }

  /** A node named by one of the allocations `lo` to `hi`. */
  predicate NamedBy(h: Bytes, contentPrefix: Bytes, allocs: seq<Allocation>, b: nat, lo: nat, hi: nat, n: Id) {
    exists i :: 0 <= i < |allocs| && lo <= i + b < hi && Storable(allocs[i]) && n == Id(h, AllocatedName(contentPrefix, allocs[i]))
  }

  /** Once `p` is reached, exactly what was missing of it is new: a node for each path name, named
      by the allocation that stood by for it; `b` path names were there to begin with. */
  ghost predicate GrownExactly(first: Tree, store0: Store, t: Tree, store: Store, root: Node, b: nat, p: Path, allocs: seq<Allocation>)
    requires Sound(first)
  {
    var d, lo, hi := DeepestNode(first, root, p), |Deepest(first, p)|, |p|;
    GrownFrom(first, store0, t, store, d, allocs, b, lo, hi)
  }

  ghost predicate GrownFrom(first: Tree, store0: Store, t: Tree, store: Store, d: Node, allocs: seq<Allocation>, b: nat, lo: nat, hi: nat) {
    Grows(store0, store, GetNodePrefix(d)) && NewAre(first, t, GetNodePrefix(d), ContentPrefix(d), allocs, b, lo, hi)
  }

  ghost predicate NewAre(first: Tree, t: Tree, h: Bytes, contentPrefix: Bytes, allocs: seq<Allocation>, b: nat, lo: nat, hi: nat) {
    && (forall n :: n in t.layers <==> n in first.layers || NamedBy(h, contentPrefix, allocs, b, lo, hi, n))
    && (forall n {:trigger Placed(t, n)} :: n in t.layers && n !in first.layers ==> Placed(t, n))
  }

  /** Apart from the names given meanwhile. */
  predicate ApartFromNew(contentPrefix: Bytes, allocs: seq<Allocation>, b: nat, lo: nat, hi: nat, name: Name)
    requires AllStorable(allocs)
  {
    forall i :: 0 <= i < |allocs| && lo <= i + b < hi ==> Apart(AllocatedName(contentPrefix, allocs[i]), name)
  }

  lemma {:induction false} GrownExactlyNot(t: Tree, store: Store, root: Node, b: nat, p: Path, allocs: seq<Allocation>)
    requires Sound(t) && Find(t, p).Some?
    ensures GrownExactly(t, store, t, store, root, b, p, allocs)
  {
  }

  /** What makes an allocated name good: fresh, and begun by no key. */
  ghost predicate Serves(t: Tree, store: Store, h: Bytes, name: Name) {
    Fresh(t, h, name) && Unused(store, name)
  }

  /** Whether one step of `create_or_open` succeeds, by what was there before the first: an
      existing node can be opened; a missing one can be created, its version written, its name
      good, and not the name of one created on the way. */
  ghost predicate StepOk(first: Tree, store: Store, root: Node, b: nat, p: Path, part: Part, layer: Bytes, allocs: seq<Allocation>)
    requires Sound(first)
  {
    var next := p + [part];
    if Find(first, next).Some? then
      && Find(first, p).Some? && VersionError(store, Inside(first, Find(first, p).value), false).None?
      && (layer == [] || layer == GetLayer(NodeAt(first, root, next)))
    else
      var d, lo, at := DeepestNode(first, root, p), |Deepest(first, p)|, |p|;
      Creatable(first, store, d, allocs, b, lo, at)
  }

  ghost predicate Creatable(first: Tree, store: Store, d: Node, allocs: seq<Allocation>, b: nat, lo: nat, at: nat) {
    var i := at - b;
    && VersionError(store, GetNodePrefix(d), true).None?
    && 0 <= i < |allocs| && Storable(allocs[i])
    && Serves(first, store, GetNodePrefix(d), AllocatedName(ContentPrefix(d), allocs[i]))
    && forall j :: 0 <= j < |allocs| && lo <= j + b < at ==> allocs[j].id != allocs[i].id
  }

  /** Whether the path behind its first `b` names can be opened, creating what is missing. */
  ghost predicate CanReach(first: Tree, store: Store, root: Node, b: nat, p: Path, layer: Bytes, allocs: seq<Allocation>)
    requires Sound(first)
  {
    forall k :: b <= k < |p| ==> StepOk(first, store, root, b, p[..k], p[k], if k == |p| - 1 then layer else [], allocs)
  }

  /** Fresh amid the growth is what was fresh before and is apart from the new names. */
  lemma {:induction false} FreshAmid(first: Tree, t: Tree, h: Bytes, contentPrefix: Bytes, allocs: seq<Allocation>, b: nat, lo: nat, hi: nat, name: Name)
    requires AllStorable(allocs) && NewAre(first, t, h, contentPrefix, allocs, b, lo, hi)
    ensures Fresh(t, h, name) <==> (Fresh(first, h, name) && ApartFromNew(contentPrefix, allocs, b, lo, hi, name))
  {
    forall i | 0 <= i < |allocs| && lo <= i + b < hi ensures Id(h, AllocatedName(contentPrefix, allocs[i])) in t.layers {
      assert NamedBy(h, contentPrefix, allocs, b, lo, hi, Id(h, AllocatedName(contentPrefix, allocs[i])));
    }
    if Fresh(first, h, name) && ApartFromNew(contentPrefix, allocs, b, lo, hi, name) {
      forall n | n in t.layers && n.home == h ensures Apart(n.name, name) {
        if n !in first.layers {
          assert NamedBy(h, contentPrefix, allocs, b, lo, hi, n);
        }
      }
    }
  }

  /** And an allocated name is apart from them if its identifier is another. */
  lemma {:induction false} ServesAmid(first: Tree, store0: Store, t: Tree, store: Store, h: Bytes, contentPrefix: Bytes,
      allocs: seq<Allocation>, b: nat, lo: nat, hi: nat, a: Allocation)
    requires AllStorable(allocs) && Storable(a)
    requires NewAre(first, t, h, contentPrefix, allocs, b, lo, hi) && Grows(store0, store, h)
    ensures var name := AllocatedName(contentPrefix, a);
      Fresh(t, h, name) && Unused(Allocated(store, h, a), name) <==>
      Serves(first, store0, h, name) && forall i :: 0 <= i < |allocs| && lo <= i + b < hi ==> allocs[i].id != a.id
  {
    var name := AllocatedName(contentPrefix, a);
    FreshAmid(first, t, h, contentPrefix, allocs, b, lo, hi, name);
    forall i | 0 <= i < |allocs| ensures Apart(AllocatedName(contentPrefix, allocs[i]), name) <==> allocs[i].id != a.id {
      AllocatedNamesApart(contentPrefix, allocs[i], a);
    }
    AllocatedGrows(store, h, a);
    GrowsOn(store0, store, Allocated(store, h, a), h);
    if Apart(h, name) {
      GrowthUsesNoName(store0, Allocated(store, h, a), h, name);
    }
  }

  /** One node more. */
  lemma {:induction false} GrownExactlyOneMore(first: Tree, store0: Store, before: Tree, between: Store, after: Tree, store: Store, root: Node,
      b: nat, p: Path, parent: Node, part: Part, layer: Bytes, node: Node, d: Node, allocs: seq<Allocation>, i: nat)
    requires Sound(first) && GrownExactly(first, store0, before, between, root, b, p, allocs) && Find(first, p + [part]).None?
    requires d == DeepestNode(first, root, p) && GetRoot(parent) == GetRoot(d)
    requires Created(before, after, root, parent, part, layer, node) && Grows(between, store, GetNodePrefix(d))
    requires i + b == |p| && i < |allocs| && Storable(allocs[i]) && node.name == AllocatedName(ContentPrefix(d), allocs[i])
    ensures GrownExactly(first, store0, after, store, root, b, p + [part], allocs)
  {
    var lo, hi := |Deepest(first, p)|, |p|;
    SameRootsAnswer(parent, d);
    GrownFromOneMore(first, store0, before, between, after, store, root, parent, part, layer, node, d, allocs, b, lo, hi, i);
    GrownExactlyStep(first, store0, after, store, root, b, p, part, d, allocs, lo, hi + 1);
  }

  lemma {:induction false} GrownExactlyStep(first: Tree, store0: Store, t: Tree, store: Store, root: Node, b: nat, p: Path, part: Part, d: Node,
      allocs: seq<Allocation>, lo: nat, hi: nat)
    requires Sound(first) && Find(first, p + [part]).None? && d == DeepestNode(first, root, p)
    requires GrownFrom(first, store0, t, store, d, allocs, b, lo, hi) && lo == |Deepest(first, p)| && hi == |p| + 1
    ensures GrownExactly(first, store0, t, store, root, b, p + [part], allocs)
  {
    DeepestStep(first, p, part);
    GrownFromIs(first, store0, t, store, root, b, p + [part], allocs, d, lo, hi);
  }

  lemma {:induction false} SameRootsAnswer(m: Node, n: Node)
    requires GetRoot(m) == GetRoot(n)
    ensures GetNodePrefix(m) == GetNodePrefix(n) && ContentPrefix(m) == ContentPrefix(n) && AllowManual(m) == AllowManual(n)
  {
    RootsAnswer(m);
    RootsAnswer(n);
  }

  lemma {:induction false} GrownFromOneMore(first: Tree, store0: Store, before: Tree, between: Store, after: Tree, store: Store, root: Node,
      parent: Node, part: Part, layer: Bytes, node: Node, d: Node, allocs: seq<Allocation>, b: nat, lo: nat, hi: nat, i: nat)
    requires GrownFrom(first, store0, before, between, d, allocs, b, lo, hi)
    requires Created(before, after, root, parent, part, layer, node) && Grows(between, store, GetNodePrefix(d))
    requires GetNodePrefix(d) == GetNodePrefix(parent) && i + b == hi && i < |allocs| && lo <= hi && Storable(allocs[i])
    requires node.name == AllocatedName(ContentPrefix(d), allocs[i])
    ensures GrownFrom(first, store0, after, store, d, allocs, b, lo, hi + 1)
  {
    CreatedGrows(before, after, root, parent, part, layer, node);
    CreatedIsPlaced(before, after, root, parent, part, layer, node);
    GrowsOn(store0, between, store, GetNodePrefix(d));
    OneMoreNew(first, before, after, GetNodePrefix(d), ContentPrefix(d), allocs, b, lo, hi, i);
  }

  lemma {:induction false} OneMoreNew(first: Tree, before: Tree, after: Tree, h: Bytes, cp: Bytes, allocs: seq<Allocation>, b: nat, lo: nat, hi: nat, i: nat)
    requires NewAre(first, before, h, cp, allocs, b, lo, hi)
    requires i + b == hi && i < |allocs| && lo <= hi && Storable(allocs[i])
    requires forall n :: n in after.layers <==> n in before.layers || n == Id(h, AllocatedName(cp, allocs[i]))
    requires forall n :: Placed(after, n) <==> n == Id(h, AllocatedName(cp, allocs[i])) || Placed(before, n)
    ensures NewAre(first, after, h, cp, allocs, b, lo, hi + 1)
  {
    forall n ensures n in after.layers <==> n in first.layers || NamedBy(h, cp, allocs, b, lo, hi + 1, n) {
      NamedByOneMore(h, cp, allocs, b, lo, hi, i, n);
      assert n in before.layers <==> n in first.layers || NamedBy(h, cp, allocs, b, lo, hi, n);
    }
    forall n | n in after.layers && n !in first.layers ensures Placed(after, n) {
      assert n in before.layers ==> Placed(before, n);
    }
  }

  lemma {:induction false} NamedByOneMore(h: Bytes, cp: Bytes, allocs: seq<Allocation>, b: nat, lo: nat, hi: nat, i: nat, n: Id)
    requires i + b == hi && i < |allocs| && lo <= hi && Storable(allocs[i])
    ensures NamedBy(h, cp, allocs, b, lo, hi + 1, n) <==> NamedBy(h, cp, allocs, b, lo, hi, n) || n == Id(h, AllocatedName(cp, allocs[i]))
  {
    if NamedBy(h, cp, allocs, b, lo, hi + 1, n) {
      var j :| 0 <= j < |allocs| && lo <= j + b < hi + 1 && Storable(allocs[j]) && n == Id(h, AllocatedName(cp, allocs[j]));
      assert j + b < hi || j == i;
    }
  }

  lemma {:induction false} CreatedIsPlaced(before: Tree, after: Tree, root: Node, parent: Node, part: Part, layer: Bytes, node: Node)
    requires Created(before, after, root, parent, part, layer, node)
    ensures forall n :: Placed(after, n) <==> n == Id(GetNodePrefix(parent), node.name) || Placed(before, n)
  {
    NodeAtIs(before, root, GetPath(parent));
    FreshIsNew(before, GetNodePrefix(parent), node.name);
    CreateKeepsSound(before, GetPath(parent), part, node.name, layer);
  }

  /** The step from `p` succeeds as what was there at first decides. */
  lemma {:induction false} StepDecides(first: Tree, store0: Store, t: Tree, store: Store, root: Node, b: nat, p: Path,
      parent: Node, part: Part, layer: Bytes, allocs: seq<Allocation>, i: nat)
    requires Sound(first) && AllStorable(allocs) && GrownExactly(first, store0, t, store, root, b, p, allocs)
    requires Find(first, p + [part]).None? && GetRoot(parent) == GetRoot(DeepestNode(first, root, p))
    requires i + b == |p| && i < |allocs|
    ensures ChildAnswer(store, t, parent, part, layer, allocs[i]).Ok? <==> StepOk(first, store0, root, b, p, part, layer, allocs)
  {
    var d, lo, hi := DeepestNode(first, root, p), |Deepest(first, p)|, |p|;
    GrownExactlyIs(first, store0, t, store, root, b, p, allocs, d, lo, hi);
    StepDecidesFrom(first, store0, t, store, root, b, p, parent, part, layer, allocs, i, d, lo, hi);
  }

  lemma {:induction false} GrownExactlyIs(first: Tree, store0: Store, t: Tree, store: Store, root: Node, b: nat, p: Path, allocs: seq<Allocation>,
      d: Node, lo: nat, hi: nat)
    requires Sound(first) && d == DeepestNode(first, root, p) && lo == |Deepest(first, p)| && hi == |p|
    requires GrownExactly(first, store0, t, store, root, b, p, allocs)
    ensures GrownFrom(first, store0, t, store, d, allocs, b, lo, hi)
  {
  }

  lemma {:induction false} GrownFromIs(first: Tree, store0: Store, t: Tree, store: Store, root: Node, b: nat, p: Path, allocs: seq<Allocation>,
      d: Node, lo: nat, hi: nat)
    requires Sound(first) && d == DeepestNode(first, root, p) && lo == |Deepest(first, p)| && hi == |p|
    requires GrownFrom(first, store0, t, store, d, allocs, b, lo, hi)
    ensures GrownExactly(first, store0, t, store, root, b, p, allocs)
  {
  }

  lemma {:induction false} StepDecidesFrom(first: Tree, store0: Store, t: Tree, store: Store, root: Node, b: nat, p: Path,
      parent: Node, part: Part, layer: Bytes, allocs: seq<Allocation>, i: nat, d: Node, lo: nat, hi: nat)
    requires Sound(first) && AllStorable(allocs) && GrownFrom(first, store0, t, store, d, allocs, b, lo, hi)
    requires Find(first, p + [part]).None? && d == DeepestNode(first, root, p) && GetRoot(parent) == GetRoot(d)
    requires i + b == |p| && i < |allocs| && lo == |Deepest(first, p)| && hi == |p|
    ensures ChildAnswer(store, t, parent, part, layer, allocs[i]).Ok? <==> StepOk(first, store0, root, b, p, part, layer, allocs)
  {
    SameRootsAnswer(parent, d);
    StepOkIs(first, store0, root, b, p, part, layer, allocs, d, lo, hi);
    CreatableIs(first, store0, d, allocs, b, lo, hi, i);
    AnswerOkIs(store, t, parent, part, layer, allocs[i], GetNodePrefix(d), ContentPrefix(d));
    ServesAmid(first, store0, t, store, GetNodePrefix(d), ContentPrefix(d), allocs, b, lo, hi, allocs[i]);
  }

  lemma {:induction false} StepOkIs(first: Tree, store: Store, root: Node, b: nat, p: Path, part: Part, layer: Bytes, allocs: seq<Allocation>,
      d: Node, lo: nat, at: nat)
    requires Sound(first) && Find(first, p + [part]).None? && d == DeepestNode(first, root, p)
    requires lo == |Deepest(first, p)| && at == |p|
    ensures StepOk(first, store, root, b, p, part, layer, allocs) <==> Creatable(first, store, d, allocs, b, lo, at)
  {
  }

  lemma {:induction false} CreatableIs(first: Tree, store: Store, d: Node, allocs: seq<Allocation>, b: nat, lo: nat, at: nat, i: nat)
    requires i + b == at && i < |allocs| && Storable(allocs[i])
    ensures Creatable(first, store, d, allocs, b, lo, at) <==>
      && VersionError(store, GetNodePrefix(d), true).None?
      && Serves(first, store, GetNodePrefix(d), AllocatedName(ContentPrefix(d), allocs[i]))
      && forall j :: 0 <= j < |allocs| && lo <= j + b < at ==> allocs[j].id != allocs[i].id
  {
  }

  lemma {:induction false} AnswerOkIs(store: Store, t: Tree, parent: Node, part: Part, layer: Bytes, a: Allocation, h: Bytes, contentPrefix: Bytes)
    requires Storable(a) && GetNodePrefix(parent) == h && ContentPrefix(parent) == contentPrefix
    ensures var name := AllocatedName(contentPrefix, a);
      ChildAnswer(store, t, parent, part, layer, a).Ok? <==>
      VersionError(store, h, true).None? && Fresh(t, h, name) && Unused(Allocated(store, h, a), name)
  {
  }

  // ---------------------------------------------------------------- names chosen too early

  /** A name of the caller's choice is checked before the missing parents get theirs: it is fresh
      when it is written if it was fresh before and is apart from the names the parents got. */
  ghost predicate StaysFresh(first: Tree, root: Node, b: nat, above: Path, name: Name, allocs: seq<Allocation>)
    requires Sound(first) && AllStorable(allocs)
  {
    var d, lo, hi := DeepestNode(first, root, above), |Deepest(first, above)|, |above|;
    Fresh(first, GetNodePrefix(d), name) && ApartFromNew(ContentPrefix(d), allocs, b, lo, hi, name)
  }

  /** With any number of missing parents: the tree with the new node is a good one exactly if the
      name stays fresh. */
  lemma {:induction false} CheckedBeforeItsParents(first: Tree, store0: Store, t: Tree, store: Store, root: Node, b: nat, above: Path,
      allocs: seq<Allocation>, parent: Node, part: Part, name: Name, layer: Bytes)
    requires Sound(first) && AllStorable(allocs) && GrownExactly(first, store0, t, store, root, b, above, allocs)
    requires Reached(first, t, root, above, parent) && Named(t) && Find(t, above + [part]).None?
    requires HasHome(t, Id(GetNodePrefix(parent), name)) && Id(GetNodePrefix(parent), name) !in first.layers
    ensures var w := WithNode(t, IdOf(t, parent), part, name, layer);
      Sound(w) && Named(w) <==> StaysFresh(first, root, b, above, name, allocs)
  {
    var d, lo, hi := DeepestNode(first, root, above), |Deepest(first, above)|, |above|;
    SameRootsAnswer(parent, d);
    StaysFreshIs(first, root, b, above, name, allocs, d, lo, hi);
    CheckedBefore(first, t, root, d, b, lo, hi, allocs, parent, part, name, layer);
  }

  lemma {:induction false} StaysFreshIs(first: Tree, root: Node, b: nat, above: Path, name: Name, allocs: seq<Allocation>, d: Node, lo: nat, hi: nat)
    requires Sound(first) && AllStorable(allocs) && d == DeepestNode(first, root, above)
    requires lo == |Deepest(first, above)| && hi == |above|
    ensures StaysFresh(first, root, b, above, name, allocs)
      <==> Fresh(first, GetNodePrefix(d), name) && ApartFromNew(ContentPrefix(d), allocs, b, lo, hi, name)
  {
  }

  lemma {:induction false} CheckedBefore(first: Tree, t: Tree, root: Node, d: Node, b: nat, lo: nat, hi: nat, allocs: seq<Allocation>,
      parent: Node, part: Part, name: Name, layer: Bytes)
    requires AllStorable(allocs) && NewAre(first, t, GetNodePrefix(d), ContentPrefix(d), allocs, b, lo, hi)
    requires IsNode(t, root, parent) && GetNodePrefix(parent) == GetNodePrefix(d) && Named(t) && Find(t, GetPath(parent) + [part]).None?
    requires HasHome(t, Id(GetNodePrefix(d), name)) && Id(GetNodePrefix(d), name) !in first.layers
    ensures var w := WithNode(t, IdOf(t, parent), part, name, layer);
      Sound(w) && Named(w) <==> (Fresh(first, GetNodePrefix(d), name) && ApartFromNew(ContentPrefix(d), allocs, b, lo, hi, name))
  {
    var h, cp := GetNodePrefix(d), ContentPrefix(d);
    FreshAmid(first, t, h, cp, allocs, b, lo, hi, name);
    NewIsPlaced(first, t, h, cp, allocs, b, lo, hi, Id(h, name));
    GoodNameIff(t, root, parent, part, name, layer);
  }

  lemma {:induction false} NewIsPlaced(first: Tree, t: Tree, h: Bytes, contentPrefix: Bytes, allocs: seq<Allocation>, b: nat, lo: nat, hi: nat, n: Id)
    requires NewAre(first, t, h, contentPrefix, allocs, b, lo, hi) && n !in first.layers
    ensures n in t.layers ==> Placed(t, n)
  {
  }

  /** What a caller can check beforehand: whatever identifiers the missing parents get, the name stays
      fresh exactly if it is fresh, and there are no missing parents or it meets no name that the
      allocator can give. */
  lemma {:induction false} StaysFreshWhateverParentsGet(first: Tree, root: Node, b: nat, above: Path, name: Name)
    requires Sound(first) && b <= |Deepest(first, above)|
    ensures var d := DeepestNode(first, root, above);
      (forall allocs :: AllStorable(allocs) && |above| <= |allocs| + b ==> StaysFresh(first, root, b, above, name, allocs))
      <==> Fresh(first, GetNodePrefix(d), name) && (Find(first, above).Some? || MeetsNoName(ContentPrefix(d), name))
  {
    var d, lo, hi := DeepestNode(first, root, above), |Deepest(first, above)|, |above|;
    forall allocs | AllStorable(allocs)
      ensures StaysFresh(first, root, b, above, name, allocs) <==>
        Fresh(first, GetNodePrefix(d), name) && ApartFromNew(ContentPrefix(d), allocs, b, lo, hi, name)
    {
      StaysFreshIs(first, root, b, above, name, allocs, d, lo, hi);
    }
    AnyNewIff(ContentPrefix(d), b, lo, hi, name);
    var some := SomeAllocations(0, hi);
    assert Find(first, above).None? ==> lo < hi;
  }

  lemma {:induction false} AnyNewIff(contentPrefix: Bytes, b: nat, lo: nat, hi: nat, name: Name)
    requires b <= lo <= hi
    ensures (forall allocs :: AllStorable(allocs) && hi <= |allocs| + b ==> ApartFromNew(contentPrefix, allocs, b, lo, hi, name))
      <==> lo == hi || MeetsNoName(contentPrefix, name)
  {
    MeetsNoNameIff(contentPrefix, name);
    if lo < hi && !MeetsNoName(contentPrefix, name) {
      var n: nat :| HcaKeys.EncodableId(n) && !Apart(contentPrefix + HcaKeys.IdBytes(n), name);
      var allocs := SomeAllocations(n, hi);
      assert !Apart(AllocatedName(contentPrefix, allocs[lo - b]), name);
    }
  }

  lemma {:induction false} SomeAllocations(n: nat, count: nat) returns (allocs: seq<Allocation>)
    requires n == 0 || HcaKeys.EncodableId(n)
    ensures AllStorable(allocs) && |allocs| == count && forall i :: 0 <= i < count ==> allocs[i].id == n
  {
    SmallestIdMeets([0x14]);
    allocs := seq(count, _ => Allocation(n, 0, []));
  }

  /** An input that shows it: below an empty root over the default node prefix, a node at a path of
      two names is to be called 0x14, and the first identifier allocated is 0, whose bytes are the
      same. The name is accepted; parent and child become one node, and the path never ends. */
  lemma {:induction false} CollidingNameIsAccepted(a: Allocation, above: Part, part: Part, layer: Bytes, k: nat)
    requires Storable(a) && a.id == 0 && layer != PARTITION
    ensures IsPrefixFree(map[], [0xFE], [0x14]) == Some(true) && AllocatedName([], a) == [0x14]
    ensures var t, n := Tree([0xFE], map[], map[]), Id([0xFE], [0x14]);
      var u := WithNode(t, Origin(t), above, AllocatedName([], a), []);
      var w := WithNode(u, n, part, [0x14], layer);
      Find(u, [above]) == Some(n) && !Sound(w) && Find(w, [above] + Repeated(part, k)) == Some(n)
  {
    var t, n := Tree([0xFE], map[], map[]), Id([0xFE], [0x14]);
    SmallestIdMeets([0x14]);
    IdIs(0);
    assert AllocatedName([], a) == [0x14];
    var u := WithNode(t, Origin(t), above, [0x14], []);
    var w := WithNode(u, n, part, [0x14], layer);
    WalkOne(u, Origin(u), above);
    WalkOne(w, Origin(w), above);
    WalkConcat(w, Origin(w), [above], Repeated(part, k));
    OwnChildIsACircle(w, n, part, k);
    assert w.children[Slot(Origin(t), above)] == w.children[Slot(n, part)];
    ShortNameIsAccepted();
  }

  lemma {:induction false} ShortNameIsAccepted()
    ensures IsPrefixFree(map[], [0xFE], [0x14]) == Some(true)
  {
    IsPrefixFreeDecides(map[], [0xFE], [0x14]);
    NodeIdBehindPrefix([0xFE], [0xFE]);
    assert NodeId([0xFE], [0xFE])[..1] == [0xFE];
  }

  // ---------------------------------------------------------------- find_deepest

  /** `find_deepest`. */
  function FindDeepest(store: Store, node: Node, path: Path): Found
    decreases |path|
  {
    if path == [] then Found(node)
    else
      var entry := NodeEntryId(node, path[0]);
      if entry !in store then Found(node)
      else
        var layer := NodeLayerId(node, store[entry]);
        if layer !in store then MissingNodeLayer(store[entry])
        else FindDeepest(store, InitNode(node, store[entry], path[0], store[layer]), path[1..])
  }

  /** It finds the deepest node the tree has on the path. */
  lemma {:induction false} FindDeepestIs(store: Store, t: Tree, root: Node, p: Path, q: Path)
    requires Refines(store, t) && Sound(t) && Named(t) && IsAbsolute(t, root) && Find(t, p).Some?
    ensures FindDeepest(store, NodeAt(t, root, p), q) == Found(NodeAt(t, root, Deepest(t, p + q)))
  {
    AllReadable(store, t, p, q);
    FindDeepestWalks(store, t, root, p, q);
  }

  lemma {:induction false} FindDeepestWalks(store: Store, t: Tree, root: Node, p: Path, q: Path)
    requires Sound(t) && IsAbsolute(t, root) && Find(t, p).Some?
    requires forall i :: 0 <= i < |q| ==> StepReadable(store, t, p, q, i)
    ensures FindDeepest(store, NodeAt(t, root, p), q) == Found(NodeAt(t, root, Deepest(t, p + q)))
    decreases |q|
  {
    if q == [] {
      assert p + q == p;
    } else {
      var next := p + [q[0]];
      FirstReadable(store, t, p, q);
      FindStep(store, t, root, p, q[0]);
      FindDeepestStep(store, NodeAt(t, root, p), q);
      if Find(t, next).Some? {
        RestReadable(store, t, p, q);
        FindDeepestWalks(store, t, root, next, q[1..]);
      } else {
        StopsAt(t, p, q);
      }
    }
  }

  lemma {:induction false} FindDeepestStep(store: Store, node: Node, path: Path)
    requires path != []
    ensures NodeEntryId(node, path[0]) !in store ==> FindDeepest(store, node, path) == Found(node)
    ensures NodeEntryId(node, path[0]) in store ==>
      var name := store[NodeEntryId(node, path[0])];
      NodeLayerId(node, name) in store ==>
        FindDeepest(store, node, path) == FindDeepest(store, InitNode(node, name, path[0], store[NodeLayerId(node, name)]), path[1..])
  {
  }

  lemma {:induction false} StopsAt(t: Tree, p: Path, rest: Path)
    requires rest != [] && Find(t, p).Some? && Find(t, p + [rest[0]]).None?
    ensures Deepest(t, p + rest) == p
  {
    DeepestStep(t, p, rest[0]);
    assert p + [rest[0]] <= p + rest by {
      assert p + rest == p + [rest[0]] + rest[1..];
    }
    DeepestBelow(t, p + [rest[0]], p + rest);
  }
}
