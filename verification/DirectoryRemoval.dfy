/** The recursion of `remove`: what is still found and listed while a subtree is being taken
    out, and what is left in the end. */
module DirectoryRemoval {
  import opened Options
  import opened ByteStrings
  import opened DirectoryTree
  import opened DirectoryPartitions
  import opened DirectoryKeys
  import opened DirectoryNames
  import opened DirectoryStore
  import opened DirectoryNodes
  import opened DirectoryListing
  import opened DirectoryVersions

  // ---------------------------------------------------------------- finding amid a removal

  /** Where `remove_recursive` can be called: what is missing is whole subtrees, and nothing of
      this one is missing yet. */
  ghost predicate Ready(t: Tree, root: Node, gone: set<Id>, node: Node) {
    && IsNode(t, root, node) && Named(t) && Tidy(t) && GetPath(node) != []
    && Closed(t, gone) && Below(t, IdOf(t, node)) !! gone
  }

  predicate StaysAt(t: Tree, gone: set<Id>, path: Path, i: nat)
    requires i <= |path|
  {
    Find(t, path[..i]).Some? ==> Find(t, path[..i]).value !in gone
  }

  /** Nothing above a node that stays goes. */
  lemma {:induction false} AboveStays(t: Tree, gone: set<Id>, path: Path, i: nat)
    requires Sound(t) && Closed(t, gone) && Find(t, path).Some? && Find(t, path).value !in gone && i <= |path|
    ensures StaysAt(t, gone, path, i)
  {
    var above := path[..i];
    PrefixesExist(t, Origin(t), path, i);
    FoundHasLayer(t, above);
    if above != [] {
      BelowIsBehind(t, above, path);
    }
  }

  /** Where nothing is missing the smaller tree's store can be read for the whole tree's. */
  lemma {:induction false} SlotAmidRemoval(store: Store, t: Tree, gone: set<Id>, s: Slot)
    requires Sound(t) && Named(t) && Tidy(t) && Closed(t, gone) && Refines(store, Without(t, gone))
    requires Placed(t, s.parent) && s.parent !in gone
    requires s in t.children ==> Placed(t, t.children[s]) && t.children[s] !in gone
    ensures Readable(store, t, s)
  {
    EntryAmidRemoval(store, t, gone, s);
    if s in t.children {
      LayerAmidRemoval(store, t, gone, t.children[s]);
    }
  }

  lemma {:induction false} EntryAmidRemoval(store: Store, t: Tree, gone: set<Id>, s: Slot)
    requires Sound(t) && Named(t) && Closed(t, gone) && Refines(store, Without(t, gone))
    requires Placed(t, s.parent) && s.parent !in gone
    ensures EntryAgrees(store, t, s)
  {
    var w := Without(t, gone);
    PlacedIsKnown(t, s.parent);
    if s.parent in t.layers {
      StaysUntaken(t, gone, s.parent);
    }
    assert EntryAgrees(store, w, s);
  }

  lemma {:induction false} LayerAmidRemoval(store: Store, t: Tree, gone: set<Id>, n: Id)
    requires Sound(t) && Named(t) && Tidy(t) && Closed(t, gone) && Refines(store, Without(t, gone))
    requires n in t.layers && Placed(t, n) && n !in gone
    ensures LayerAgrees(store, t, n)
  {
    SpaceOfStaying(t, gone, n);
    StaysUntaken(t, gone, n);
    assert LayerAgrees(store, Without(t, gone), n);
  }

  lemma {:induction false} PlacedIsKnown(t: Tree, n: Id)
    requires Sound(t) && Placed(t, n)
    ensures Known(t, n)
  {
    var p :| Find(t, p) == Some(n);
    FoundHasLayer(t, p);
  }

  lemma {:induction false} ReadableAmidRemoval(store: Store, t: Tree, gone: set<Id>, p: Path, q: Path)
    requires Sound(t) && Named(t) && Tidy(t) && Closed(t, gone) && Refines(store, Without(t, gone))
    requires Find(t, p + q).Some? && Find(t, p + q).value !in gone
    ensures forall i :: 0 <= i < |q| ==> StepReadable(store, t, p, q, i)
  {
    forall i | 0 <= i < |q| ensures StepReadable(store, t, p, q, i) {
      assert p + q[..i] == (p + q)[..|p| + i] && q[i] == (p + q)[|p| + i];
      StepAmidRemoval(store, t, gone, p + q, |p| + i);
    }
  }

  lemma {:induction false} StepAmidRemoval(store: Store, t: Tree, gone: set<Id>, p: Path, i: nat)
    requires Sound(t) && Named(t) && Tidy(t) && Closed(t, gone) && Refines(store, Without(t, gone))
    requires Find(t, p).Some? && Find(t, p).value !in gone && i < |p|
    ensures Find(t, p[..i]).Some? && Readable(store, t, Slot(Find(t, p[..i]).value, p[i]))
  {
    var here, next := p[..i], p[..i + 1];
    AboveStays(t, gone, p, i);
    AboveStays(t, gone, p, i + 1);
    PrefixesExist(t, Origin(t), p, i);
    PrefixesExist(t, Origin(t), p, i + 1);
    assert Front(next) == here && Last(next) == p[i];
    FoundThroughSlot(t, next);
    SlotAmidRemoval(store, t, gone, Slot(Find(t, here).value, p[i]));
  }

  /** So the node is still found from the root it goes by. */
  lemma {:induction false} FindAmidRemoval(store: Store, t: Tree, root: Node, gone: set<Id>, node: Node)
    requires Refines(store, Without(t, gone)) && Ready(t, root, gone, node)
    ensures |GetPath(GetRoot(node))| <= |GetPath(node)|
    ensures FindFrom(store, GetRoot(node), RelPath(GetRoot(node), node, [])) == Found(node)
  {
    AdjPath(t, root, node, []);
    NodeBelowItself(t, root, node);
    var p, q := GetPath(GetRoot(node)), RelPath(GetRoot(node), node, []);
    assert GetPath(node) + [] == GetPath(node);
    ReadableAmidRemoval(store, t, gone, p, q);
    FindWalks(store, t, root, p, q);
  }

  lemma {:induction false} NodeBelowItself(t: Tree, root: Node, node: Node)
    requires IsNode(t, root, node) && GetPath(node) != []
    ensures IdOf(t, node) in t.layers && IdOf(t, node) in Below(t, IdOf(t, node)) && Placed(t, IdOf(t, node))
  {
    FoundHasLayer(t, GetPath(node));
    BelowItself(t, IdOf(t, node));
  }

  lemma {:induction false} ChildInBelow(t: Tree, root: Node, node: Node, s: Slot)
    requires IsNode(t, root, node) && GetPath(node) != [] && s in t.children && s.parent == IdOf(t, node)
    ensures t.children[s] in Below(t, IdOf(t, node)) && Placed(t, t.children[s])
  {
    NodeBelowItself(t, root, node);
    BelowIsNodeAndChildren(t, IdOf(t, node), t.children[s]);
    BelowItself(t, t.children[s]);
    var p := PlaceOf(t, s);
  }

  lemma {:induction false} HomesStay(t: Tree, gone: set<Id>)
    requires Sound(t) && Named(t) && Closed(t, gone)
    ensures var w := Without(t, gone); forall s :: s in w.children ==> w.children[s].home == Inside(w, s.parent)
  {
    var w := Without(t, gone);
    forall s | s in w.children ensures w.children[s].home == Inside(w, s.parent) {
      if s.parent in t.layers {
        StaysUntaken(t, gone, s.parent);
      }
    }
  }

  /** And its children can be listed. */
  lemma {:induction false} ListedAmidRemoval(t: Tree, root: Node, gone: set<Id>, node: Node)
    requires Ready(t, root, gone, node)
    ensures ChildrenHaveLayers(Without(t, gone), IdOf(t, node)) && Fits(Without(t, gone), IdOf(t, node), node)
  {
    var w, id := Without(t, gone), IdOf(t, node);
    NodeBelowItself(t, root, node);
    NodeAtIs(t, root, GetPath(node));
    StaysUntaken(t, gone, id);
    HomesStay(t, gone);
    forall s | s in w.children && s.parent == id ensures w.children[s] in w.layers {
      ChildInBelow(t, root, node, s);
      StaysUntaken(t, gone, t.children[s]);
    }
  }

  lemma {:induction false} RowsAmidRemoval(t: Tree, root: Node, gone: set<Id>, node: Node, rows: seq<(Part, Node)>)
    requires Ready(t, root, gone, node) && ListsChildren(Without(t, gone), IdOf(t, node), node, rows)
    ensures ListsChildren(t, IdOf(t, node), node, rows)
  {
    var w, id := Without(t, gone), IdOf(t, node);
    NodeBelowItself(t, root, node);
    forall j | 0 <= j < |rows| ensures IsRow(t, id, node, rows[j]) {
      assert IsRow(w, id, node, rows[j]);
    }
    forall s | s in t.children && s.parent == id ensures HasRow(rows, s.part) {
      assert s in w.children;
    }
  }

  // ---------------------------------------------------------------- row by row

  function ChildAt(t: Tree, id: Id, part: Part): Id {
    if Slot(id, part) in t.children then t.children[Slot(id, part)] else id
  }

  ghost function BelowRows(t: Tree, id: Id, rows: seq<(Part, Node)>): set<Id> {
    if rows == [] then {}
    else BelowRows(t, id, rows[..|rows| - 1]) + Below(t, ChildAt(t, id, rows[|rows| - 1].0))
  }

  lemma {:induction false} BelowRowsOneMore(t: Tree, id: Id, rows: seq<(Part, Node)>, i: nat)
    requires i < |rows|
    ensures BelowRows(t, id, rows[..i + 1]) == BelowRows(t, id, rows[..i]) + Below(t, ChildAt(t, id, rows[i].0))
  {
    assert rows[..i + 1][..i] == rows[..i];
  }

  lemma {:induction false} InBelowRows(t: Tree, id: Id, rows: seq<(Part, Node)>, d: Id)
    ensures d in BelowRows(t, id, rows) <==> exists j :: 0 <= j < |rows| && d in Below(t, ChildAt(t, id, rows[j].0))
  {
    if rows != [] {
      var n := |rows| - 1;
      InBelowRows(t, id, rows[..n], d);
      if j :| 0 <= j < |rows| && d in Below(t, ChildAt(t, id, rows[j].0)) {
        assert j < n ==> rows[..n][j] == rows[j];
      }
      if d in BelowRows(t, id, rows[..n]) {
        var j :| 0 <= j < n && d in Below(t, ChildAt(t, id, rows[..n][j].0));
        assert rows[j] == rows[..n][j];
      }
    }
  }

  /** The subtrees of the rows and the node itself are the node's subtree. */
  lemma {:induction false} RowsAreBelow(t: Tree, root: Node, node: Node, rows: seq<(Part, Node)>)
    requires IsNode(t, root, node) && GetPath(node) != [] && ListsChildren(t, IdOf(t, node), node, rows)
    ensures BelowRows(t, IdOf(t, node), rows) + {IdOf(t, node)} == Below(t, IdOf(t, node))
  {
    var id := IdOf(t, node);
    FoundHasLayer(t, GetPath(node));
    forall d ensures d in BelowRows(t, id, rows) + {id} <==> d in Below(t, id) {
      InBelowRows(t, id, rows, d);
      BelowIsNodeAndChildren(t, id, d);
      RowsAreChildren(t, id, node, rows, d);
    }
  }

  /** What is below a row is below a child, and what is below a child below a row. */
  lemma {:induction false} RowsAreChildren(t: Tree, id: Id, node: Node, rows: seq<(Part, Node)>, d: Id)
    requires ListsChildren(t, id, node, rows)
    ensures (exists j :: 0 <= j < |rows| && d in Below(t, ChildAt(t, id, rows[j].0)))
      <==> (exists s :: s in t.children && s.parent == id && d in Below(t, t.children[s]))
  {
    if j :| 0 <= j < |rows| && d in Below(t, ChildAt(t, id, rows[j].0)) {
      assert IsRow(t, id, node, rows[j]);
      assert Slot(id, rows[j].0) in t.children;
    }
    if s :| s in t.children && s.parent == id && d in Below(t, t.children[s]) {
      assert HasRow(rows, s.part);
      var j :| 0 <= j < |rows| && rows[j].0 == s.part;
      assert s == Slot(id, rows[j].0);
    }
  }

  lemma {:induction false} RowIsNode(t: Tree, root: Node, node: Node, row: (Part, Node))
    requires IsNode(t, root, node) && IsRow(t, IdOf(t, node), node, row)
    ensures IsNode(t, root, row.1) && GetPath(row.1) == GetPath(node) + [row.0]
    ensures IdOf(t, row.1) == ChildAt(t, IdOf(t, node), row.0)
  {
    var p, next := GetPath(node), GetPath(node) + [row.0];
    FoundThroughSlot(t, next);
    assert Front(next) == p && Last(next) == row.0;
    NodeAtIsNode(t, root, next);
  }

  lemma {:induction false} ChildReady(t: Tree, root: Node, gone: set<Id>, node: Node, rows: seq<(Part, Node)>, i: nat)
    requires Ready(t, root, gone, node) && ListsChildren(t, IdOf(t, node), node, rows) && i < |rows|
    ensures Ready(t, root, gone + BelowRows(t, IdOf(t, node), rows[..i]), rows[i].1)
    ensures IdOf(t, rows[i].1) == ChildAt(t, IdOf(t, node), rows[i].0)
    ensures Below(t, IdOf(t, rows[i].1)) < Below(t, IdOf(t, node))
  {
    var id, child, done := IdOf(t, node), rows[i].1, BelowRows(t, IdOf(t, node), rows[..i]);
    assert IsRow(t, id, node, rows[i]);
    RowIsNode(t, root, node, rows[i]);
    NodeBelowItself(t, root, node);
    ChildBelow(t, Slot(id, rows[i].0));
    forall d | d in Below(t, IdOf(t, child)) ensures d !in done {
      EarlierRowsDisjoint(t, node, id, rows, i, d);
    }
    RowsAreClosed(t, root, node, rows[..i]);
    ClosedJoin(t, gone, done);
  }

  lemma {:induction false} ClosedJoin(t: Tree, a: set<Id>, b: set<Id>)
    requires Closed(t, a) && Closed(t, b)
    ensures Closed(t, a + b)
  {
  }

  lemma {:induction false} RowsAreClosed(t: Tree, root: Node, node: Node, rows: seq<(Part, Node)>)
    requires IsNode(t, root, node)
    requires forall j :: 0 <= j < |rows| ==> IsRow(t, IdOf(t, node), node, rows[j])
    ensures Closed(t, BelowRows(t, IdOf(t, node), rows))
  {
    if rows != [] {
      var k, id := |rows| - 1, IdOf(t, node);
      var child := ChildAt(t, id, rows[k].0);
      RowsAreClosed(t, root, node, rows[..k]);
      assert IsRow(t, id, node, rows[k]);
      var p := PlaceOf(t, Slot(id, rows[k].0));
      assert Placed(t, child);
      SubtreeIsClosed(t, child);
      ClosedJoin(t, BelowRows(t, id, rows[..k]), Below(t, child));
    }
  }

  lemma {:induction false} EarlierRowsDisjoint(t: Tree, node: Node, id: Id, rows: seq<(Part, Node)>, i: nat, d: Id)
    requires Sound(t) && ListsChildren(t, id, node, rows) && i < |rows| && d in Below(t, ChildAt(t, id, rows[i].0))
    ensures d !in BelowRows(t, id, rows[..i])
  {
    InBelowRows(t, id, rows[..i], d);
    if d in BelowRows(t, id, rows[..i]) {
      var j :| 0 <= j < i && d in Below(t, ChildAt(t, id, rows[..i][j].0));
      assert IsRow(t, id, node, rows[i]) && IsRow(t, id, node, rows[j]);
      assert Lex(rows[j].0, rows[i].0) < 0;
      SiblingsDisjoint(t, Slot(id, rows[i].0), Slot(id, rows[j].0));
    }
  }

  /** The version of a root is not cleared before the root is. */
  lemma {:induction false} VersionStays(store: Store, t: Tree, gone: set<Id>, n: Id)
    requires Sound(t) && Named(t) && Tidy(t) && Closed(t, gone) && n in t.layers && Placed(t, n) && n !in gone
    ensures VersionError(Sweep(store, t, gone), Inside(t, n), false) == VersionError(store, Inside(t, n), false)
  {
    var h := Inside(t, n);
    SpaceOfStaying(t, gone, n);
    KeySwept(t, gone, h, Version);
    RootKeysUntaken(t, gone, n);
    UnsweptVersion(store, t, gone, h);
  }

  lemma {:induction false} UnsweptVersion(store: Store, t: Tree, gone: set<Id>, h: Bytes)
    requires !Swept(t, gone, KeyOf(h, Version))
    ensures VersionError(Sweep(store, t, gone), h, false) == VersionError(store, h, false)
  {
  }

  lemma {:induction false} SpaceOfStaying(t: Tree, gone: set<Id>, n: Id)
    requires Sound(t) && Named(t) && Tidy(t) && Closed(t, gone) && n in t.layers && Placed(t, n) && n !in gone
    ensures IsSpace(Without(t, gone), Inside(t, n)) && IsSpace(Without(t, gone), n.home)
  {
    WithoutKeepsNamed(t, gone);
    StaysUntaken(t, gone, n);
    InsideIsSpace(Without(t, gone), n);
  }

  lemma {:induction false} RootKeysUntaken(t: Tree, gone: set<Id>, n: Id)
    requires Sound(t) && Named(t) && Closed(t, gone) && n in t.layers && Placed(t, n) && n !in gone
    ensures !KeyTaken(t, gone, Inside(t, n), Inside(t, n))
  {
    var h := Inside(t, n);
    if Id(h, h) in gone {
      assert Apart(Id(h, h).name, Id(h, h).home);
      assert IsPrefix(h, h);
    }
    if p :| p in gone && IsPartition(t, p) && h == Space(p.name) {
      NotBehindGone(t, gone, p, n);
    }
  }

  lemma {:induction false} NotBehindGone(t: Tree, gone: set<Id>, p: Id, n: Id)
    requires Sound(t) && Named(t) && Closed(t, gone) && n in t.layers && Placed(t, n) && p in gone && IsPartition(t, p)
    requires Inside(t, n) == Space(p.name)
    ensures n in gone
  {
    BelowItself(t, p);
    if IsPartition(t, n) {
      SpaceTellsPartition(t, n, p);
    } else {
      HeldIsBelow(t, p, n);
    }
  }

  /** The versions that `list` checks on the way. */
  ghost predicate AllMayRead(store: Store, t: Tree, nodes: set<Id>) {
    forall n :: n in nodes ==> VersionError(store, Inside(t, n), false).None?
  }

  // ---------------------------------------------------------------- what is left

  /** The store after a removal: the subtree swept and the entry above it cleared. */
  ghost function RemovedStore(store: Store, t: Tree, path: Path): Store
    requires path != [] && Find(t, path).Some?
  {
    FoundThroughSlot(t, path);
    Sweep(store, t, Below(t, Find(t, path).value)) - {EntryKey(t, SlotOf(t, path))}
  }

  ghost predicate Removable(t: Tree, path: Path) {
    Sound(t) && Named(t) && Tidy(t) && path != [] && Find(t, path).Some?
  }

  lemma {:induction false} TopIsClosed(t: Tree, path: Path)
    requires Removable(t, path)
    ensures Find(t, path).value in t.layers && Placed(t, Find(t, path).value)
    ensures Closed(t, Below(t, Find(t, path).value))
    ensures Find(t, Front(path)).Some? && Find(t, Front(path)).value !in Below(t, Find(t, path).value)
  {
    FoundHasLayer(t, path);
    FoundThroughSlot(t, path);
    assert Placed(t, Find(t, path).value);
    SubtreeIsClosed(t, Find(t, path).value);
    BelowIsBehind(t, path, Front(path));
  }

  /** `remove_from_parent` still finds the parent from the root of the partition. */
  lemma {:induction false} ParentFoundAfterRemoval(store: Store, t: Tree, root: Node, node: Node)
    requires IsNode(t, root, node) && Removable(t, GetPath(node))
    requires Refines(store, Without(t, Below(t, IdOf(t, node))))
    ensures |GetPath(GetPartition(node))| <= |GetPath(node)| && RelPath(GetPartition(node), node, []) != []
    ensures Find(t, Front(GetPath(node))).Some?
    ensures FindFrom(store, GetPartition(node), Front(RelPath(GetPartition(node), node, [])))
      == Found(NodeAt(t, root, Front(GetPath(node))))
  {
    AdjPathAbove(t, root, node);
    TopIsClosed(t, GetPath(node));
    var p, q := GetPath(GetPartition(node)), Front(RelPath(GetPartition(node), node, []));
    ReadableAmidRemoval(store, t, Below(t, IdOf(t, node)), p, q);
    FindWalks(store, t, root, p, q);
  }

  lemma {:induction false} RemoveKeepsNamed(t: Tree, path: Path)
    requires Removable(t, path)
    ensures Named(Remove(t, path)) && Tidy(Remove(t, path)) && Sound(Remove(t, path))
  {
    var u, gone := Remove(t, path), Below(t, Find(t, path).value);
    TopIsClosed(t, path);
    NamedTells(t);
    WithoutKeepsNamed(t, gone);
    SameLayers(Without(t, gone), u);
    RemoveKeepsSound(t, path);
    forall p, n | n in u.layers && Holds(u, p, n) ensures Placed(u, p) {
      assert Holds(t, p, n) && Placed(t, p) && p !in gone;
    }
  }

  /** Of the layer's keys behind the node prefix of any node a removal takes those of the directories
      of the subtree, all behind its partitions' own node prefixes, and the entry above it. */
  lemma {:induction false} RemovalOfNodeKeys(store: Store, t: Tree, path: Path, q: Path, d: NodeKey)
    requires Removable(t, path) && Find(t, q).Some? && Valid(d)
    ensures Find(t, Front(path)).Some?
    ensures var h := Inside(t, Find(t, q).value);
      KeyOf(h, d) in RemovedStore(store, t, path) <==>
      && KeyOf(h, d) in store && !KeyTaken(t, Below(t, Find(t, path).value), h, Owner(h, d))
      && KeyOf(h, d) != EntryKey(t, SlotOf(t, path))
  {
    var gone, h := Below(t, Find(t, path).value), Inside(t, Find(t, q).value);
    TopIsClosed(t, path);
    KeyOfNodeSwept(t, gone, q, d);
  }

  lemma {:induction false} KeyOfNodeSwept(t: Tree, gone: set<Id>, q: Path, d: NodeKey)
    requires Sound(t) && Named(t) && Tidy(t) && Closed(t, gone) && Find(t, q).Some? && Valid(d)
    ensures var h := Inside(t, Find(t, q).value); Swept(t, gone, KeyOf(h, d)) <==> KeyTaken(t, gone, h, Owner(h, d))
  {
    var h := Inside(t, Find(t, q).value);
    if p :| p in gone && IsPartition(t, p) && h == Space(p.name) {
      FoundHasLayer(t, q);
      InsideIsSpace(t, Find(t, q).value);
      var x := PartitionKeySwept(t, p, h, d);
    } else {
      SpaceStays(t, gone, q);
      KeySwept(t, gone, h, d);
    }
  }

  lemma {:induction false} SpaceStays(t: Tree, gone: set<Id>, q: Path)
    requires Sound(t) && Named(t) && Closed(t, gone) && Find(t, q).Some?
    requires forall p :: p in gone && IsPartition(t, p) ==> Inside(t, Find(t, q).value) != Space(p.name)
    ensures IsSpace(Without(t, gone), Inside(t, Find(t, q).value))
  {
    var r := RootOf(t, q);
    InsideOfRoot(t, q);
    if r != [] {
      var x := Find(t, r).value;
      assert Placed(t, x);
      StaysUntaken(t, gone, x);
      assert IsPartition(Without(t, gone), x);
    }
  }

  /** Of what begins with a directory's name a removal takes nothing if the directory stays. If it
      goes with a partition it is in, everything; else everything but the bare name and what goes
      on with 0xFF. */
  lemma {:induction false} RemovalOfContent(store: Store, t: Tree, path: Path, m: Id, k: Bytes)
    requires Removable(t, path) && m in t.layers && !IsPartition(t, m) && IsPrefix(m.name, k)
    ensures k in RemovedStore(store, t, path) <==>
      k in store && (m !in Below(t, Find(t, path).value)
        || (m.home == Find(t, path).value.home && (|k| == |m.name| || k[|m.name|] == 0xFF)))
  {
    var top, gone := Find(t, path).value, Below(t, Find(t, path).value);
    TopIsClosed(t, path);
    EntryIsNoContent(t, path, m, k);
    if m in gone {
      HomesInSubtree(t, path, m);
    }
    if p :| p in gone && Holds(t, p, m) {
      HeldContentGoes(t, gone, p, m, k);
    } else {
      forall n | n in gone ensures Apart(m.name, Inside(t, n)) && (n != m ==> Apart(n.name, m.name)) {
        ApartFromGone(t, gone, n, m);
      }
      if m in gone {
        SweepTakesContent(t, gone, m, k);
      } else {
        SweepSparesOthers(t, gone, m.name, k);
      }
    }
  }

  lemma {:induction false} HeldContentGoes(t: Tree, gone: set<Id>, p: Id, m: Id, k: Bytes)
    requires Sound(t) && Named(t) && Closed(t, gone) && p in gone && Holds(t, p, m)
    requires m in t.layers && !IsPartition(t, m) && IsPrefix(m.name, k)
    ensures m in gone && Swept(t, gone, k)
  {
    HeldIsBelow(t, p, m);
    HeldIsUnder(t, p, m);
    PrefixesChain(p.name, m.name, k);
    assert k[..|m.name|][|p.name|] == k[|p.name|];
    PartitionSweeps(t, p, k);
  }

  lemma {:induction false} ApartFromGone(t: Tree, gone: set<Id>, n: Id, m: Id)
    requires Sound(t) && Named(t) && Tidy(t) && Closed(t, gone) && n in gone
    requires m in t.layers && !IsPartition(t, m) && forall p :: p in gone ==> !Holds(t, p, m)
    ensures Apart(m.name, Inside(t, n)) && (n != m ==> Apart(n.name, m.name))
  {
    InsideIsSpace(t, n);
    assert Below(t, n) <= gone;
    DirectoryApartFromSpaces(t, m, Inside(t, n));
    if n != m && IsPrefix(n.name, m.name) {
      NestedIsBelow(t, n, m);
    }
    if n != m && IsPrefix(m.name, n.name) {
      NamesNest(t, m, n);
    }
  }

  lemma {:induction false} EntryIsNoContent(t: Tree, path: Path, m: Id, k: Bytes)
    requires Removable(t, path) && m in t.layers && !IsPartition(t, m) && IsPrefix(m.name, k)
    ensures Find(t, Front(path)).Some? && k != EntryKey(t, SlotOf(t, path))
  {
    FoundThroughSlot(t, path);
    FoundHasLayer(t, Front(path));
    var s := SlotOf(t, path);
    var h := Inside(t, s.parent);
    InsideIsSpace(t, s.parent);
    DirectoryApartFromSpaces(t, m, h);
    UnpackedKey(h, Entry(InnerName(t, s.parent), s.part));
    if k == EntryKey(t, s) {
      PrefixesOfOne(m.name, h, k);
    }
  }

  /** What a removed directory leaves: its bare name, and what goes on with 0xFF. */
  lemma {:induction false} BareNameStays(store: Store, t: Tree, path: Path)
    requires Removable(t, path) && !IsPartition(t, Find(t, path).value)
    requires var name := Find(t, path).value.name; name in store && name + [0xFF] in store
    ensures var name := Find(t, path).value.name;
      && name in RemovedStore(store, t, path) && name + [0xFF] in RemovedStore(store, t, path)
      && name + [0x00] !in RemovedStore(store, t, path)
  {
    TopIsClosed(t, path);
    var top := Find(t, path).value;
    BelowItself(t, top);
    assert (top.name + [0xFF])[..|top.name|] == top.name && (top.name + [0x00])[..|top.name|] == top.name;
    RemovalOfContent(store, t, path, top, top.name);
    RemovalOfContent(store, t, path, top, top.name + [0xFF]);
    RemovalOfContent(store, t, path, top, top.name + [0x00]);
  }

  /** What a removed partition leaves: its layer, out of reach. */
  lemma {:induction false} PartitionLayerStays(store: Store, t: Tree, path: Path)
    requires Well(store, t) && Removable(t, path) && IsPartition(t, Find(t, path).value)
    ensures var top, u := Find(t, path).value, Remove(t, path);
      LayerKey(top) in RemovedStore(store, t, path) && top in u.layers && !Placed(u, top) && Find(u, path).None?
  {
    TopIsClosed(t, path);
    var top, gone := Find(t, path).value, Below(t, Find(t, path).value);
    BelowItself(t, top);
    NamedTells(t);
    RemovalLeavesLayers(t, path, top);
    RemoveClearsTheSubtree(t, path, path);
    LayerKeyStays(store, t, path);
  }

  lemma {:induction false} LayerKeyStays(store: Store, t: Tree, path: Path)
    requires Well(store, t) && Removable(t, path) && IsPartition(t, Find(t, path).value)
    ensures LayerKey(Find(t, path).value) in RemovedStore(store, t, path)
  {
    var top := Find(t, path).value;
    TopIsClosed(t, path);
    FoundThroughSlot(t, path);
    FoundHasLayer(t, Front(path));
    InsideIsSpace(t, top);
    assert LayerAgrees(store, t, top);
    TopIsStoredAbove(t, path);
    RemovalOfNodeKeys(store, t, path, Front(path), LayerOf(top.name));
    if LayerKey(top) == EntryKey(t, SlotOf(t, path)) {
      EntryKeyIsOnly(t, SlotOf(t, path), top.home, LayerOf(top.name));
    }
  }

  lemma {:induction false} TopIsStoredAbove(t: Tree, path: Path)
    requires Removable(t, path) && IsPartition(t, Find(t, path).value)
    ensures Find(t, Front(path)).Some? && Find(t, path).value.home == Inside(t, Find(t, Front(path)).value)
    ensures !KeyTaken(t, Below(t, Find(t, path).value), Find(t, path).value.home, Find(t, path).value.name)
  {
    var top, gone := Find(t, path).value, Below(t, Find(t, path).value);
    TopIsClosed(t, path);
    FoundThroughSlot(t, path);
    if p :| p in gone && IsPartition(t, p) && top.home == Space(p.name) {
      TopNotHeld(t, path, p);
    }
  }
}
