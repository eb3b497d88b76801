/** The two writes of `move` on the store, and what would happen without the partition check. */
module DirectoryMoves {
  import opened Options
  import opened ByteStrings
  import opened DirectoryTree
  import opened DirectoryPartitions
  import opened DirectoryKeys
  import opened DirectoryNames
  import opened DirectoryStore
  import opened DirectoryNodes

  /** The two keys `move` writes. */
  ghost function MovedStore(store: Store, t: Tree, src: Path, dst: Path): Store
    requires Eligible(t, src, dst)
  {
    EligibleSlots(t, src, dst);
    store[EntryKey(t, SlotOf(t, dst)) := Find(t, src).value.name] - {EntryKey(t, SlotOf(t, src))}
  }

  ghost predicate SlotStays(t: Tree, u: Tree, p: Path, q: Path, i: nat)
    requires i < |q|
  {
    Find(t, p + q[..i]).Some? ==> SameSlot(t, u, Slot(Find(t, p + q[..i]).value, q[i]))
  }

  /** A path that uses no slot in which two trees differ can be read from the store of either. */
  lemma {:induction false} ReadableElsewhere(store: Store, t: Tree, u: Tree, p: Path, q: Path)
    requires Refines(store, u) && u.layers == t.layers && u.root == t.root && Sound(t) && Named(t)
    requires forall i :: 0 <= i < |q| ==> SlotStays(t, u, p, q, i)
    ensures forall i :: 0 <= i < |q| ==> StepReadable(store, t, p, q, i)
  {
    SameLayers(t, u);
    forall i | 0 <= i < |q| ensures StepReadable(store, t, p, q, i) {
      assert SlotStays(t, u, p, q, i);
      if Find(t, p + q[..i]).Some? {
        FoundHasLayer(t, p + q[..i]);
        var s := Slot(Find(t, p + q[..i]).value, q[i]);
        assert EntryAgrees(store, u, s);
        if s in t.children {
          InsideIsSpace(t, t.children[s]);
          assert LayerAgrees(store, u, t.children[s]);
        }
      }
    }
  }

  /** A path that does not reach the new place, nor the old one if that is cleared already, uses
      neither slot. */
  lemma {:induction false} PathAvoids(t: Tree, u: Tree, src: Path, dst: Path, p: Path, q: Path)
    requires Eligible(t, src, dst)
    requires u == PutEntry(t, SlotOf(t, dst), Find(t, src).value.name) || u == Shifted(t, src, dst)
    requires !(dst <= p + q) && !(src <= p + q)
    ensures forall i :: 0 <= i < |q| ==> SlotStays(t, u, p, q, i)
  {
    EligibleSlots(t, src, dst);
    forall i | 0 <= i < |q| ensures SlotStays(t, u, p, q, i) {
      var here := p + q[..i];
      assert here == (p + q)[..|here|] && (p + q)[|here|] == q[i];
      if Find(t, here).Some? {
        var s := Slot(Find(t, here).value, q[i]);
        if s == SlotOf(t, dst) {
          UsesSlot(t, p + q, |here|, Front(dst));
        } else if s == SlotOf(t, src) {
          UsesSlot(t, p + q, |here|, Front(src));
        }
      }
    }
  }

  /** With the new entry written, `remove_from_parent` still finds the old parent. */
  lemma {:induction false} OldParentStillFound(store: Store, t: Tree, root: Node, node: Node, dst: Path)
    requires IsNode(t, root, node) && Named(t) && Eligible(t, GetPath(node), dst)
    requires Refines(store, PutEntry(t, SlotOf(t, dst), IdOf(t, node).name))
    ensures |GetPath(GetPartition(node))| <= |GetPath(node)| && RelPath(GetPartition(node), node, []) != []
    ensures Find(t, Front(GetPath(node))).Some?
    ensures FindFrom(store, GetPartition(node), Front(RelPath(GetPartition(node), node, [])))
      == Found(NodeAt(t, root, Front(GetPath(node))))
  {
    EligibleSlots(t, GetPath(node), dst);
    AdjPathAbove(t, root, node);
    var p, q := GetPath(GetPartition(node)), Front(RelPath(GetPartition(node), node, []));
    var u := PutEntry(t, SlotOf(t, dst), IdOf(t, node).name);
    PathAvoids(t, u, GetPath(node), dst, p, q);
    ReadableElsewhere(store, t, u, p, q);
    FindWalks(store, t, root, p, q);
  }

  /** The store after both writes carries the tree after them. */
  lemma {:induction false} MovedStoreRefines(store: Store, t: Tree, src: Path, dst: Path)
    requires Well(store, t) && Eligible(t, src, dst)
    ensures Refines(MovedStore(store, t, src, dst), Shifted(t, src, dst))
  {
    EligibleSlots(t, src, dst);
    FoundHasLayer(t, Front(dst));
    FoundHasLayer(t, Front(src));
    var name := Find(t, src).value.name;
    var u := PutEntry(t, SlotOf(t, dst), name);
    SetEntry(store, t, SlotOf(t, dst), name);
    SameLayers(t, u);
    ClearEntry(store[EntryKey(t, SlotOf(t, dst)) := name], u, SlotOf(t, src));
  }

  lemma {:induction false} MoveKeepsTidy(t: Tree, src: Path, dst: Path)
    requires CanMove(t, src, dst) && Tidy(t)
    ensures Tidy(Move(t, src, dst).tree)
  {
    var u := Move(t, src, dst).tree;
    MoveSlots(t, src, dst);
    MoveKeepsSound(t, src, dst);
    forall p, n | n in u.layers && Holds(u, p, n) ensures Placed(u, p) {
      assert Holds(t, p, n);
    }
  }

  /** A node whose path goes through neither place is held as before. */
  lemma {:induction false} UnmovedNodeAt(t: Tree, root: Node, src: Path, dst: Path, p: Path)
    requires CanMove(t, src, dst) && !(src <= p) && !(dst <= p) && Find(t, p).Some?
    requires Sound(Move(t, src, dst).tree) && Find(Move(t, src, dst).tree, p) == Find(t, p)
    ensures NodeAt(Move(t, src, dst).tree, root, p) == NodeAt(t, root, p)
    decreases |p|
  {
    if p != [] {
      var u := Move(t, src, dst).tree;
      MoveSlots(t, src, dst);
      FoundThroughSlot(t, p);
      FoundHasLayer(t, p);
      assert Front(p) <= p;
      MoveLeavesOthers(t, src, dst, Front(p));
      UnmovedNodeAt(t, root, src, dst, Front(p));
    }
  }

  /** The node `move` answers, the old one with the new path, is the node found there. */
  lemma {:induction false} MovedNodeAt(t: Tree, root: Node, src: Path, dst: Path)
    requires CanMove(t, src, dst) && IsAbsolute(t, root)
    ensures Sound(Move(t, src, dst).tree) && Find(Move(t, src, dst).tree, dst).Some?
    ensures !NodeAt(t, root, src).Root? && NodeAt(Move(t, src, dst).tree, root, dst) == NodeAt(t, root, src).(path := dst)
  {
    var u := Move(t, src, dst).tree;
    MoveSlots(t, src, dst);
    MoveKeepsSound(t, src, dst);
    MoveRelocates(t, src, dst, []);
    assert dst + [] == dst && src + [] == src;
    MoveLeavesOthers(t, src, dst, Front(dst));
    UnmovedNodeAt(t, root, src, dst, Front(dst));
    SameRootIffSamePath(t, root, src, Front(dst));
    NodeAtIsNode(t, root, Front(dst));
    MovedIs(t, u, root, src, dst, Find(t, src).value, NodeAt(t, root, Front(src)), NodeAt(t, root, Front(dst)));
  }

  lemma {:induction false} MovedIsNode(t: Tree, root: Node, src: Path, dst: Path)
    requires CanMove(t, src, dst) && IsAbsolute(t, root)
    ensures !NodeAt(t, root, src).Root? && IsNode(Move(t, src, dst).tree, root, NodeAt(t, root, src).(path := dst))
  {
    MovedNodeAt(t, root, src, dst);
    NodeAtIsNode(Move(t, src, dst).tree, root, dst);
  }

  lemma {:induction false} MovedIs(t: Tree, u: Tree, root: Node, src: Path, dst: Path, x: Id, m: Node, n: Node)
    requires Sound(t) && Sound(u) && t.layers == u.layers && src != [] && dst != []
    requires Find(t, src) == Some(x) && Find(u, dst) == Some(x) && Find(t, Front(src)).Some? && Find(u, Front(dst)).Some?
    requires m == NodeAt(t, root, Front(src)) && n == NodeAt(u, root, Front(dst)) && GetPath(n) == Front(dst)
    requires GetPartition(NodeAt(t, root, src)) == GetRoot(n)
    ensures !NodeAt(t, root, src).Root? && NodeAt(u, root, dst) == NodeAt(t, root, src).(path := dst)
  {
    LastInit(t, root, src, x, m);
    LastInit(u, root, dst, x, n);
    assert Front(dst) + [Last(dst)] == dst;
    InitElsewhere(m, n, x.name, Last(src), Last(dst), t.layers[x], NodeAt(t, root, src), NodeAt(u, root, dst), dst);
  }

  lemma {:induction false} LastInit(t: Tree, root: Node, p: Path, x: Id, parent: Node)
    requires Sound(t) && p != [] && Find(t, p) == Some(x) && Find(t, Front(p)).Some? && parent == NodeAt(t, root, Front(p))
    ensures x in t.layers && NodeAt(t, root, p) == InitNode(parent, x.name, Last(p), t.layers[x])
  {
    FoundHasLayer(t, p);
  }

  lemma {:induction false} InitElsewhere(m: Node, n: Node, name: Name, x: Part, y: Part, layer: Bytes, before: Node, after: Node, dst: Path)
    requires before == InitNode(m, name, x, layer) && after == InitNode(n, name, y, layer)
    requires GetPartition(before) == GetRoot(n) && GetPath(n) + [y] == dst
    ensures !before.Root? && after == before.(path := dst)
  {
  }

  /** Were the two entries written without the partition check, the node would be lost exactly
      when the check fails: `find` meets its name at the new place and no layer for it. */
  lemma {:induction false} WithoutTheCheckTheNodeIsLost(store: Store, t: Tree, root: Node, src: Path, dst: Path)
    requires Well(store, t) && IsAbsolute(t, root) && Eligible(t, src, dst)
    ensures FindFrom(MovedStore(store, t, src, dst), root, dst).MissingNodeLayer?
      <==> PartitionOf(t, src) != RootOf(t, Front(dst))
  {
    EligibleSlots(t, src, dst);
    var after, u, front := MovedStore(store, t, src, dst), Shifted(t, src, dst), Front(dst);
    MovedStoreRefines(store, t, src, dst);
    MoveWithoutTheCheck(t, src, dst);
    ParentStays(after, t, root, src, dst);
    ShiftArrives(t, src, dst);
    NodeAtIs(t, root, front);
    LastStep(after, t, root, src, dst);
  }

  lemma {:induction false} ParentStays(after: Store, t: Tree, root: Node, src: Path, dst: Path)
    requires Named(t) && IsAbsolute(t, root) && Eligible(t, src, dst) && Refines(after, Shifted(t, src, dst))
    ensures FindFrom(after, root, Front(dst)) == Found(NodeAt(t, root, Front(dst)))
  {
    EligibleSlots(t, src, dst);
    var front := Front(dst);
    assert [] + front == front;
    PathAvoids(t, Shifted(t, src, dst), src, dst, [], front);
    ReadableElsewhere(after, t, Shifted(t, src, dst), [], front);
    assert Find(t, []) == Some(Origin(t)) && NodeAt(t, root, []) == root;
    FindWalks(after, t, root, [], front);
  }

  lemma {:induction false} LastStep(after: Store, t: Tree, root: Node, src: Path, dst: Path)
    requires Named(t) && IsAbsolute(t, root) && Eligible(t, src, dst) && Refines(after, Shifted(t, src, dst))
    requires FindFrom(after, root, Front(dst)) == Found(NodeAt(t, root, Front(dst)))
    ensures var arrived := Id(Inside(t, Find(t, Front(dst)).value), Find(t, src).value.name);
      FindFrom(after, root, dst).MissingNodeLayer? <==> arrived !in t.layers
  {
    EligibleSlots(t, src, dst);
    var u, s := Shifted(t, src, dst), SlotOf(t, dst);
    var arrived := Id(Inside(t, s.parent), Find(t, src).value.name);
    SameLayers(t, u);
    FoundHasLayer(t, Front(dst));
    InsideIsSpace(t, s.parent);
    assert EntryAgrees(after, u, s) && u.children[s] == arrived;
    assert LayerAgrees(after, u, arrived);
    NodeAtIs(t, root, Front(dst));
    StepTo(after, NodeAt(t, root, Front(dst)), Last(dst), arrived.name);
    FindConcat(after, root, Front(dst), [Last(dst)]);
  }

  /** One step of `find`, to a name that is entered. */
  lemma {:induction false} StepTo(store: Store, parent: Node, part: Part, name: Name)
    requires NodeEntryId(parent, part) in store && store[NodeEntryId(parent, part)] == name
    ensures FindFrom(store, parent, [part]).MissingNodeLayer? <==> NodeLayerId(parent, name) !in store
  {
    assert [part][0] == part && [part][1..] == [];
  }
}
