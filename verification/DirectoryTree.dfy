/** The tree the directory layer stands for: what `find`, `create`, `move` and `remove` mean
    before any byte is written. */
module DirectoryTree {
  import opened Options
  import opened ByteStrings

  type Name = Bytes
  type Part = Bytes
  type Path = seq<Part>

  /** A node by its name and by the node prefix it is stored behind: that of the root, or of
      the partition, it lives in. */
  datatype Id = Id(home: Bytes, name: Name)

  /** The place of a child under its parent. */
  datatype Slot = Slot(parent: Id, part: Part)

  /** `root` is the node prefix of the absolute root, which is also its name. */
  datatype Tree = Tree(root: Bytes, children: map<Slot, Id>, layers: map<Id, Bytes>)

  /** `init_node` takes a node with this layer for a partition. */
  const PARTITION: Bytes := [0x70, 0x61, 0x72, 0x74, 0x69, 0x74, 0x69, 0x6F, 0x6E]

  function Origin(t: Tree): Id {
    Id(t.root, t.root)
  }

  /** The node prefix of the partition of this name. */
  function Space(name: Name): Bytes {
    name + [0xFE]
  }

  predicate IsPartition(t: Tree, n: Id) {
    n in t.layers && t.layers[n] == PARTITION
  }

  /** The node prefix behind which the children of a node are stored. */
  function Inside(t: Tree, n: Id): Bytes {
    if IsPartition(t, n) then Space(n.name) else n.home
  }

  function Walk(t: Tree, at: Id, path: Path): Option<Id>
    decreases |path|
  {
    if path == [] then Some(at)
    else if Slot(at, path[0]) !in t.children then None
    else Walk(t, t.children[Slot(at, path[0])], path[1..])
  }

  function Find(t: Tree, path: Path): Option<Id> {
    Walk(t, Origin(t), path)
  }

  ghost predicate Placed(t: Tree, n: Id) {
    exists p :: Find(t, p) == Some(n)
  }

  /** One entry to a node, none to the root, no node without a layer, no entry out of reach, and
      every node stored where its parent has its children. A layer out of reach is that of a
      partition: `remove` leaves some behind. */
  ghost predicate Sound(t: Tree) {
    && Shaped(t)
    && (forall s {:trigger Placed(t, s.parent)} :: s in t.children ==> Placed(t, s.parent))
    && forall n {:trigger Placed(t, n)} :: n in t.layers ==> Placed(t, n) || IsPartition(t, n)
  }

  ghost predicate Shaped(t: Tree) {
    && Origin(t) !in t.layers
    && (forall s :: s in t.children ==> t.children[s] in t.layers)
    && (forall s :: s in t.children ==> s.parent == Origin(t) || s.parent in t.layers)
    && (forall s, u :: s in t.children && u in t.children && t.children[s] == t.children[u] ==> s == u)
    && (forall s :: s in t.children ==> t.children[s].home == Inside(t, s.parent))
  }

  // ---------------------------------------------------------------- walks

  lemma {:induction false} WalkConcat(t: Tree, n: Id, p: Path, q: Path)
    ensures Walk(t, n, p + q) == if Walk(t, n, p).None? then None else Walk(t, Walk(t, n, p).value, q)
    decreases |p|
  {
    if p == [] {
      assert p + q == q;
    } else {
      assert (p + q)[0] == p[0] && (p + q)[1..] == p[1..] + q;
      if Slot(n, p[0]) in t.children {
        WalkConcat(t, t.children[Slot(n, p[0])], p[1..], q);
      }
    }
  }

  lemma {:induction false} WalkOne(t: Tree, n: Id, part: Part)
    ensures Walk(t, n, [part]) == if Slot(n, part) in t.children then Some(t.children[Slot(n, part)]) else None
  {
    assert [part][1..] == [];
  }

  /** The last step of a walk. */
  lemma {:induction false} WalkLast(t: Tree, n: Id, p: Path)
    requires p != []
    ensures var k := |p| - 1; var m := Walk(t, n, p[..k]);
      Walk(t, n, p) == if m.Some? && Slot(m.value, p[k]) in t.children then Some(t.children[Slot(m.value, p[k])]) else None
  {
    var k := |p| - 1;
    assert p == p[..k] + [p[k]];
    WalkConcat(t, n, p[..k], [p[k]]);
    if Walk(t, n, p[..k]).Some? {
      WalkOne(t, Walk(t, n, p[..k]).value, p[k]);
    }
  }

  /** Every beginning of an existing path exists. */
  lemma {:induction false} PrefixesExist(t: Tree, n: Id, p: Path, i: nat)
    requires Walk(t, n, p).Some? && i <= |p|
    ensures Walk(t, n, p[..i]).Some?
  {
    assert p == p[..i] + p[i..];
    WalkConcat(t, n, p[..i], p[i..]);
  }

  lemma {:induction false} BeginningExists(t: Tree, p: Path, q: Path)
    requires p <= q && Find(t, q).Some?
    ensures Find(t, p).Some?
  {
    assert q[..|p|] == p;
    PrefixesExist(t, Origin(t), q, |p|);
  }

  /** A node other than the root has a layer. */
  lemma {:induction false} FoundHasLayer(t: Tree, p: Path)
    requires Sound(t) && Find(t, p).Some?
    ensures p == [] <==> Find(t, p).value == Origin(t)
    ensures p != [] ==> Find(t, p).value in t.layers
  {
    if p != [] {
      WalkLast(t, Origin(t), p);
    }
  }

  /** No node has two paths. */
  lemma {:induction false} UniquePath(t: Tree, p: Path, q: Path)
    requires Sound(t) && Find(t, p).Some? && Find(t, p) == Find(t, q)
    ensures p == q
    decreases |p|
  {
    FoundHasLayer(t, p);
    FoundHasLayer(t, q);
    if p != [] {
      var i, j := |p| - 1, |q| - 1;
      WalkLast(t, Origin(t), p);
      WalkLast(t, Origin(t), q);
      UniquePath(t, p[..i], q[..j]);
      assert p == p[..i] + [p[i]] && q == q[..j] + [q[j]];
    }
  }

  predicate SameSlot(t: Tree, u: Tree, s: Slot) {
    (s in t.children <==> s in u.children) && (s in t.children ==> t.children[s] == u.children[s])
  }

  /** The slot a walk uses at its `i`-th step. */
  predicate SameStep(t: Tree, u: Tree, n: Id, p: Path, i: nat)
    requires i < |p|
  {
    Walk(t, n, p[..i]).Some? ==> SameSlot(t, u, Slot(Walk(t, n, p[..i]).value, p[i]))
  }

  /** A walk that uses only slots on which two trees agree goes the same way in both. */
  lemma {:induction false} WalkAgrees(t: Tree, u: Tree, n: Id, p: Path)
    requires forall i :: 0 <= i < |p| ==> SameStep(t, u, n, p, i)
    ensures Walk(t, n, p) == Walk(u, n, p)
    decreases |p|
  {
    if p != [] {
      assert SameStep(t, u, n, p, 0);
      assert p[..0] == [];
      if Slot(n, p[0]) in t.children {
        var c := t.children[Slot(n, p[0])];
        forall i | 0 <= i < |p| - 1 ensures SameStep(t, u, c, p[1..], i) {
          assert SameStep(t, u, n, p, i + 1);
          assert p[..i + 1] == [p[0]] + p[1..][..i];
          WalkConcat(t, n, [p[0]], p[1..][..i]);
          WalkOne(t, n, p[0]);
        }
        WalkAgrees(t, u, c, p[1..]);
      }
    }
  }

  /** A path from the root that uses a slot goes through that slot's own path. */
  lemma {:induction false} UsesSlot(t: Tree, p: Path, i: nat, parent: Path)
    requires Sound(t) && i < |p| && Find(t, p[..i]).Some? && Find(t, p[..i]) == Find(t, parent)
    ensures parent + [p[i]] <= p
  {
    UniquePath(t, p[..i], parent);
    assert p[..i + 1] == parent + [p[i]];
  }

  // ---------------------------------------------------------------- create

  /** `create_node`. */
  function WithNode(t: Tree, parent: Id, part: Part, name: Name, layer: Bytes): Tree {
    var n := Id(Inside(t, parent), name);
    t.(children := t.children[Slot(parent, part) := n], layers := t.layers[n := layer])
  }

  /** The node a creation below `parent` would make is not there yet. */
  predicate CanCreate(t: Tree, parent: Path, part: Part, name: Name) {
    && Find(t, parent).Some? && Find(t, parent + [part]).None?
    && var n := Id(Inside(t, Find(t, parent).value), name); n != Origin(t) && n !in t.layers
  }

  /** The paths of the nodes are those there were, and one more. */
  lemma {:induction false} CreateAddsOnePath(t: Tree, parent: Path, part: Part, name: Name, layer: Bytes, p: Path)
    requires Sound(t) && CanCreate(t, parent, part, name)
    ensures Find(WithNode(t, Find(t, parent).value, part, name, layer), p) ==
      if p == parent + [part] then Some(Id(Inside(t, Find(t, parent).value), name)) else Find(t, p)
  {
    var at := Find(t, parent).value;
    var n, u := Id(Inside(t, at), name), WithNode(t, at, part, name, layer);
    var path := parent + [part];
    if path <= p {
      CreatedPath(t, parent, part, name, layer);
      assert p == path + p[|path|..];
      WalkConcat(u, Origin(u), path, p[|path|..]);
      WalkConcat(t, Origin(t), path, p[|path|..]);
      if p != path {
        assert Slot(n, p[|path|]) !in t.children;
        assert Slot(n, p[|path|]) != Slot(at, part) by { FoundHasLayer(t, parent); }
        assert Walk(u, n, p[|path|..]).None?;
      } else {
        assert p[|path|..] == [];
      }
    } else {
      AwayFromSlot(t, u, parent, part, p);
    }
  }

  lemma {:induction false} AwayFromSlot(t: Tree, u: Tree, parent: Path, part: Part, p: Path)
    requires Sound(t) && Find(t, parent).Some? && !(parent + [part] <= p) && u.root == t.root
    requires forall s :: s != Slot(Find(t, parent).value, part) ==> SameSlot(t, u, s)
    ensures Find(u, p) == Find(t, p)
  {
    forall i | 0 <= i < |p| ensures SameStep(t, u, Origin(t), p, i) {
      if Find(t, p[..i]).Some? && Slot(Find(t, p[..i]).value, p[i]) == Slot(Find(t, parent).value, part) {
        UsesSlot(t, p, i, parent);
      }
    }
    WalkAgrees(t, u, Origin(t), p);
  }

  lemma {:induction false} CreatedPath(t: Tree, parent: Path, part: Part, name: Name, layer: Bytes)
    requires Sound(t) && Find(t, parent).Some?
    ensures Find(WithNode(t, Find(t, parent).value, part, name, layer), parent + [part])
      == Some(Id(Inside(t, Find(t, parent).value), name))
  {
    var u := WithNode(t, Find(t, parent).value, part, name, layer);
    assert !(parent + [part] <= parent);
    AwayFromSlot(t, u, parent, part, parent);
    WalkConcat(u, Origin(u), parent, [part]);
    WalkOne(u, Find(t, parent).value, part);
  }

  lemma {:induction false} CreateKeepsSound(t: Tree, parent: Path, part: Part, name: Name, layer: Bytes)
    requires Sound(t) && CanCreate(t, parent, part, name)
    ensures var u, made := WithNode(t, Find(t, parent).value, part, name, layer), Id(Inside(t, Find(t, parent).value), name);
      Sound(u) && forall n :: Placed(u, n) <==> n == made || Placed(t, n)
  {
    var at := Find(t, parent).value;
    var made, u := Id(Inside(t, at), name), WithNode(t, at, part, name, layer);
    FoundHasLayer(t, parent);
    CreateKeepsShape(t, at, part, name, layer);
    CreatedPath(t, parent, part, name, layer);
    forall n ensures Placed(u, n) <==> n == made || Placed(t, n) {
      if Placed(t, n) {
        var p :| Find(t, p) == Some(n);
        CreateAddsOnePath(t, parent, part, name, layer, p);
        assert Find(u, p) == Some(n);
      }
      if Placed(u, n) {
        var p :| Find(u, p) == Some(n);
        CreateAddsOnePath(t, parent, part, name, layer, p);
      }
    }
    assert Placed(t, at);
  }

  lemma {:induction false} CreateKeepsShape(t: Tree, at: Id, part: Part, name: Name, layer: Bytes)
    requires Shaped(t) && (at == Origin(t) || at in t.layers)
    requires Id(Inside(t, at), name) != Origin(t) && Id(Inside(t, at), name) !in t.layers
    ensures Shaped(WithNode(t, at, part, name, layer))
  {
  }

  function Repeated(part: Part, k: nat): Path {
    if k == 0 then [] else [part] + Repeated(part, k - 1)
  }

  /** A node that is its own child is found for ever. */
  lemma {:induction false} OwnChildIsACircle(t: Tree, n: Id, part: Part, k: nat)
    requires Slot(n, part) in t.children && t.children[Slot(n, part)] == n
    ensures Walk(t, n, Repeated(part, k)) == Some(n) && |Repeated(part, k)| == k
  {
    if k > 0 {
      OwnChildIsACircle(t, n, part, k - 1);
      assert Repeated(part, k)[1..] == Repeated(part, k - 1);
    }
  }

  /** Were a child given the root's own name, the tree would be a circle: `list` and
      `remove_recursive` would come back to the root for ever. */
  lemma {:induction false} RootAsChildIsACircle(t: Tree, part: Part, layer: Bytes, k: nat)
    requires layer != PARTITION && Origin(t) !in t.layers
    ensures Find(WithNode(t, Origin(t), part, t.root, layer), Repeated(part, k)) == Some(Origin(t))
    ensures |Repeated(part, k)| == k
  {
    OwnChildIsACircle(WithNode(t, Origin(t), part, t.root, layer), Origin(t), part, k);
  }

  // ---------------------------------------------------------------- move

  datatype MoveResult =
    | Moved(tree: Tree)
    | TargetIsSubdirectory
    | MissingSource
    | TargetExists
    | MissingParentNode
    | PartitionMismatch

  function Front(p: Path): Path
    requires p != []
  {
    p[..|p| - 1]
  }

  function Last(p: Path): Part
    requires p != []
  {
    p[|p| - 1]
  }

  /** The slot a path ends in. */
  function SlotOf(t: Tree, p: Path): Slot
    requires p != [] && Find(t, Front(p)).Some?
  {
    Slot(Find(t, Front(p)).value, Last(p))
  }

  lemma {:induction false} FoundThroughSlot(t: Tree, p: Path)
    requires p != []
    ensures Find(t, p).Some? ==> Find(t, Front(p)).Some? && SlotOf(t, p) in t.children
    ensures Find(t, Front(p)).Some? ==>
      Find(t, p) == if SlotOf(t, p) in t.children then Some(t.children[SlotOf(t, p)]) else None
  {
    WalkLast(t, Origin(t), p);
  }

  /** The path of the root a node goes by, `get_root`: the nearest partition at or above it, or
      the absolute root. */
  function RootOf(t: Tree, p: Path): Path
    decreases |p|
  {
    if p == [] then []
    else if Find(t, p).Some? && IsPartition(t, Find(t, p).value) then p
    else RootOf(t, Front(p))
  }

  /** The path of the root a node is stored behind, `get_partition`. */
  function PartitionOf(t: Tree, p: Path): Path
    requires p != []
  {
    RootOf(t, Front(p))
  }

  /** `move`, its checks in the order of the code. */
  function Move(t: Tree, src: Path, dst: Path): MoveResult {
    if src <= dst then TargetIsSubdirectory
    else if Find(t, src).None? then MissingSource
    else if Find(t, dst).Some? then TargetExists
    else
      assert dst != [];
      if Find(t, Front(dst)).None? then MissingParentNode
      else if PartitionOf(t, src) != RootOf(t, Front(dst)) then PartitionMismatch
      else
        assert src != [] && Find(t, Front(src)).Some? by { FoundThroughSlot(t, src); }
        Moved(Relocated(t, SlotOf(t, src), SlotOf(t, dst), Find(t, src).value.name))
  }

  /** The name goes into the new entry, where it stands for a node of the new parent's; the
      layer stays where it was. */
  function Relocated(t: Tree, from: Slot, to: Slot, name: Name): Tree {
    t.(children := t.children[to := Id(Inside(t, to.parent), name)] - {from})
  }

  /** Nodes that go by the same root have their children behind the same node prefix. */
  lemma {:induction false} InsideOfRoot(t: Tree, p: Path)
    requires Sound(t) && Find(t, p).Some?
    ensures Find(t, RootOf(t, p)).Some? && Inside(t, Find(t, RootOf(t, p)).value) == Inside(t, Find(t, p).value)
    ensures RootOf(t, p) == [] || IsPartition(t, Find(t, RootOf(t, p)).value)
    decreases |p|
  {
    if p != [] && !IsPartition(t, Find(t, p).value) {
      FoundThroughSlot(t, p);
      InsideOfRoot(t, Front(p));
    }
  }

  /** What the checks before the last one leave. */
  ghost predicate Eligible(t: Tree, src: Path, dst: Path) {
    Sound(t) && !(src <= dst) && Find(t, src).Some? && Find(t, dst).None? && dst != [] && Find(t, Front(dst)).Some?
  }

  ghost predicate CanMove(t: Tree, src: Path, dst: Path) {
    Eligible(t, src, dst) && PartitionOf(t, src) == RootOf(t, Front(dst))
  }

  lemma {:induction false} EligibleSlots(t: Tree, src: Path, dst: Path)
    requires Eligible(t, src, dst)
    ensures src != [] && Find(t, Front(src)).Some?
    ensures SlotOf(t, src) in t.children && SlotOf(t, dst) !in t.children
    ensures t.children[SlotOf(t, src)] == Find(t, src).value
    ensures Front(src) + [Last(src)] == src && Front(dst) + [Last(dst)] == dst
    ensures !(dst <= src) && !(src <= Front(dst)) && !(dst <= Front(dst)) && !(src <= Front(src)) && !(dst <= Front(src))
  {
    FoundThroughSlot(t, src);
    FoundThroughSlot(t, dst);
    assert Front(src) <= src && Front(dst) <= dst;
    if dst <= src {
      BeginningExists(t, dst, src);
    }
  }

  /** The tree after the two writes of `move`, whatever the partition check says. */
  ghost function Shifted(t: Tree, src: Path, dst: Path): Tree
    requires Eligible(t, src, dst)
  {
    EligibleSlots(t, src, dst);
    Relocated(t, SlotOf(t, src), SlotOf(t, dst), Find(t, src).value.name)
  }

  lemma {:induction false} MoveSlots(t: Tree, src: Path, dst: Path)
    requires CanMove(t, src, dst)
    ensures src != [] && Find(t, Front(src)).Some?
    ensures SlotOf(t, src) in t.children && SlotOf(t, dst) !in t.children
    ensures t.children[SlotOf(t, src)] == Find(t, src).value
    ensures Front(src) + [Last(src)] == src && Front(dst) + [Last(dst)] == dst
    ensures !(dst <= src) && !(src <= Front(dst)) && !(dst <= Front(dst)) && !(src <= Front(src)) && !(dst <= Front(src))
    ensures Id(Inside(t, SlotOf(t, dst).parent), Find(t, src).value.name) == Find(t, src).value
    ensures Move(t, src, dst) == Moved(Shifted(t, src, dst))
  {
    EligibleSlots(t, src, dst);
    FoundThroughSlot(t, src);
    InsideOfRoot(t, Front(src));
    InsideOfRoot(t, Front(dst));
  }

  lemma {:induction false} ShiftLeavesOthers(t: Tree, src: Path, dst: Path, p: Path)
    requires Eligible(t, src, dst) && !(src <= p) && !(dst <= p)
    ensures Find(Shifted(t, src, dst), p) == Find(t, p)
  {
    EligibleSlots(t, src, dst);
    var u := Shifted(t, src, dst);
    forall i | 0 <= i < |p| ensures SameStep(t, u, Origin(t), p, i) {
      if Find(t, p[..i]).Some? {
        var s := Slot(Find(t, p[..i]).value, p[i]);
        if s == SlotOf(t, src) {
          UsesSlot(t, p, i, Front(src));
        } else if s == SlotOf(t, dst) {
          UsesSlot(t, p, i, Front(dst));
        }
      }
    }
    WalkAgrees(t, u, Origin(t), p);
  }

  /** What is found at the new place is whatever the moved name stands for there. */
  lemma {:induction false} ShiftArrives(t: Tree, src: Path, dst: Path)
    requires Eligible(t, src, dst)
    ensures Find(Shifted(t, src, dst), dst) == Some(Id(Inside(t, Find(t, Front(dst)).value), Find(t, src).value.name))
  {
    EligibleSlots(t, src, dst);
    var u := Shifted(t, src, dst);
    ShiftLeavesOthers(t, src, dst, Front(dst));
    FoundThroughSlot(u, dst);
  }

  /** Paths that pass through neither place are as before. */
  lemma {:induction false} MoveLeavesOthers(t: Tree, src: Path, dst: Path, p: Path)
    requires CanMove(t, src, dst) && !(src <= p) && !(dst <= p)
    ensures Find(Move(t, src, dst).tree, p) == Find(t, p)
    ensures RootOf(Move(t, src, dst).tree, p) == RootOf(t, p)
    decreases |p|
  {
    MoveSlots(t, src, dst);
    ShiftLeavesOthers(t, src, dst, p);
    if p != [] {
      assert Front(p) <= p;
      MoveLeavesOthers(t, src, dst, Front(p));
    }
  }

  /** Inside the subtree nothing changes. */
  lemma {:induction false} MoveKeepsSubtree(t: Tree, src: Path, dst: Path, q: Path)
    requires CanMove(t, src, dst)
    ensures Walk(Move(t, src, dst).tree, Find(t, src).value, q) == Walk(t, Find(t, src).value, q)
  {
    MoveSlots(t, src, dst);
    var u, x := Move(t, src, dst).tree, Find(t, src).value;
    forall i | 0 <= i < |q| ensures SameStep(t, u, x, q, i) {
      WalkConcat(t, Origin(t), src, q[..i]);
      if Walk(t, x, q[..i]).Some? {
        var s := Slot(Walk(t, x, q[..i]).value, q[i]);
        if s == SlotOf(t, src) {
          UniquePath(t, src + q[..i], Front(src));
        } else if s == SlotOf(t, dst) {
          UniquePath(t, src + q[..i], Front(dst));
        }
      }
    }
    WalkAgrees(t, u, x, q);
  }

  /** `move` is a relocation: whatever was found behind the old path is found, the same node
      with the same layer, behind the new one, and nothing behind the old one. */
  lemma {:induction false} MoveRelocates(t: Tree, src: Path, dst: Path, q: Path)
    requires CanMove(t, src, dst)
    ensures var u := Move(t, src, dst).tree;
      && Find(u, dst + q) == Find(t, src + q)
      && Find(u, src + q) == None
      && u.layers == t.layers
  {
    MoveSlots(t, src, dst);
    var u := Move(t, src, dst).tree;
    ShiftArrives(t, src, dst);
    WalkConcat(u, Origin(u), dst, q);
    WalkConcat(t, Origin(t), src, q);
    MoveKeepsSubtree(t, src, dst, q);
    MoveLeavesOthers(t, src, dst, Front(src));
    FoundThroughSlot(u, src);
    WalkConcat(u, Origin(u), src, q);
  }

  /** The roots nodes go by move along: a partition takes its whole inner tree with it, and
      what went by a root outside the subtree goes by it still. */
  lemma {:induction false} MoveTakesRootsAlong(t: Tree, src: Path, dst: Path, q: Path)
    requires CanMove(t, src, dst) && Find(t, src + q).Some?
    ensures var before, after := RootOf(t, src + q), RootOf(Move(t, src, dst).tree, dst + q);
      if src <= before then after == dst + before[|src|..] else after == before == PartitionOf(t, src)
    decreases |q|
  {
    var u := Move(t, src, dst).tree;
    MoveRelocates(t, src, dst, q);
    if q == [] {
      assert src + q == src && dst + q == dst;
      MovedRoot(t, src, dst, u);
    } else {
      FrontOfJoin(src, q);
      FrontOfJoin(dst, q);
      FoundThroughSlot(t, src + q);
      MoveTakesRootsAlong(t, src, dst, Front(q));
      RootStep(t, u, src + q, dst + q);
      JoinedRoots(src, dst, q);
    }
  }

  lemma {:induction false} MovedRoot(t: Tree, src: Path, dst: Path, u: Tree)
    requires CanMove(t, src, dst) && u == Move(t, src, dst).tree && Find(u, dst) == Find(t, src) && u.layers == t.layers
    ensures if src <= RootOf(t, src) then RootOf(t, src) == src && RootOf(u, dst) == dst
            else RootOf(u, dst) == RootOf(t, src) == PartitionOf(t, src)
  {
    MoveSlots(t, src, dst);
    MoveLeavesOthers(t, src, dst, Front(dst));
    RootIsAbove(t, Front(src));
    RootStep(t, u, src, dst);
  }

  /** A node found is its own root if it is a partition, and goes by that of its parent otherwise. */
  lemma {:induction false} RootStep(t: Tree, u: Tree, p: Path, q: Path)
    requires p != [] && q != [] && Find(t, p).Some? && Find(u, q) == Find(t, p) && u.layers == t.layers
    ensures if IsPartition(t, Find(t, p).value) then RootOf(t, p) == p && RootOf(u, q) == q
            else RootOf(t, p) == RootOf(t, Front(p)) && RootOf(u, q) == RootOf(u, Front(q))
  {
  }

  lemma {:induction false} JoinedRoots(src: Path, dst: Path, q: Path)
    ensures src <= src + q && dst + (src + q)[|src|..] == dst + q
  {
    assert (src + q)[|src|..] == q;
  }

  lemma {:induction false} FrontOfJoin(p: Path, q: Path)
    requires q != []
    ensures Front(p + q) == p + Front(q)
  {
  }

  lemma {:induction false} RootIsAbove(t: Tree, p: Path)
    ensures RootOf(t, p) <= p && RootOf(t, RootOf(t, p)) == RootOf(t, p)
    decreases |p|
  {
    if p != [] {
      RootIsAbove(t, Front(p));
      assert Front(p) <= p;
    }
  }

  /** The tree stays a tree, and no node gets out of reach. */
  lemma {:induction false} MoveKeepsSound(t: Tree, src: Path, dst: Path)
    requires CanMove(t, src, dst)
    ensures var u := Move(t, src, dst).tree; Sound(u) && forall n :: Placed(u, n) <==> Placed(t, n)
  {
    MoveSlots(t, src, dst);
    FoundHasLayer(t, Front(dst));
    MoveKeepsShape(t, SlotOf(t, src), SlotOf(t, dst));
    var u := Move(t, src, dst).tree;
    forall n ensures Placed(u, n) <==> Placed(t, n) {
      MoveKeepsPlaced(t, src, dst, n);
    }
    assert Placed(t, SlotOf(t, dst).parent);
  }

  lemma {:induction false} MoveKeepsPlaced(t: Tree, src: Path, dst: Path, n: Id)
    requires CanMove(t, src, dst)
    ensures Placed(Move(t, src, dst).tree, n) <==> Placed(t, n)
  {
    var u := Move(t, src, dst).tree;
    if Placed(t, n) {
      var p :| Find(t, p) == Some(n);
      if src <= p {
        assert p == src + p[|src|..];
        MoveRelocates(t, src, dst, p[|src|..]);
        assert Find(u, dst + p[|src|..]) == Some(n);
      } else {
        if dst <= p {
          BeginningExists(t, dst, p);
        }
        MoveLeavesOthers(t, src, dst, p);
        assert Find(u, p) == Some(n);
      }
    }
    if Placed(u, n) {
      var p :| Find(u, p) == Some(n);
      if src <= p {
        assert p == src + p[|src|..];
        MoveRelocates(t, src, dst, p[|src|..]);
      } else if dst <= p {
        assert p == dst + p[|dst|..];
        MoveRelocates(t, src, dst, p[|dst|..]);
      } else {
        MoveLeavesOthers(t, src, dst, p);
      }
    }
  }

  lemma {:induction false} MoveKeepsShape(t: Tree, from: Slot, to: Slot)
    requires Shaped(t) && from in t.children && to !in t.children
    requires (to.parent == Origin(t) || to.parent in t.layers) && t.children[from].home == Inside(t, to.parent)
    ensures Shaped(Relocated(t, from, to, t.children[from].name))
  {
    var u := Relocated(t, from, to, t.children[from].name);
    assert u.children[to] == t.children[from];
    forall s | s in u.children && s != to ensures s in t.children && u.children[s] == t.children[s] && s != from {
    }
  }

  /** A move is undone by moving back. */
  lemma {:induction false} MoveBack(t: Tree, src: Path, dst: Path)
    requires CanMove(t, src, dst)
    ensures Move(Move(t, src, dst).tree, dst, src) == Moved(t)
  {
    MoveSlots(t, src, dst);
    var u := Move(t, src, dst).tree;
    MoveRelocates(t, src, dst, []);
    assert dst + [] == dst && src + [] == src;
    MoveLeavesOthers(t, src, dst, Front(src));
    MoveLeavesOthers(t, src, dst, Front(dst));
    assert SlotOf(u, src) == SlotOf(t, src) && SlotOf(u, dst) == SlotOf(t, dst);
    BackInPlace(t, SlotOf(t, src), SlotOf(t, dst));
  }

  lemma {:induction false} BackInPlace(t: Tree, from: Slot, to: Slot)
    requires Shaped(t) && from in t.children && to !in t.children
    ensures Relocated(Relocated(t, from, to, t.children[from].name), to, from, t.children[from].name) == t
  {
    var u := Relocated(t, from, to, t.children[from].name);
    assert Relocated(u, to, from, t.children[from].name).children == t.children;
  }

  // ---------------------------------------------------------------- remove

  ghost predicate IsBelow(t: Tree, n: Id, c: Id) {
    exists q :: Walk(t, n, q) == Some(c)
  }

  /** The nodes of the subtree at `n`. */
  ghost function Below(t: Tree, n: Id): set<Id> {
    set c | c in t.layers && IsBelow(t, n, c)
  }

  /** What the clears on behalf of some nodes take: a directory with its layer, and of a partition
      all that is stored behind its own node prefix. The layer of the partition itself is stored
      behind another. */
  predicate Taken(t: Tree, gone: set<Id>, n: Id) {
    (n in gone && !IsPartition(t, n)) || exists p :: p in gone && Holds(t, p, n)
  }

  predicate Holds(t: Tree, p: Id, n: Id) {
    IsPartition(t, p) && n.home == Space(p.name)
  }

  /** A node prefix tells its root or partition. */
  ghost predicate SpacesTell(t: Tree) {
    forall p :: IsPartition(t, p) ==> Space(p.name) != t.root && forall q :: IsPartition(t, q) && q.name == p.name ==> q == p
  }

  /** Nodes taken out, with the entries under them. */
  function Without(t: Tree, gone: set<Id>): Tree {
    t.(children := map s | s in t.children && s.parent !in gone :: t.children[s],
       layers := map n | n in t.layers && !Taken(t, gone, n) :: t.layers[n])
  }

  /** `remove_recursive` and `remove_from_parent`. */
  ghost function Remove(t: Tree, path: Path): Tree
    requires path != [] && Find(t, path).Some?
  {
    FoundThroughSlot(t, path);
    var u := Without(t, Below(t, Find(t, path).value));
    u.(children := u.children - {SlotOf(t, path)})
  }

  /** The subtree at a path is what is found behind it. */
  lemma {:induction false} BelowIsBehind(t: Tree, path: Path, p: Path)
    requires Sound(t) && path != [] && Find(t, path).Some? && Find(t, p).Some?
    ensures Find(t, p).value in Below(t, Find(t, path).value) <==> path <= p
  {
    var n, c := Find(t, path).value, Find(t, p).value;
    if path <= p {
      var q := p[|path|..];
      assert p == path + q;
      WalkConcat(t, Origin(t), path, q);
      FoundHasLayer(t, p);
      assert Walk(t, n, q) == Some(c);
    } else if c in Below(t, n) {
      var q :| Walk(t, n, q) == Some(c);
      WalkConcat(t, Origin(t), path, q);
      UniquePath(t, path + q, p);
    }
  }

  lemma {:induction false} RemoveSlots(t: Tree, path: Path, p: Path, i: nat)
    requires Sound(t) && path != [] && Find(t, path).Some? && !(path <= p) && i < |p|
    ensures SameStep(t, Remove(t, path), Origin(t), p, i)
  {
    FoundThroughSlot(t, path);
    if Find(t, p[..i]).Some? {
      assert Front(path) + [Last(path)] == path;
      if Slot(Find(t, p[..i]).value, p[i]) == SlotOf(t, path) {
        UsesSlot(t, p, i, Front(path));
      }
      assert p[..i] <= p;
      BelowIsBehind(t, path, p[..i]);
    }
  }

  /** `remove` takes away what is found behind the path, and nothing else. */
  lemma {:induction false} RemoveClearsTheSubtree(t: Tree, path: Path, p: Path)
    requires Sound(t) && path != [] && Find(t, path).Some?
    ensures Find(Remove(t, path), p) == if path <= p then None else Find(t, p)
    decreases |p|
  {
    FoundThroughSlot(t, path);
    var u := Remove(t, path);
    if path <= p {
      assert !(path <= Front(path));
      RemoveClearsTheSubtree(t, path, Front(path));
      FoundThroughSlot(u, path);
      assert p == path + p[|path|..];
      WalkConcat(u, Origin(u), path, p[|path|..]);
    } else {
      forall i | 0 <= i < |p| ensures SameStep(t, u, Origin(t), p, i) {
        RemoveSlots(t, path, p, i);
      }
      WalkAgrees(t, u, Origin(t), p);
    }
  }

  /** The tree stays a tree, and what is still found is what was found outside the subtree. */
  lemma {:induction false} RemoveKeepsSound(t: Tree, path: Path)
    requires Sound(t) && SpacesTell(t) && path != [] && Find(t, path).Some?
    ensures Sound(Remove(t, path))
    ensures forall n :: Placed(Remove(t, path), n) <==> Placed(t, n) && n !in Below(t, Find(t, path).value)
  {
    FoundThroughSlot(t, path);
    var u, gone := Remove(t, path), Below(t, Find(t, path).value);
    FoundHasLayer(t, path);
    forall n ensures Placed(u, n) <==> Placed(t, n) && n !in gone {
      RemoveKeepsPlaced(t, path, n);
    }
    forall n | n in u.layers ensures Placed(u, n) || IsPartition(u, n) {
      assert n in gone ==> IsPartition(t, n);
    }
    forall s | s in u.children
      ensures u.children[s] in u.layers && u.children[s].home == Inside(u, s.parent)
      ensures Placed(u, s.parent) && (s.parent == Origin(u) || s.parent in u.layers)
    {
      ChildStays(t, path, s);
      PlacedStays(t, path, t.children[s]);
      if s.parent != Origin(t) {
        PlacedStays(t, path, s.parent);
      }
    }
  }

  /** What is found outside the subtree is not stored in it either. */
  lemma {:induction false} PlacedStays(t: Tree, path: Path, n: Id)
    requires Sound(t) && SpacesTell(t) && path != [] && Find(t, path).Some?
    requires Placed(t, n) && n !in Below(t, Find(t, path).value) && n != Origin(t)
    ensures n in Remove(t, path).layers
  {
    var gone := Below(t, Find(t, path).value);
    var p :| Find(t, p) == Some(n);
    FoundHasLayer(t, p);
    FoundThroughSlot(t, p);
    StoredBelow(t, p);
    BelowIsBehind(t, path, p);
    var x := PartitionOf(t, p);
    if q :| q in gone && Holds(t, q, n) {
      assert Space(q.name)[..|q.name|] == q.name;
      InsideOfRoot(t, Front(p));
      assert x != [] ==> Space(Find(t, x).value.name)[..|Find(t, x).value.name|] == Find(t, x).value.name;
      BelowIsBehind(t, path, x);
    }
  }

  lemma {:induction false} RemoveKeepsPlaced(t: Tree, path: Path, n: Id)
    requires Sound(t) && path != [] && Find(t, path).Some?
    ensures Placed(Remove(t, path), n) <==> Placed(t, n) && n !in Below(t, Find(t, path).value)
  {
    var u := Remove(t, path);
    if Placed(t, n) {
      var p :| Find(t, p) == Some(n);
      BelowIsBehind(t, path, p);
      RemoveClearsTheSubtree(t, path, p);
      assert !(path <= p) ==> Find(u, p) == Some(n);
    }
    if Placed(u, n) {
      var p :| Find(u, p) == Some(n);
      RemoveClearsTheSubtree(t, path, p);
      BelowIsBehind(t, path, p);
      assert Find(t, p) == Some(n);
    }
  }

  /** The partition a node is stored in is found above it. */
  lemma {:induction false} StoredBelow(t: Tree, p: Path)
    requires Sound(t) && p != [] && Find(t, p).Some?
    ensures Find(t, PartitionOf(t, p)).Some? && PartitionOf(t, p) <= Front(p)
    ensures var x := Find(t, PartitionOf(t, p)).value;
      Find(t, p).value.home == if PartitionOf(t, p) == [] then t.root else Space(x.name)
  {
    FoundThroughSlot(t, p);
    InsideOfRoot(t, Front(p));
    RootIsAbove(t, Front(p));
  }

  /** An entry that stays has its child and its parent stay. */
  lemma {:induction false} ChildStays(t: Tree, path: Path, s: Slot)
    requires Sound(t) && path != [] && Find(t, path).Some? && s in Remove(t, path).children
    ensures s in t.children && Placed(t, s.parent) && s.parent !in Below(t, Find(t, path).value)
    ensures t.children[s] !in Below(t, Find(t, path).value) && Placed(t, t.children[s])
  {
    FoundThroughSlot(t, path);
    var p := PlaceOf(t, s);
    BelowIsBehind(t, path, p + [s.part]);
    BelowIsBehind(t, path, p);
    FoundHasLayer(t, p);
    EndOfPath(p, s.part);
    assert path <= p + [s.part] ==> path <= p || path == p + [s.part];
  }

  /** The path of the parent of an entry. */
  lemma {:induction false} PlaceOf(t: Tree, s: Slot) returns (p: Path)
    requires Sound(t) && s in t.children
    ensures Find(t, p) == Some(s.parent) && Find(t, p + [s.part]) == Some(t.children[s])
  {
    ParentPlaced(t, s);
    p :| Find(t, p) == Some(s.parent);
    ThroughSlot(t, p, s, []);
    assert p + [s.part] + [] == p + [s.part];
  }

  lemma {:induction false} EndOfPath(p: Path, part: Part)
    ensures Front(p + [part]) == p && Last(p + [part]) == part
  {
  }

  lemma {:induction false} ParentPlaced(t: Tree, s: Slot)
    requires Sound(t) && s in t.children
    ensures Placed(t, s.parent)
  {
    if s.parent == Origin(t) {
      assert Find(t, []) == Some(Origin(t));
    }
  }

  // ---------------------------------------------------------------- the recursion of remove

  /** A child's subtree lies inside its parent's, without the parent: the recursion ends. */
  lemma {:induction false} ChildBelow(t: Tree, s: Slot)
    requires Sound(t) && s in t.children && s.parent in t.layers
    ensures Below(t, t.children[s]) < Below(t, s.parent)
    ensures s.parent !in Below(t, t.children[s])
  {
    var n, c := s.parent, t.children[s];
    assert Placed(t, n);
    var p :| Find(t, p) == Some(n);
    FoundHasLayer(t, p);
    WalkConcat(t, Origin(t), p, [s.part]);
    WalkOne(t, n, s.part);
    var path := p + [s.part];
    BelowIsBehind(t, path, p);
    BelowIsBehind(t, p, p);
    forall d | d in Below(t, c) ensures d in Below(t, n) {
      var q :| Walk(t, c, q) == Some(d);
      WalkConcat(t, Origin(t), path, q);
      BelowIsBehind(t, p, path + q);
      assert p <= path + q;
    }
  }

  /** Siblings have no node in common. */
  lemma {:induction false} SiblingsDisjoint(t: Tree, s: Slot, u: Slot)
    requires Sound(t) && s in t.children && u in t.children && s.parent == u.parent && s != u
    ensures Below(t, t.children[s]) !! Below(t, t.children[u])
  {
    ParentPlaced(t, s);
    var p :| Find(t, p) == Some(s.parent);
    forall d | d in Below(t, t.children[s]) ensures d !in Below(t, t.children[u]) {
      if d in Below(t, t.children[u]) {
        var q :| Walk(t, t.children[s], q) == Some(d);
        var r :| Walk(t, t.children[u], r) == Some(d);
        ThroughSlot(t, p, s, q);
        ThroughSlot(t, p, u, r);
        PartsTellPathsApart(p, s.part, q, u.part, r);
        UniquePath(t, p + [s.part] + q, p + [u.part] + r);
      }
    }
  }

  lemma {:induction false} PartsTellPathsApart(p: Path, a: Part, q: Path, b: Part, r: Path)
    requires a != b
    ensures p + [a] + q != p + [b] + r
  {
    assert (p + [a] + q)[|p|] == a && (p + [b] + r)[|p|] == b;
  }

  lemma {:induction false} ThroughSlot(t: Tree, p: Path, s: Slot, q: Path)
    requires s in t.children && Find(t, p) == Some(s.parent)
    ensures Find(t, p + [s.part] + q) == Walk(t, t.children[s], q)
  {
    WalkConcat(t, Origin(t), p, [s.part]);
    WalkOne(t, s.parent, s.part);
    WalkConcat(t, Origin(t), p + [s.part], q);
  }

  /** A node's subtree is the node and the subtrees of its children. */
  lemma {:induction false} BelowIsNodeAndChildren(t: Tree, n: Id, d: Id)
    requires Sound(t) && n in t.layers
    ensures d in Below(t, n) <==>
      d == n || exists s :: s in t.children && s.parent == n && d in Below(t, t.children[s])
  {
    if d in Below(t, n) && d != n {
      var q :| Walk(t, n, q) == Some(d);
      var s := Slot(n, q[0]);
      assert Walk(t, t.children[s], q[1..]) == Some(d);
      assert d in Below(t, t.children[s]);
    }
    if d == n {
      assert Walk(t, n, []) == Some(n);
    }
    if s :| s in t.children && s.parent == n && d in Below(t, t.children[s]) {
      ChildBelow(t, s);
    }
  }
}
