/** Nodes as the code holds them, with the root they go by, and `find`. */
module DirectoryNodes {
  import opened Options
  import opened ByteStrings
  import opened DirectoryTree
  import opened DirectoryPartitions
  import opened DirectoryKeys
  import opened DirectoryNames
  import opened DirectoryStore

  /** The maps of `init_root`, `init_directory` and `init_partition`. */
  datatype Node =
    | Root(np: Bytes, contentPrefix: Bytes, allowManual: bool)
    | Dir(name: Name, path: Path, layer: Bytes, root: Node)
    | Partition(name: Name, path: Path, root: Node)

  function GetPath(n: Node): Path {
    if n.Root? then [] else n.path
  }

  function GetLayer(n: Node): Bytes {
    match n
    case Root(_, _, _) => []
    case Dir(_, _, layer, _) => layer
    case Partition(_, _, _) => PARTITION
  }

  function GetRoot(n: Node): Node {
    if n.Dir? then n.root else n
  }

  function GetPartition(n: Node): Node {
    if n.Root? then n else n.root
  }

  function GetNodePrefix(n: Node): Bytes {
    match n
    case Root(np, _, _) => np
    case Dir(_, _, _, root) => GetNodePrefix(root)
    case Partition(name, _, _) => Space(name)
  }

  /** The name packed into `get_id`. */
  function IdName(n: Node): Name {
    match n
    case Root(np, _, _) => np
    case Dir(name, _, _, _) => name
    case Partition(name, _, _) => Space(name)
  }

  function ContentPrefix(root: Node): Bytes {
    match root
    case Root(_, contentPrefix, _) => contentPrefix
    case Dir(_, _, _, r) => ContentPrefix(r)
    case Partition(name, _, _) => name
  }

  predicate AllowManual(root: Node) {
    match root
    case Root(_, _, allow) => allow
    case Dir(_, _, _, r) => AllowManual(r)
    case Partition(_, _, _) => false
  }

  /** `init_node`, the layer read. */
  function InitNode(parent: Node, name: Name, part: Part, layer: Bytes): Node {
    if layer == PARTITION then Partition(name, GetPath(parent) + [part], GetRoot(parent))
    else Dir(name, GetPath(parent) + [part], layer, GetRoot(parent))
  }

  function NodeEntryId(parent: Node, part: Part): Bytes {
    KeyOf(GetNodePrefix(parent), Entry(IdName(parent), part))
  }

  function NodeLayerId(parent: Node, name: Name): Bytes {
    KeyOf(GetNodePrefix(parent), LayerOf(name))
  }

  datatype Found = NotFound | MissingNodeLayer(name: Name) | Found(node: Node)

  /** `find`. */
  function FindFrom(store: Store, node: Node, path: Path): Found
    decreases |path|
  {
    if path == [] then Found(node)
    else
      var entry := NodeEntryId(node, path[0]);
      if entry !in store then NotFound
      else
        var name := store[entry];
        var layer := NodeLayerId(node, name);
        if layer !in store then MissingNodeLayer(name)
        else FindFrom(store, InitNode(node, name, path[0], store[layer]), path[1..])
  }

  lemma {:induction false} FindConcat(store: Store, node: Node, p: Path, q: Path)
    ensures FindFrom(store, node, p + q) ==
      var f := FindFrom(store, node, p); if f.Found? then FindFrom(store, f.node, q) else f
    decreases |p|
  {
    if p == [] {
      assert p + q == q;
    } else {
      assert (p + q)[0] == p[0] && (p + q)[1..] == p[1..] + q;
      var entry := NodeEntryId(node, p[0]);
      if entry in store && NodeLayerId(node, store[entry]) in store {
        FindConcat(store, InitNode(node, store[entry], p[0], store[NodeLayerId(node, store[entry])]), p[1..], q);
      }
    }
  }

  // ---------------------------------------------------------------- nodes of the tree

  predicate IsAbsolute(t: Tree, root: Node) {
    root.Root? && root.np == t.root
  }

  /** The node at a path, as `find` makes it on its way from the absolute root. */
  ghost function NodeAt(t: Tree, root: Node, p: Path): Node
    requires Sound(t) && Find(t, p).Some?
    decreases |p|
  {
    if p == [] then root
    else
      FoundThroughSlot(t, p);
      FoundHasLayer(t, p);
      InitNode(NodeAt(t, root, Front(p)), Find(t, p).value.name, Last(p), t.layers[Find(t, p).value])
  }

  /** What the accessors answer for it: its path, where its children are stored, its layer, and
      the roots it goes by and is stored behind. */
  lemma {:induction false} NodeAtIs(t: Tree, root: Node, p: Path)
    requires Sound(t) && Find(t, p).Some? && IsAbsolute(t, root)
    ensures var n, id := NodeAt(t, root, p), Find(t, p).value;
      && GetPath(n) == p && GetNodePrefix(n) == Inside(t, id) && IdName(n) == InnerName(t, id)
      && (p != [] ==> id in t.layers && GetLayer(n) == t.layers[id] && n.name == id.name && !n.Root?)
      && (n.Partition? <==> IsPartition(t, id))
    ensures Find(t, RootOf(t, p)).Some? && GetRoot(NodeAt(t, root, p)) == NodeAt(t, root, RootOf(t, p))
    ensures p != [] ==> Find(t, PartitionOf(t, p)).Some? && GetPartition(NodeAt(t, root, p)) == NodeAt(t, root, PartitionOf(t, p))
  {
    NodeAtAnswers(t, root, p);
    NodeAtRoots(t, root, p);
    if p != [] {
      FoundThroughSlot(t, p);
      NodeAtRoots(t, root, Front(p));
    }
  }

  lemma {:induction false} NodeAtAnswers(t: Tree, root: Node, p: Path)
    requires Sound(t) && Find(t, p).Some? && IsAbsolute(t, root)
    ensures var n, id := NodeAt(t, root, p), Find(t, p).value;
      && GetPath(n) == p && GetNodePrefix(n) == Inside(t, id) && IdName(n) == InnerName(t, id)
      && (p != [] ==> id in t.layers && GetLayer(n) == t.layers[id] && n.name == id.name && !n.Root?)
      && (n.Partition? <==> IsPartition(t, id))
      && GetNodePrefix(GetRoot(n)) == GetNodePrefix(n)
    decreases |p|
  {
    FoundHasLayer(t, p);
    if p != [] {
      FoundThroughSlot(t, p);
      NodeAtAnswers(t, root, Front(p));
      assert Front(p) + [Last(p)] == p;
      assert Find(t, p).value.home == Inside(t, Find(t, Front(p)).value);
    }
  }

  lemma {:induction false} NodeAtRoots(t: Tree, root: Node, p: Path)
    requires Sound(t) && Find(t, p).Some? && IsAbsolute(t, root)
    ensures Find(t, RootOf(t, p)).Some? && GetRoot(NodeAt(t, root, p)) == NodeAt(t, root, RootOf(t, p))
    ensures p != [] ==> Find(t, Front(p)).Some? && GetPartition(NodeAt(t, root, p)) == GetRoot(NodeAt(t, root, Front(p)))
    decreases |p|
  {
    NodeAtAnswers(t, root, p);
    if p != [] {
      FoundThroughSlot(t, p);
      NodeAtRoots(t, root, Front(p));
    }
  }

  lemma {:induction false} LastNodeAt(t: Tree, root: Node, p: Path, part: Part)
    requires Sound(t) && Find(t, p).Some? && Find(t, p + [part]).Some? && IsAbsolute(t, root)
    ensures Find(t, p + [part]).value in t.layers
    ensures var n := Find(t, p + [part]).value;
      var node := InitNode(NodeAt(t, root, p), n.name, part, t.layers[n]);
      node == NodeAt(t, root, p + [part]) && IsNode(t, root, node)
  {
    FoundHasLayer(t, p + [part]);
    assert Front(p + [part]) == p && Last(p + [part]) == part;
    NodeAtIsNode(t, root, p + [part]);
  }

  /** What a node takes over from the root it goes by: names of the caller's choice are for nodes
      outside all partitions, if the absolute root allows them; allocated names follow the content
      prefix of the absolute root, or the name of the partition. */
  lemma {:induction false} RootDecidesNames(t: Tree, root: Node, p: Path)
    requires Sound(t) && Find(t, p).Some? && IsAbsolute(t, root)
    ensures Find(t, RootOf(t, p)).Some?
    ensures AllowManual(NodeAt(t, root, p)) <==> RootOf(t, p) == [] && root.allowManual
    ensures ContentPrefix(NodeAt(t, root, p)) == if RootOf(t, p) == [] then root.contentPrefix else Find(t, RootOf(t, p)).value.name
    decreases |p|
  {
    NodeAtRoots(t, root, p);
    NodeAtAnswers(t, root, p);
    FoundHasLayer(t, p);
    if p != [] {
      FoundThroughSlot(t, p);
      NodeAtAnswers(t, root, Front(p));
      RootDecidesNames(t, root, Front(p));
      SameRootSameNames(NodeAt(t, root, Front(p)));
    }
  }

  lemma {:induction false} SameRootSameNames(n: Node)
    ensures AllowManual(n) == AllowManual(GetRoot(n)) && ContentPrefix(n) == ContentPrefix(GetRoot(n))
  {
  }

  /** A layer makes a partition only if it spells so. */
  lemma {:induction false} LayerMakesPartition(parent: Node, name: Name, part: Part, layer: Bytes)
    ensures var n := InitNode(parent, name, part, layer);
      && (n.Partition? <==> layer == [0x70, 0x61, 0x72, 0x74, 0x69, 0x74, 0x69, 0x6F, 0x6E])
      && GetLayer(n) == layer && GetPath(n) == GetPath(parent) + [part] && !n.Root? && n.name == name
      && GetPartition(n) == GetRoot(parent) && GetNodePrefix(n) == if n.Partition? then name + [0xFE] else GetNodePrefix(parent)
  {
    SameRootPrefix(parent);
  }

  lemma {:induction false} SameRootPrefix(n: Node)
    ensures GetNodePrefix(GetRoot(n)) == GetNodePrefix(n)
  {
  }

  /** `check_same_partition` compares the roots as terms; that is to compare their paths. */
  lemma {:induction false} SameRootIffSamePath(t: Tree, root: Node, p: Path, q: Path)
    requires Sound(t) && IsAbsolute(t, root) && p != [] && Find(t, p).Some? && Find(t, q).Some?
    ensures GetPartition(NodeAt(t, root, p)) == GetRoot(NodeAt(t, root, q)) <==> PartitionOf(t, p) == RootOf(t, q)
  {
    NodeAtIs(t, root, p);
    NodeAtIs(t, root, q);
    NodeAtIs(t, root, PartitionOf(t, p));
    NodeAtIs(t, root, RootOf(t, q));
  }

  /** A node `find` makes. */
  ghost predicate IsNode(t: Tree, root: Node, n: Node) {
    IsAbsolute(t, root) && Sound(t) && Find(t, GetPath(n)).Some? && n == NodeAt(t, root, GetPath(n))
  }

  function IdOf(t: Tree, n: Node): Id
    requires Find(t, GetPath(n)).Some?
  {
    Find(t, GetPath(n)).value
  }

  lemma {:induction false} NodeAtIsNode(t: Tree, root: Node, p: Path)
    requires Sound(t) && Find(t, p).Some? && IsAbsolute(t, root)
    ensures IsNode(t, root, NodeAt(t, root, p)) && GetPath(NodeAt(t, root, p)) == p
  {
    NodeAtIs(t, root, p);
  }

  /** `adj_path`: a path counted from the root a node goes by. */
  function RelPath(root: Node, n: Node, path: Path): Path
    requires |GetPath(root)| <= |GetPath(n)|
  {
    GetPath(n)[|GetPath(root)|..] + path
  }

  lemma {:induction false} JoinRest(p: Path, whole: Path, path: Path)
    requires p <= whole
    ensures p + (whole[|p|..] + path) == whole + path
  {
  }

  /** The root a node goes by, as a node of the tree. */
  lemma {:induction false} RootOfNode(t: Tree, root: Node, n: Node)
    requires IsNode(t, root, n)
    ensures IsNode(t, root, GetRoot(n)) && GetPath(GetRoot(n)) == RootOf(t, GetPath(n)) <= GetPath(n)
  {
    var r := RootOf(t, GetPath(n));
    NodeAtIs(t, root, GetPath(n));
    RootIsAbove(t, GetPath(n));
    NodeAtIsNode(t, root, r);
  }

  lemma {:induction false} PartitionOfNode(t: Tree, root: Node, n: Node)
    requires IsNode(t, root, n) && GetPath(n) != []
    ensures IsNode(t, root, GetPartition(n)) && GetPath(GetPartition(n)) == PartitionOf(t, GetPath(n)) <= Front(GetPath(n))
  {
    var r := PartitionOf(t, GetPath(n));
    NodeAtIs(t, root, GetPath(n));
    RootIsAbove(t, Front(GetPath(n)));
    NodeAtIsNode(t, root, r);
  }

  /** Counted from there it leads to the same place. */
  lemma {:induction false} AdjPath(t: Tree, root: Node, n: Node, path: Path)
    requires IsNode(t, root, n)
    ensures IsNode(t, root, GetRoot(n)) && GetPath(GetRoot(n)) == RootOf(t, GetPath(n)) <= GetPath(n)
    ensures GetPath(GetRoot(n)) + RelPath(GetRoot(n), n, path) == GetPath(n) + path
  {
    RootOfNode(t, root, n);
    JoinRest(GetPath(GetRoot(n)), GetPath(n), path);
  }

  lemma {:induction false} AdjPathAbove(t: Tree, root: Node, n: Node)
    requires IsNode(t, root, n) && GetPath(n) != []
    ensures IsNode(t, root, GetPartition(n)) && GetPath(GetPartition(n)) == PartitionOf(t, GetPath(n)) <= Front(GetPath(n))
    ensures |GetPath(GetPartition(n))| < |GetPath(n)|
    ensures var rel := RelPath(GetPartition(n), n, []);
      rel != [] && GetPath(GetPartition(n)) + Front(rel) == Front(GetPath(n)) && Last(rel) == Last(GetPath(n))
  {
    PartitionOfNode(t, root, n);
    SuffixBelow(GetPath(GetPartition(n)), GetPath(n));
  }

  lemma {:induction false} SuffixBelow(p: Path, whole: Path)
    requires whole != [] && p <= Front(whole)
    ensures |p| < |whole|
    ensures var rel := whole[|p|..] + []; rel != [] && p + Front(rel) == Front(whole) && Last(rel) == Last(whole)
  {
    assert whole[|p|..] + [] == whole[|p|..];
  }

  // ---------------------------------------------------------------- find

  /** The store holds what the tree says of a slot and of the child in it. */
  ghost predicate Readable(store: Store, t: Tree, s: Slot) {
    EntryAgrees(store, t, s) && (s in t.children ==> LayerAgrees(store, t, t.children[s]))
  }

  ghost predicate StepReadable(store: Store, t: Tree, p: Path, q: Path, i: nat)
    requires i < |q|
  {
    Find(t, p + q[..i]).Some? ==> Readable(store, t, Slot(Find(t, p + q[..i]).value, q[i]))
  }

  /** One step of `find`. */
  lemma {:induction false} FindStep(store: Store, t: Tree, root: Node, p: Path, part: Part)
    requires Sound(t) && IsAbsolute(t, root) && Find(t, p).Some? && Readable(store, t, Slot(Find(t, p).value, part))
    ensures var node, next := NodeAt(t, root, p), p + [part];
      if Find(t, next).Some? then
        && NodeEntryId(node, part) in store
        && var name := store[NodeEntryId(node, part)];
        && NodeLayerId(node, name) in store
        && InitNode(node, name, part, store[NodeLayerId(node, name)]) == NodeAt(t, root, next)
      else NodeEntryId(node, part) !in store
  {
    var s, next := Slot(Find(t, p).value, part), p + [part];
    NodeAtIs(t, root, p);
    FoundThroughSlot(t, next);
    assert Front(next) == p && Last(next) == part && SlotOf(t, next) == s;
    if s in t.children {
      assert t.children[s] in t.layers && t.children[s].home == Inside(t, s.parent);
    }
  }

  lemma {:induction false} FirstReadable(store: Store, t: Tree, p: Path, q: Path)
    requires q != [] && forall i :: 0 <= i < |q| ==> StepReadable(store, t, p, q, i)
    ensures Find(t, p).Some? ==> Readable(store, t, Slot(Find(t, p).value, q[0]))
    ensures p + [q[0]] + q[1..] == p + q
  {
    assert StepReadable(store, t, p, q, 0);
    assert p + q[..0] == p;
  }

  lemma {:induction false} RestReadable(store: Store, t: Tree, p: Path, q: Path)
    requires q != [] && forall i :: 0 <= i < |q| ==> StepReadable(store, t, p, q, i)
    ensures forall i :: 0 <= i < |q[1..]| ==> StepReadable(store, t, p + [q[0]], q[1..], i)
  {
    forall i | 0 <= i < |q[1..]| ensures StepReadable(store, t, p + [q[0]], q[1..], i) {
      assert StepReadable(store, t, p, q, i + 1);
      assert p + [q[0]] + q[1..][..i] == p + q[..i + 1];
    }
  }

  /** `find` from a node of the tree finds the nodes of the tree. */
  lemma {:induction false} FindWalks(store: Store, t: Tree, root: Node, p: Path, q: Path)
    requires Sound(t) && IsAbsolute(t, root) && Find(t, p).Some?
    requires forall i :: 0 <= i < |q| ==> StepReadable(store, t, p, q, i)
    ensures FindFrom(store, NodeAt(t, root, p), q) ==
      if Find(t, p + q).Some? then Found(NodeAt(t, root, p + q)) else NotFound
    decreases |q|
  {
    if q == [] {
      assert p + q == p;
    } else {
      var next := p + [q[0]];
      FirstReadable(store, t, p, q);
      FindStep(store, t, root, p, q[0]);
      if Find(t, next).Some? {
        RestReadable(store, t, p, q);
        FindWalks(store, t, root, next, q[1..]);
      } else {
        WalkConcat(t, Origin(t), next, q[1..]);
      }
    }
  }

  /** In a store that carries the tree everything is readable. */
  lemma {:induction false} AllReadable(store: Store, t: Tree, p: Path, q: Path)
    requires Refines(store, t) && Sound(t) && Named(t)
    ensures forall i :: 0 <= i < |q| ==> StepReadable(store, t, p, q, i)
  {
    forall i | 0 <= i < |q| ensures StepReadable(store, t, p, q, i) {
      if Find(t, p + q[..i]).Some? {
        FoundHasLayer(t, p + q[..i]);
        var s := Slot(Find(t, p + q[..i]).value, q[i]);
        assert EntryAgrees(store, t, s);
        if s in t.children {
          InsideIsSpace(t, t.children[s]);
          assert LayerAgrees(store, t, t.children[s]);
        }
      }
    }
  }

  lemma {:induction false} FindInTree(store: Store, t: Tree, root: Node, p: Path, q: Path)
    requires Refines(store, t) && Sound(t) && Named(t) && IsAbsolute(t, root) && Find(t, p).Some?
    ensures FindFrom(store, NodeAt(t, root, p), q) ==
      if Find(t, p + q).Some? then Found(NodeAt(t, root, p + q)) else NotFound
  {
    AllReadable(store, t, p, q);
    FindWalks(store, t, root, p, q);
  }

  lemma {:induction false} FindFromNode(store: Store, t: Tree, root: Node, n: Node, q: Path)
    requires Refines(store, t) && Named(t) && IsNode(t, root, n)
    ensures FindFrom(store, n, q) ==
      if Find(t, GetPath(n) + q).Some? then Found(NodeAt(t, root, GetPath(n) + q)) else NotFound
  {
    FindInTree(store, t, root, GetPath(n), q);
  }
}
