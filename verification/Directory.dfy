/** The directory layer (erlfdb_directory): its operations on the store, each proved to do to the
    tree what DirectoryTree says. */
module Directories {
  import opened Options
  import opened ByteStrings
  import opened Keys
  import HcaKeys
  import opened DirectoryTree
  import opened DirectoryPartitions
  import opened DirectoryKeys
  import opened DirectoryNames
  import opened DirectoryStore
  import opened DirectoryNodes
  import opened DirectoryVersions
  import opened DirectoryListing
  import opened DirectoryNaming
  import opened DirectoryCreation
  import opened DirectoryRemoval
  import opened DirectoryMoves

  /** What `open_int` answers when the version allows. */
  ghost function Opening(t: Tree, root: Node, path: Path, layer: Bytes): Result<Node>
    requires Sound(t)
  {
    if Find(t, path).None? then Fail(PathMissing)
    else if path == [] then Fail(CannotOpenRoot)
    else if layer != [] && layer != GetLayer(NodeAt(t, root, path)) then Fail(LayerMismatch)
    else Ok(NodeAt(t, root, path))
  }

  lemma {:induction false} OpeningMisses(t: Tree, root: Node, path: Path, layer: Bytes)
    requires Sound(t)
    ensures Opening(t, root, path, layer) == Fail(PathMissing) <==> Find(t, path).None?
  {
  }

  function MoveError(m: MoveResult): Error
    requires !m.Moved?
  {
    match m
    case TargetIsSubdirectory => Error.TargetIsSubdirectory
    case MissingSource => Error.MissingSource
    case TargetExists => Error.TargetExists
    case MissingParentNode => Error.MissingParentNode
    case PartitionMismatch => Error.PartitionMismatch
  }

  function FirstError(t: Tree, src: Path, dst: Path): Option<Error> {
    var m := DirectoryTree.Move(t, src, dst);
    if m.Moved? then None else Some(MoveError(m))
  }

  function PlaceError(t: Tree, src: Path, dst: Path): Option<Error> {
    if src <= dst then Some(Error.TargetIsSubdirectory)
    else if Find(t, src).None? then Some(Error.MissingSource)
    else if Find(t, dst).Some? then Some(Error.TargetExists)
    else
      assert dst != [];
      if Find(t, Front(dst)).None? then Some(Error.MissingParentNode) else None
  }

  lemma {:induction false} CheckedPlaces(t: Tree, src: Path, dst: Path)
    requires Sound(t)
    ensures PlaceError(t, src, dst).Some? ==> FirstError(t, src, dst) == PlaceError(t, src, dst)
    ensures PlaceError(t, src, dst).None? ==>
      && Eligible(t, src, dst) && src != []
      && FirstError(t, src, dst) == (if PartitionOf(t, src) == RootOf(t, Front(dst)) then None else Some(Error.PartitionMismatch))
  {
  }

  /** The answer, the tree and the store after `move`, given those before: the error and nothing
      changed, or the node with its new path, as it is found there now, and two keys written. */
  ghost predicate Answers(root: Node, before: Tree, store0: Store, src: Path, dst: Path, after: Tree, store: Store, r: Result<Node>) {
    var m := DirectoryTree.Move(before, src, dst);
    if m.Moved? then
      && after == m.tree && Eligible(before, src, dst)
      && r == Ok(NodeAt(before, root, src).(path := dst)) && IsNode(after, root, r.value)
      && store == MovedStore(store0, before, src, dst)
    else after == before && r == Fail(MoveError(m)) && store == store0
  }

  /** There is something to move, and nothing in its way. */
  predicate Placeless(t: Tree, src: Path, dst: Path)
    ensures Placeless(t, src, dst) ==> src != [] && dst != []
  {
    !(src <= dst) && Find(t, src).Some? && Find(t, dst).None?
  }

  /** The errors of `move`, each where those before it do not apply. */
  lemma {:induction false} AnswersInOrder(root: Node, t: Tree, store0: Store, src: Path, dst: Path, after: Tree, store: Store, r: Result<Node>)
    requires Answers(root, t, store0, src, dst, after, store, r)
    ensures r == Fail(Error.TargetIsSubdirectory) <==> src <= dst
    ensures r == Fail(Error.MissingSource) <==> !(src <= dst) && Find(t, src).None?
    ensures r == Fail(Error.TargetExists) <==> !(src <= dst) && Find(t, src).Some? && Find(t, dst).Some?
    ensures r == Fail(Error.MissingParentNode) <==> Placeless(t, src, dst) && Find(t, Front(dst)).None?
    ensures r == Fail(Error.PartitionMismatch) <==>
      Placeless(t, src, dst) && Find(t, Front(dst)).Some? && PartitionOf(t, src) != RootOf(t, Front(dst))
  {
  }

  lemma {:induction false} PrefixBehindPath(b: Path, p: Path, q: Path)
    ensures b + p <= b + q <==> p <= q
  {
    if b + p <= b + q {
      assert forall i :: 0 <= i < |p| ==> p[i] == (b + p)[|b| + i] == (b + q)[|b| + i] == q[i];
    }
  }

  class Directory {
    const root: Node
    var store: Store
    ghost var tree: Tree

    /** What also holds while a subtree is being taken out. */
    ghost predicate Consistent()
      reads this
    {
      IsAbsolute(tree, root) && Refines(store, tree) && Spaced(store, tree) && Keyed(tree)
    }

    ghost predicate Valid()
      reads this
    {
      IsAbsolute(tree, root) && Well(store, tree)
    }

    /** The tree and the store before a removal began, and what it has taken out so far. */
    ghost predicate Amid(t: Tree, store0: Store, gone: set<Id>)
      reads this
    {
      IsAbsolute(t, root) && Well(store0, t) && Closed(t, gone) && tree == Without(t, gone) && store == Sweep(store0, t, gone)
    }

    /** `root/1` over a store in which nothing lies behind the node prefix. */
    constructor (np: Bytes, contentPrefix: Bytes, allowManual: bool, store: Store)
      requires forall k :: k in store ==> !IsPrefix(np, k)
      ensures Valid() && tree == Tree(np, map[], map[]) && this.store == store
      ensures root == Root(np, contentPrefix, allowManual)
    {
      root := Root(np, contentPrefix, allowManual);
      this.store, tree := store, Tree(np, map[], map[]);
      new;
      NothingStored(store, tree);
    }

    /** `root/1` over a store that carries a tree already. */
    constructor Over(np: Bytes, contentPrefix: Bytes, allowManual: bool, store: Store, ghost t: Tree)
      requires t.root == np && Well(store, t)
      ensures Valid() && tree == t && this.store == store && root == Root(np, contentPrefix, allowManual)
    {
      root := Root(np, contentPrefix, allowManual);
      this.store, tree := store, t;
    }

    /** What applications write: any key outside the node prefixes. */
    method SetContent(key: Bytes, value: Bytes)
      requires Valid() && forall h :: IsSpace(tree, h) ==> !IsPrefix(h, key)
      modifies this
      ensures Valid() && tree == old(tree) && store == old(store)[key := value]
    {
      OutsideIsNeutral(tree, key);
      SetNeutral(store, tree, key, value);
      store := store[key := value];
    }

    /** `check_version`, on the root the node goes by. */
    method CheckVersion(node: Node, write: bool) returns (e: Option<Error>)
      requires Valid() && IsSpace(tree, GetNodePrefix(GetRoot(node)))
      modifies this`store
      ensures Valid()
      ensures e == VersionError(old(store), GetNodePrefix(GetRoot(node)), write)
      ensures store == if write then Initialized(old(store), GetNodePrefix(GetRoot(node))) else old(store)
    {
      var h := GetNodePrefix(GetRoot(node));
      e := VersionError(store, h, write);
      if write && KeyOf(h, Version) !in store {
        RootKeyIsNeutral(tree, h, Version);
        SetNeutral(store, tree, KeyOf(h, Version), LAYER_VERSION);
        KeyKeepsSpaced(store, tree, h, Version, LAYER_VERSION);
        store := store[KeyOf(h, Version) := LAYER_VERSION];
      }
    }

    /** `find`. That a node has no layer, which is an error in the code, does not happen. */
    method FindPath(node: Node, path: Path) returns (r: Option<Node>)
      requires Valid() && IsNode(tree, root, node)
      ensures r.Some? <==> Find(tree, GetPath(node) + path).Some?
      ensures r.Some? ==> r.value == NodeAt(tree, root, GetPath(node) + path)
      ensures r.Some? ==> IsNode(tree, root, r.value) && GetPath(r.value) == GetPath(node) + path
    {
      FindFromNode(store, tree, root, node, path);
      var found := FindFrom(store, node, path);
      r := if found.Found? then Some(found.node) else None;
      if r.Some? {
        NodeAtIsNode(tree, root, GetPath(node) + path);
      }
    }

    // ---------------------------------------------------------------- open, list

    /** `open_int`. */
    method OpenInt(node: Node, path: Path, layer: Bytes) returns (r: Result<Node>)
      requires Valid() && IsNode(tree, root, node)
      ensures var e := VersionError(store, GetNodePrefix(GetRoot(node)), false);
        r == if e.Some? then Fail(e.value) else Opening(tree, root, GetPath(node) + path, layer)
      ensures var p := GetPath(node) + path;
        VersionError(store, GetNodePrefix(GetRoot(node)), false).None? ==>
          && (r == Fail(PathMissing) <==> Find(tree, p).None?)
          && (r == Fail(CannotOpenRoot) <==> p == [])
          && (r == Fail(LayerMismatch) <==> p != [] && Find(tree, p).Some? && layer != [] && layer != GetLayer(NodeAt(tree, root, p)))
          && (r.Ok? ==> r.value == NodeAt(tree, root, p))
      ensures r.Ok? ==> IsNode(tree, root, r.value) && GetPath(r.value) == GetPath(node) + path
    {
      var e := VersionError(store, GetNodePrefix(GetRoot(node)), false);
      if e.Some? {
        return Fail(e.value);
      }
      var found := FindPath(node, path);
      if found.None? {
        return Fail(PathMissing);
      }
      NodeAtIs(tree, root, GetPath(node) + path);
      if found.value.Root? {
        return Fail(CannotOpenRoot);
      }
      if layer != [] && layer != GetLayer(found.value) {
        return Fail(LayerMismatch);
      }
      return Ok(found.value);
    }

    /** The rows of the subdirectory range, with `init_node` on each. */
    method Children(node: Node, ghost id: Id) returns (r: Result<seq<(Part, Node)>>)
      requires Consistent() && Fits(tree, id, node)
      ensures r.Ok? ==> ListsChildren(tree, id, node, r.value)
      ensures ChildrenHaveLayers(tree, id) ==> r.Ok?
    {
      var range := ListedRange(node);
      var keys := KeysIn(store, range.0, range.1);
      var rows: seq<(Part, Node)> := [];
      EntriesListed(store, tree, id, node);
      while keys != {}
        invariant keys <= KeysIn(store, range.0, range.1)
        invariant Listing(tree, id, node, keys, rows)
        decreases |keys|
      {
        var k := Greatest(keys);
        ghost var entry := ListedKey(store, tree, id, node, k);
        ListedPartIsPart(GetNodePrefix(node), IdName(node), entry);
        var part := ListedPart(GetNodePrefix(node), IdName(node), k).value;
        var layer := NodeLayerId(node, store[k]);
        if layer !in store {
          return Fail(MissingLayer(store[k]));
        }
        var row := (part, InitNode(node, store[k], part, store[layer]));
        ListingStep(tree, id, node, keys, rows, k, row);
        rows := [row] + rows;
        keys := keys - {k};
      }
      return Ok(rows);
    }

    /** `list/3`. */
    method List(node: Node, path: Path, ghost id: Id) returns (r: Result<seq<(Part, Node)>>)
      requires Consistent() && |GetPath(GetRoot(node))| <= |GetPath(node)|
      requires var found := FindFrom(store, GetRoot(node), RelPath(GetRoot(node), node, path));
        found.Found? ==> Fits(tree, id, found.node)
      ensures var e := VersionError(store, GetNodePrefix(GetRoot(node)), false);
        var found := FindFrom(store, GetRoot(node), RelPath(GetRoot(node), node, path));
        && (e.Some? ==> r == Fail(e.value))
        && (e.None? && found.NotFound? ==> r == Fail(PathMissing))
        && (r.Ok? ==> e.None? && found.Found? && ListsChildren(tree, id, found.node, r.value))
        && (e.None? && found.Found? && ChildrenHaveLayers(tree, id) ==> r.Ok?)
    {
      var e := VersionError(store, GetNodePrefix(GetRoot(node)), false);
      if e.Some? {
        return Fail(e.value);
      }
      var found := FindFrom(store, GetRoot(node), RelPath(GetRoot(node), node, path));
      match found
      case NotFound => return Fail(PathMissing);
      case MissingNodeLayer(n) => return Fail(MissingLayer(n));
      case Found(n) => r := Children(n, id);
    }

    /** `list/3` between operations. */
    method ListDirectory(node: Node, path: Path) returns (r: Result<seq<(Part, Node)>>)
      requires Valid() && IsNode(tree, root, node)
      ensures var e, p := VersionError(store, GetNodePrefix(GetRoot(node)), false), GetPath(node) + path;
        if e.Some? then r == Fail(e.value)
        else if Find(tree, p).None? then r == Fail(PathMissing)
        else r.Ok? && ListsChildren(tree, Find(tree, p).value, NodeAt(tree, root, p), r.value)
    {
      AdjPath(tree, root, node, path);
      FindFromNode(store, tree, root, GetRoot(node), RelPath(GetRoot(node), node, path));
      ghost var p := GetPath(node) + path;
      ghost var id := Origin(tree);
      if Find(tree, p).Some? {
        id := Find(tree, p).value;
        FoundHasLayer(tree, p);
        NodeAtIs(tree, root, p);
      }
      r := List(node, path, id);
    }

    // ---------------------------------------------------------------- move

    /** `remove_from_parent`. */
    method RemoveFromParent(node: Node, ghost id: Id)
      requires Consistent() && |GetPath(GetPartition(node))| <= |GetPath(node)|
      requires RelPath(GetPartition(node), node, []) != []
      requires var found := FindFrom(store, GetPartition(node), Front(RelPath(GetPartition(node), node, [])));
        found.Found? && Fits(tree, id, found.node)
      modifies this
      ensures Consistent()
      ensures var slot := Slot(id, Last(RelPath(GetPartition(node), node, [])));
        store == old(store) - {EntryKey(old(tree), slot)} && tree == old(tree).(children := old(tree).children - {slot})
    {
      var path := RelPath(GetPartition(node), node, []);
      var parent := FindFrom(store, GetPartition(node), Front(path)).node;
      ghost var slot := Slot(id, Last(path));
      ClearEntry(store, tree, slot);
      store := store - {NodeEntryId(parent, Last(path))};
      SameLayers(tree, tree.(children := tree.children - {slot}));
      tree := tree.(children := tree.children - {slot});
    }

    method SetNodeEntry(parent: Node, part: Part, name: Name, ghost id: Id)
      requires Consistent() && Fits(tree, id, parent)
      modifies this
      ensures Consistent() && store == old(store)[EntryKey(old(tree), Slot(id, part)) := name]
      ensures tree == PutEntry(old(tree), Slot(id, part), name)
    {
      InsideIsSpace(tree, id);
      SetEntry(store, tree, Slot(id, part), name);
      KeyKeepsSpaced(store, tree, GetNodePrefix(parent), Entry(IdName(parent), part), name);
      store := store[NodeEntryId(parent, part) := name];
      SameLayers(tree, PutEntry(tree, Slot(id, part), name));
      tree := PutEntry(tree, Slot(id, part), name);
    }

    /** `move/4`: `oldIn` and `newIn` are counted from `node`, the checks are made from the root it
        goes by. The node answered carries the layer it had and the new path. */
    method Move(node: Node, oldIn: Path, newIn: Path) returns (r: Result<Node>)
      requires Valid() && IsNode(tree, root, node)
      modifies this
      ensures Valid()
      ensures var h := GetNodePrefix(GetRoot(node)); var e := VersionError(old(store), h, true);
        if e.Some? then r == Fail(e.value) && tree == old(tree) && store == old(store)
        else Answers(root, old(tree), Initialized(old(store), h), GetPath(node) + oldIn, GetPath(node) + newIn, tree, store, r)
      ensures var t, src, dst := old(tree), GetPath(node) + oldIn, GetPath(node) + newIn;
        VersionError(old(store), GetNodePrefix(GetRoot(node)), true).None? ==>
          && (r == Fail(Error.TargetIsSubdirectory) <==> src <= dst)
          && (r == Fail(Error.MissingSource) <==> !(src <= dst) && Find(t, src).None?)
          && (r == Fail(Error.TargetExists) <==> !(src <= dst) && Find(t, src).Some? && Find(t, dst).Some?)
          && (r == Fail(Error.MissingParentNode) <==> Placeless(t, src, dst) && Find(t, Front(dst)).None?)
          && (r == Fail(Error.PartitionMismatch) <==> Placeless(t, src, dst) && Find(t, Front(dst)).Some? && PartitionOf(t, src) != RootOf(t, Front(dst)))
    {
      var base := GetRoot(node);
      AdjPath(tree, root, node, oldIn);
      AdjPath(tree, root, node, newIn);
      RootsSpace(tree, root, node);
      var src, dst := RelPath(base, node, oldIn), RelPath(base, node, newIn);
      ghost var t := tree;
      var e := CheckVersion(node, true);
      if e.Some? {
        InitializedHasVersion(old(store), GetNodePrefix(base));
        return Fail(e.value);
      }
      ghost var store1 := store;
      r := MoveFrom(base, src, dst);
      AnswersInOrder(root, t, store1, GetPath(node) + oldIn, GetPath(node) + newIn, tree, store, r);
    }

    /** The checks in their order, and the writes. */
    method MoveFrom(base: Node, src: Path, dst: Path) returns (r: Result<Node>)
      requires Valid() && IsNode(tree, root, base)
      modifies this
      ensures Valid()
      ensures Answers(root, old(tree), old(store), GetPath(base) + src, GetPath(base) + dst, tree, store, r)
    {
      var e, source, parent := CheckMove(base, src, dst);
      if e.Some? {
        return Fail(e.value);
      }
      r := MoveNode(source, parent, GetPath(base) + dst);
    }

    method CheckMove(base: Node, src: Path, dst: Path) returns (e: Option<Error>, source: Node, parent: Node)
      requires Valid() && IsNode(tree, root, base)
      ensures e == FirstError(tree, GetPath(base) + src, GetPath(base) + dst)
      ensures e.None? ==>
        && IsNode(tree, root, source) && GetPath(source) == GetPath(base) + src
        && CanMove(tree, GetPath(source), GetPath(base) + dst)
        && IsNode(tree, root, parent) && GetPath(parent) == Front(GetPath(base) + dst)
    {
      e, source, parent := FindPlaces(base, src, dst);
      CheckedPlaces(tree, GetPath(base) + src, GetPath(base) + dst);
      if e.None? {
        SameRootIffSamePath(tree, root, GetPath(source), GetPath(parent));
        if GetPartition(source) != GetRoot(parent) {
          e := Some(Error.PartitionMismatch);
        }
      }
    }

    /** The checks before that of the partition. */
    method FindPlaces(base: Node, src: Path, dst: Path) returns (e: Option<Error>, source: Node, parent: Node)
      requires Valid() && IsNode(tree, root, base)
      ensures e == PlaceError(tree, GetPath(base) + src, GetPath(base) + dst)
      ensures e.None? ==>
        && IsNode(tree, root, source) && GetPath(source) == GetPath(base) + src && GetPath(source) != []
        && IsNode(tree, root, parent) && GetPath(base) + dst != [] && GetPath(parent) == Front(GetPath(base) + dst)
    {
      source, parent := base, base;
      PrefixBehindPath(GetPath(base), src, dst);
      if src <= dst {
        return Some(Error.TargetIsSubdirectory), base, base;
      }
      var before := FindPath(base, src);
      var target := FindPath(base, dst);
      if before.None? {
        return Some(Error.MissingSource), base, base;
      }
      if target.Some? {
        return Some(Error.TargetExists), base, base;
      }
      assert GetPath(base) + [] == GetPath(base);
      FrontBehind(GetPath(base), dst);
      var above := FindPath(base, Front(dst));
      if above.None? {
        return Some(Error.MissingParentNode), base, base;
      }
      return None, before.value, above.value;
    }

    /** The two writes. */
    method MoveNode(source: Node, parent: Node, dst: Path) returns (r: Result<Node>)
      requires Valid() && IsNode(tree, root, source) && IsNode(tree, root, parent)
      requires CanMove(tree, GetPath(source), dst) && GetPath(parent) == Front(dst)
      modifies this
      ensures Valid()
      ensures Answers(root, old(tree), old(store), GetPath(source), dst, tree, store, r)
    {
      ghost var t, store0 := tree, store;
      TwoWrites(t, root, source, parent, dst);
      NodeFits(t, root, parent);
      SetNodeEntry(parent, Last(dst), source.name, IdOf(t, parent));
      OldParentStillFound(store, t, root, source, dst);
      OldParentFits(t, root, source, dst);
      RemoveFromParent(source, Find(t, Front(GetPath(source))).value);
      MovedAnswers(root, t, store0, source, parent, dst, tree, store);
      return Ok(source.(path := dst));
    }

    // ---------------------------------------------------------------- remove

    /** `remove_recursive`. It stops at the first root whose version may not be read. */
    method RemoveRecursive(node: Node, ghost t: Tree, ghost store0: Store, ghost gone: set<Id>) returns (e: Option<Error>)
      requires Amid(t, store0, gone) && Ready(t, root, gone, node)
      modifies this
      ensures e.None? <==> AllMayRead(store0, t, Below(t, IdOf(t, node)))
      ensures e.None? ==> Amid(t, store0, gone + Below(t, IdOf(t, node)))
      ensures e.Some? ==> exists n :: n in Below(t, IdOf(t, node)) && VersionError(store0, Inside(t, n), false) == e
      decreases Below(t, IdOf(t, node)), 2
    {
      ghost var id := IdOf(t, node);
      var listed := ListAmidRemoval(node, t, store0, gone);
      NodeBelowItself(t, root, node);
      if listed.Fail? {
        return Some(listed.error);
      }
      RowsAreBelow(t, root, node, listed.value);
      MayReadJoin(store0, t, BelowRows(t, id, listed.value), {id});
      e := RemoveRows(node, listed.value, t, store0, gone);
      if e.None? {
        ClearNode(node, listed.value, t, store0, gone);
      }
    }

    /** The two clears of `remove_recursive`. */
    method ClearNode(node: Node, ghost rows: seq<(Part, Node)>, ghost t: Tree, ghost store0: Store, ghost gone: set<Id>)
      requires Ready(t, root, gone, node) && ListsChildren(t, IdOf(t, node), node, rows)
      requires Amid(t, store0, gone + BelowRows(t, IdOf(t, node), rows))
      modifies this
      ensures Amid(t, store0, gone + Below(t, IdOf(t, node)))
    {
      LastJoins(t, root, gone, node, rows, store0);
      store := ClearRange(store, ContentRange(node.name));
      store := ClearRange(store, NodeRange(GetNodePrefix(node), IdName(node)));
      tree := Without(t, gone + Below(t, IdOf(t, node)));
    }

    method ListAmidRemoval(node: Node, ghost t: Tree, ghost store0: Store, ghost gone: set<Id>) returns (r: Result<seq<(Part, Node)>>)
      requires Amid(t, store0, gone) && Ready(t, root, gone, node)
      ensures var e := VersionError(store0, Inside(t, IdOf(t, node)), false);
        if e.Some? then r == Fail(e.value) else r.Ok? && ListsChildren(t, IdOf(t, node), node, r.value)
    {
      SweepIsWithout(store0, t, gone);
      FindAmidRemoval(store, t, root, gone, node);
      ListedAmidRemoval(t, root, gone, node);
      VersionAmidRemoval(store0, t, root, gone, node);
      r := List(node, [], IdOf(t, node));
      if r.Ok? {
        RowsAmidRemoval(t, root, gone, node, r.value);
      }
    }

    /** The recursion over the rows. */
    method RemoveRows(node: Node, rows: seq<(Part, Node)>, ghost t: Tree, ghost store0: Store, ghost gone: set<Id>) returns (e: Option<Error>)
      requires Amid(t, store0, gone) && Ready(t, root, gone, node) && ListsChildren(t, IdOf(t, node), node, rows)
      modifies this
      ensures e.None? <==> AllMayRead(store0, t, BelowRows(t, IdOf(t, node), rows))
      ensures e.None? ==> Amid(t, store0, gone + BelowRows(t, IdOf(t, node), rows))
      ensures e.Some? ==> exists n :: n in BelowRows(t, IdOf(t, node), rows) && VersionError(store0, Inside(t, n), false) == e
      decreases Below(t, IdOf(t, node)), 1
    {
      ghost var id := IdOf(t, node);
      assert gone + {} == gone && rows[..0] == [];
      for i := 0 to |rows|
        invariant Amid(t, store0, gone + BelowRows(t, id, rows[..i]))
        invariant AllMayRead(store0, t, BelowRows(t, id, rows[..i]))
      {
        RowJoins(t, id, gone, rows, i);
        MayReadJoin(store0, t, BelowRows(t, id, rows[..i]), Below(t, ChildAt(t, id, rows[i].0)));
        e := RemoveRow(node, rows, i, t, store0, gone);
        if e.Some? {
          RowsSoFar(t, id, rows, i);
          return;
        }
      }
      assert rows[..|rows|] == rows;
      e := None;
    }

    method RemoveRow(node: Node, rows: seq<(Part, Node)>, i: nat, ghost t: Tree, ghost store0: Store, ghost gone: set<Id>) returns (e: Option<Error>)
      requires Ready(t, root, gone, node) && ListsChildren(t, IdOf(t, node), node, rows) && i < |rows|
      requires Amid(t, store0, gone + BelowRows(t, IdOf(t, node), rows[..i]))
      modifies this
      ensures var below := Below(t, ChildAt(t, IdOf(t, node), rows[i].0));
        && (e.None? <==> AllMayRead(store0, t, below))
        && (e.None? ==> Amid(t, store0, gone + BelowRows(t, IdOf(t, node), rows[..i]) + below))
        && (e.Some? ==> exists n :: n in below && VersionError(store0, Inside(t, n), false) == e)
      decreases Below(t, IdOf(t, node)), 0
    {
      ChildReady(t, root, gone, node, rows, i);
      e := RemoveRecursive(rows[i].1, t, store0, gone + BelowRows(t, IdOf(t, node), rows[..i]));
    }

    /** `remove_int`, behind `remove` and `remove_if_exists`. */
    method Remove(node: Node, path: Path, ignoreMissing: bool) returns (r: Result<()>)
      requires Valid() && IsNode(tree, root, node)
      modifies this
      ensures Valid()
      ensures var t, p := old(tree), GetPath(node) + path;
        var h := Inside(t, IdAt(t, if path == [] && IsPartition(t, IdOf(t, node)) then PartitionOf(t, p) else RootOf(t, GetPath(node))));
        var e, store1 := VersionError(old(store), h, true), Initialized(old(store), h);
        if e.Some? then r == Fail(e.value) && tree == t && store == old(store)
        else if Find(t, p).None? then r == (if ignoreMissing then Ok(()) else Fail(PathMissing)) && tree == t && store == store1
        else if p == [] then r == Fail(CannotRemoveRoot) && tree == t && store == store1
        else Removable(t, p) && Removes(root, t, store1, p, tree, store, r)
    {
      var base := RootForPath(node, path);
      RootForPathIs(tree, root, node, path);
      var rel := RelPath(base, node, path);
      var e := CheckVersion(base, true);
      if e.Some? {
        InitializedHasVersion(old(store), GetNodePrefix(base));
        return Fail(e.value);
      }
      var found := FindPath(base, rel);
      if found.None? {
        return if ignoreMissing then Ok(()) else Fail(PathMissing);
      }
      NodeAtIs(tree, root, GetPath(node) + path);
      if found.value.Root? {
        return Fail(CannotRemoveRoot);
      }
      r := RemoveNode(found.value);
    }

    /** The recursion and the entry above it. An error on the way aborts the transaction. */
    method RemoveNode(node: Node) returns (r: Result<()>)
      requires Valid() && IsNode(tree, root, node) && GetPath(node) != []
      modifies this
      ensures Valid()
      ensures Removable(old(tree), GetPath(node)) && Removes(root, old(tree), old(store), GetPath(node), tree, store, r)
    {
      ghost var t := tree;
      var before := store;
      ReadyAtFirst(t, root, node, before);
      var e := RemoveRecursive(node, t, before, {});
      if e.Some? {
        store, tree := before, t;
        return Fail(e.value);
      }
      assert {} + Below(t, IdOf(t, node)) == Below(t, IdOf(t, node));
      SweepIsWithout(before, t, Below(t, IdOf(t, node)));
      ParentAfterRemoval(store, t, root, node);
      RemoveFromParent(node, Find(t, Front(GetPath(node))).value);
      RemovedIs(t, root, node, before);
      return Ok(());
    }

    // ---------------------------------------------------------------- create

    /** The writes of `erlfdb_hca:allocate`, below the root a node goes by. */
    method Allocate(node: Node, a: Allocation)
      requires Valid() && IsNode(tree, root, node) && Storable(a)
      modifies this`store
      ensures var h := GetNodePrefix(node);
        Valid() && store == Allocated(old(store), h, a) && HasName(store, h, h) && Grows(old(store), store, h)
    {
      RootsSpace(tree, root, node);
      var h := GetNodePrefix(GetRoot(node));
      var counter, marker := Allocator(HcaKeys.Counter(a.start)), Allocator(HcaKeys.Marker(a.id));
      PutRootKey(h, counter, a.counter);
      PutRootKey(h, marker, []);
      AllocatedGrows(old(store), h, a);
    }

    method PutRootKey(h: Bytes, d: NodeKey, value: Bytes)
      requires Valid() && IsSpace(tree, h) && DirectoryKeys.Valid(d) && (d.Version? || d.Allocator?)
      modifies this`store
      ensures Valid() && store == old(store)[KeyOf(h, d) := value]
    {
      RootKeyIsNeutral(tree, h, d);
      SetNeutral(store, tree, KeyOf(h, d), value);
      KeyKeepsSpaced(store, tree, h, d, value);
      store := store[KeyOf(h, d) := value];
    }

    /** `create_node_name`, for a node below `deepest`. */
    method CreateNodeName(deepest: Node, manual: Option<Name>, a: Allocation) returns (r: Result<Name>)
      requires Valid() && IsNode(tree, root, deepest) && Storable(a)
      modifies this`store
      ensures Valid() && r == NameAnswer(old(store), tree, deepest, manual, a)
      ensures store == NamingStore(old(store), deepest, manual, a) && Grows(old(store), store, GetNodePrefix(deepest))
      ensures r.Ok? ==> HasHome(tree, Id(GetNodePrefix(deepest), r.value)) && Id(GetNodePrefix(deepest), r.value) !in tree.layers
      ensures manual.Some? ==> (r == Fail(ManualNamesProhibited) <==> !MayName(tree, root, GetPath(deepest)))
      ensures var h := GetNodePrefix(deepest);
        if manual.Some? then
          MayName(tree, root, GetPath(deepest)) ==>
            && (r == Fail(NoNextKey) <==> IsPrefixFree(store, h, manual.value).None?)
            && (r == Fail(NodeNameInUse) <==> IsPrefixFree(store, h, manual.value) == Some(false))
        else
          var name := NamesBegin(tree, root, GetPath(deepest)) + HcaKeys.IdBytes(a.id);
          && (r == Fail(KeysExistForAllocatedName) <==> !Unused(store, name))
          && (r == Fail(NamesConflict) <==> Unused(store, name) && !Fresh(tree, h, name))
      ensures r.Ok? ==> r.value == if manual.Some? then manual.value
                                   else NamesBegin(tree, root, GetPath(deepest)) + HcaKeys.IdBytes(a.id)
    {
      NamesDecided(old(store), tree, root, deepest, manual, a);
      if manual.Some? {
        r := CheckManual(deepest, manual.value);
      } else {
        r := AllocateName(deepest, a);
      }
    }

    /** A name of the caller's choice. */
    method CheckManual(deepest: Node, name: Name) returns (r: Result<Name>)
      requires Valid() && IsNode(tree, root, deepest)
      ensures r == if !AllowManual(deepest) then Fail(ManualNamesProhibited)
                   else Checked(IsPrefixFree(store, GetNodePrefix(deepest), name), name, NodeNameInUse)
      ensures r.Ok? ==> HasHome(tree, Id(GetNodePrefix(deepest), name)) && Id(GetNodePrefix(deepest), name) !in tree.layers
    {
      var base := GetRoot(deepest);
      RootsAnswer(deepest);
      RootsSpace(tree, root, deepest);
      if !AllowManual(base) {
        return Fail(ManualNamesProhibited);
      }
      r := Checked(IsPrefixFree(store, GetNodePrefix(base), name), name, NodeNameInUse);
      if r.Ok? {
        ManualHasHome(tree, root, deepest, name);
        AcceptedIsNew(store, tree, GetNodePrefix(deepest), name);
      }
    }

    /** A name from the allocator. */
    method AllocateName(deepest: Node, a: Allocation) returns (r: Result<Name>)
      requires Valid() && IsNode(tree, root, deepest) && Storable(a)
      modifies this`store
      ensures Valid() && r == NameAnswer(old(store), tree, deepest, None, a)
      ensures store == Allocated(old(store), GetNodePrefix(deepest), a) && Grows(old(store), store, GetNodePrefix(deepest))
      ensures r.Ok? ==> HasHome(tree, Id(GetNodePrefix(deepest), r.value)) && Id(GetNodePrefix(deepest), r.value) !in tree.layers
    {
      var base := GetRoot(deepest);
      RootsAnswer(deepest);
      RootsSpace(tree, root, deepest);
      Allocate(deepest, a);
      var name := AllocatedName(ContentPrefix(base), a);
      AllocatedHasHome(tree, root, deepest, a);
      AllocatedDecides(store, tree, GetNodePrefix(base), ContentPrefix(base), a);
      if AnyKey(store, name, Strinc(name).value) {
        return Fail(KeysExistForAllocatedName);
      }
      r := Checked(IsPrefixFree(store, GetNodePrefix(base), name), name, NamesConflict);
    }

    /** `create_node`. */
    method CreateNode(parent: Node, part: Part, name: Name, layer: Bytes) returns (node: Node)
      requires Valid() && IsNode(tree, root, parent)
      modifies this
      ensures node == InitNode(parent, name, part, layer)
      ensures tree == WithNode(old(tree), IdOf(old(tree), parent), part, name, layer)
      ensures store == old(store)[NodeEntryId(parent, part) := name][NodeLayerId(parent, name) := layer]
      ensures CanPlace(old(store), old(tree), root, parent, part, name, layer) ==>
        Valid() && Created(old(tree), tree, root, parent, part, layer, node) && Grows(old(store), store, GetNodePrefix(parent))
    {
      if CanPlace(store, tree, root, parent, part, name, layer) {
        NewNodeIsWell(store, tree, root, parent, part, name, layer);
      }
      store := store[NodeEntryId(parent, part) := name];
      store := store[NodeLayerId(parent, name) := layer];
      tree := WithNode(tree, IdOf(tree, parent), part, name, layer);
      node := InitNode(parent, name, part, layer);
    }

    /** `create_int` for one path name below an existing node, once the path is known to be
        missing. The deepest node there is is then the parent. */
    method NewChild(parent: Node, part: Part, layer: Bytes, a: Allocation) returns (r: Result<Node>)
      requires Valid() && IsNode(tree, root, parent) && Storable(a)
      requires Find(tree, GetPath(parent) + [part]).None?
      modifies this
      ensures Valid() && r == ChildAnswer(old(store), old(tree), parent, part, layer, a)
      ensures Grows(old(store), store, GetNodePrefix(parent))
      ensures if r.Ok? then Created(old(tree), tree, root, parent, part, layer, r.value) else tree == old(tree)
    {
      var name := CreateNodeName(parent, None, a);
      if name.Fail? {
        return Fail(name.error);
      }
      ghost var named := store;
      RootsSpace(tree, root, parent);
      var e := CheckVersion(parent, true);
      InitializedGrows(named, GetNodePrefix(parent));
      GrowsOn(old(store), named, store, GetNodePrefix(parent));
      if e.Some? {
        return Fail(e.value);
      }
      NamedIsUnused(old(store), tree, parent, a, name.value, store);
      ghost var initialized := store;
      var node := CreateNode(parent, part, name.value, layer);
      GrowsOn(old(store), initialized, store, GetNodePrefix(parent));
      return Ok(node);
    }

    /** `create_int` with an allocated name, for one path name below an existing node. */
    method CreateChild(parent: Node, part: Part, layer: Bytes, a: Allocation) returns (r: Result<Node>)
      requires Valid() && IsNode(tree, root, parent) && Storable(a)
      modifies this
      ensures var e := VersionError(old(store), GetNodePrefix(parent), false);
        r == if e.Some? then Fail(e.value)
             else if Find(old(tree), GetPath(parent) + [part]).Some? then Fail(PathExists)
             else ChildAnswer(old(store), old(tree), parent, part, layer, a)
      ensures var name, late := NameAnswer(old(store), old(tree), parent, None, a), VersionError(old(store), GetNodePrefix(parent), true);
        VersionError(old(store), GetNodePrefix(parent), false).None? && Find(old(tree), GetPath(parent) + [part]).None? ==>
          if name.Fail? then r == Fail(name.error) else if late.Some? then r == Fail(late.value)
          else r == Ok(InitNode(parent, name.value, part, layer))
      ensures Valid() && Grows(old(store), store, GetNodePrefix(parent))
      ensures if r.Ok? then Created(old(tree), tree, root, parent, part, layer, r.value) else tree == old(tree)
      ensures Find(old(tree), GetPath(parent) + [part]).Some? ==> store == old(store)
    {
      RootsAnswer(parent);
      var open := OpenInt(parent, [part], []);
      if open.Ok? {
        return Fail(PathExists);
      }
      if open.error != PathMissing {
        return Fail(open.error);
      }
      r := NewChild(parent, part, layer, a);
    }

    /** One step of the fold in `create_or_open_int`: open, and create what is missing. */
    method OpenOrCreate(parent: Node, part: Part, layer: Bytes, a: Allocation) returns (r: Result<Node>)
      requires Valid() && IsNode(tree, root, parent) && Storable(a)
      modifies this
      ensures r == StepAnswer(old(store), old(tree), root, parent, part, layer, a)
      ensures Valid() && Grows(old(store), store, GetNodePrefix(parent))
      ensures Find(old(tree), GetPath(parent) + [part]).Some? ==> tree == old(tree) && store == old(store)
      ensures Find(old(tree), GetPath(parent) + [part]).None? ==>
        if r.Ok? then Created(old(tree), tree, root, parent, part, layer, r.value) else tree == old(tree)
    {
      RootsAnswer(parent);
      OpeningMisses(tree, root, GetPath(parent) + [part], layer);
      r := OpenInt(parent, [part], layer);
      if r.Fail? && r.error == PathMissing {
        r := CreateChild(parent, part, layer, a);
      }
    }

    /** The same, as a step away from an earlier tree: it succeeds exactly if `StepOk` says so. */
    method Descend(ghost first: Tree, ghost store0: Store, ghost b: nat, parent: Node, part: Part, layer: Bytes, allocs: seq<Allocation>, i: nat)
        returns (r: Result<Node>)
      requires Valid() && Sound(first) && IsAbsolute(first, root) && AllStorable(allocs) && i < |allocs| && i + b == |GetPath(parent)|
      requires GrownBy(first, store0, tree, store, root, GetPath(parent), allocs) && Reached(first, tree, root, GetPath(parent), parent)
      requires GrownExactly(first, store0, tree, store, root, b, GetPath(parent), allocs)
      modifies this
      ensures Valid() && GrownBy(first, store0, tree, store, root, GetPath(parent) + [part], allocs)
      ensures r.Ok? <==> StepOk(first, store0, root, b, GetPath(parent), part, layer, allocs)
      ensures r.Ok? ==> GrownExactly(first, store0, tree, store, root, b, GetPath(parent) + [part], allocs)
      ensures r.Ok? ==> IsNode(tree, root, r.value) && GetPath(r.value) == GetPath(parent) + [part]
      ensures r.Ok? && layer == [] ==> Reached(first, tree, root, GetPath(parent) + [part], r.value)
      ensures r.Ok? ==> GetLayer(r.value) == layer || (layer == [] && Find(first, GetPath(parent) + [part]).Some?)
    {
      ghost var before, between, p := tree, store, GetPath(parent);
      NotYetGrown(first, store0, before, between, root, p, part, allocs);
      r := OpenOrCreate(parent, part, layer, allocs[i]);
      if Find(first, p + [part]).Some? {
        Opened(first, store0, root, b, parent, part, layer, allocs, i, r);
      } else {
        CreateDecides(first, store0, before, between, root, b, parent, part, layer, allocs, i);
        if r.Ok? {
          CreatedIs(before, tree, root, parent, part, layer, r.value);
          CreatedStep(first, store0, before, between, tree, store, root, b, parent, part, layer, r.value, allocs, i);
        } else {
          GrownByFailure(first, store0, before, between, store, root, parent, part, allocs);
        }
      }
    }

    /** The fold of `create_or_open_int` over the parents; one allocation stands by for each. */
    method OpenParents(base: Node, path: Path, allocs: seq<Allocation>) returns (r: Result<Node>)
      requires Valid() && IsNode(tree, root, base) && |path| <= |allocs| && AllStorable(allocs)
      modifies this
      ensures Valid() && GrownBy(old(tree), old(store), tree, store, root, GetPath(base) + path, allocs)
      ensures r.Ok? <==> CanReach(old(tree), old(store), root, |GetPath(base)|, GetPath(base) + path, [], allocs)
      ensures r.Ok? ==> Reached(old(tree), tree, root, GetPath(base) + path, r.value)
      ensures r.Ok? ==> GrownExactly(old(tree), old(store), tree, store, root, |GetPath(base)|, GetPath(base) + path, allocs)
    {
      ghost var first, store0, b, here := tree, store, |GetPath(base)|, GetPath(base);
      GrownExactlyNot(first, store0, root, b, here, allocs);
      r := OpenRest(first, store0, b, here, base, path, allocs, 0);
    }

    ghost predicate OnTheWay(first: Tree, store0: Store, b: nat, here: Path, node: Node, allocs: seq<Allocation>, i: nat)
      reads this
    {
      && Valid() && Sound(first) && IsAbsolute(first, root) && AllStorable(allocs) && |here| == b + i
      && Arrived(first, store0, tree, store, root, b, here, node, allocs)
    }

    method OpenRest(ghost first: Tree, ghost store0: Store, ghost b: nat, ghost here: Path, node: Node, rest: Path, allocs: seq<Allocation>, i: nat)
        returns (r: Result<Node>)
      requires OnTheWay(first, store0, b, here, node, allocs, i) && i + |rest| <= |allocs|
      modifies this
      ensures Valid() && GrownBy(first, store0, tree, store, root, here + rest, allocs)
      ensures if r.Ok? then Arrived(first, store0, tree, store, root, b, here + rest, r.value, allocs)
              else !CanReach(first, store0, root, b, here + rest, [], allocs)
      decreases |rest|
    {
      if rest == [] {
        assert here + rest == here;
        return Ok(node);
      }
      r := StepDown(first, store0, b, here, node, rest[0], allocs, i);
      FirstOfRest(here, rest);
      if r.Fail? {
        StoppedOnTheWay(first, store0, tree, store, root, b, here + [rest[0]], here + rest, allocs);
      } else {
        r := OpenRest(first, store0, b, here + [rest[0]], r.value, rest[1..], allocs, i + 1);
      }
    }

    method StepDown(ghost first: Tree, ghost store0: Store, ghost b: nat, ghost here: Path, node: Node, part: Part, allocs: seq<Allocation>, i: nat)
        returns (r: Result<Node>)
      requires OnTheWay(first, store0, b, here, node, allocs, i) && i < |allocs|
      modifies this
      ensures Valid() && GrownBy(first, store0, tree, store, root, here + [part], allocs)
      ensures if r.Ok? then OnTheWay(first, store0, b, here + [part], r.value, allocs, i + 1)
              else !CanReach(first, store0, root, b, here + [part], [], allocs)
    {
      LastStepDecides(first, store0, root, b, here, part, [], allocs);
      r := Descend(first, store0, b, node, part, [], allocs, i);
    }

    /** `create_or_open_int`, with the last of the allocations for the last name. */
    method CreateOrOpen(node: Node, pathIn: Path, layer: Bytes, allocs: seq<Allocation>) returns (r: Result<Node>)
      requires Valid() && IsNode(tree, root, node) && |GetPath(node) + pathIn| <= |allocs| && AllStorable(allocs)
      modifies this
      ensures Valid() && GrownBy(old(tree), old(store), tree, store, root, GetPath(node) + pathIn, allocs)
      ensures var b, p := |GetPath(GetRoot(node))|, GetPath(node) + pathIn;
        && (r.Ok? <==> b < |p| && CanReach(old(tree), old(store), root, b, p, layer, allocs))
        && (r.Ok? ==> GrownExactly(old(tree), old(store), tree, store, root, b, p, allocs))
      ensures r.Ok? ==> IsNode(tree, root, r.value) && GetPath(r.value) == GetPath(node) + pathIn
      ensures r.Ok? ==> GetLayer(r.value) == layer || (layer == [] && Find(old(tree), GetPath(node) + pathIn).Some?)
    {
      var base := GetRoot(node);
      AdjPath(tree, root, node, pathIn);
      r := CreateOrOpenFrom(base, RelPath(base, node, pathIn), layer, allocs);
    }

    method CreateOrOpenFrom(base: Node, path: Path, layer: Bytes, allocs: seq<Allocation>) returns (r: Result<Node>)
      requires Valid() && IsNode(tree, root, base) && |path| <= |allocs| && AllStorable(allocs)
      modifies this
      ensures Valid() && GrownBy(old(tree), old(store), tree, store, root, GetPath(base) + path, allocs)
      ensures r.Ok? <==> path != [] && CanReach(old(tree), old(store), root, |GetPath(base)|, GetPath(base) + path, layer, allocs)
      ensures r.Ok? ==> GrownExactly(old(tree), old(store), tree, store, root, |GetPath(base)|, GetPath(base) + path, allocs)
      ensures r.Ok? ==> IsNode(tree, root, r.value) && GetPath(r.value) == GetPath(base) + path
      ensures r.Ok? ==> GetLayer(r.value) == layer || (layer == [] && Find(old(tree), GetPath(base) + path).Some?)
    {
      GrownNot(tree, store, root, GetPath(base) + path, allocs);
      if path == [] {
        return Fail(CannotOpenRoot);
      }
      LastBehind(GetPath(base), path);
      ghost var first, store0, b, above := tree, store, |GetPath(base)|, GetPath(base) + Front(path);
      LastStepDecides(first, store0, root, b, above, Last(path), layer, allocs);
      r := OpenParents(base, Front(path), allocs);
      if r.Ok? {
        r := Descend(first, store0, b, r.value, Last(path), layer, allocs, |path| - 1);
      } else {
        GrownByTowards(first, store0, tree, store, root, above, GetPath(base) + path, allocs);
      }
    }

    /** `create/4`: the name of the new node is chosen, below the deepest node there is, before its
        missing parents are made. When it succeeds, and, for a name of the caller's choice, when the
        tree is a good one afterwards. */
    method Create(node: Node, pathIn: Path, layer: Bytes, manual: Option<Name>, leaf: Allocation, allocs: seq<Allocation>)
        returns (r: Result<Node>)
      requires Valid() && IsNode(tree, root, node) && |GetPath(node) + pathIn| <= |allocs| + 1
      requires Storable(leaf) && AllStorable(allocs) && forall i :: 0 <= i < |allocs| ==> allocs[i].id != leaf.id
      modifies this
      ensures var b, p := |GetPath(GetRoot(node))|, GetPath(node) + pathIn;
        && (r.Ok? <==> b < |p| && (manual.Some? ==> MayName(old(tree), root, GetPath(node))) && CanCreateAt(old(tree), old(store), root, b, p, manual, leaf, allocs))
        && Outcome(old(tree), old(store), root, b, p, layer, ChosenName(old(tree), root, p, manual, leaf), allocs, tree, store, r)
        && (r.Ok? && manual.None? ==> Valid() && IsNode(tree, root, r.value))
      ensures manual.Some? && !MayName(old(tree), root, GetPath(node)) ==> r == Fail(ManualNamesProhibited)
      ensures r.Ok? && manual.Some? ==> MayName(old(tree), root, Deepest(old(tree), GetPath(node) + pathIn))
      ensures Find(old(tree), GetPath(node) + pathIn).Some? ==> tree == old(tree) && store == old(store)
    {
      var base := GetRoot(node);
      AdjPath(tree, root, node, pathIn);
      RootsAnswer(node);
      RootDecidesNames(tree, root, GetPath(node));
      RootDecidesNames(tree, root, Deepest(tree, GetPath(node) + pathIn));
      var path := RelPath(base, node, pathIn);
      GrownNot(tree, store, root, GetPath(node) + pathIn, allocs);
      NothingMade(tree, store, root, |GetPath(base)|, GetPath(node) + pathIn, layer, ChosenName(tree, root, GetPath(node) + pathIn, manual, leaf), allocs, ManualNamesProhibited);
      if manual.Some? && !AllowManual(base) {
        return Fail(ManualNamesProhibited);
      }
      r := CreateInt(base, path, layer, manual, leaf, allocs);
    }

    /** `create_int`. */
    method CreateInt(base: Node, path: Path, layer: Bytes, manual: Option<Name>, leaf: Allocation, allocs: seq<Allocation>)
        returns (r: Result<Node>)
      requires Valid() && IsNode(tree, root, base) && |path| <= |allocs| + 1
      requires Storable(leaf) && AllStorable(allocs) && forall i :: 0 <= i < |allocs| ==> allocs[i].id != leaf.id
      modifies this
      ensures var b, p := |GetPath(base)|, GetPath(base) + path;
        && (r.Ok? <==> b < |p| && CanCreateAt(old(tree), old(store), root, b, p, manual, leaf, allocs))
        && Outcome(old(tree), old(store), root, b, p, layer, ChosenName(old(tree), root, p, manual, leaf), allocs, tree, store, r)
        && (r.Ok? && manual.None? ==> Valid() && IsNode(tree, root, r.value))
      ensures Find(old(tree), GetPath(base) + path).Some? ==> tree == old(tree) && store == old(store)
    {
      ghost var b, p := |GetPath(base)|, GetPath(base) + path;
      var e := CheckMissing(base, path);
      if e.Some? {
        NothingMade(tree, store, root, b, p, layer, ChosenName(tree, root, p, manual, leaf), allocs, e.value);
        return Fail(e.value);
      }
      BaseVersion(tree, root, base, path);
      var deepest := FindDeepestNode(base, path);
      r := MakeNode(base, deepest, path, layer, manual, leaf, allocs);
    }

    /** The path must be missing, and the version readable. */
    method CheckMissing(base: Node, path: Path) returns (e: Option<Error>)
      requires Valid() && IsNode(tree, root, base)
      ensures e.None? <==> VersionError(store, Inside(tree, IdOf(tree, base)), false).None? && Find(tree, GetPath(base) + path).None?
      ensures e.None? ==> path != []
    {
      BaseVersion(tree, root, base, path);
      MissingIsBelow(tree, GetPath(base), path);
      var open := OpenInt(base, path, []);
      if open.Ok? {
        return Some(PathExists);
      }
      return if open.error == PathMissing then None else Some(open.error);
    }

    method FindDeepestNode(base: Node, path: Path) returns (deepest: Node)
      requires Valid() && IsNode(tree, root, base)
      ensures deepest == DeepestNode(tree, root, GetPath(base) + path) && IsNode(tree, root, deepest)
    {
      FindDeepestIs(store, tree, root, GetPath(base), path);
      NodeAtIsNode(tree, root, Deepest(tree, GetPath(base) + path));
      deepest := FindDeepest(store, base, path).node;
    }

    /** The rest of `create_int`. */
    method MakeNode(base: Node, deepest: Node, path: Path, layer: Bytes, manual: Option<Name>, leaf: Allocation, allocs: seq<Allocation>)
        returns (r: Result<Node>)
      requires Valid() && IsNode(tree, root, base) && path != [] && |path| <= |allocs| + 1
      requires Find(tree, GetPath(base) + path).None? && IsNode(tree, root, deepest)
      requires deepest == DeepestNode(tree, root, GetPath(base) + path)
      requires Storable(leaf) && AllStorable(allocs) && forall i :: 0 <= i < |allocs| ==> allocs[i].id != leaf.id
      modifies this
      ensures var b, p := |GetPath(base)|, GetPath(base) + path;
        && (r.Ok? <==> CanMake(old(tree), old(store), root, b, p, manual, leaf, allocs))
        && Outcome(old(tree), old(store), root, b, p, layer, ChosenName(old(tree), root, p, manual, leaf), allocs, tree, store, r)
        && (r.Ok? && manual.None? ==> Valid() && IsNode(tree, root, r.value))
    {
      var name := CreateNodeName(deepest, manual, leaf);
      ghost var first, store0, b, p := tree, old(store), |GetPath(base)|, GetPath(base) + path;
      if name.Fail? {
        NothingMade(tree, store, root, b, p, layer, ChosenName(tree, root, p, manual, leaf), allocs, name.error);
        return Fail(name.error);
      }
      r := MakeNamed(base, path, layer, name.value, allocs);
      ChosenOutcome(first, store0, root, b, p, layer, manual, leaf, allocs, tree, store, r);
    }

    /** The missing parents, and the node below them. */
    method MakeNamed(base: Node, path: Path, layer: Bytes, name: Name, allocs: seq<Allocation>) returns (r: Result<Node>)
      requires Valid() && IsNode(tree, root, base) && path != [] && |path| <= |allocs| + 1 && AllStorable(allocs)
      requires Find(tree, GetPath(base) + path).None?
      requires var n := Id(GetNodePrefix(DeepestNode(tree, root, GetPath(base) + path)), name); HasHome(tree, n) && n !in tree.layers
      modifies this
      ensures var b, p := |GetPath(base)|, GetPath(base) + path;
        && (r.Ok? <==> CanPlaceBelow(old(tree), old(store), root, b, p, allocs))
        && Outcome(old(tree), old(store), root, b, p, layer, name, allocs, tree, store, r)
    {
      LastBehind(GetPath(base), path);
      ghost var first, named, b, above := tree, store, |GetPath(base)|, GetPath(base) + Front(path);
      EndOfPath(above, Last(path));
      DeepestStep(first, above, Last(path));
      ghost var d := DeepestNode(first, root, above);
      r := OpenParents(base, Front(path), allocs);
      NotYetGrown(first, named, tree, store, root, above, Last(path), allocs);
      if r.Fail? {
        ParentsFailed(first, named, tree, store, store, root, b, above, Last(path), layer, name, allocs, r);
        return;
      }
      GrownByIsGrown(first, named, tree, store, root, above, allocs);
      r := PlaceBelow(first, named, b, above, d, r.value, Last(path), name, layer, allocs);
    }

    /** The node, once its parents are there. */
    method PlaceBelow(ghost first: Tree, ghost named: Store, ghost b: nat, ghost above: Path, ghost d: Node, parent: Node, part: Part, name: Name,
        layer: Bytes, ghost allocs: seq<Allocation>) returns (r: Result<Node>)
      requires Valid() && PlaceKnown(first, named, tree, store, root, b, above, d, parent, part, name, allocs)
      modifies this
      ensures r.Ok? <==> VersionError(named, GetNodePrefix(d), true).None?
      ensures Outcome(first, named, root, b, above + [part], layer, name, allocs, tree, store, r)
    {
      ghost var t, between := tree, store;
      EndOfPath(above, part);
      NameMeetsParents(first, named, t, between, root, b, above, d, parent, part, name, layer, allocs);
      SafeMeetsParents(first, named, t, between, root, b, above, d, parent, part, name, layer, allocs);
      VersionMeetsParents(first, named, t, between, root, b, above, d, parent, part, name, allocs);
      r := PlaceNode(parent, part, name, layer);
      if r.Fail? {
        GrownTowards(first, t, above, above + [part]);
      } else {
        PlacedOutcome(first, named, t, tree, store, root, b, above, parent, part, name, layer, allocs, r.value);
      }
    }

    /** The version check and the two writes at the end. */
    method PlaceNode(parent: Node, part: Part, name: Name, layer: Bytes) returns (r: Result<Node>)
      requires Valid() && IsNode(tree, root, parent)
      modifies this
      ensures r == var e := VersionError(old(store), GetNodePrefix(parent), true);
        if e.Some? then Fail(e.value) else Ok(InitNode(parent, name, part, layer))
      ensures if r.Ok? then tree == WithNode(old(tree), IdOf(old(tree), parent), part, name, layer) else Valid() && tree == old(tree)
      ensures r.Ok? && CanPlace(Initialized(old(store), GetNodePrefix(parent)), old(tree), root, parent, part, name, layer) ==>
        Valid() && Created(old(tree), tree, root, parent, part, layer, r.value)
    {
      RootsSpace(tree, root, parent);
      var e := CheckVersion(parent, true);
      if e.Some? {
        return Fail(e.value);
      }
      var node := CreateNode(parent, part, name, layer);
      return Ok(node);
    }
  }

  // ---------------------------------------------------------------- nodes being created

  lemma {:induction false} TwoKeysBehind(store: Store, parent: Node, part: Part, name: Name, layer: Bytes)
    ensures Grows(store, store[NodeEntryId(parent, part) := name][NodeLayerId(parent, name) := layer], GetNodePrefix(parent))
  {
    var h, between := GetNodePrefix(parent), store[NodeEntryId(parent, part) := name];
    KeyGrows(store, h, Entry(IdName(parent), part), name);
    KeyGrows(between, h, LayerOf(name), layer);
    GrowsOn(store, between, between[NodeLayerId(parent, name) := layer], h);
  }

  ghost predicate CanPlace(store: Store, t: Tree, root: Node, parent: Node, part: Part, name: Name, layer: Bytes) {
    && Well(store, t) && IsNode(t, root, parent) && Find(t, GetPath(parent) + [part]).None?
    && Namable(t, GetNodePrefix(parent), name) && (layer == PARTITION ==> NothingBehind(store, name))
  }

  lemma {:induction false} NewNodeIsWell(store: Store, t: Tree, root: Node, parent: Node, part: Part, name: Name, layer: Bytes)
    requires CanPlace(store, t, root, parent, part, name, layer)
    ensures var after := store[NodeEntryId(parent, part) := name][NodeLayerId(parent, name) := layer];
      var u := WithNode(t, IdOf(t, parent), part, name, layer);
      && Well(after, u) && u.root == t.root && Created(t, u, root, parent, part, layer, InitNode(parent, name, part, layer))
      && Grows(store, after, GetNodePrefix(parent))
  {
    NewNodeFits(t, root, parent, part, name, layer);
    NewNodeStored(store, t, root, parent, part, name, layer);
    TwoKeysBehind(store, parent, part, name, layer);
  }

  /** An allocated name has no key behind it when the node is written. */
  lemma {:induction false} NamedIsUnused(store0: Store, t: Tree, parent: Node, a: Allocation, name: Name, store: Store)
    requires Storable(a) && NameAnswer(store0, t, parent, None, a) == Ok(name)
    requires Grows(store0, store, GetNodePrefix(parent))
    ensures Fresh(t, GetNodePrefix(parent), name) && NothingBehind(store, name)
  {
    var h := GetNodePrefix(parent);
    AllocatedGrows(store0, h, a);
    GrowthUsesNoName(store0, Allocated(store0, h, a), h, name);
    GrowthUsesNoName(store0, store, h, name);
    UnusedIsNothingBehind(store, name);
  }

  lemma {:induction false} UnusedIsNothingBehind(store: Store, name: Name)
    ensures Unused(store, name) ==> NothingBehind(store, name)
  {
    if Unused(store, name) {
      forall k | k in store ensures !IsPrefix(Space(name), k) {
        assert Space(name)[..|name|] == name;
        PrefixesChain(name, Space(name), k);
      }
    }
  }

  lemma {:induction false} CreatedIs(before: Tree, after: Tree, root: Node, parent: Node, part: Part, layer: Bytes, node: Node)
    requires Created(before, after, root, parent, part, layer, node)
    ensures GetPath(node) == GetPath(parent) + [part] && GetLayer(node) == layer && IsNode(after, root, node)
  {
  }

  // ---------------------------------------------------------------- when a step succeeds

  /** What opening one path name, or creating it, answers. */
  ghost function StepAnswer(store: Store, t: Tree, root: Node, parent: Node, part: Part, layer: Bytes, a: Allocation): Result<Node>
    requires Sound(t) && Storable(a)
  {
    var e, next := VersionError(store, GetNodePrefix(parent), false), GetPath(parent) + [part];
    if e.Some? then Fail(e.value)
    else if Find(t, next).Some? then Opening(t, root, next, layer)
    else ChildAnswer(store, t, parent, part, layer, a)
  }

  /** What the two checks of an allocated name ask. */
  lemma {:induction false} AllocatedDecides(store: Store, t: Tree, h: Bytes, contentPrefix: Bytes, a: Allocation)
    requires Well(store, t) && IsSpace(t, h) && HasName(store, h, h) && Storable(a)
    ensures var name := AllocatedName(contentPrefix, a);
      && Strinc(name).Some? && (AnyKey(store, name, Strinc(name).value) <==> !Unused(store, name))
      && IsPrefixFree(store, h, name) == Some(Fresh(t, h, name)) && (Fresh(t, h, name) ==> Id(h, name) !in t.layers)
  {
    var name := AllocatedName(contentPrefix, a);
    AllocatedHasNext(contentPrefix, a);
    NothingInRange(store, name);
    PrefixFreeIsFresh(store, t, h, name);
    if Fresh(t, h, name) {
      FreshIsNew(t, h, name);
    }
  }

  /** A node there is opened, or not, as it would have been before the first step. */
  lemma {:induction false} Opened(first: Tree, store0: Store, root: Node, b: nat, parent: Node, part: Part, layer: Bytes,
      allocs: seq<Allocation>, i: nat, r: Result<Node>)
    requires IsNode(first, root, parent) && Find(first, GetPath(parent) + [part]).Some?
    requires i < |allocs| && i + b == |GetPath(parent)| && AllStorable(allocs)
    requires r == StepAnswer(store0, first, root, parent, part, layer, allocs[i])
    ensures var p, next := GetPath(parent), GetPath(parent) + [part];
      && (r.Ok? <==> StepOk(first, store0, root, b, p, part, layer, allocs))
      && GrownBy(first, store0, first, store0, root, next, allocs) && GrownExactly(first, store0, first, store0, root, b, next, allocs)
      && (r.Ok? ==> Reached(first, first, root, next, r.value) && (layer == [] || GetLayer(r.value) == layer))
  {
    var next := GetPath(parent) + [part];
    NodeAtIs(first, root, GetPath(parent));
    NodeAtIsNode(first, root, next);
    GrownExactlyNot(first, store0, root, b, next, allocs);
  }

  lemma {:induction false} CreateDecides(first: Tree, store0: Store, t: Tree, store: Store, root: Node, b: nat, parent: Node, part: Part,
      layer: Bytes, allocs: seq<Allocation>, i: nat)
    requires Sound(first) && Sound(t) && AllStorable(allocs) && GrownExactly(first, store0, t, store, root, b, GetPath(parent), allocs)
    requires Reached(first, t, root, GetPath(parent), parent)
    requires Find(first, GetPath(parent) + [part]).None? && Find(t, GetPath(parent) + [part]).None?
    requires i < |allocs| && i + b == |GetPath(parent)|
    ensures var r := StepAnswer(store, t, root, parent, part, layer, allocs[i]);
      && (r.Ok? <==> StepOk(first, store0, root, b, GetPath(parent), part, layer, allocs))
      && (r.Ok? ==> !r.value.Root? && r.value.name == AllocatedName(ContentPrefix(parent), allocs[i]))
  {
    StepDecides(first, store0, t, store, root, b, GetPath(parent), parent, part, layer, allocs, i);
    AnswerWhereMissing(store, t, root, parent, part, layer, allocs[i]);
  }

  /** Who may write may read. */
  lemma {:induction false} AnswerWhereMissing(store: Store, t: Tree, root: Node, parent: Node, part: Part, layer: Bytes, a: Allocation)
    requires Sound(t) && Storable(a) && Find(t, GetPath(parent) + [part]).None?
    ensures var r, made := StepAnswer(store, t, root, parent, part, layer, a), ChildAnswer(store, t, parent, part, layer, a);
      (r.Ok? <==> made.Ok?) && (r.Ok? ==> r == made)
  {
    var h := GetNodePrefix(parent);
    assert VersionError(store, h, true).None? ==> VersionError(store, h, false).None?;
  }

  lemma {:induction false} CreatedStep(first: Tree, store0: Store, before: Tree, between: Store, after: Tree, store: Store, root: Node,
      b: nat, parent: Node, part: Part, layer: Bytes, node: Node, allocs: seq<Allocation>, i: nat)
    requires Sound(first) && IsAbsolute(first, root) && AllStorable(allocs) && i < |allocs| && i + b == |GetPath(parent)|
    requires GrownBy(first, store0, before, between, root, GetPath(parent), allocs)
    requires GrownExactly(first, store0, before, between, root, b, GetPath(parent), allocs)
    requires Reached(first, before, root, GetPath(parent), parent) && Find(first, GetPath(parent) + [part]).None?
    requires Created(before, after, root, parent, part, layer, node) && Grows(between, store, GetNodePrefix(parent))
    requires node.name == AllocatedName(ContentPrefix(parent), allocs[i])
    ensures GrownBy(first, store0, after, store, root, GetPath(parent) + [part], allocs)
    ensures GrownExactly(first, store0, after, store, root, b, GetPath(parent) + [part], allocs)
    ensures layer != PARTITION ==> Reached(first, after, root, GetPath(parent) + [part], node)
  {
    var d := DeepestNode(first, root, GetPath(parent));
    SameRootsAnswer(parent, d);
    NameIsAllocated(ContentPrefix(parent), allocs, i);
    GrownByOneMore(first, store0, before, between, after, store, root, parent, part, layer, node, allocs);
    GrownExactlyOneMore(first, store0, before, between, after, store, root, b, GetPath(parent), parent, part, layer, node, d, allocs, i);
  }

  lemma {:induction false} NameIsAllocated(contentPrefix: Bytes, allocs: seq<Allocation>, i: nat)
    requires i < |allocs| && AllStorable(allocs)
    ensures IsAllocated(contentPrefix, allocs, AllocatedName(contentPrefix, allocs[i]))
  {
  }

  /** A node on the way, and what has been created to get there. */
  ghost predicate Arrived(first: Tree, store0: Store, t: Tree, store: Store, root: Node, b: nat, p: Path, node: Node, allocs: seq<Allocation>)
    requires Sound(first)
  {
    && GrownBy(first, store0, t, store, root, p, allocs) && GrownExactly(first, store0, t, store, root, b, p, allocs)
    && Reached(first, t, root, p, node) && CanReach(first, store0, root, b, p, [], allocs)
  }

  /** What fails on the way fails the whole path. */
  lemma {:induction false} StoppedOnTheWay(first: Tree, store0: Store, t: Tree, store: Store, root: Node, b: nat, p: Path, q: Path, allocs: seq<Allocation>)
    requires Sound(first) && p <= q && GrownBy(first, store0, t, store, root, p, allocs)
    ensures GrownBy(first, store0, t, store, root, q, allocs)
    ensures CanReach(first, store0, root, b, q, [], allocs) ==> CanReach(first, store0, root, b, p, [], allocs)
  {
    GrownByTowards(first, store0, t, store, root, p, q, allocs);
    if CanReach(first, store0, root, b, q, [], allocs) {
      forall k | b <= k < |p| ensures StepOk(first, store0, root, b, p[..k], p[k], [], allocs) {
        assert p[..k] == q[..k] && p[k] == q[k];
      }
    }
  }

  lemma {:induction false} LastStepDecides(first: Tree, store: Store, root: Node, b: nat, above: Path, part: Part, layer: Bytes, allocs: seq<Allocation>)
    requires Sound(first) && b <= |above|
    ensures CanReach(first, store, root, b, above + [part], layer, allocs)
      <==> CanReach(first, store, root, b, above, [], allocs) && StepOk(first, store, root, b, above, part, layer, allocs)
  {
    var p := above + [part];
    assert p[..|above|] == above;
    forall k | b <= k < |above| ensures p[..k] == above[..k] && p[k] == above[k] {
    }
  }

  lemma {:induction false} FailureIsGrown(first: Tree, store0: Store, t: Tree, store: Store, root: Node, p: Path, q: Path, allocs: seq<Allocation>)
    requires Sound(first) && GrownBy(first, store0, t, store, root, p, allocs) && p <= q
    ensures Grown(first, t, q)
  {
    GrownByTowards(first, store0, t, store, root, p, q, allocs);
    GrownByIsGrown(first, store0, t, store, root, q, allocs);
  }

  lemma {:induction false} FirstOfRest(p: Path, rest: Path)
    requires rest != []
    ensures p + [rest[0]] + rest[1..] == p + rest && p + [rest[0]] <= p + rest
  {
    assert rest == [rest[0]] + rest[1..];
    assert p + [rest[0]] + rest[1..] == p + rest;
  }

  lemma {:induction false} GrownNot(t: Tree, store: Store, root: Node, path: Path, allocs: seq<Allocation>)
    requires Sound(t)
    ensures Grown(t, t, path) && GrownBy(t, store, t, store, root, path, allocs)
  {
  }

  lemma {:induction false} NamesDecided(store: Store, t: Tree, root: Node, n: Node, manual: Option<Name>, a: Allocation)
    requires IsNode(t, root, n) && Storable(a)
    ensures var r := NameAnswer(store, t, n, manual, a);
      && (manual.Some? ==> (r == Fail(ManualNamesProhibited) <==> !MayName(t, root, GetPath(n))))
      && (r.Ok? ==> r.value == if manual.Some? then manual.value else NamesBegin(t, root, GetPath(n)) + HcaKeys.IdBytes(a.id))
    ensures var r, h := NameAnswer(store, t, n, manual, a), GetNodePrefix(n);
      if manual.Some? then
        MayName(t, root, GetPath(n)) ==>
          && (r == Fail(NoNextKey) <==> IsPrefixFree(store, h, manual.value).None?)
          && (r == Fail(NodeNameInUse) <==> IsPrefixFree(store, h, manual.value) == Some(false))
      else
        var after, name := NamingStore(store, n, manual, a), NamesBegin(t, root, GetPath(n)) + HcaKeys.IdBytes(a.id);
        && (r == Fail(KeysExistForAllocatedName) <==> !Unused(after, name))
        && (r == Fail(NamesConflict) <==> Unused(after, name) && !Fresh(t, h, name))
  {
    RootDecidesNames(t, root, GetPath(n));
  }

  // ---------------------------------------------------------------- when a node is created

  /** Names of the caller's choice are for nodes outside all partitions, if the absolute root allows
      them. */
  predicate MayName(t: Tree, root: Node, p: Path)
    requires root.Root?
  {
    RootOf(t, p) == [] && root.allowManual
  }

  /** What allocated names begin with. */
  function NamesBegin(t: Tree, root: Node, p: Path): Bytes
    requires root.Root?
  {
    if RootOf(t, p) == [] || Find(t, RootOf(t, p)).None? then root.contentPrefix else Find(t, RootOf(t, p)).value.name
  }

  /** The store when the name has been chosen. */
  ghost function NamingStore(store: Store, deepest: Node, manual: Option<Name>, a: Allocation): Store
    requires Storable(a)
  {
    if manual.Some? then store else Allocated(store, GetNodePrefix(deepest), a)
  }

  /** Parents can be opened or created, and the version written. */
  ghost predicate CanPlaceBelow(first: Tree, store: Store, root: Node, b: nat, p: Path, allocs: seq<Allocation>)
    requires Sound(first) && p != []
  {
    && CanReach(first, store, root, b, Front(p), [], allocs)
    && VersionError(store, GetNodePrefix(DeepestNode(first, root, p)), true).None?
  }

  ghost predicate CanMake(first: Tree, store: Store, root: Node, b: nat, p: Path, manual: Option<Name>, leaf: Allocation, allocs: seq<Allocation>)
    requires Sound(first) && p != [] && Storable(leaf)
  {
    var d := DeepestNode(first, root, p);
    NameAnswer(store, first, d, manual, leaf).Ok? && CanPlaceBelow(first, NamingStore(store, d, manual, leaf), root, b, p, allocs)
  }

  /** The path is missing, the name is accepted, the parents are there or can be created. */
  ghost predicate CanCreateAt(first: Tree, store: Store, root: Node, b: nat, p: Path, manual: Option<Name>, leaf: Allocation, allocs: seq<Allocation>)
    requires Sound(first) && b < |p| && Storable(leaf)
  {
    && Find(first, p[..b]).Some? && VersionError(store, Inside(first, Find(first, p[..b]).value), false).None?
    && Find(first, p).None? && CanMake(first, store, root, b, p, manual, leaf, allocs)
  }

  ghost function ChosenName(first: Tree, root: Node, p: Path, manual: Option<Name>, leaf: Allocation): Name
    requires Sound(first) && Storable(leaf)
  {
    if manual.Some? then manual.value else AllocatedName(ContentPrefix(DeepestNode(first, root, p)), leaf)
  }

  /** The new node: where, with which layer, under which name. */
  ghost predicate IsMade(first: Tree, p: Path, layer: Bytes, name: Name, node: Node) {
    p != [] && Find(first, p).None? && GetPath(node) == p && GetLayer(node) == layer && !node.Root? && node.name == name
  }

  /** What `create` leaves. If it succeeds the tree is a good one exactly if the name stays fresh. If it
      fails, or the name does no harm, all is well and only beginnings of the path are new. */
  ghost predicate Outcome(first: Tree, store0: Store, root: Node, b: nat, p: Path, layer: Bytes, name: Name, allocs: seq<Allocation>,
      t: Tree, store: Store, r: Result<Node>)
    requires Sound(first) && AllStorable(allocs)
  {
    && (r.Ok? ==> IsMade(first, p, layer, name, r.value))
    && (r.Ok? ==> (Sound(t) && Named(t) <==> StaysFresh(first, root, b, Front(p), name, allocs)))
    && (r.Fail? || IsSafe(first, store0, root, b, p, layer, name, allocs) ==>
          IsAbsolute(t, root) && Well(store, t) && Grown(first, t, p) && (r.Ok? ==> IsNode(t, root, r.value)))
  }

  /** Where a name of the caller's choice does no harm: it stays fresh, and nothing in the store is
      taken for the inside of a partition it names. */
  ghost predicate IsSafe(first: Tree, store: Store, root: Node, b: nat, p: Path, layer: Bytes, name: Name, allocs: seq<Allocation>)
    requires Sound(first) && AllStorable(allocs)
  {
    p != [] && StaysFresh(first, root, b, Front(p), name, allocs) && (layer == PARTITION ==> NothingBehind(store, name))
  }

  lemma {:induction false} NothingMade(t: Tree, store: Store, root: Node, b: nat, p: Path, layer: Bytes, name: Name, allocs: seq<Allocation>, e: Error)
    requires IsAbsolute(t, root) && Well(store, t) && AllStorable(allocs)
    ensures forall store0 :: Outcome(t, store0, root, b, p, layer, name, allocs, t, store, Fail(e))
  {
  }

  lemma {:induction false} ParentsFailed(first: Tree, store0: Store, t: Tree, store: Store, store1: Store, root: Node, b: nat, above: Path, part: Part,
      layer: Bytes, name: Name, allocs: seq<Allocation>, r: Result<Node>)
    requires Sound(first) && AllStorable(allocs) && GrownBy(first, store0, t, store, root, above, allocs)
    requires IsAbsolute(t, root) && Well(store1, t) && r.Fail?
    ensures Outcome(first, store0, root, b, above + [part], layer, name, allocs, t, store1, r)
  {
    FailureIsGrown(first, store0, t, store, root, above, above + [part], allocs);
  }

  lemma {:induction false} MissingIsBelow(t: Tree, p: Path, q: Path)
    requires Find(t, p).Some?
    ensures Find(t, p + q).None? ==> q != []
  {
    assert q == [] ==> p + q == p;
  }

  lemma {:induction false} BaseVersion(t: Tree, root: Node, base: Node, path: Path)
    requires IsNode(t, root, base)
    ensures var b := |GetPath(base)|; (GetPath(base) + path)[..b] == GetPath(base)
    ensures GetNodePrefix(GetRoot(base)) == Inside(t, IdOf(t, base))
  {
    NodeAtIs(t, root, GetPath(base));
    RootsAnswer(base);
  }

  lemma {:induction false} InitializedIsWell(store: Store, t: Tree, h: Bytes)
    requires Well(store, t) && IsSpace(t, h)
    ensures Well(Initialized(store, h), t)
  {
    RootKeyIsNeutral(t, h, Version);
    SetNeutral(store, t, KeyOf(h, Version), LAYER_VERSION);
    KeyKeepsSpaced(store, t, h, Version, LAYER_VERSION);
  }

  /** Where the node goes, once its parents are there. */
  ghost predicate PlaceKnown(first: Tree, named: Store, t: Tree, store: Store, root: Node, b: nat, above: Path, d: Node, parent: Node, part: Part,
      name: Name, allocs: seq<Allocation>) {
    && Sound(first) && AllStorable(allocs) && Find(first, above + [part]).None? && Find(t, above + [part]).None?
    && Grown(first, t, above) && GrownExactly(first, named, t, store, root, b, above, allocs)
    && d == DeepestNode(first, root, above) && Reached(first, t, root, above, parent)
    && HasHome(first, Id(GetNodePrefix(d), name)) && Id(GetNodePrefix(d), name) !in first.layers
  }

  /** With the parents there, the name and the version decide as they would have before. */
  lemma {:induction false} NameMeetsParents(first: Tree, named: Store, t: Tree, store: Store, root: Node, b: nat, above: Path, d: Node,
      parent: Node, part: Part, name: Name, layer: Bytes, allocs: seq<Allocation>)
    requires PlaceKnown(first, named, t, store, root, b, above, d, parent, part, name, allocs) && Named(t)
    ensures var w := WithNode(t, IdOf(t, parent), part, name, layer);
      Sound(w) && Named(w) <==> StaysFresh(first, root, b, above, name, allocs)
  {
    SameRootsAnswer(parent, d);
    HomeIsKept(first, t, Id(GetNodePrefix(d), name), above);
    CheckedBeforeItsParents(first, named, t, store, root, b, above, allocs, parent, part, name, layer);
  }

  lemma {:induction false} PlacedOutcome(first: Tree, named: Store, t: Tree, after: Tree, store: Store, root: Node, b: nat, above: Path,
      parent: Node, part: Part, name: Name, layer: Bytes, allocs: seq<Allocation>, node: Node)
    requires Sound(first) && AllStorable(allocs) && Grown(first, t, above) && Find(first, above + [part]).None?
    requires GetPath(parent) == above && node == InitNode(parent, name, part, layer)
    requires Sound(after) && Named(after) <==> StaysFresh(first, root, b, above, name, allocs)
    requires IsSafe(first, named, root, b, above + [part], layer, name, allocs) ==>
      IsAbsolute(after, root) && Well(store, after) && Created(t, after, root, parent, part, layer, node)
    ensures Outcome(first, named, root, b, above + [part], layer, name, allocs, after, store, Ok(node))
  {
    EndOfPath(above, part);
    if IsSafe(first, named, root, b, above + [part], layer, name, allocs) {
      OneMoreGrown(first, t, after, root, parent, part, layer, node);
      CreatedIs(t, after, root, parent, part, layer, node);
    }
  }

  lemma {:induction false} VersionMeetsParents(first: Tree, named: Store, t: Tree, store: Store, root: Node, b: nat, above: Path, d: Node,
      parent: Node, part: Part, name: Name, allocs: seq<Allocation>)
    requires PlaceKnown(first, named, t, store, root, b, above, d, parent, part, name, allocs)
    ensures VersionError(store, GetNodePrefix(parent), true) == VersionError(named, GetNodePrefix(d), true)
  {
    SameRootsAnswer(parent, d);
  }

  lemma {:induction false} SafeMeetsParents(first: Tree, named: Store, t: Tree, store: Store, root: Node, b: nat, above: Path, d: Node,
      parent: Node, part: Part, name: Name, layer: Bytes, allocs: seq<Allocation>)
    requires PlaceKnown(first, named, t, store, root, b, above, d, parent, part, name, allocs) && Well(store, t)
    ensures IsSafe(first, named, root, b, above + [part], layer, name, allocs) ==>
      CanPlace(Initialized(store, GetNodePrefix(parent)), t, root, parent, part, name, layer)
  {
    var lo, hi := |Deepest(first, above)|, |above|;
    EndOfPath(above, part);
    SameRootsAnswer(parent, d);
    HomeIsKept(first, t, Id(GetNodePrefix(d), name), above);
    StaysFreshIs(first, root, b, above, name, allocs, d, lo, hi);
    if IsSafe(first, named, root, b, above + [part], layer, name, allocs) {
      SafeCanPlace(first, named, t, store, root, d, allocs, b, lo, hi, parent, part, name, layer);
    }
  }

  lemma {:induction false} SafeCanPlace(first: Tree, named: Store, t: Tree, store: Store, root: Node, d: Node, allocs: seq<Allocation>, b: nat, lo: nat, hi: nat,
      parent: Node, part: Part, name: Name, layer: Bytes)
    requires AllStorable(allocs) && Well(store, t) && GrownFrom(first, named, t, store, d, allocs, b, lo, hi)
    requires IsNode(t, root, parent) && GetNodePrefix(parent) == GetNodePrefix(d) && Find(t, GetPath(parent) + [part]).None?
    requires HasHome(t, Id(GetNodePrefix(d), name))
    requires Fresh(first, GetNodePrefix(d), name) && ApartFromNew(ContentPrefix(d), allocs, b, lo, hi, name)
    requires layer == PARTITION ==> NothingBehind(named, name)
    ensures CanPlace(Initialized(store, GetNodePrefix(parent)), t, root, parent, part, name, layer)
  {
    var h := GetNodePrefix(d);
    FreshAmid(first, t, h, ContentPrefix(d), allocs, b, lo, hi, name);
    RootsSpace(t, root, parent);
    InitializedIsWell(store, t, h);
    InitializedGrows(store, h);
    GrowsOn(named, store, Initialized(store, h), h);
    GrowthUsesNoName(named, Initialized(store, h), h, name);
  }

  lemma {:induction false} HomeIsKept(first: Tree, t: Tree, n: Id, path: Path)
    requires Grown(first, t, path) && HasHome(first, n)
    ensures HasHome(t, n)
  {
    if n.home != first.root {
      var p :| Under(first, n, p);
      assert Under(t, n, p);
    }
  }

  /** The outcome in terms of the store before the name was chosen. */
  lemma {:induction false} ChosenOutcome(first: Tree, store0: Store, root: Node, b: nat, p: Path, layer: Bytes, manual: Option<Name>, leaf: Allocation,
      allocs: seq<Allocation>, t: Tree, store: Store, r: Result<Node>)
    requires Sound(first) && p != [] && Find(first, p).None? && Storable(leaf) && AllStorable(allocs)
    requires forall i :: 0 <= i < |allocs| ==> allocs[i].id != leaf.id
    requires NameAnswer(store0, first, DeepestNode(first, root, p), manual, leaf) == Ok(ChosenName(first, root, p, manual, leaf))
    requires Outcome(first, NamingStore(store0, DeepestNode(first, root, p), manual, leaf), root, b, p, layer,
      ChosenName(first, root, p, manual, leaf), allocs, t, store, r)
    ensures Outcome(first, store0, root, b, p, layer, ChosenName(first, root, p, manual, leaf), allocs, t, store, r)
    ensures r.Ok? && manual.None? ==> IsAbsolute(t, root) && Well(store, t) && IsNode(t, root, r.value)
  {
    var d, name := DeepestNode(first, root, p), ChosenName(first, root, p, manual, leaf);
    if manual.None? {
      ChosenWell(first, store0, root, b, p, layer, leaf, allocs);
      AllocatedGrows(store0, GetNodePrefix(d), leaf);
      GrowthUsesNoName(store0, Allocated(store0, GetNodePrefix(d), leaf), GetNodePrefix(d), name);
    }
  }

  /** An allocated name does no harm. */
  lemma {:induction false} ChosenWell(first: Tree, store0: Store, root: Node, b: nat, p: Path, layer: Bytes, leaf: Allocation, allocs: seq<Allocation>)
    requires Sound(first) && p != [] && Find(first, p).None? && Storable(leaf) && AllStorable(allocs)
    requires forall i :: 0 <= i < |allocs| ==> allocs[i].id != leaf.id
    requires NameAnswer(store0, first, DeepestNode(first, root, p), None, leaf).Ok?
    ensures var d := DeepestNode(first, root, p);
      IsSafe(first, Allocated(store0, GetNodePrefix(d), leaf), root, b, p, layer, AllocatedName(ContentPrefix(d), leaf), allocs)
  {
    var d, front := DeepestNode(first, root, p), Front(p);
    assert front + [Last(p)] == p;
    DeepestStep(first, front, Last(p));
    LeafWell(first, store0, root, b, front, d, leaf, allocs, AllocatedName(ContentPrefix(d), leaf));
  }

  lemma {:induction false} LeafWell(first: Tree, store0: Store, root: Node, b: nat, above: Path, d: Node, leaf: Allocation, allocs: seq<Allocation>, name: Name)
    requires Sound(first) && Storable(leaf) && AllStorable(allocs) && d == DeepestNode(first, root, above)
    requires forall i :: 0 <= i < |allocs| ==> allocs[i].id != leaf.id
    requires NameAnswer(store0, first, d, None, leaf).Ok? && name == AllocatedName(ContentPrefix(d), leaf)
    ensures StaysFresh(first, root, b, above, name, allocs) && NothingBehind(Allocated(store0, GetNodePrefix(d), leaf), name)
  {
    AnswerGives(store0, first, d, leaf);
    AllocatedStaysFresh(first, root, b, above, d, leaf, allocs);
    UnusedIsNothingBehind(Allocated(store0, GetNodePrefix(d), leaf), name);
  }

  lemma {:induction false} AllocatedStaysFresh(first: Tree, root: Node, b: nat, above: Path, d: Node, leaf: Allocation, allocs: seq<Allocation>)
    requires Sound(first) && Storable(leaf) && AllStorable(allocs) && d == DeepestNode(first, root, above)
    requires forall i :: 0 <= i < |allocs| ==> allocs[i].id != leaf.id
    requires Fresh(first, GetNodePrefix(d), AllocatedName(ContentPrefix(d), leaf))
    ensures StaysFresh(first, root, b, above, AllocatedName(ContentPrefix(d), leaf), allocs)
  {
    var lo, hi := |Deepest(first, above)|, |above|;
    NamesApartFrom(ContentPrefix(d), allocs, b, lo, hi, leaf);
    StaysFreshIs(first, root, b, above, AllocatedName(ContentPrefix(d), leaf), allocs, d, lo, hi);
  }

  lemma {:induction false} AnswerGives(store: Store, t: Tree, n: Node, a: Allocation)
    requires Storable(a) && NameAnswer(store, t, n, None, a).Ok?
    ensures var h, name := GetNodePrefix(n), AllocatedName(ContentPrefix(n), a);
      Fresh(t, h, name) && Unused(Allocated(store, h, a), name)
  {
  }

  lemma {:induction false} NamesApartFrom(contentPrefix: Bytes, allocs: seq<Allocation>, b: nat, lo: nat, hi: nat, leaf: Allocation)
    requires AllStorable(allocs) && Storable(leaf) && forall i :: 0 <= i < |allocs| ==> allocs[i].id != leaf.id
    ensures ApartFromNew(contentPrefix, allocs, b, lo, hi, AllocatedName(contentPrefix, leaf))
  {
    forall i | 0 <= i < |allocs| ensures Apart(AllocatedName(contentPrefix, allocs[i]), AllocatedName(contentPrefix, leaf)) {
      AllocatedNamesApart(contentPrefix, allocs[i], leaf);
    }
  }

  // ---------------------------------------------------------------- the root of a path

  function IdAt(t: Tree, p: Path): Id {
    if Find(t, p).Some? then Find(t, p).value else Origin(t)
  }

  /** `get_root_for_path`: a partition named by itself is taken from outside. */
  function RootForPath(node: Node, path: Path): Node {
    if node.Partition? && path == [] then node.root else GetRoot(node)
  }

  lemma {:induction false} RootForPathIs(t: Tree, root: Node, node: Node, path: Path)
    requires IsNode(t, root, node) && Named(t)
    ensures var base := RootForPath(node, path);
      && IsNode(t, root, base) && GetRoot(base) == base && |GetPath(base)| <= |GetPath(node)|
      && GetPath(base) + RelPath(base, node, path) == GetPath(node) + path
      && IsSpace(t, GetNodePrefix(base))
      && (path == [] && IsPartition(t, IdOf(t, node)) ==> GetPath(node) != [])
      && GetPath(base) == (if path == [] && IsPartition(t, IdOf(t, node)) then PartitionOf(t, GetPath(node) + path) else RootOf(t, GetPath(node)))
      && GetNodePrefix(base) == Inside(t, IdAt(t, GetPath(base)))
  {
    RootForPathAt(t, root, node, path);
    AdjPath(t, root, node, path);
    if node.Partition? && path == [] {
      NodeAtIs(t, root, GetPath(node));
      PartitionOfNode(t, root, node);
      assert Front(GetPath(node)) <= GetPath(node);
      JoinRest(GetPath(node.root), GetPath(node), path);
      RootIsAbove(t, Front(GetPath(node)));
      RootsRoot(t, root, node.root);
    } else {
      RootIsAbove(t, GetPath(node));
      RootsRoot(t, root, GetRoot(node));
    }
    RootsSpace(t, root, RootForPath(node, path));
  }

  lemma {:induction false} RootForPathAt(t: Tree, root: Node, node: Node, path: Path)
    requires IsNode(t, root, node)
    ensures var base := RootForPath(node, path);
      && (path == [] && IsPartition(t, IdOf(t, node)) ==> GetPath(node) != [])
      && GetPath(base) == (if path == [] && IsPartition(t, IdOf(t, node)) then PartitionOf(t, GetPath(node) + path) else RootOf(t, GetPath(node)))
      && GetNodePrefix(base) == Inside(t, IdAt(t, GetPath(base)))
  {
    var p := GetPath(node);
    NodeAtIs(t, root, p);
    FoundHasLayer(t, p);
    assert p + [] == p;
    if node.Partition? && path == [] {
      PartitionOfNode(t, root, node);
      NodeAtIs(t, root, PartitionOf(t, p));
    } else {
      RootOfNode(t, root, node);
      NodeAtIs(t, root, RootOf(t, p));
    }
  }

  lemma {:induction false} RootsRoot(t: Tree, root: Node, n: Node)
    requires IsNode(t, root, n)
    ensures GetRoot(n) == n <==> RootOf(t, GetPath(n)) == GetPath(n)
    ensures GetPath(n) == [] || n.Partition? ==> GetRoot(n) == n
  {
    NodeAtIs(t, root, GetPath(n));
    RootOfNode(t, root, n);
    RootIsAbove(t, GetPath(n));
  }

  /** All goes, if the versions of the roots that the nodes of the subtree go by may be read. */
  ghost predicate Removes(root: Node, before: Tree, store0: Store, p: Path, after: Tree, store: Store, r: Result<()>)
    requires Removable(before, p)
  {
    var nodes := Below(before, Find(before, p).value);
    if AllMayRead(store0, before, nodes) then
      (r == Ok(()) && after == DirectoryTree.Remove(before, p) && store == RemovedStore(store0, before, p))
    else
      && after == before && store == store0
      && r.Fail? && exists n :: n in nodes && VersionError(store0, Inside(before, n), false) == Some(r.error)
  }

  lemma {:induction false} NothingStored(store: Store, t: Tree)
    requires t.children == map[] && t.layers == map[] && forall k :: k in store ==> !IsPrefix(t.root, k)
    ensures Well(store, t)
  {
    forall s: Slot | Known(t, s.parent) ensures EntryAgrees(store, t, s) {
      UnpackedKey(t.root, Entry(t.root, s.part));
    }
    forall n: Id | IsSpace(t, n.home) ensures LayerAgrees(store, t, n) {
      UnpackedKey(t.root, LayerOf(n.name));
    }
    forall h, m, part | IsSpace(t, h) ensures !StoresEntry(store, h, m, part) {
      UnpackedKey(t.root, Entry(m, part));
    }
  }

  // ---------------------------------------------------------------- nodes between steps

  lemma {:induction false} NodeFits(t: Tree, root: Node, node: Node)
    requires IsNode(t, root, node)
    ensures Fits(t, IdOf(t, node), node)
  {
    NodeAtIs(t, root, GetPath(node));
    FoundHasLayer(t, GetPath(node));
  }

  lemma {:induction false} RootsSpace(t: Tree, root: Node, node: Node)
    requires IsNode(t, root, node) && Named(t)
    ensures IsSpace(t, GetNodePrefix(GetRoot(node))) && GetNodePrefix(GetRoot(node)) == GetNodePrefix(node)
  {
    NodeAtIs(t, root, GetPath(node));
    FoundHasLayer(t, GetPath(node));
    RootsAnswer(node);
    InsideIsSpace(t, IdOf(t, node));
  }

  lemma {:induction false} FrontBehind(b: Path, p: Path)
    ensures p != [] ==> Front(b + p) == b + Front(p) && b + p != []
  {
  }

  /** What the two writes of `move` come to. */
  lemma {:induction false} TwoWrites(t: Tree, root: Node, source: Node, parent: Node, dst: Path)
    requires IsNode(t, root, source) && IsNode(t, root, parent)
    requires CanMove(t, GetPath(source), dst) && GetPath(parent) == Front(dst)
    ensures dst != [] && !source.Root? && source.name == IdOf(t, source).name && GetPath(source) != []
    ensures Find(t, Front(GetPath(source))).Some? && SlotOf(t, dst) == Slot(IdOf(t, parent), Last(dst))
    ensures |GetPath(GetPartition(source))| < |GetPath(source)|
    ensures var from := Slot(Find(t, Front(GetPath(source))).value, Last(RelPath(GetPartition(source), source, [])));
      var u := PutEntry(t, SlotOf(t, dst), source.name);
      && from == SlotOf(t, GetPath(source)) && EntryKey(u, from) == EntryKey(t, from)
      && DirectoryTree.Move(t, GetPath(source), dst) == Moved(u.(children := u.children - {from}))
  {
    MoveSlots(t, GetPath(source), dst);
    NodeAtIs(t, root, GetPath(source));
    AdjPathAbove(t, root, source);
    SameLayers(t, PutEntry(t, SlotOf(t, dst), source.name));
  }

  lemma {:induction false} MovedAnswers(root: Node, t: Tree, store0: Store, source: Node, parent: Node, dst: Path, after: Tree, store: Store)
    requires IsNode(t, root, source) && IsNode(t, root, parent)
    requires CanMove(t, GetPath(source), dst) && GetPath(parent) == Front(dst)
    requires !source.Root? && GetPath(source) != [] && Find(t, Front(GetPath(source))).Some?
    requires after == PutEntry(t, SlotOf(t, dst), source.name).(children := PutEntry(t, SlotOf(t, dst), source.name).children - {SlotOf(t, GetPath(source))})
    requires store == store0[EntryKey(t, SlotOf(t, dst)) := source.name] - {EntryKey(t, SlotOf(t, GetPath(source)))}
    requires Tidy(t)
    ensures Sound(after) && Tidy(after) && Answers(root, t, store0, GetPath(source), dst, after, store, Ok(source.(path := dst)))
  {
    TwoWrites(t, root, source, parent, dst);
    MoveKeepsSound(t, GetPath(source), dst);
    MoveKeepsTidy(t, GetPath(source), dst);
    MoveGives(t, root, source, dst);
    MovedIsNode(t, root, GetPath(source), dst);
  }

  lemma {:induction false} MoveGives(t: Tree, root: Node, source: Node, dst: Path)
    requires IsNode(t, root, source) && CanMove(t, GetPath(source), dst) && !source.Root?
    ensures Find(t, Front(dst)).Some? && GetPath(source) != [] && Find(t, Front(GetPath(source))).Some?
    ensures DirectoryTree.Move(t, GetPath(source), dst).Moved? && source.name == Find(t, GetPath(source)).value.name
    ensures source == NodeAt(t, root, GetPath(source))
  {
    MoveSlots(t, GetPath(source), dst);
    NodeAtIs(t, root, GetPath(source));
  }

  lemma {:induction false} LastBehind(b: Path, p: Path)
    requires p != []
    ensures b + Front(p) + [Last(p)] == b + p && b + Front(p) <= b + p
  {
    assert Front(p) + [Last(p)] == p;
  }

  lemma {:induction false} OldParentFits(t: Tree, root: Node, source: Node, dst: Path)
    requires IsNode(t, root, source) && CanMove(t, GetPath(source), dst)
    ensures Find(t, Front(GetPath(source))).Some? && SlotOf(t, dst) !in t.children
    ensures Fits(PutEntry(t, SlotOf(t, dst), IdOf(t, source).name), Find(t, Front(GetPath(source))).value, NodeAt(t, root, Front(GetPath(source))))
  {
    MoveSlots(t, GetPath(source), dst);
    var front := Front(GetPath(source));
    NodeAtIsNode(t, root, front);
    NodeFits(t, root, NodeAt(t, root, front));
    SameLayers(t, PutEntry(t, SlotOf(t, dst), IdOf(t, source).name));
  }

  lemma {:induction false} ReadyAtFirst(t: Tree, root: Node, node: Node, store: Store)
    requires IsNode(t, root, node) && GetPath(node) != [] && Named(t) && Tidy(t)
    ensures Removable(t, GetPath(node)) && Ready(t, root, {}, node) && Without(t, {}) == t && Sweep(store, t, {}) == store
  {
    SweepNothing(store, t);
    assert Without(t, {}).children == t.children && Without(t, {}).layers == t.layers;
  }

  lemma {:induction false} VersionAmidRemoval(store0: Store, t: Tree, root: Node, gone: set<Id>, node: Node)
    requires Ready(t, root, gone, node)
    ensures VersionError(Sweep(store0, t, gone), GetNodePrefix(GetRoot(node)), false) == VersionError(store0, Inside(t, IdOf(t, node)), false)
  {
    NodeAtIs(t, root, GetPath(node));
    NodeBelowItself(t, root, node);
    RootsSpace(t, root, node);
    VersionStays(store0, t, gone, IdOf(t, node));
  }

  lemma {:induction false} ParentAfterRemoval(store: Store, t: Tree, root: Node, node: Node)
    requires IsNode(t, root, node) && Removable(t, GetPath(node))
    requires Refines(store, Without(t, Below(t, IdOf(t, node))))
    ensures |GetPath(GetPartition(node))| <= |GetPath(node)| && RelPath(GetPartition(node), node, []) != []
    ensures Find(t, Front(GetPath(node))).Some?
    ensures var found := FindFrom(store, GetPartition(node), Front(RelPath(GetPartition(node), node, [])));
      found.Found? && Fits(Without(t, Below(t, IdOf(t, node))), Find(t, Front(GetPath(node))).value, found.node)
  {
    ParentFoundAfterRemoval(store, t, root, node);
    ParentFitsAfterRemoval(t, root, GetPath(node));
  }

  /** What the recursion and the entry above it come to. */
  lemma {:induction false} RemovedIs(t: Tree, root: Node, node: Node, store0: Store)
    requires IsNode(t, root, node) && Removable(t, GetPath(node))
    ensures |GetPath(GetPartition(node))| <= |GetPath(node)| && RelPath(GetPartition(node), node, []) != []
    ensures Find(t, Front(GetPath(node))).Some?
    ensures var w := Without(t, Below(t, IdOf(t, node)));
      var slot := Slot(Find(t, Front(GetPath(node))).value, Last(RelPath(GetPartition(node), node, [])));
      && DirectoryTree.Remove(t, GetPath(node)) == w.(children := w.children - {slot})
      && RemovedStore(store0, t, GetPath(node)) == Sweep(store0, t, Below(t, IdOf(t, node))) - {EntryKey(w, slot)}
    ensures var u := DirectoryTree.Remove(t, GetPath(node)); Sound(u) && Named(u) && Tidy(u)
  {
    AdjPathAbove(t, root, node);
    EntryAbove(t, GetPath(node), store0);
    RemoveKeepsNamed(t, GetPath(node));
  }

  lemma {:induction false} EntryAbove(t: Tree, path: Path, store0: Store)
    requires Removable(t, path)
    ensures Find(t, Front(path)).Some?
    ensures var w, slot := Without(t, Below(t, Find(t, path).value)), Slot(Find(t, Front(path)).value, Last(path));
      && DirectoryTree.Remove(t, path) == w.(children := w.children - {slot})
      && RemovedStore(store0, t, path) == Sweep(store0, t, Below(t, Find(t, path).value)) - {EntryKey(w, slot)}
  {
    ParentStaysIn(t, path);
  }

  lemma {:induction false} ParentStaysIn(t: Tree, path: Path)
    requires Removable(t, path)
    ensures Find(t, Front(path)).Some?
    ensures var w, above := Without(t, Below(t, Find(t, path).value)), Find(t, Front(path)).value;
      above !in Below(t, Find(t, path).value) && Known(w, above) && Inside(w, above) == Inside(t, above) && InnerName(w, above) == InnerName(t, above)
  {
    TopIsClosed(t, path);
    FoundHasLayer(t, Front(path));
    var above := Find(t, Front(path)).value;
    assert Placed(t, above);
    if Front(path) != [] {
      StaysUntaken(t, Below(t, Find(t, path).value), above);
    }
  }

  lemma {:induction false} ParentFitsAfterRemoval(t: Tree, root: Node, path: Path)
    requires Removable(t, path) && IsAbsolute(t, root)
    ensures Find(t, Front(path)).Some?
    ensures Fits(Without(t, Below(t, Find(t, path).value)), Find(t, Front(path)).value, NodeAt(t, root, Front(path)))
  {
    var front, gone := Front(path), Below(t, Find(t, path).value);
    TopIsClosed(t, path);
    ParentStaysIn(t, path);
    NodeAtIsNode(t, root, front);
    NodeFits(t, root, NodeAt(t, root, front));
    HomesStay(t, gone);
  }

  lemma {:induction false} RowJoins(t: Tree, id: Id, gone: set<Id>, rows: seq<(Part, Node)>, i: nat)
    requires i < |rows|
    ensures var done, below := BelowRows(t, id, rows[..i]), Below(t, ChildAt(t, id, rows[i].0));
      done + below == BelowRows(t, id, rows[..i + 1]) && gone + done + below == gone + BelowRows(t, id, rows[..i + 1])
  {
    BelowRowsOneMore(t, id, rows, i);
  }

  lemma {:induction false} MayReadJoin(store: Store, t: Tree, a: set<Id>, b: set<Id>)
    ensures AllMayRead(store, t, a + b) <==> AllMayRead(store, t, a) && AllMayRead(store, t, b)
  {
  }

  /** The rows so far are among the rows. */
  lemma {:induction false} RowsSoFar(t: Tree, id: Id, rows: seq<(Part, Node)>, i: nat)
    requires i < |rows|
    ensures Below(t, ChildAt(t, id, rows[i].0)) <= BelowRows(t, id, rows)
  {
    forall d | d in Below(t, ChildAt(t, id, rows[i].0)) ensures d in BelowRows(t, id, rows) {
      InBelowRows(t, id, rows, d);
    }
  }

  /** After the rows the node itself is what is left of its subtree. */
  lemma {:induction false} LastJoins(t: Tree, root: Node, gone: set<Id>, node: Node, rows: seq<(Part, Node)>, store0: Store)
    requires Ready(t, root, gone, node) && ListsChildren(t, IdOf(t, node), node, rows)
    ensures Closed(t, gone + Below(t, IdOf(t, node))) && !node.Root?
    ensures var before := Sweep(store0, t, gone + BelowRows(t, IdOf(t, node), rows));
      ClearRange(ClearRange(before, ContentRange(node.name)), NodeRange(GetNodePrefix(node), IdName(node)))
        == Sweep(store0, t, gone + Below(t, IdOf(t, node)))
  {
    var id, done := IdOf(t, node), gone + BelowRows(t, IdOf(t, node), rows);
    NodeAtIs(t, root, GetPath(node));
    NodeBelowItself(t, root, node);
    SubtreeIsClosed(t, id);
    ClosedJoin(t, gone, Below(t, id));
    RowsAreBelow(t, root, node, rows);
    assert done + {id} == gone + Below(t, id);
    SweepOne(Sweep(store0, t, done), t, id);
    SweepJoins(store0, t, done, {id});
  }
}
