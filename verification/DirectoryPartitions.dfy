/** Names in a tree with partitions: inside a partition they begin with the partition's own name,
    so that no two node prefixes in use meet. The partition check of `move` rests on that. */
module DirectoryPartitions {
  import opened Options
  import opened ByteStrings
  import opened DirectoryTree

  /** `n` is stored behind the node prefix of the partition `p`, under that partition's name and
      an identifier. */
  predicate Under(t: Tree, n: Id, p: Id) {
    Holds(t, p, n) && IsPrefix(p.name, n.name) && |p.name| < |n.name| && n.name[|p.name|] < 0xFE
  }

  /** Behind one node prefix no name begins another, nor the prefix, nor the other way round;
      and every node prefix is the root's or that of a partition. */
  ghost predicate Named(t: Tree) {
    && (forall a, b :: a in t.layers && b in t.layers && a.home == b.home && IsPrefix(a.name, b.name) ==> a == b)
    && (forall a :: a in t.layers ==> Apart(a.name, a.home))
    && (forall a {:trigger HasHome(t, a)} :: a in t.layers ==> HasHome(t, a))
  }

  ghost predicate HasHome(t: Tree, a: Id) {
    a.home == t.root || exists p :: Under(t, a, p)
  }

  predicate Known(t: Tree, n: Id) {
    n == Origin(t) || n in t.layers
  }

  /** The node prefixes in use. */
  ghost predicate IsSpace(t: Tree, h: Bytes) {
    h == t.root || exists p :: IsPartition(t, p) && h == Space(p.name)
  }

  /** What begins with the node prefix of a partition, and what that begins with. */
  lemma {:induction false} SpaceMeets(p: Name, n: Name)
    ensures IsPrefix(Space(p), n) <==> |p| < |n| && IsPrefix(p, n) && n[|p|] == 0xFE
    ensures IsPrefix(n, Space(p)) <==> IsPrefix(n, p) || n == Space(p)
  {
    var h := Space(p);
    if |p| < |n| {
      assert n[..|h|] == n[..|p|] + [n[|p|]];
    }
    if |n| <= |p| {
      assert h[..|n|] == p[..|n|];
    } else if |n| == |h| {
      assert h[..|n|] == h;
    }
  }

  // ---------------------------------------------------------------- lineages

  /** The partitions a node lies in, outermost first, and the node. */
  ghost predicate IsLineage(t: Tree, line: seq<Id>, n: Id) {
    && line != [] && line[|line| - 1] == n && line[0].home == t.root
    && (forall i :: 0 <= i < |line| ==> line[i] in t.layers)
    && (forall i :: 0 < i < |line| ==> Under(t, line[i], line[i - 1]))
  }

  lemma {:induction false} Lineage(t: Tree, n: Id) returns (line: seq<Id>)
    requires Named(t) && n in t.layers
    ensures IsLineage(t, line, n)
    decreases |n.name|
  {
    assert HasHome(t, n);
    if n.home == t.root {
      line := [n];
    } else {
      var p :| Under(t, n, p);
      var above := Lineage(t, p);
      line := above + [n];
    }
  }

  /** Every name of a lineage begins those that follow. */
  lemma {:induction false} LineageNames(t: Tree, line: seq<Id>, n: Id, i: nat)
    requires IsLineage(t, line, n) && i < |line|
    ensures IsPrefix(line[i].name, n.name)
    decreases |line| - i
  {
    if i < |line| - 1 {
      LineageNames(t, line, n, i + 1);
      assert Under(t, line[i + 1], line[i]);
      PrefixesChain(line[i].name, line[i + 1].name, n.name);
    }
  }

  /** The lineages of two nodes whose names begin one string are the same as far as both go. */
  lemma {:induction false} LineagesAgree(t: Tree, x: seq<Id>, y: seq<Id>, a: Id, b: Id, k: Bytes, i: nat)
    requires Named(t) && IsLineage(t, x, a) && IsLineage(t, y, b)
    requires IsPrefix(a.name, k) && IsPrefix(b.name, k) && i < |x| && i < |y|
    ensures x[i] == y[i]
  {
    if i > 0 {
      LineagesAgree(t, x, y, a, b, k, i - 1);
      assert Under(t, x[i], x[i - 1]) && Under(t, y[i], y[i - 1]);
    }
    LineageNames(t, x, a, i);
    LineageNames(t, y, b, i);
    PrefixesChain(x[i].name, a.name, k);
    PrefixesChain(y[i].name, b.name, k);
    PrefixesOfOne(x[i].name, y[i].name, k);
  }

  /** A name begins another only if its node is a partition the other lies in; and then the
      other does not go on as the node prefix of the partition does. */
  lemma {:induction false} NamesNest(t: Tree, a: Id, b: Id)
    requires Named(t) && a in t.layers && b in t.layers && a != b && IsPrefix(a.name, b.name)
    ensures IsPartition(t, a) && |a.name| < |b.name| && b.name[|a.name|] < 0xFE
  {
    var x := Lineage(t, a);
    var y := Lineage(t, b);
    var last := if |x| <= |y| then |x| - 1 else |y| - 1;
    LineagesAgree(t, x, y, a, b, b.name, last);
    if |x| < |y| {
      assert Under(t, y[|x|], y[|x| - 1]);
      LineageNames(t, y, b, |x|);
      assert b.name[|a.name|] == y[|x|].name[|a.name|];
    } else if |y| < |x| {
      ShorterName(t, x, a, |y| - 1);
    }
  }

  lemma {:induction false} ShorterName(t: Tree, line: seq<Id>, n: Id, i: nat)
    requires Named(t) && IsLineage(t, line, n) && i < |line| - 1
    ensures |line[i].name| < |n.name|
  {
    assert Under(t, line[i + 1], line[i]);
    LineageNames(t, line, n, i + 1);
  }

  /** No two nodes have one name. */
  lemma {:induction false} NamesAreUnique(t: Tree, a: Id, b: Id)
    requires Named(t) && a in t.layers && b in t.layers && a.name == b.name
    ensures a == b
  {
    if a != b {
      NamesNest(t, a, b);
    }
  }

  // ---------------------------------------------------------------- node prefixes

  /** No name meets the node prefix of the root. */
  lemma {:induction false} NameApartFromRoot(t: Tree, n: Id)
    requires Named(t) && n in t.layers
    ensures Apart(n.name, t.root)
  {
    var line := Lineage(t, n);
    var top := line[0];
    LineageNames(t, line, n, 0);
    if IsPrefix(n.name, t.root) {
      PrefixesChain(top.name, n.name, t.root);
    } else if IsPrefix(t.root, n.name) {
      PrefixesOfOne(top.name, t.root, n.name);
    }
  }

  /** No name meets the node prefix of a partition, except the name of one it lies in, its own
      partition included. */
  lemma {:induction false} NameAgainstSpace(t: Tree, n: Id, p: Id)
    requires Named(t) && n in t.layers && IsPartition(t, p)
    ensures !IsPrefix(Space(p.name), n.name)
    ensures IsPrefix(n.name, Space(p.name)) ==> IsPartition(t, n)
  {
    SpaceMeets(p.name, n.name);
    if n != p && IsPrefix(p.name, n.name) {
      NamesNest(t, p, n);
    }
    if n != p && IsPrefix(n.name, p.name) {
      NamesNest(t, n, p);
    }
  }

  /** The node prefixes in use do not begin one another. */
  lemma {:induction false} SpacesApart(t: Tree, g: Bytes, h: Bytes)
    requires Named(t) && IsSpace(t, g) && IsSpace(t, h) && IsPrefix(g, h)
    ensures g == h
  {
    if g == t.root && h != t.root {
      var p :| IsPartition(t, p) && h == Space(p.name);
      RootAgainstSpace(t, p);
    } else if h == t.root && g != t.root {
      var p :| IsPartition(t, p) && g == Space(p.name);
      RootAgainstSpace(t, p);
    } else if g != t.root {
      var p :| IsPartition(t, p) && g == Space(p.name);
      var q :| IsPartition(t, q) && h == Space(q.name);
      NameAgainstSpace(t, q, p);
      SpaceMeets(q.name, g);
    }
  }

  lemma {:induction false} RootAgainstSpace(t: Tree, p: Id)
    requires Named(t) && IsPartition(t, p)
    ensures Apart(t.root, Space(p.name))
  {
    var h := Space(p.name);
    NameApartFromRoot(t, p);
    assert h[..|p.name|] == p.name;
    if IsPrefix(t.root, h) {
      PrefixesOfOne(t.root, p.name, h);
    } else if IsPrefix(h, t.root) {
      PrefixesChain(p.name, h, t.root);
    }
  }

  /** Two partitions have two node prefixes. */
  lemma {:induction false} SpaceTellsPartition(t: Tree, p: Id, q: Id)
    requires Named(t) && IsPartition(t, p) && IsPartition(t, q) && Space(p.name) == Space(q.name)
    ensures p == q
  {
    assert Space(p.name)[..|p.name|] == p.name && Space(q.name)[..|q.name|] == q.name;
    NamesAreUnique(t, p, q);
  }

  /** What is behind a node is behind a node prefix in use. */
  lemma {:induction false} InsideIsSpace(t: Tree, n: Id)
    requires Named(t) && Known(t, n) && Origin(t) !in t.layers
    ensures IsSpace(t, n.home) && IsSpace(t, Inside(t, n))
  {
    if n in t.layers && n.home != t.root {
      assert HasHome(t, n);
    }
  }

  // ---------------------------------------------------------------- partitions out of reach

  lemma {:induction false} NamedTells(t: Tree)
    requires Named(t)
    ensures SpacesTell(t)
  {
    forall p | IsPartition(t, p) ensures Space(p.name) != t.root && forall q :: IsPartition(t, q) && q.name == p.name ==> q == p {
      RootAgainstSpace(t, p);
      assert IsPrefix(t.root, t.root);
      forall q | IsPartition(t, q) && q.name == p.name ensures q == p {
        NamesAreUnique(t, p, q);
      }
    }
  }

  /** Nothing is stored in a partition that is out of reach. */
  ghost predicate Tidy(t: Tree) {
    forall p, n :: n in t.layers && Holds(t, p, n) ==> Placed(t, p)
  }

  lemma {:induction false} HeldIsUnder(t: Tree, p: Id, n: Id)
    requires Named(t) && n in t.layers && Holds(t, p, n)
    ensures Under(t, n, p)
  {
    assert HasHome(t, n);
    RootAgainstSpace(t, p);
    assert IsPrefix(t.root, t.root);
    var q :| Under(t, n, q);
    SpaceTellsPartition(t, p, q);
  }

  /** What is stored in a partition and found is found below it. */
  lemma {:induction false} HeldIsBelow(t: Tree, p: Id, n: Id)
    requires Sound(t) && Named(t) && Holds(t, p, n) && Placed(t, n)
    ensures n in t.layers && Placed(t, p) && n in Below(t, p)
  {
    var path :| Find(t, path) == Some(n);
    RootAgainstSpace(t, p);
    assert IsPrefix(t.root, t.root);
    FoundHasLayer(t, path);
    StoredBelow(t, path);
    FoundThroughSlot(t, path);
    var x := PartitionOf(t, path);
    InsideOfRoot(t, Front(path));
    SpaceTellsPartition(t, p, Find(t, x).value);
    assert x <= Front(path) <= path;
    BelowIsBehind(t, x, path);
  }

  /** A node whose name begins with another's lies in a partition whose name does. */
  lemma {:induction false} NestedUnder(t: Tree, p: Id, q: Id) returns (r: Id)
    requires Named(t) && p in t.layers && q in t.layers && p != q && IsPrefix(p.name, q.name)
    ensures r in t.layers && Under(t, q, r) && IsPrefix(p.name, r.name)
  {
    var x := Lineage(t, p);
    var y := Lineage(t, q);
    var last := if |x| <= |y| then |x| - 1 else |y| - 1;
    LineagesAgree(t, x, y, p, q, q.name, last);
    if |y| < |x| {
      ShorterName(t, x, p, |y| - 1);
    }
    r := y[|y| - 2];
    assert Under(t, y[|y| - 1], r);
    LineageNames(t, y[..|y| - 1], r, |x| - 1);
  }

  lemma {:induction false} BelowJoins(t: Tree, p: Id, r: Id, q: Id)
    requires q in t.layers && r in Below(t, p) && q in Below(t, r)
    ensures q in Below(t, p)
  {
    var a :| Walk(t, p, a) == Some(r);
    var b :| Walk(t, r, b) == Some(q);
    WalkConcat(t, p, a, b);
  }

  lemma {:induction false} BelowItself(t: Tree, p: Id)
    requires p in t.layers
    ensures p in Below(t, p)
  {
    assert Walk(t, p, []) == Some(p);
  }

  /** The names that begin with the name of a partition are those of the nodes below it, and of
      partitions out of reach that are stored below it. */
  lemma {:induction false} NestedIsBelow(t: Tree, p: Id, q: Id)
    requires Sound(t) && Named(t) && Tidy(t) && p in t.layers && q in t.layers && IsPrefix(p.name, q.name)
    ensures Placed(t, q) ==> q in Below(t, p)
    ensures q != p ==> exists r :: r in Below(t, p) && Holds(t, r, q)
    decreases |q.name|
  {
    BelowItself(t, p);
    if q != p {
      var r := NestedUnder(t, p, q);
      NestedIsBelow(t, p, r);
      assert Holds(t, r, q);
      if Placed(t, q) {
        HeldIsBelow(t, r, q);
        BelowJoins(t, p, r, q);
      }
    }
  }

  /** A set of nodes found, with all that is below them. */
  ghost predicate Closed(t: Tree, gone: set<Id>) {
    forall n :: n in gone ==> n in t.layers && Placed(t, n) && Below(t, n) <= gone
  }

  lemma {:induction false} SubtreeIsClosed(t: Tree, n: Id)
    requires Sound(t) && n in t.layers && Placed(t, n)
    ensures Closed(t, Below(t, n))
  {
    var p :| Find(t, p) == Some(n);
    forall m | m in Below(t, n) ensures Placed(t, m) && Below(t, m) <= Below(t, n) {
      var q :| Walk(t, n, q) == Some(m);
      WalkConcat(t, Origin(t), p, q);
      assert Find(t, p + q) == Some(m);
      forall d | d in Below(t, m) ensures d in Below(t, n) {
        BelowJoins(t, n, m, d);
      }
    }
  }

  /** What is found and stays is not stored in anything that goes. */
  lemma {:induction false} StaysUntaken(t: Tree, gone: set<Id>, n: Id)
    requires Sound(t) && Named(t) && Closed(t, gone) && n in t.layers && Placed(t, n) && n !in gone
    ensures n in Without(t, gone).layers
  {
    if p :| p in gone && Holds(t, p, n) {
      HeldIsBelow(t, p, n);
    }
  }

  /** Taking out such a set leaves names and node prefixes in order. */
  lemma {:induction false} WithoutKeepsNamed(t: Tree, gone: set<Id>)
    requires Sound(t) && Named(t) && Tidy(t) && Closed(t, gone)
    ensures Named(Without(t, gone))
    ensures forall p :: IsPartition(Without(t, gone), p) <==> IsPartition(t, p) && p in Without(t, gone).layers
    ensures forall h :: IsSpace(Without(t, gone), h) ==> IsSpace(t, h)
  {
    var w := Without(t, gone);
    forall a | a in w.layers ensures HasHome(w, a) {
      assert HasHome(t, a);
      if a.home != t.root {
        var p :| Under(t, a, p);
        assert Holds(t, p, a) && p !in gone;
        StaysUntaken(t, gone, p);
        assert Under(w, a, p);
      }
    }
    forall h | IsSpace(w, h) ensures IsSpace(t, h) {
      if h != t.root {
        var p :| IsPartition(w, p) && h == Space(p.name);
        assert IsPartition(t, p);
      }
    }
  }

  /** After a removal the layers out of reach that were not so before are those of the removed
      partitions that lay in no other. */
  lemma {:induction false} RemovalLeavesLayers(t: Tree, path: Path, n: Id)
    requires Sound(t) && Named(t) && path != [] && Find(t, path).Some?
    ensures var u, top := Remove(t, path), Find(t, path).value;
      n in u.layers && !Placed(u, n) && Placed(t, n) <==> n in Below(t, top) && IsPartition(t, n) && n.home == top.home
  {
    NamedTells(t);
    RemoveKeepsSound(t, path);
    var u, top := Remove(t, path), Find(t, path).value;
    FoundHasLayer(t, path);
    assert Placed(t, top);
    if n in Below(t, top) {
      SubtreeIsClosed(t, top);
      HomesInSubtree(t, path, n);
    } else if n in u.layers && Placed(t, n) {
      assert Placed(u, n);
    }
  }

  /** So nothing gets out of reach exactly when the subtree holds no partition. */
  lemma {:induction false} NothingOutOfReachIff(t: Tree, path: Path)
    requires Sound(t) && Named(t) && path != [] && Find(t, path).Some?
    ensures (forall n :: n in Remove(t, path).layers && Placed(t, n) ==> Placed(Remove(t, path), n))
      <==> forall n :: n in Below(t, Find(t, path).value) ==> !IsPartition(t, n)
  {
    var top := Find(t, path).value;
    if n :| n in Below(t, top) && IsPartition(t, n) {
      var m := OuterPartition(t, path, n);
      FoundHasLayer(t, path);
      assert Placed(t, top);
      SubtreeIsClosed(t, top);
      RemovalLeavesLayers(t, path, m);
    }
    forall n | n in Remove(t, path).layers && Placed(t, n) && !Placed(Remove(t, path), n)
      ensures n in Below(t, top) && IsPartition(t, n)
    {
      RemovalLeavesLayers(t, path, n);
    }
  }

  lemma {:induction false} OuterPartition(t: Tree, path: Path, n: Id) returns (m: Id)
    requires Sound(t) && Named(t) && path != [] && Find(t, path).Some?
    requires n in Below(t, Find(t, path).value) && IsPartition(t, n)
    ensures m in Below(t, Find(t, path).value) && IsPartition(t, m) && m.home == Find(t, path).value.home
    decreases |n.name|
  {
    HomesInSubtree(t, path, n);
    m := n;
    if n.home != Find(t, path).value.home {
      var p :| p in Below(t, Find(t, path).value) && Holds(t, p, n);
      HeldIsUnder(t, p, n);
      m := OuterPartition(t, path, p);
    }
  }

  /** In a subtree a node is stored where the top is, or in a partition of the subtree. */
  lemma {:induction false} HomesInSubtree(t: Tree, path: Path, n: Id)
    requires Sound(t) && Named(t) && path != [] && Find(t, path).Some? && n in Below(t, Find(t, path).value)
    ensures n.home == Find(t, path).value.home <==> forall p :: p in Below(t, Find(t, path).value) ==> !Holds(t, p, n)
  {
    var top := Find(t, path).value;
    if p :| p in Below(t, top) && Holds(t, p, n) {
      TopNotHeld(t, path, p);
    } else {
      var q :| Walk(t, top, q) == Some(n);
      WalkConcat(t, Origin(t), path, q);
      StoredBelow(t, path + q);
      StoredBelow(t, path);
      RootThrough(t, path, q);
      var x := PartitionOf(t, path + q);
      if path <= x {
        FoundThroughSlot(t, path + q);
        InsideOfRoot(t, Front(path + q));
        BelowIsBehind(t, path, x);
        assert Holds(t, Find(t, x).value, n);
      }
    }
  }

  lemma {:induction false} RootThrough(t: Tree, path: Path, q: Path)
    requires path != []
    ensures path <= PartitionOf(t, path + q) || PartitionOf(t, path + q) == PartitionOf(t, path)
    decreases |q|
  {
    if q == [] {
      assert path + q == path;
    } else {
      FrontOfJoin(path, q);
      RootThrough(t, path, Front(q));
    }
  }

  /** The top of a subtree is stored in none of its partitions. */
  lemma {:induction false} TopNotHeld(t: Tree, path: Path, p: Id)
    requires Sound(t) && Named(t) && path != [] && Find(t, path).Some? && p in Below(t, Find(t, path).value)
    ensures !Holds(t, p, Find(t, path).value)
  {
    var top := Find(t, path).value;
    FoundHasLayer(t, path);
    assert Space(p.name)[..|p.name|] == p.name;
    if Holds(t, p, top) {
      assert Placed(t, top);
      HeldIsBelow(t, p, top);
      var q :| Walk(t, top, q) == Some(p);
      WalkConcat(t, Origin(t), path, q);
      BelowIsBehind(t, path + q, path);
    }
  }

  // ---------------------------------------------------------------- the partition check

  /** Two nodes go by one root exactly when their children are behind one node prefix. */
  lemma {:induction false} RootsTellSpaces(t: Tree, p: Path, q: Path)
    requires Sound(t) && Named(t) && Find(t, p).Some? && Find(t, q).Some?
    ensures RootOf(t, p) == RootOf(t, q) <==> Inside(t, Find(t, p).value) == Inside(t, Find(t, q).value)
  {
    InsideOfRoot(t, p);
    InsideOfRoot(t, q);
    var r, s := RootOf(t, p), RootOf(t, q);
    if Inside(t, Find(t, p).value) == Inside(t, Find(t, q).value) {
      var m, n := Find(t, r).value, Find(t, s).value;
      if r != [] && s != [] {
        SpaceTellsPartition(t, m, n);
        UniquePath(t, r, s);
      } else if r != [] {
        RootAgainstSpace(t, m);
      } else if s != [] {
        RootAgainstSpace(t, n);
      }
    }
  }

  /** A move into another partition that went ahead without the check would lose the node: the
      name would stand for a node behind the other node prefix, and there is no layer for it.
      Inside one partition the layer is found. */
  lemma {:induction false} MoveWithoutTheCheck(t: Tree, src: Path, dst: Path)
    requires Eligible(t, src, dst) && Named(t)
    ensures var u := Shifted(t, src, dst);
      Find(u, dst).Some? && (Find(u, dst).value in u.layers <==> PartitionOf(t, src) == RootOf(t, Front(dst)))
  {
    EligibleSlots(t, src, dst);
    ShiftArrives(t, src, dst);
    FoundHasLayer(t, src);
    RootsTellSpaces(t, Front(src), Front(dst));
    var node, arrived := Find(t, src).value, Id(Inside(t, Find(t, Front(dst)).value), Find(t, src).value.name);
    if arrived in t.layers {
      NamesAreUnique(t, arrived, node);
    }
  }

  // ---------------------------------------------------------------- when a move goes through

  /** `u` is `t` with the subtree at `src` found at `dst` instead: the same nodes with the same layers,
      all other paths as they were, and nothing lost. */
  ghost predicate Relocates(t: Tree, u: Tree, src: Path, dst: Path) {
    && Sound(u) && u.root == t.root && u.layers == t.layers && Find(u, src).None?
    && (forall q :: Find(u, dst + q) == Find(t, src + q))
    && (forall p :: !(src <= p) && !(dst <= p) ==> Find(u, p) == Find(t, p))
    && (forall n {:trigger Placed(u, n)} :: Placed(t, n) ==> Placed(u, n))
  }

  /** `move` goes through exactly when what is at the old path can be relocated to the new one at all:
      its checks refuse what no tree could show, and nothing else. */
  lemma {:induction false} MoveSucceedsIff(t: Tree, src: Path, dst: Path)
    requires Sound(t) && Named(t)
    ensures Move(t, src, dst).Moved? <==> Find(t, src).Some? && exists u :: Relocates(t, u, src, dst)
  {
    if Move(t, src, dst).Moved? {
      MovedRelocates(t, src, dst);
    }
    if u :| Relocates(t, u, src, dst) {
      if Find(t, src).Some? {
        RelocationPassesChecks(t, u, src, dst);
      }
    }
  }

  lemma {:induction false} MovedRelocates(t: Tree, src: Path, dst: Path)
    requires CanMove(t, src, dst)
    ensures Relocates(t, Move(t, src, dst).tree, src, dst)
  {
    var u := Move(t, src, dst).tree;
    MoveKeepsSound(t, src, dst);
    MoveSlots(t, src, dst);
    forall q ensures Find(u, dst + q) == Find(t, src + q) {
      MoveRelocates(t, src, dst, q);
    }
    MoveRelocates(t, src, dst, []);
    assert src + [] == src;
    forall p | !(src <= p) && !(dst <= p) ensures Find(u, p) == Find(t, p) {
      MoveLeavesOthers(t, src, dst, p);
    }
  }

  lemma {:induction false} RelocationPassesChecks(t: Tree, u: Tree, src: Path, dst: Path)
    requires Sound(t) && Named(t) && Find(t, src).Some? && Relocates(t, u, src, dst)
    ensures Move(t, src, dst).Moved?
  {
    assert dst + [] == dst && src + [] == src && Find(u, dst + []) == Find(t, src + []);
    if src <= dst {
      BeginningExists(u, src, dst);
    } else {
      TargetIsMissing(t, u, src, dst);
      ParentIsThere(t, u, src, dst);
      SamePartition(t, u, src, dst);
    }
  }

  lemma {:induction false} ParentIsThere(t: Tree, u: Tree, src: Path, dst: Path)
    requires Find(t, src).Some? && Relocates(t, u, src, dst) && !(src <= dst) && Find(u, dst).Some? && Find(t, dst).None?
    ensures dst != [] && Find(u, Front(dst)).Some? && Find(t, Front(dst)) == Find(u, Front(dst))
  {
    var front := Front(dst);
    assert front <= dst && !(dst <= front);
    FoundThroughSlot(u, dst);
    if src <= front {
      BeginningExists(u, src, front);
    }
  }

  lemma {:induction false} TargetIsMissing(t: Tree, u: Tree, src: Path, dst: Path)
    requires Sound(t) && Find(t, src).Some? && Relocates(t, u, src, dst) && !(src <= dst)
    requires Find(u, dst) == Find(t, src)
    ensures Find(t, dst).None?
  {
    if Find(t, dst).Some? {
      var y := Find(t, dst).value;
      assert Placed(t, y);
      assert Placed(u, y);
      var p :| Find(u, p) == Some(y);
      if dst <= p {
        var q := p[|dst|..];
        assert p == dst + q && Find(u, dst + q) == Find(t, src + q);
        UniquePath(t, src + q, dst);
      } else if src <= p {
        BeginningExists(u, src, p);
      } else {
        UniquePath(t, p, dst);
      }
    }
  }

  /** The node has its layer, and so its children's place, only behind the node prefix it is stored behind. */
  lemma {:induction false} SamePartition(t: Tree, u: Tree, src: Path, dst: Path)
    requires Sound(t) && Named(t) && Sound(u) && u.layers == t.layers && src != [] && dst != []
    requires Find(t, src).Some? && Find(u, dst) == Find(t, src)
    requires Find(t, Front(dst)).Some? && Find(t, Front(dst)) == Find(u, Front(dst))
    ensures PartitionOf(t, src) == RootOf(t, Front(dst))
  {
    FoundThroughSlot(t, src);
    RootsTellSpaces(t, Front(src), Front(dst));
    StoredInParent(u, dst);
    StoredInParent(t, src);
  }

  lemma {:induction false} StoredInParent(t: Tree, p: Path)
    requires Sound(t) && p != [] && Find(t, p).Some?
    ensures Find(t, Front(p)).Some? && Find(t, p).value.home == Inside(t, Find(t, Front(p)).value)
  {
    FoundThroughSlot(t, p);
  }
}
