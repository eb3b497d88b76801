/** `list`: the rows of the subdirectory range, and the children they stand for. */
module DirectoryListing {
  import opened Options
  import opened ByteStrings
  import opened Terms
  import HcaKeys
  import opened TupleEncode
  import opened TupleOrder
  import opened DirectoryTree
  import opened DirectoryPartitions
  import opened DirectoryKeys
  import opened DirectoryNames
  import opened DirectoryStore
  import opened DirectoryNodes

  /** The rows `list` answers: the children, each once, by ascending path name. */
  ghost predicate ListsChildren(t: Tree, id: Id, node: Node, rows: seq<(Part, Node)>) {
    && (forall j :: 0 <= j < |rows| ==> IsRow(t, id, node, rows[j]))
    && (forall s :: s in t.children && s.parent == id ==> HasRow(rows, s.part))
    && (forall i, j :: 0 <= i < j < |rows| ==> Lex(rows[i].0, rows[j].0) < 0)
  }

  predicate IsRow(t: Tree, id: Id, node: Node, row: (Part, Node)) {
    && Slot(id, row.0) in t.children
    && var c := t.children[Slot(id, row.0)];
       c in t.layers && row.1 == InitNode(node, c.name, row.0, t.layers[c])
  }

  predicate HasRow(rows: seq<(Part, Node)>, part: Part) {
    exists j :: 0 <= j < |rows| && rows[j].0 == part
  }

  predicate ChildrenHaveLayers(t: Tree, id: Id) {
    forall s :: s in t.children && s.parent == id ==> t.children[s] in t.layers
  }

  /** The node stands for `id`, and children are stored where it says. */
  ghost predicate Fits(t: Tree, id: Id, node: Node) {
    && Known(t, id) && GetNodePrefix(node) == Inside(t, id) && IdName(node) == InnerName(t, id)
    && forall s :: s in t.children ==> t.children[s].home == Inside(t, s.parent)
  }

  function ListedRange(node: Node): (Bytes, Bytes) {
    SubdirRange(GetNodePrefix(node), IdName(node))
  }

  /** Every key the listing reads is an entry of the node. */
  lemma {:induction false} ListedKey(store: Store, t: Tree, id: Id, node: Node, k: Bytes) returns (part: Part)
    requires Refines(store, t) && Spaced(store, t) && Keyed(t) && Fits(t, id, node)
    requires k in KeysIn(store, ListedRange(node).0, ListedRange(node).1)
    ensures k == NodeEntryId(node, part) == EntryKey(t, Slot(id, part))
    ensures Slot(id, part) in t.children && t.children[Slot(id, part)].name == store[k]
    ensures LayerAgrees(store, t, t.children[Slot(id, part)])
    ensures NodeLayerId(node, store[k]) == LayerKey(t.children[Slot(id, part)])
  {
    var h, lo, hi := GetNodePrefix(node), ListedRange(node).0, ListedRange(node).1;
    InsideIsSpace(t, id);
    SubdirRangeBehindPrefix(h, IdName(node));
    RangesBehindPrefix(h, lo, hi, k);
    assert NodeSpace(store, h);
    assert IsNodeKey(h, k);
    var d :| Valid(d) && k == KeyOf(h, d);
    SubdirRangeIsExact(h, IdName(node), d);
    part := d.part;
    assert EntryAgrees(store, t, Slot(id, part));
    assert LayerAgrees(store, t, t.children[Slot(id, part)]);
  }

  /** And every entry of the node is read. */
  lemma {:induction false} EntriesListed(store: Store, t: Tree, id: Id, node: Node)
    requires Refines(store, t) && Fits(t, id, node)
    ensures forall s :: s in t.children && s.parent == id ==>
      EntryKey(t, s) in KeysIn(store, ListedRange(node).0, ListedRange(node).1)
  {
    forall s | s in t.children && s.parent == id
      ensures EntryKey(t, s) in KeysIn(store, ListedRange(node).0, ListedRange(node).1)
    {
      assert EntryAgrees(store, t, s);
      SubdirRangeIsExact(Inside(t, id), InnerName(t, id), Entry(InnerName(t, id), s.part));
    }
  }

  lemma {:induction false} SubdirRangeBehindPrefix(np: Bytes, n: Name)
    ensures IsPrefix(np, SubdirRange(np, n).0) && IsPrefix(np, SubdirRange(np, n).1)
  {
    HcaKeys.SmallIdsEncodable();
    var id := NodeId(np, n);
    NodeIdBehindPrefix(np, n);
    var subdirs := Pack([SUBDIRS], id).value;
    PackedBehindPrefix(id, [SUBDIRS]);
    PrefixesChain(np, id, subdirs);
    assert (subdirs + [0x00])[..|subdirs|] == subdirs && (subdirs + [0xFF])[..|subdirs|] == subdirs;
    PrefixesChain(np, subdirs, subdirs + [0x00]);
    PrefixesChain(np, subdirs, subdirs + [0xFF]);
  }

  // ---------------------------------------------------------------- row by row

  /** The keys still to be read and the rows already made. */
  ghost predicate Listing(t: Tree, id: Id, node: Node, keys: set<Bytes>, rows: seq<(Part, Node)>) {
    && (forall j :: 0 <= j < |rows| ==> IsRow(t, id, node, rows[j]))
    && (forall s :: s in t.children && s.parent == id ==> EntryKey(t, s) in keys || HasRow(rows, s.part))
    && (forall i, j :: 0 <= i < j < |rows| ==> Lex(rows[i].0, rows[j].0) < 0)
    && (forall j :: 0 <= j < |rows| ==> Above(node, keys, rows[j].0))
  }

  predicate Above(node: Node, keys: set<Bytes>, part: Part) {
    forall k :: k in keys ==> Lex(k, NodeEntryId(node, part)) < 0
  }

  lemma {:induction false} ListingStep(t: Tree, id: Id, node: Node, keys: set<Bytes>, rows: seq<(Part, Node)>, k: Bytes, row: (Part, Node))
    requires Listing(t, id, node, keys, rows) && IsGreatest(keys, k) && Keyed(t) && Fits(t, id, node)
    requires k == NodeEntryId(node, row.0) && IsRow(t, id, node, row)
    ensures Listing(t, id, node, keys - {k}, [row] + rows)
  {
    var rest, all := keys - {k}, [row] + rows;
    RowsInOrder(node, keys, rows, k, row);
    KeepsRows(row, rows);
    forall s | s in t.children && s.parent == id ensures EntryKey(t, s) in rest || HasRow(all, s.part) {
      if EntryKey(t, s) == k {
        EntryKeyTellsSlot(t, s, Slot(id, row.0));
      }
    }
  }

  lemma {:induction false} RowsInOrder(node: Node, keys: set<Bytes>, rows: seq<(Part, Node)>, k: Bytes, row: (Part, Node))
    requires forall j :: 0 <= j < |rows| ==> Above(node, keys, rows[j].0)
    requires IsGreatest(keys, k) && k == NodeEntryId(node, row.0)
    ensures forall j :: 0 <= j < |rows| ==> Lex(row.0, rows[j].0) < 0
    ensures forall j :: 0 <= j < |[row] + rows| ==> Above(node, keys - {k}, ([row] + rows)[j].0)
  {
    forall j | 0 <= j < |rows| ensures Lex(row.0, rows[j].0) < 0 {
      assert Above(node, keys, rows[j].0);
      EntryOrder(node, row.0, rows[j].0);
    }
    var rest, all := keys - {k}, [row] + rows;
    forall j | 0 <= j < |all| ensures Above(node, rest, all[j].0) {
      if j > 0 {
        assert Above(node, keys, rows[j - 1].0);
      }
    }
  }

  lemma {:induction false} KeepsRows(row: (Part, Node), rows: seq<(Part, Node)>)
    ensures HasRow([row] + rows, row.0)
    ensures forall part :: HasRow(rows, part) ==> HasRow([row] + rows, part)
  {
    assert ([row] + rows)[0] == row;
    forall part | HasRow(rows, part) ensures HasRow([row] + rows, part) {
      var j :| 0 <= j < |rows| && rows[j].0 == part;
      assert ([row] + rows)[j + 1] == rows[j];
    }
  }

  /** Entries of one node are stored in the order of their path names. */
  lemma {:induction false} EntryOrder(node: Node, a: Part, b: Part)
    ensures Lex(NodeEntryId(node, a), NodeEntryId(node, b)) == Lex(a, b)
  {
    var x, y := [SUBDIRS, Utf8(a)], [SUBDIRS, Utf8(b)];
    SmallEncodable(a);
    SmallEncodable(b);
    assert WellFormedAll(x) && WellFormedAll(y) by {
      assert Encodable(x[0]);
    }
    PackIsOrderEmbedding(x, y, NodeId(GetNodePrefix(node), IdName(node)));
    assert x[1..] == [Utf8(a)] && y[1..] == [Utf8(b)];
    HcaKeys.CompareOne(Utf8(a), Utf8(b));
  }
}
