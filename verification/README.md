# erlfdb: a verified model

erlfdb is a FoundationDB client for Erlang: a C NIF over `libfdb_c` and a set of Erlang layers.
This project models its five hardest parts and proves what they promise.

* **Tuple codec** (`ByteStrings`, `FloatBits`, `Terms`, `NullTerminated`, `TupleEncode`,
  `TupleOrder`, `TupleDecode`, `TupleRanges`, `TupleVersionstamp`, `Keys`, `Subspace`). Terms are an inductive
  datatype, packed tuples are byte strings. No type code is 0xFF; order, round trip and range
  exactness all come down to that.
* **High-contention allocator** (`HcaKeys`, `HcaModel`, `HcaInvariant`, `HcaSystem`, `Hca`).
  A database is the history of its commits; a transaction reads one committed version and its own
  writes, and is refused when a key it read was written by a later commit. `Hca` has the
  transaction as a class and the steps of `allocate` as methods on it, each proved equal to the
  function the theorems are about.
* **Directory layer** (`DirectoryTree`, `DirectoryPartitions`, `DirectoryKeys`, `DirectoryNames`,
  `DirectoryStore`, `DirectoryNodes`, `DirectoryVersions`, `DirectoryListing`, `DirectoryMoves`,
  `DirectoryRemoval`, `DirectoryNaming`, `DirectoryCreation`, `Directory`). `DirectoryTree` says what the operations
  mean on a tree, partitions included: a node is its name together with the node prefix it is
  stored behind, and a partition stores its children behind its own. `DirectoryPartitions` says
  how names nest. `DirectoryNodes` has the handles the code passes around. `Directory` is a class
  over a flat store of byte strings, and every method is proved to do to the tree exactly what
  the operation means.
* **Range paging** (`Paging`, `Batching`, `Interleaving`, `Iterators`). The server may cut pages anywhere;
  the folds, the interleaved waits and the range iterator all come to one read of a sorted range.
* **Futures and transaction flags in the NIF** (`FutureLifetime`, `FutureObject`, `TxFlags`).
  A future is a state machine over the atomic steps of its creator, callback, cancellers,
  collector and waiting owner, in any order; `FutureObject` has the C functions, statement by
  statement, over that machine. `TxFlags` has the transaction resource as a class, with
  `do_transaction`.

Assumed of FoundationDB and `libfdb_c`: reads are of one version; a commit is refused exactly when
a read conflict key meets a write conflict range of a later commit; a callback runs once, and on a
scheduler thread only inside `fdb_future_set_callback` or `fdb_future_cancel`; a page is a prefix
of what is left, `more` comes with at least one row, and without `more` nothing that was asked for
is left; a commit of nothing does not fail; `on_error`, when it succeeds, empties the transaction.

## Findings

Each is proved, with the input that shows it and the condition under which the code does what one
would expect.

* The second look of `search_candidate` at the counters never finds a newer window: inside one
  transaction reads are of one version and see the counter just written. An attempt is retried
  only because its candidate is marked (`HcaInvariant.RetryMeansTaken`).
* The ranges cleared when a window advances hold no key at all: they begin behind `{Start}`, and
  counters and markers are `{Start}` itself (`HcaKeys.WindowRangeHoldsNoKey`).
* `is_prefix_free` does not protect the name of the root. While the root has no key of its own
  the node prefix is accepted as the name of a new directory
  (`DirectoryNames.EmptyStoreAcceptsTheRootsName`); such a directory would be its own parent
  (`DirectoryTree.RootAsChildIsACircle`). An accepted name is sound exactly when the root has a
  key or the name is apart from the node prefix (`DirectoryNaming.AcceptedIsFreshIff`).
* `create` checks a name of the caller's choice before the missing parents get theirs, which may
  meet it: with one identifier parent and child become one node and the path never ends
  (`DirectoryCreation.CollidingNameIsAccepted`). The tree is a good one afterwards exactly if the
  name is apart from those of all the parents created (`DirectoryCreation.CheckedBeforeItsParents`,
  `Directories.Directory.Create`). Whatever identifiers they get, it is so exactly if no parent is
  missing or the bytes of the name behind the content prefix do not begin as a packed identifier
  does, which can be read off them (`DirectoryCreation.StaysFreshWhateverParentsGet`,
  `DirectoryNaming.MeetsAnIdIff`).
* `remove` leaves the bare name of a directory and whatever goes on with 0xFF
  (`DirectoryRemoval.BareNameStays`), unless it goes together with a partition it is in
  (`DirectoryRemoval.RemovalOfContent`).
* `remove` of a partition leaves its layer, to which no path leads any more and which keeps the
  name in use (`DirectoryRemoval.PartitionLayerStays`). Nothing gets out of reach exactly when the
  subtree holds no partition (`DirectoryPartitions.NothingOutOfReachIff`).
* Without `check_same_partition` a node that crosses a partition would be lost: its layer stays
  behind the old node prefix, and `find` fails with `missing_node_layer` exactly when the
  partitions differ (`DirectoryMoves.WithoutTheCheckTheNodeIsLost`).
* `on_error` leaves `read_only` false, so a retried transaction is refused `disallow_writes`
  with nothing pending (`TxFlags.DisallowWritesRefusedOnRetry`); the exact condition is
  `TxFlags.DisallowWritesAccepted`. For the same reason a retry may commit nothing
  (`TxFlags.WhenTheCommitIsEmpty`), and transaction ids go on counting over retries
  (`TxFlags.IdsAreDistinct`).
* `disallow_writes` is accepted with a watch pending, though `watch` itself needs writes to be
  allowed (`TxFlags.WatchSurvivesDisallowWrites`). It is so after exactly those histories that
  have no write since the last reset and a watch since the transaction was last emptied
  (`TxFlags.DisallowWritesWithWatches`).

## Model

| member | source | states |
|---|---|---|
| FloatBits.FloatRoundTrip | src/erlfdb_float.erl:28-48 | the bits survive decoding and encoding always; the float comes back exactly if its tag fits the exponent and the fraction its bits spell |
| FloatBits.DecodesByFields | src/erlfdb_float.erl:28-43 | denormalized, infinite, not a number or a plain number exactly by exponent and fraction, 8 and 23 bits or 11 and 52 of the big-endian value |
| FloatBits.OrderedRoundTrip | src/erlfdb_tuple.erl:563-566 | the bit transform of floats is undone by its inverse, both ways, on every raw pattern |
| FloatBits.OrderedBytesAreTotalOrder | src/erlfdb_tuple.erl:421-428 | byte order of the transformed bits is the totalOrder of section 5.10 of IEEE 754-2008 |
| NullTerminated.EncodesEscaped | src/erlfdb_tuple.erl:408-419 | slicing at NULs and joining writes the string with every NUL followed by 0xFF, and one NUL at the end |
| NullTerminated.NullTerminatedRoundTrip | src/erlfdb_tuple.erl:522-542 | decoding gives the string and what follows it back, whatever bytes it holds, unless what follows begins with 0xFF |
| TupleEncode.EncodesAsSpecified | src/erlfdb_tuple.erl:324-406 | the iolist of each term flattens to the bytes the Tuple Layer specification gives its type: integers by size and two's digits, 255-byte forms, nested tuples with their escaped nulls |
| TupleEncode.IntEncodableIff | src/erlfdb_tuple.erl:363-396 | an integer can be packed exactly below 256^255 on either side of zero |
| TupleOrder.StringOrder | src/erlfdb_tuple.erl:408-419 | escaped and terminated strings compare as the strings do, whatever follows each |
| TupleOrder.IntOrder | src/erlfdb_tuple.erl:363-396 | integers of up to 255 bytes on both sides of zero compare by value, whatever follows each |
| TupleOrder.PackIsOrderEmbedding | src/erlfdb_tuple.erl:305-428 | packed tuples of any nesting compare byte by byte exactly as `compare` orders the tuples, equality included |
| TupleRanges.OrderOfAll | src/erlfdb_tuple.erl:305-428 | all tuples that can be packed, those with fields that get cut included, compare by their bytes as their canonical forms do |
| TupleRanges.RangeOfAll | src/erlfdb_tuple.erl:279-281 | a packed tuple lies in the range of another if and only if it strictly extends it, for all tuples that can be packed |
| TupleDecode.PackUnpackRoundTrip | src/erlfdb_tuple.erl:251-264 | unpacking a packed tuple gives its canonical form, and the tuple itself exactly when that was canonical |
| TupleDecode.FloatsComeBack | src/erlfdb_tuple.erl:421-428 | a packed float or double comes back unchanged exactly if its tag fits its fields, 1.0 untagged and zero tagged |
| TupleDecode.UnpackedIsCanonical | src/erlfdb_tuple.erl:251-264 | what comes out of any bytes is canonical, can be packed, and unpacks to itself |
| TupleDecode.CanonIsIdentity | src/erlfdb_tuple.erl:351-358 | which terms are canonical: fixed-width fields that fit and floats in the form their bits decode to |
| TupleDecode.PackInjective | src/erlfdb_tuple.erl:179-182 | tuples with the same bytes have the same canonical form |
| TupleDecode.CanonKeepsBytes | src/erlfdb_tuple.erl:324-406 | a tuple and its canonical form have the same bytes |
| TupleDecode.NoTrailingData | src/erlfdb_tuple.erl:251-264 | the error for trailing data cannot be reached: the top level consumes all bytes or fails |
| TupleDecode.UnknownCodesAreRefused | src/erlfdb_tuple.erl:430-520 | bytes that begin with none of the type codes are refused |
| TupleVersionstamp.PackVsSucceedsIff | src/erlfdb_tuple.erl:201-212 | `pack_vs` succeeds exactly on one incomplete versionstamp at any depth, and which error it gives otherwise |
| TupleVersionstamp.PackVsPointsAtStamp | src/erlfdb_tuple.erl:568-606 | the trailing offset points at that versionstamp's ten 0xFF bytes in prefix and encoding, right behind its type code 0x32 or 0x33 |
| TupleVersionstamp.IncompleteIff | src/erlfdb_tuple.erl:571-606 | incomplete is a versionstamp whose id and batch are all ones in the bits their fields hold |
| TupleVersionstamp.SearchJoined | src/erlfdb_tuple.erl:408-419 | the slices of a user's string are never taken for a versionstamp |
| TupleVersionstamp.SearchElements | src/erlfdb_tuple.erl:571-606 | the search over a nested iolist finds exactly the positions of the incomplete versionstamps |
| TupleVersionstamp.Le32Value | src/erlfdb_tuple.erl:201-212 | the four bytes appended are the position modulo 2^32, lowest byte first |
| Keys.StrincRangeIsExact | src/erlfdb_key.erl:112-126 | the keys from a key up to its `strinc` are those that begin with it |
| Keys.StrincFailsIff | src/erlfdb_key.erl:112-126 | `strinc` fails exactly on keys of 0xFF bytes only |
| Keys.RangesAreConsecutive | src/erlfdb_key.erl:144-152 | split points become the consecutive ranges between them |
| Keys.RangesBetweenPoints | src/erlfdb_key.erl:144-152 | range i is from point i to point i + 1, and fewer than two points are refused |
| Keys.GetKeySelector | c_src/util.c:37-104 | the selector term is read into key, `or_equal` and offset, or refused |
| Subspaces.SubspacesCompose | src/erlfdb_subspace.erl:54-60 | a nested subspace packs as the joined tuple does in the outer one |
| Subspaces.SubspaceRoundTrip | src/erlfdb_subspace.erl:70-88 | what a subspace packs it contains and unpacks; it contains exactly the keys that begin with its prefix and unpacks no other |
| Subspaces.SubspaceRangeIsExact | src/erlfdb_subspace.erl:92-99 | the range of a subspace tuple holds exactly what strictly extends it |
| HcaKeys.CounterRangeIsExact | src/erlfdb_hca.erl:158-160 | the reverse scan for the current window meets counters and nothing else |
| HcaKeys.WindowRangeHoldsNoKey | src/erlfdb_hca.erl:145-156 | the ranges cleared when a window advances hold no counter and no marker |
| HcaKeys.WindowRangeIs | src/erlfdb_hca.erl:145-156 | the ranges cleared run from 0x00 to 0xFF behind `{0, Start}` and `{1, Start}`, which are the counter and the marker themselves |
| HcaKeys.CounterOrder | src/erlfdb_hca.erl:55-72 | counters lie in the order of their window starts |
| HcaKeys.KeyBytesInjective | src/erlfdb_hca.erl:37-41 | counters and markers have different bytes |
| HcaKeys.IdsArePrefixFree | src/erlfdb_hca.erl:140-143 | no identifier's bytes begin another's |
| HcaModel.WindowsTile | src/erlfdb_hca.erl:162-167 | every candidate lies in exactly one of the windows that can be reached |
| HcaModel.SizesByCandidate | src/erlfdb_hca.erl:162-167 | a candidate below 256 is in a window of 64, one below 65792 in one of 1024, any other in one of 8192 |
| HcaModel.LastCounterRow | src/erlfdb_hca.erl:55-72 | the last row of the counter range is the counter of the latest window |
| Hca.ReadCurrentStart | src/erlfdb_hca.erl:55-72 | the reverse scan of the counters gives the greatest start among the counters of the view, or 0 if it holds none |
| Hca.ClearPreviousWindow | src/erlfdb_hca.erl:145-156 | the two clears in their order, with their bytes, the second of them kept out of the write conflicts |
| Hca.FindWindow | src/erlfdb_hca.erl:74-97 | the loop counts into window after window until one is less than half full |
| Hca.SearchCandidate | src/erlfdb_hca.erl:99-143 | the candidate is read, marked and guarded in the order of the code, or the attempt is retried |
| Hca.AllocateOnce | src/erlfdb_hca.erl:43-53 | one run of the function inside `allocate` is the `Attempt` of the proofs |
| HcaInvariant.RangeEffect | src/erlfdb_hca.erl:74-97 | walking the windows marks nothing, loses no count and settles for the latest window, less than half full |
| HcaInvariant.RangeIsFirstFit | src/erlfdb_hca.erl:74-97 | the window settled for is the first that is less than half full once counted into: each window from the start on is counted into once, and all before it are at least half full |
| HcaInvariant.RetryMeansTaken | src/erlfdb_hca.erl:99-143 | an attempt is retried only because its candidate is marked |
| HcaInvariant.AttemptIs | src/erlfdb_hca.erl:43-143 | what an attempt answers and writes: it starts from the latest counter, settles for the first window that fits, and hands out the candidate drawn there exactly if that is not marked |
| HcaInvariant.AttemptConflicts | src/erlfdb_hca.erl:74-156 | the conflicts an allocation leaves: its own key read and written, the counters and the first range cleared of each window written, and nothing else |
| HcaInvariant.AttemptKeepsOk | src/erlfdb_hca.erl:43-53 | several attempts in one transaction keep its identifiers distinct, read and guarded |
| HcaSystem.CommitIsFresh | src/erlfdb_hca.erl:99-143 | a transaction that may commit holds no identifier of any earlier commit |
| HcaSystem.AllocationsAreUnique | src/erlfdb_hca.erl:43-53 | in every interleaving, with retries, stale reads and unknown commit results, no identifier is committed twice |
| HcaSystem.MarkedExactlyIfHandedOut | src/erlfdb_hca.erl:99-143 | in every committed state the marked candidates are exactly the identifiers handed out, retries and unknown commit results included |
| HcaSystem.UndisturbedCommits | src/erlfdb_hca.erl:43-53 | from every reachable state an allocation that is not overtaken commits and hands out the identifier its attempt found |
| HcaSystem.CommittedCountersCoverMarkers | src/erlfdb_hca.erl:106-121 | in every committed state a window's counter is at least the number of its markers, below 2^64 counts |
| HcaSystem.MostCandidatesAreFree | src/erlfdb_hca.erl:74-97 | when a window is settled for, more than half of its candidates are free in the transaction's view, below 2^64 counts |
| DirectoryKeys.KeyIsPacked | src/erlfdb_directory.erl:501-512 | every key of the layer packs the tuple of its owner's name and the rest |
| DirectoryKeys.KeysAreSpelledOut | src/erlfdb_directory.erl:501-512 | entry, layer and version keys as tuples, byte for byte |
| DirectoryKeys.AllocatorKeysAreSpelledOut | src/erlfdb_hca.erl:37-41 | the keys of the allocator, behind the id of the root and `hca` |
| DirectoryKeys.KeyOfInjective | src/erlfdb_directory.erl:501-512 | entries, layers, version and allocator keys never coincide |
| DirectoryKeys.NodeRangeIsExact | src/erlfdb_directory.erl:563-566 | the range cleared for a node holds the keys of that name and no other |
| DirectoryKeys.SubdirRangeIsExact | src/erlfdb_directory.erl:134-138 | the range `list` reads holds the entries of the node and no other key |
| DirectoryKeys.ListedPartIsPart | src/erlfdb_directory.erl:139-146 | the path name taken from a listed key is the one the entry was written with |
| DirectoryKeys.ContentRangeIsExact | src/erlfdb_directory.erl:558-561 | the content range of a name: all that begins with it but the bare name and what goes on with 0xFF |
| DirectoryKeys.PackedContentIsInRange | src/erlfdb_directory.erl:558-561 | everything packed into a directory's subspace lies in its content range |
| DirectoryNames.LastRowDecides | src/erlfdb_directory.erl:669-687 | the one row of the reverse scan tells whether any existing name begins the new one |
| DirectoryNames.ProbeDecides | src/erlfdb_directory.erl:689-696 | the one-row probe tells whether the new name begins any existing one |
| DirectoryNames.IsPrefixFreeDecides | src/erlfdb_directory.erl:639-702 | true exactly for a name that no existing name begins and that begins none; when `strinc` fails instead |
| DirectoryNames.RootTestIsImplied | src/erlfdb_directory.erl:663-667 | once the root has a key of its own the separate test of the root's id adds nothing |
| DirectoryNames.EmptyStoreAcceptsTheRootsName | src/erlfdb_directory.erl:639-702 | in an empty store the node prefix is accepted as a name |
| DirectoryPartitions.NamesNest | src/erlfdb_directory.erl:349-382 | a node's name begins another's only when it is a partition around that node, and never goes on there with the 0xFE of its node prefix |
| DirectoryPartitions.SpacesApart | src/erlfdb_directory.erl:349-382 | no node prefix begins another, so the keys of different partitions never mix |
| DirectoryPartitions.RootsTellSpaces | src/erlfdb_directory.erl:349-411 | two nodes are under the same root exactly when their children are stored behind the same node prefix |
| DirectoryTree.UniquePath | src/erlfdb_directory.erl:413-423 | in a sound tree no node is found by two paths |
| DirectoryTree.CreateAddsOnePath | src/erlfdb_directory.erl:501-512 | creating adds one path and leaves every other as it was |
| DirectoryTree.RootAsChildIsACircle | src/erlfdb_directory.erl:501-512 | a child with the root's name would make the tree a circle |
| DirectoryTree.MoveRelocates | src/erlfdb_directory.erl:167-199 | behind the new path is found what was behind the old one, the same nodes and layers, and behind the old one nothing; partitions in or around it make no difference |
| DirectoryTree.MoveTakesRootsAlong | src/erlfdb_directory.erl:167-199 | a partition that moves stays the root of all it holds, and a node that moves stays under the partition it was in |
| DirectoryTree.MoveLeavesOthers | src/erlfdb_directory.erl:167-199 | a path through neither place leads where it led, under the same root |
| DirectoryTree.MoveKeepsSound | src/erlfdb_directory.erl:167-199 | the tree stays a tree and every node is stored where its parent looks, because of the subpath and partition checks |
| DirectoryPartitions.MoveWithoutTheCheck | src/erlfdb_directory.erl:752-758 | the moved node would still have its layer if and only if its partition is the root of its new parent |
| DirectoryMoves.WithoutTheCheckTheNodeIsLost | src/erlfdb_directory.erl:332-347 | after the two writes alone, `find` fails with `missing_node_layer` exactly when the partitions differ |
| DirectoryPartitions.MoveSucceedsIff | src/erlfdb_directory.erl:167-199 | `move` goes through exactly when there is a tree at all that shows the same nodes at the new path and nothing lost: the checks, that of the partition included, refuse what is impossible and nothing else |
| DirectoryTree.MoveBack | src/erlfdb_directory.erl:167-199 | moving back gives the old tree |
| DirectoryTree.RemoveClearsTheSubtree | src/erlfdb_directory.erl:531-547 | after a removal nothing is found behind the path and everything else where it was |
| DirectoryTree.RemoveKeepsSound | src/erlfdb_directory.erl:531-574 | the tree stays a tree, and found is exactly what was found outside the subtree; only a partition's layer may be out of reach |
| DirectoryPartitions.RemovalLeavesLayers | src/erlfdb_directory.erl:549-566 | the layers that get out of reach are those of the removed partitions that lay in no other |
| DirectoryPartitions.NothingOutOfReachIff | src/erlfdb_directory.erl:549-566 | nothing gets out of reach exactly when the subtree holds no partition |
| DirectoryTree.ChildBelow | src/erlfdb_directory.erl:549-556 | a child's subtree is strictly smaller than its parent's, so the recursion ends |
| DirectoryNodes.NodeAtIs | src/erlfdb_directory.erl:332-411 | the handle of a node has its path, id, layer and node prefix, and the handles of its root and partition are those of the tree's |
| DirectoryNodes.RootDecidesNames | src/erlfdb_directory.erl:576-637 | a node permits names of the caller's choice exactly if it is in no partition and the absolute root was given the permission; allocated names follow the content prefix of that root, or the name of the partition |
| DirectoryNodes.LayerMakesPartition | src/erlfdb_directory.erl:332-411 | a node is a partition exactly if its layer spells `partition`, and has 0xFE behind its name as its node prefix then |
| DirectoryNodes.SameRootIffSamePath | src/erlfdb_directory.erl:752-758 | comparing the two handles is comparing the partitions' paths |
| DirectoryNodes.FindWalks | src/erlfdb_directory.erl:413-423 | `find` on the store walks the tree across partitions, layers and missing layers included |
| DirectoryVersions.WhichVersionsAreRefused | src/erlfdb_directory.erl:711-750 | a stored version is refused exactly if its major number is above 1, or its minor above 0 when writing; which bytes are written when there is none |
| DirectoryCreation.FindDeepestIs | src/erlfdb_directory.erl:425-435 | `find_deepest` ends at the longest beginning of the path the tree has |
| DirectoryStore.SweepIsWithout | src/erlfdb_directory.erl:558-566 | clearing the two ranges of every node of some subtrees takes exactly them out of the tree, partitions with all they hold |
| Directories.Directory.constructor | src/erlfdb_directory.erl:305-330 | over a store with nothing behind the node prefix the tree is empty |
| Directories.Directory.Over | src/erlfdb_directory.erl:305-330 | any store that holds a sound tree, opened as that tree |
| Directories.Directory.CheckVersion | src/erlfdb_directory.erl:711-750 | which stored versions are refused for reading and writing, and the version written when there is none |
| Directories.Directory.FindPath | src/erlfdb_directory.erl:413-423 | a node is found exactly when the tree has it, and never lacks a layer |
| Directories.Directory.OpenInt | src/erlfdb_directory.erl:514-529 | the node at the path; a missing path, the root, and a layer that does not match are refused, exactly then and in this order |
| Directories.RootForPathIs | src/erlfdb_directory.erl:367-401 | the root an operation goes by: the one around a partition that is named by itself, the one of the node otherwise |
| Directories.Directory.ListDirectory | src/erlfdb_directory.erl:126-148 | the children with their handles, each once, in the order of their path names; the errors before |
| Directories.Directory.Move | src/erlfdb_directory.erl:167-199 | the tree's `Move`; each of the five errors exactly when it is due, in their order, the partition mismatch last; exactly two keys written; the node answered is the one found at the new path |
| Directories.Directory.RemoveFromParent | src/erlfdb_directory.erl:568-574 | the entry under the parent, found again from the root, is cleared and nothing else |
| Directories.Directory.RemoveRecursive | src/erlfdb_directory.erl:549-566 | terminates, clears exactly the node keys and content ranges of the subtree, and stops exactly if the version of a root on the way may not be read |
| Directories.Directory.Remove | src/erlfdb_directory.erl:531-547 | the tree's `Remove`, partitions included; the version asked is that of the root for the path; missing path and root are answered in this order; and the exact store afterwards |
| DirectoryRemoval.RemovalOfNodeKeys | src/erlfdb_directory.erl:563-574 | of the layer's own keys a removal takes those of the directories, all behind the node prefixes of the partitions, and the entry above |
| DirectoryRemoval.RemovalOfContent | src/erlfdb_directory.erl:558-561 | of a directory's content it takes all but the bare name and what goes on with 0xFF, in a removed partition all; of directories that stay, nothing |
| DirectoryRemoval.BareNameStays | src/erlfdb_directory.erl:558-561 | an input that shows what is left |
| DirectoryRemoval.PartitionLayerStays | src/erlfdb_directory.erl:549-574 | an input that shows a layer left out of reach |
| Directories.Directory.CreateNodeName | src/erlfdb_directory.erl:584-637 | the exact answer: a name of one's own is refused by permission of the absolute root, by `strinc` or by `is_prefix_free`; an allocated one, the content prefix and the packed identifier, exactly if it has a key or is not fresh |
| DirectoryNaming.PrefixFreeIsFresh | src/erlfdb_directory.erl:639-702 | with the root's name protected, `is_prefix_free` asks exactly whether the name is apart from all others |
| DirectoryNaming.AcceptedIsFreshIff | src/erlfdb_directory.erl:639-702 | exactly when an accepted name is sound |
| DirectoryCreation.GoodNameIff | src/erlfdb_directory.erl:501-512 | the writes of `create_node` give a good tree exactly for a name apart from all others behind the node prefix |
| DirectoryCreation.CheckedBeforeItsParents | src/erlfdb_directory.erl:477-499 | with any number of missing parents: exactly if it was fresh before and is apart from the names they got |
| DirectoryCreation.StaysFreshWhateverParentsGet | src/erlfdb_directory.erl:477-499 | what a caller can check beforehand, whatever identifiers are allocated |
| DirectoryNaming.MeetsAnIdIff | src/erlfdb_directory.erl:598-600 | which bytes begin a packed identifier or begin with one, read off type code, size and first byte |
| DirectoryCreation.CollidingNameIsAccepted | src/erlfdb_directory.erl:477-499 | an input: the accepted name and the first identifier have the same bytes, and the path never ends |
| Directories.Directory.CreateNode | src/erlfdb_directory.erl:501-512 | the entry and the layer are written, and the tree gains that node |
| Directories.Directory.CreateChild | src/erlfdb_directory.erl:477-499 | the exact answer for one path name: the errors of version, path and name in their order, or one node more under a fresh name |
| Directories.Directory.CreateOrOpen | src/erlfdb_directory.erl:451-475 | succeeds exactly if every existing node of the path can be opened, and every missing one created: version, name, and identifiers all different; new are exactly the missing nodes, under their allocated names |
| Directories.Directory.Create | src/erlfdb_directory.erl:477-499 | succeeds exactly if the absolute root permits the name, the path is missing, the name is accepted and the parents can be had; the node is then there, and the tree is a good one exactly if the name stays fresh |
| DirectoryNaming.AllocatedNamesApart | src/erlfdb_directory.erl:598-600 | names made from different identifiers do not begin one another |
| Paging.SelectorsCut | src/erlfdb_key.erl:75-86 | the two selectors of a continuation cut right behind and right before a row |
| Paging.SelectorTermsResolve | c_src/util.c:37-104 | the four names lead to the first row from the key on or behind it, and to the last before it or up to it, and an offset given moves on from there |
| Paging.RawSelectorsResolve | c_src/util.c:37-104 | a selector given by flag and offset leads to the row at that distance, the flag `or_equal` in its three spellings |
| Paging.NextRequestContinues | src/erlfdb.erl:2201-2249 | the next request asks for exactly what is left, in the same direction, and a limit never turns into the unlimited 0 |
| Paging.RoundAccounts | src/erlfdb.erl:2201-2249 | one page and what it leaves are what was asked for |
| Interleaving.InterleavingDelivers | src/erlfdb.erl:972-1005 | slot by slot the result is what the item stands for, however many rounds each needs: the rows of its range in its direction up to its limit, or the value waited for |
| Interleaving.InterleavingEqualsAlone | src/erlfdb.erl:2165-2199 | waiting together gives each item what waiting for it alone gives |
| Interleaving.PlainLoopEqualsWaiting | src/erlfdb.erl:2147-2199 | the plain loop of one fold and the interleaved wait of one item deliver the same rows, whichever way the server cuts |
| Interleaving.GetRangeReadsTheRange | src/erlfdb.erl:1148-1166 | paging is one read: the rows between the selectors, from the end if reversed, of these the first `limit`, all of them for 0 |
| Interleaving.InterleavedRangeEqualsPlainRead | src/erlfdb.erl:1156-1166 | over ascending split points the interleaved chunks are the plain read |
| Iterators.PipelineDelivers | src/erlfdb_iterator.erl:94-136 | every iterator gives what it gives alone, in input order, and is stopped once |
| Iterators.SameContinuation | src/erlfdb_range_iterator.erl:101-133 | the range iterator goes on exactly as a fold does |
| Iterators.PagesJoin | src/erlfdb_range_iterator.erl:161-181 | its pages put together are the range asked for |
| Iterators.IteratorEqualsGetRange | src/erlfdb_iterator.erl:94-136 | alone or in a pipeline it gives the rows of `get_range`, which are the first `limit` rows of the range in the direction asked |
| FutureLifetime.StepKeepsInv | c_src/main.c:61-188 | every step of every thread keeps the references counted, the lock owned and the messages bounded |
| FutureLifetime.DestroyedExactlyWhenAbandoned | c_src/main.c:146-187 | in every reachable state the count is the number of holders, and the destructor has run once exactly when nobody is left |
| FutureLifetime.NoUseAfterDestruction | c_src/resources.c:53-67 | after the destructor no step of any thread can be taken |
| FutureLifetime.OneMessageFromAValidEnvironment | c_src/main.c:61-104 | at most one message is sent, and `pid_env` is used only while its creating call runs |
| FutureLifetime.NoStrayMessage | src/erlfdb.erl:806-822 | once `wait` or `cancel` with `flush` has returned the message is not in the mailbox and never arrives |
| FutureLifetime.TimedOutWaitMayLeaveAMessage | src/erlfdb.erl:817-821 | a `wait` that timed out gives no such promise |
| FutureLifetime.LockIsAlwaysLetGo | c_src/main.c:88-95 | the holder of the lock can always go on and frees it in at most two steps |
| FutureLifetime.CallbackInsideCancelFindsNoOwnLock | c_src/main.c:687-722 | a callback inside `fdb_future_cancel` finds the flag set and the lock not held underneath it |
| FutureObject.Future.Callback | c_src/main.c:61-104 | one message unless cancelled, one reference released, the lock free again |
| FutureObject.Future.Create | c_src/main.c:106-188 | the references left on success, synchronous callback or not, and on the error path |
| FutureObject.Future.Cancel | c_src/main.c:687-722 | the flag is set before the callback can run, so nothing is sent |
| FutureObject.Future.Silence | c_src/main.c:724-748 | the flag is set under the lock and nothing else changes |
| TxFlags.Transaction.Mutate | c_src/main.c:1794-1993 | set, clear, clear_range and atomic_op: refused, unknown mutation, or added to what is pending and no longer read-only |
| TxFlags.Transaction.AddConflictRange | c_src/main.c:2259-2319 | an accepted write range is added to what is pending and counts as a write; a read range does neither |
| TxFlags.Transaction.Watch | c_src/main.c:2103-2157 | refused without writes, else pending and flagged |
| TxFlags.Transaction.SetWriteOption | c_src/main.c:1185-1194 | `disallow_writes` only while read-only |
| TxFlags.Transaction.Reset | c_src/main.c:2199-2229 | all but the permission to write starts over |
| TxFlags.Transaction.GetNextId | c_src/main.c:2354-2383 | the next id, refused above 65535 |
| TxFlags.Transaction.DoTransaction | src/erlfdb.erl:2119-2145 | the retry loop, commits skipped on the word of the flags |
| TxFlags.FlagsTellTheHistory | c_src/main.c:1794-2319 | over every history of calls: the flags say whether a write or a watch was accepted since the last reset, and writes are allowed unless disallowed, with nothing written since the last reset, and not allowed again |
| TxFlags.PendingTellsTheHistory | c_src/main.c:1794-2319 | what is pending is the operations of the accepted writes since the transaction was last emptied, with keys and values, in the order of the calls; the same of the watches |
| TxFlags.WritesAreAnswered | c_src/main.c:1794-2157 | every call that writes is accepted exactly if writes are allowed |
| TxFlags.SkippedCommitLosesNothing | src/erlfdb.erl:2122-2125 | when the commit is skipped nothing is pending |
| TxFlags.WhenTheCommitIsEmpty | src/erlfdb.erl:2122-2125 | exactly when a commit is made with nothing to commit |
| TxFlags.ShortcutIsSound | src/erlfdb.erl:2119-2145 | over whole runs with retries, skipping commits has the same outcome as always committing |
| TxFlags.FirstThatIsNotRetried | src/erlfdb.erl:2119-2145 | the attempt that returns is the first that is not retried; if that one fails an exception comes out |
| TxFlags.OneAttemptIsCommitted | src/erlfdb.erl:2119-2145 | what becomes durable is the operations of the accepted writes of one attempt, since it last emptied the transaction, all of them in the order of the calls, nothing of an earlier attempt; the same of the watches |
| TxFlags.DisallowWritesAccepted | c_src/main.c:1188-1193 | `disallow_writes` is accepted exactly when nothing was written since the last reset |
| TxFlags.DisallowWritesRefusedOnRetry | c_src/main.c:1188-1193 | so a retry may be refused it with nothing pending |
| TxFlags.DisallowWritesWithWatches | c_src/main.c:1188-1193 | after which histories `disallow_writes` is accepted with a watch pending |
| TxFlags.WatchSurvivesDisallowWrites | c_src/main.c:1188-1193 | an input that shows it |
| TxFlags.IdsAreDistinct | c_src/main.c:2374-2382 | between resets no transaction id is handed out twice, retries included |

## Left out

- The FoundationDB server and `libfdb_c`: their contracts are the assumptions above.
- NIF argument checks, option atoms, result marshalling, allocation failures, the network thread.
- `open`, tenants, the sandbox and test cluster, the binding tester.
- `wait_for_any`, which does not recognise the messages of transaction futures.
- `{wait, interleaving}` with a limit or reversed: the options apply to each chunk, so it is not the plain read.
- Directories.Directory.Create: for a partition under a name of the caller's choice, that all is well afterwards is promised only if nothing is stored behind its node prefix before; allocator identifiers are parameters that differ, which HcaSystem.AllocationsAreUnique provides.
- Directories.Directory.CreateOrOpen: an operation that fails is not rolled back here, except a removal; in the code its transaction is aborted.
- Interleaving.InterleavingDelivers: values that are waited for are lists of rows or opaque tokens; `undefined`, triples and nested lists among the futures, which the code takes for something else, are outside the model.
- `move_to`, `exists`, the public `open` and the path conversions, which add only easy cases; the data carried by errors.
- HcaSystem.MostCandidatesAreFree: stated below 2^64 counts into one window, where the stored counter has not wrapped round.
- TupleDecode.PackUnpackRoundTrip: floats are their bits; the numeric value of a float is not modelled.
- Paging.NextRequestContinues: rows stand for plain and mapped rows alike; streaming mode and target bytes only influence where the server cuts.
- TxFlags.Transaction.DoTransaction: what the user's function does and how each attempt ends are given as data.
- The mailbox holds the messages of one future; other messages are not modelled.
