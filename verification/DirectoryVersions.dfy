/** The errors of the directory layer, and its version check. */
module DirectoryVersions {
  import opened Options
  import opened ByteStrings
  import TupleVersionstamp
  import opened DirectoryTree
  import opened DirectoryKeys
  import opened DirectoryNames

  datatype Error =
    | CannotOpenRoot | PathMissing | PathExists | LayerMismatch
    | ManualNamesProhibited | NodeNameInUse | KeysExistForAllocatedName | NamesConflict | NoNextKey
    | MissingSource | TargetExists | TargetIsSubdirectory | MissingParentNode | PartitionMismatch
    | CannotRemoveRoot | Unreadable | Unwritable | MalformedVersion | MissingLayer(name: Name)

  datatype Result<+T> = Ok(value: T) | Fail(error: Error)

  /** `?LAYER_VERSION` as `initialize_directory` writes it. */
  const LAYER_VERSION: Bytes := TupleVersionstamp.Le32(1) + TupleVersionstamp.Le32(0) + TupleVersionstamp.Le32(0)

  function Read32(b: Bytes): nat
    requires |b| == 4
  {
    var v: seq<int> := b;
    v[0] + 0x100 * v[1] + 0x1_0000 * v[2] + 0x100_0000 * v[3]
  }

  /** Why `check_version` would refuse, if it would, for the root behind a node prefix; no
      version stands for the present one. */
  function VersionError(store: Store, np: Bytes, write: bool): Option<Error> {
    var key := KeyOf(np, Version);
    if key !in store then None
    else if |store[key]| != 12 then Some(MalformedVersion)
    else
      var major, minor := Read32(store[key][..4]), Read32(store[key][4..8]);
      if major > 1 then Some(Unreadable)
      else if minor > 0 && write then Some(Unwritable)
      else None
  }

  function Initialized(store: Store, np: Bytes): Store {
    var key := KeyOf(np, Version);
    if key in store then store else store[key := LAYER_VERSION]
  }

  lemma {:induction false} InitializedHasVersion(store: Store, np: Bytes)
    ensures VersionError(store, np, true).Some? ==> Initialized(store, np) == store
  {
  }

  lemma {:induction false} ReadsLe32(v: nat)
    requires v < 0x1_0000_0000
    ensures Read32(TupleVersionstamp.Le32(v)) == v
  {
    var b: seq<int> := TupleVersionstamp.Le32(v);
    assert v / 0x1_0000 == v / 0x100 / 0x100 && v / 0x100_0000 == v / 0x1_0000 / 0x100;
    assert b[0] == v % 0x100 && b[1] == v / 0x100 % 0x100 && b[2] == v / 0x1_0000 % 0x100 && b[3] == v / 0x100_0000 % 0x100;
  }

  /** A stored version is three little-endian numbers; a later major version may not be read, a later
      minor one not be written. No version is as good as the present one, which is written then. */
  lemma {:induction false} WhichVersionsAreRefused(store: Store, np: Bytes, write: bool, major: nat, minor: nat, patch: nat)
    requires major < 0x1_0000_0000 && minor < 0x1_0000_0000
    ensures var key := KeyOf(np, Version);
      && (key !in store ==> VersionError(store, np, write) == None)
      && (key in store && |store[key]| != 12 ==> VersionError(store, np, write) == Some(MalformedVersion))
      && (key in store && store[key] == TupleVersionstamp.Le32(major) + TupleVersionstamp.Le32(minor) + TupleVersionstamp.Le32(patch) ==>
            VersionError(store, np, write) ==
              if major > 1 then Some(Unreadable) else if minor > 0 && write then Some(Unwritable) else None)
      && Initialized(store, np) == if key in store then store else store[key := [1, 0, 0, 0, 0, 0, 0, 0, 0, 0, 0, 0]]
  {
    var x, y, z := TupleVersionstamp.Le32(major), TupleVersionstamp.Le32(minor), TupleVersionstamp.Le32(patch);
    assert (x + y + z)[..4] == x && (x + y + z)[4..8] == y;
    assert LAYER_VERSION == [1, 0, 0, 0, 0, 0, 0, 0, 0, 0, 0, 0];
    ReadsLe32(major);
    ReadsLe32(minor);
  }

  lemma {:induction false} PresentVersion()
    ensures |LAYER_VERSION| == 12 && Read32(LAYER_VERSION[..4]) == 1 && Read32(LAYER_VERSION[4..8]) == 0
  {
    var one, zero := TupleVersionstamp.Le32(1), TupleVersionstamp.Le32(0);
    assert LAYER_VERSION[..4] == one && LAYER_VERSION[4..8] == zero;
    TupleVersionstamp.Le32Value(1);
    TupleVersionstamp.Le32Value(0);
  }
}
