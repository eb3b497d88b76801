/** erlfdb_subspace: tuples behind a fixed prefix. */
module Subspaces {
  import opened Options
  import opened ByteStrings
  import opened Terms
  import opened TupleEncode
  import opened TupleOrder
  import opened TupleDecode
  import opened TupleRanges

  datatype Subspace = Subspace(prefix: Bytes)

  /** `create/2`. */
  function Create(tuple: Tuple, prefix: Bytes): Option<Subspace> {
    match Pack(tuple, prefix)
    case None => None
    case Some(b) => Some(Subspace(b))
  }

  /** `pack/2`. */
  function PackIn(s: Subspace, tuple: Tuple): Option<Bytes> {
    Pack(tuple, s.prefix)
  }

  /** `contains/2`. */
  predicate Contains(s: Subspace, key: Bytes) {
    IsPrefix(s.prefix, key)
  }

  /** `unpack/2`; a key outside the subspace is refused before it is decoded. */
  function UnpackIn(s: Subspace, key: Bytes): Unpacking {
    if Contains(s, key) then Unpack(key[|s.prefix|..], []) else InvalidPrefix
  }

  /** `range/2`: the range of the bare tuple with the prefix put in front of both ends. */
  function RangeIn(s: Subspace, tuple: Tuple): Option<(Bytes, Bytes)> {
    match Range(tuple, [])
    case None => None
    case Some((lo, hi)) => Some((s.prefix + lo, s.prefix + hi))
  }

  /** A nested subspace packs as the concatenated tuple does in the outer one. */
  lemma {:induction false} SubspacesCompose(outer: Tuple, inner: Tuple, prefix: Bytes)
    requires EncodableAll(outer) && EncodableAll(inner)
    ensures Create(outer, prefix).Some?
    ensures PackIn(Create(outer, prefix).value, inner) == Pack(outer + inner, prefix)
  {
    EncAllConcat(outer, inner, 0);
    assert prefix + EncAll(outer, 0) + EncAll(inner, 0) == prefix + (EncAll(outer, 0) + EncAll(inner, 0));
  }

  /** What a subspace packs, it contains and unpacks. */
  lemma {:induction false} SubspaceRoundTrip(s: Subspace, tuple: Tuple)
    requires EncodableAll(tuple)
    ensures PackIn(s, tuple).Some? && Contains(s, PackIn(s, tuple).value)
    ensures UnpackIn(s, PackIn(s, tuple).value) == Unpacked(CanonAll(tuple))
    ensures forall key :: Contains(s, key) <==> |s.prefix| <= |key| && forall i :: 0 <= i < |s.prefix| ==> key[i] == s.prefix[i]
    ensures forall key :: UnpackIn(s, key) == InvalidPrefix <==> !Contains(s, key)
  {
    var key := PackIn(s, tuple).value;
    assert key[..|s.prefix|] == s.prefix;
    assert key[|s.prefix|..] == [] + EncAll(tuple, 0);
    UnpacksCanonical(tuple, []);
  }

  /** The range of a subspace tuple holds exactly the packed tuples that strictly extend it, for
      every tuple `pack` accepts. */
  lemma {:induction false} SubspaceRangeIsExact(s: Subspace, t: Tuple, u: Tuple)
    requires EncodableAll(t) && EncodableAll(u)
    ensures PackIn(s, u).Some? && RangeIn(s, t).Some?
    ensures InRange(PackIn(s, u).value, RangeIn(s, t).value.0, RangeIn(s, t).value.1)
        <==> StrictlyExtends(CanonAll(u), CanonAll(t))
  {
    RangeInIsRange(s, t);
    RangeOfAll(t, u, s.prefix);
  }

  lemma {:induction false} RangeInIsRange(s: Subspace, t: Tuple)
    requires EncodableAll(t)
    ensures RangeIn(s, t) == Range(t, s.prefix) && RangeIn(s, t).Some?
  {
    var b := EncAll(t, 0);
    assert [] + b + [0x00] == b + [0x00] && [] + b + [0xFF] == b + [0xFF];
    assert s.prefix + (b + [0x00]) == s.prefix + b + [0x00];
    assert s.prefix + (b + [0xFF]) == s.prefix + b + [0xFF];
  }
}
