/** Order and ranges of packed tuples, for every tuple `pack` accepts, fields that are cut to size
    included. */
module TupleRanges {
  import opened Options
  import opened ByteStrings
  import opened Terms
  import opened TupleEncode
  import opened TupleOrder
  import opened TupleDecode

  lemma {:induction false} CanonPacksAlike(ts: Tuple, prefix: Bytes)
    requires EncodableAll(ts)
    ensures WellFormedAll(CanonAll(ts)) && EncodableAll(CanonAll(ts)) && Pack(CanonAll(ts), prefix) == Pack(ts, prefix)
  {
    CanonKeepsBytes(ts, 0);
  }

  /** The order embedding for every tuple `pack` accepts: packed tuples compare as the tuples with
      their fixed-width fields cut to size do. */
  lemma {:induction false} OrderOfAll(a: Tuple, b: Tuple, prefix: Bytes)
    requires EncodableAll(a) && EncodableAll(b)
    ensures Lex(Pack(a, prefix).value, Pack(b, prefix).value) == Compare(CanonAll(a), CanonAll(b))
  {
    CanonPacksAlike(a, prefix);
    CanonPacksAlike(b, prefix);
    PackIsOrderEmbedding(CanonAll(a), CanonAll(b), prefix);
  }

  /** Range exactness for every tuple `pack` accepts. */
  lemma {:induction false} RangeOfAll(t: Tuple, u: Tuple, prefix: Bytes)
    requires EncodableAll(t) && EncodableAll(u)
    ensures Range(t, prefix).Some?
    ensures InRange(Pack(u, prefix).value, Range(t, prefix).value.0, Range(t, prefix).value.1)
        <==> StrictlyExtends(CanonAll(u), CanonAll(t))
  {
    CanonPacksAlike(t, prefix);
    CanonPacksAlike(u, prefix);
    RangeIsExact(CanonAll(t), CanonAll(u), prefix);
  }
}
