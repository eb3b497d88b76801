/** erlfdb_tuple:unpack, and the round trip with pack. */
module TupleDecode {
  import opened Options
  import opened ByteStrings
  import opened FloatBits
  import opened Terms
  import opened NullTerminated
  import opened TupleEncode

  function Raw(b: Bytes, size: nat): (r: Option<(Bytes, Bytes)>)
    ensures r.Some? ==> |r.value.0| == size && |r.value.1| == |b| - size
  {
    if size <= |b| then Some((b[..size], b[size..])) else None
  }

  /** `dec_neg_int` and `dec_pos_int`, up to the call that decodes what follows. */
  function DecInt(negative: bool, size: nat, b: Bytes): (r: Option<(Term, Bytes)>)
    ensures r.Some? ==> |r.value.1| <= |b|
  {
    match Raw(b, size)
    case None => None
    case Some((raw, rest)) =>
      Some((Int(SignedValue(negative, raw)), rest))
  }

  /** A negative number is stored as the complement of its magnitude. */
  function SignedValue(negative: bool, raw: Bytes): int {
    if negative then BeValue(raw) - Pow256(|raw|) + 1 else BeValue(raw)
  }

  /** `dec_float`. */
  function DecFloat(b: Bytes): (f: Float)
    requires IsRaw(b)
    ensures |f.raw| == |b|
  {
    DecodeFloat(FromOrdered(b))
  }

  /** The integer clauses of `decode/2`. */
  function DecodeIntCode(code: byte, rest: Bytes): (r: Option<(Term, Bytes)>)
    requires NEG_INT_9P <= code <= POS_INT_9P
    ensures r.Some? ==> |r.value.1| <= |rest|
  {
    if code == NEG_INT_9P then
      if rest == [] then None else DecInt(true, 255 - rest[0], rest[1..])
    else if code < ZERO then DecInt(true, ZERO - code, rest)
    else if code == ZERO then Some((Int(0), rest))
    else if code < POS_INT_9P then DecInt(false, code - ZERO, rest)
    else if rest == [] then None
    else DecInt(false, rest[0], rest[1..])
  }

  /** The clauses that take a fixed number of bytes after the code. */
  function DecodeFixedCode(code: byte, rest: Bytes): (r: Option<(Term, Bytes)>)
    ensures r.Some? ==> |r.value.1| <= |rest|
  {
    if code == FALSE then Some((False, rest))
    else if code == TRUE then Some((True, rest))
    else if code == FLOAT then
      match Raw(rest, 4)
      case None => None
      case Some((raw, after)) => Some((Single(DecFloat(raw)), after))
    else if code == DOUBLE then
      match Raw(rest, 8)
      case None => None
      case Some((raw, after)) => Some((Double(DecFloat(raw)), after))
    else if code == UUID then
      match Raw(rest, 16)
      case None => None
      case Some((raw, after)) => Some((Uuid(raw), after))
    else if code == ID64 then
      match Raw(rest, 8)
      case None => None
      case Some((raw, after)) => Some((Id64(BeValue(raw)), after))
    else if code == VS80 then
      match Raw(rest, 10)
      case None => None
      case Some((raw, after)) => Some((Versionstamp80(BeValue(raw[..8]), BeValue(raw[8..])), after))
    else if code == VS96 then
      match Raw(rest, 12)
      case None => None
      case Some((raw, after)) =>
        Some((Versionstamp96(BeValue(raw[..8]), BeValue(raw[8..10]), BeValue(raw[10..])), after))
    else None
  }

  /** The clauses of `decode/2` whose type code starts an element other than a null or a
      nested tuple: the element and the bytes after it, or `None` where no clause matches
      or the code raises an error. */
  function DecodeScalar(b: Bytes): (r: Option<(Term, Bytes)>)
    requires b != []
    ensures r.Some? ==> |r.value.1| < |b|
  {
    var code, rest := b[0], b[1..];
    if code == BYTES || code == STRING then
      match DecNullTerminated(rest)
      case None => None
      case Some((bin, after)) => Some((if code == BYTES then Blob(bin) else Utf8(bin), after))
    else if NEG_INT_9P <= code <= POS_INT_9P then DecodeIntCode(code, rest)
    else DecodeFixedCode(code, rest)
  }

  function Prepend(t: Term, r: Option<(Tuple, Bytes)>): Option<(Tuple, Bytes)> {
    match r
    case None => None
    case Some((ts, tail)) => Some(([t] + ts, tail))
  }

  /** `decode/2`: the elements up to the end of the binary, or inside a nested tuple up to
      the NUL that closes it, and the bytes left over. */
  function Decode(b: Bytes, depth: nat): (r: Option<(Tuple, Bytes)>)
    ensures r.Some? ==> |r.value.1| <= |b|
    ensures r.Some? && depth == 0 ==> r.value.1 == []
    decreases |b|
  {
    if b == [] then
      if depth == 0 then Some(([], [])) else None
    else if b[0] == NULL && depth == 0 then Prepend(Null, Decode(b[1..], 0))
    else if b[0] == NULL then
      if 1 < |b| && b[1] == ESCAPE then Prepend(Null, Decode(b[2..], depth))
      else Some(([], b[1..]))
    else if b[0] == NESTED then
      match Decode(b[1..], depth + 1)
      case None => None
      case Some((elems, tail)) => Prepend(Nested(elems), Decode(tail, depth))
    else
      match DecodeScalar(b)
      case None => None
      case Some((t, rest)) => Prepend(t, Decode(rest, depth))
  }

  datatype Unpacking =
    | Unpacked(tuple: Tuple)
    | InvalidPrefix
    | InvalidTrailingData(tail: Bytes)
    | Malformed

  /** `unpack/2`. */
  function Unpack(b: Bytes, prefix: Bytes): Unpacking {
    if !IsPrefix(prefix, b) then InvalidPrefix
    else match Decode(b[|prefix|..], 0)
      case None => Malformed
      case Some((elems, tail)) => if tail == [] then Unpacked(elems) else InvalidTrailingData(tail)
  }

  /** The trailing-data error of `unpack` is never raised: at depth 0 nothing is left over. */
  lemma {:induction false} NoTrailingData(b: Bytes, prefix: Bytes)
    ensures !Unpack(b, prefix).InvalidTrailingData?
  {
  }

  // ---------------------------------------------------------------- round trip

  /** What a term becomes on its way through bytes: fixed-width fields keep their low-order
      bytes and a float takes the tag its bits call for. */
  function Canon(t: Term): Term {
    match t
    case Single(f) => Single(DecodeFloat(f.raw))
    case Double(d) => Double(DecodeFloat(d.raw))
    case Id64(id) => Id64(id % Pow256(8))
    case Versionstamp80(id, batch) => Versionstamp80(id % Pow256(8), batch % Pow256(2))
    case Versionstamp96(id, batch, tx) =>
      Versionstamp96(id % Pow256(8), batch % Pow256(2), tx % Pow256(2))
    case Nested(elems) => Nested(CanonAll(elems))
    case _ => t
  }

  function CanonAll(ts: Tuple): (r: Tuple)
    ensures |r| == |ts|
    ensures forall i :: 0 <= i < |ts| ==> r[i] == Canon(ts[i])
  {
    if ts == [] then [] else [Canon(ts[0])] + CanonAll(ts[1..])
  }

  /** The terms that need no rewriting. */
  predicate Canonical(t: Term) {
    match t
    case Single(f) => TagMatchesBits(f)
    case Double(d) => TagMatchesBits(d)
    case Nested(elems) => CanonicalAll(elems)
    case Id64(_) => WellFormed(t)
    case Versionstamp80(_, _) => WellFormed(t)
    case Versionstamp96(_, _, _) => WellFormed(t)
    case _ => true
  }

  predicate CanonicalAll(ts: Tuple) {
    forall i :: 0 <= i < |ts| ==> Canonical(ts[i])
  }

  /** A term comes back unchanged exactly when its fields fit and its float tags are right. */
  lemma {:induction false} CanonIsIdentity(t: Term)
    ensures Canon(t) == t <==> Canonical(t)
  {
    match t
    case Single(f) => FloatRoundTrip(f);
    case Double(d) => FloatRoundTrip(d);
    case Id64(id) => FitsIffUnchanged(id, 8);
    case Versionstamp80(id, batch) => FitsIffUnchanged(id, 8); FitsIffUnchanged(batch, 2);
    case Versionstamp96(id, batch, tx) =>
      FitsIffUnchanged(id, 8);
      FitsIffUnchanged(batch, 2);
      FitsIffUnchanged(tx, 2);
    case Nested(elems) =>
      forall i | 0 <= i < |elems| ensures Canon(elems[i]) == elems[i] <==> Canonical(elems[i]) {
        CanonIsIdentity(elems[i]);
      }
      var c := CanonAll(elems);
      assert forall i :: 0 <= i < |elems| ==> (c[i] == elems[i] <==> Canonical(elems[i]));
      assert c == elems <==> CanonicalAll(elems);
    case _ =>
  }

  lemma {:induction false} FitsIffUnchanged(v: int, n: nat)
    ensures v % Pow256(n) == v <==> FitsBytes(v, n)
  {
    RemainderFits(v, Pow256(n));
  }

  lemma {:induction false} IntRoundTrip(v: int, x: Bytes)
    requires Encodable(Int(v))
    ensures DecodeScalar(EncInt(v) + x) == Some((Int(v), x))
  {
    if v == 0 {
      CodeAndRest(ZERO, [], x);
    } else {
      var m := EncodeUnsigned(Abs(v));
      var body := if v < 0 then Complement(m) else m;
      if v < 0 {
        ComplementValue(m);
      }
      SizedIntRoundTrip(v < 0, body, x);
    }
  }

  lemma {:induction false} CodeAndRest(code: byte, body: Bytes, x: Bytes)
    ensures [code] + body + x == [code] + (body + x)
    ensures ([code] + (body + x))[0] == code && ([code] + (body + x))[1..] == body + x
  {
  }

  /** A head and a body of any size are read back as the number the body holds. */
  lemma {:induction false} SizedIntRoundTrip(negative: bool, body: Bytes, x: Bytes)
    requires 0 < |body| <= 255
    ensures IntHead(negative, |body|) + body + x != []
    ensures DecodeScalar(IntHead(negative, |body|) + body + x) == Some((Int(SignedValue(negative, body)), x))
  {
    var h := IntHead(negative, |body|);
    DecIntBody(negative, body, x);
    if |body| <= 8 {
      CodeAndRest(h[0], body, x);
    } else {
      LongHead(h[0], h[1], body, x);
    }
  }

  lemma {:induction false} DecIntBody(negative: bool, body: Bytes, x: Bytes)
    ensures DecInt(negative, |body|, body + x) == Some((Int(SignedValue(negative, body)), x))
  {
    RawPrefix(body, x);
  }

  lemma {:induction false} LongHead(code: byte, size: byte, body: Bytes, x: Bytes)
    ensures ([code, size] + body + x)[0] == code
    ensures ([code, size] + body + x)[1..] == [size] + (body + x)
    ensures ([size] + (body + x))[0] == size && ([size] + (body + x))[1..] == body + x
  {
  }

  lemma {:induction false} RawPrefix(raw: Bytes, x: Bytes)
    ensures Raw(raw + x, |raw|) == Some((raw, x))
  {
    assert (raw + x)[..|raw|] == raw && (raw + x)[|raw|..] == x;
  }

  lemma {:induction false} RawRoundTrip(code: byte, raw: Bytes, x: Bytes)
    ensures ([code] + raw + x)[0] == code
    ensures Raw(([code] + raw + x)[1..], |raw|) == Some((raw, x))
  {
    assert ([code] + raw + x)[1..] == raw + x;
    assert (raw + x)[..|raw|] == raw && (raw + x)[|raw|..] == x;
  }

  lemma {:induction false} ConcatParts(a: Bytes, b: Bytes, c: Bytes)
    ensures (a + b)[..|a|] == a && (a + b)[|a|..] == b
    ensures (a + b + c)[..|a|] == a && (a + b + c)[|a|..|a| + |b|] == b && (a + b + c)[|a| + |b|..] == c
  {
  }

  lemma {:induction false} TextRoundTrip(code: byte, bin: Bytes, x: Bytes)
    requires Safe(x)
    ensures ([code] + (Escape(bin) + [NULL]) + x)[0] == code
    ensures DecNullTerminated(([code] + (Escape(bin) + [NULL]) + x)[1..]) == Some((bin, x))
  {
    EncodesEscaped(bin);
    NullTerminatedRoundTrip(bin, x);
    assert ([code] + (Escape(bin) + [NULL]) + x)[1..] == Escape(bin) + [NULL] + x;
  }

  /** Every element other than a null or a nested tuple is read back in its canonical form. */
  lemma {:induction false} ScalarRoundTrip(t: Term, depth: nat, x: Bytes)
    requires Encodable(t) && !t.Null? && !t.Nested? && Safe(x)
    ensures Enc(t, depth) != []
    ensures DecodeScalar(Enc(t, depth) + x) == Some((Canon(t), x))
  {
    EncodedLayout(t, depth);
    match t
    case False => assert (Enc(t, depth) + x)[1..] == x;
    case True => assert (Enc(t, depth) + x)[1..] == x;
    case Blob(bin) => TextRoundTrip(BYTES, bin, x);
    case Utf8(text) => TextRoundTrip(STRING, text, x);
    case Int(v) => IntRoundTrip(v, x);
    case Single(f) => OrderedRoundTrip(f.raw); RawRoundTrip(FLOAT, ToOrdered(f.raw), x);
    case Double(d) => OrderedRoundTrip(d.raw); RawRoundTrip(DOUBLE, ToOrdered(d.raw), x);
    case _ => FixedRoundTrip(t, depth, x);
  }

  lemma {:induction false} FixedRoundTrip(t: Term, depth: nat, x: Bytes)
    requires t.Uuid? || t.Id64? || t.Versionstamp80? || t.Versionstamp96?
    ensures Enc(t, depth) != []
    ensures DecodeScalar(Enc(t, depth) + x) == Some((Canon(t), x))
  {
    EncodedLayout(t, depth);
    match t
    case Uuid(uuid) => RawRoundTrip(UUID, uuid, x);
    case Id64(id) => BeFixedValue(id, 8); RawRoundTrip(ID64, BeFixed(id, 8), x);
    case Versionstamp80(id, batch) => StampRoundTrip(id, batch, x);
    case Versionstamp96(id, batch, tx) => LongStampRoundTrip(id, batch, tx, x);
  }

  lemma {:induction false} StampRoundTrip(id: int, batch: int, x: Bytes)
    ensures DecodeScalar([VS80] + (BeFixed(id, 8) + BeFixed(batch, 2)) + x)
         == Some((Canon(Versionstamp80(id, batch)), x))
  {
    BeFixedValue(id, 8);
    BeFixedValue(batch, 2);
    ConcatParts(BeFixed(id, 8), BeFixed(batch, 2), []);
    RawRoundTrip(VS80, BeFixed(id, 8) + BeFixed(batch, 2), x);
  }

  lemma {:induction false} LongStampRoundTrip(id: int, batch: int, tx: int, x: Bytes)
    ensures DecodeScalar([VS96] + (BeFixed(id, 8) + BeFixed(batch, 2) + BeFixed(tx, 2)) + x)
         == Some((Canon(Versionstamp96(id, batch, tx)), x))
  {
    BeFixedValue(id, 8);
    BeFixedValue(batch, 2);
    BeFixedValue(tx, 2);
    ConcatParts(BeFixed(id, 8), BeFixed(batch, 2), BeFixed(tx, 2));
    RawRoundTrip(VS96, BeFixed(id, 8) + BeFixed(batch, 2) + BeFixed(tx, 2), x);
  }

  /** How a run of elements ends: with the binary at the top, with a NUL when nested. */
  ghost function Closing(depth: nat, x: Bytes): Bytes {
    if depth == 0 then [] else [NULL] + x
  }

  ghost function Run(ts: Tuple, depth: nat, x: Bytes): Bytes
    requires EncodableAll(ts)
  {
    EncAll(ts, depth) + Closing(depth, x)
  }

  lemma {:induction false} RunCons(ts: Tuple, depth: nat, x: Bytes)
    requires EncodableAll(ts) && ts != [] && Safe(x)
    ensures Encodable(ts[0]) && EncodableAll(ts[1..])
    ensures Run(ts, depth, x) == Enc(ts[0], depth) + Run(ts[1..], depth, x)
    ensures Safe(Run(ts[1..], depth, x))
  {
    EncAllCons(ts, depth);
    Associate(Enc(ts[0], depth), EncAll(ts[1..], depth), Closing(depth, x));
    SafeElements(ts[1..], depth, Closing(depth, x));
  }

  lemma {:induction false} DecodeUndoesEncode(ts: Tuple, depth: nat, x: Bytes)
    requires EncodableAll(ts) && Safe(x)
    ensures Decode(Run(ts, depth, x), depth) == Some((CanonAll(ts), if depth == 0 then [] else x))
    decreases ts, 0
  {
    if ts == [] {
      DecodesNothing(depth, x);
    } else {
      RunCons(ts, depth, x);
      var y := Run(ts[1..], depth, x);
      DecodeUndoesEncode(ts[1..], depth, x);
      DecodesElement(ts[0], depth, y);
      DecodesCons(ts, depth, Run(ts, depth, x), y, if depth == 0 then [] else x);
    }
  }

  lemma {:induction false} DecodesNothing(depth: nat, x: Bytes)
    requires Safe(x)
    ensures Decode(Run([], depth, x), depth) == Some((CanonAll([]), if depth == 0 then [] else x))
  {
    DecodesClosing(depth, x);
    assert Run([], depth, x) == Closing(depth, x);
  }

  /** One element, and the rest decoded already. */
  lemma {:induction false} DecodesCons(ts: Tuple, depth: nat, all: Bytes, y: Bytes, left: Bytes)
    requires ts != [] && Encodable(ts[0]) && all == Enc(ts[0], depth) + y
    requires Decode(y, depth) == Some((CanonAll(ts[1..]), left))
    requires Decode(Enc(ts[0], depth) + y, depth) == Prepend(Canon(ts[0]), Decode(y, depth))
    ensures Decode(all, depth) == Some((CanonAll(ts), left))
  {
    CanonCons(ts);
  }

  lemma {:induction false} CanonCons(ts: Tuple)
    requires ts != []
    ensures CanonAll(ts) == [Canon(ts[0])] + CanonAll(ts[1..])
  {
  }

  lemma {:induction false} DecodesElement(t: Term, depth: nat, y: Bytes)
    requires Encodable(t) && Safe(y)
    ensures Decode(Enc(t, depth) + y, depth) == Prepend(Canon(t), Decode(y, depth))
    decreases t, 1
  {
    if t.Null? {
      DecodesNull(depth, y);
    } else if t.Nested? {
      DecodeUndoesEncode(t.elems, depth + 1, y);
      DecodesNested(t, depth, y);
    } else {
      DecodesScalar(t, depth, y);
    }
  }

  lemma {:induction false} DecodesScalar(t: Term, depth: nat, y: Bytes)
    requires Encodable(t) && !t.Null? && !t.Nested? && Safe(y)
    ensures Decode(Enc(t, depth) + y, depth) == Prepend(Canon(t), Decode(y, depth))
  {
    FirstByteIsCode(t, depth);
    ScalarRoundTrip(t, depth, y);
    assert (Enc(t, depth) + y)[0] == Enc(t, depth)[0];
  }

  lemma {:induction false} DecodesClosing(depth: nat, x: Bytes)
    requires Safe(x)
    ensures Decode(Closing(depth, x), depth) == Some(([], if depth == 0 then [] else x))
  {
    var b := [NULL] + x;
    assert b[1..] == x;
    if x != [] {
      assert b[1] == x[0];
    }
  }

  lemma {:induction false} DecodesNull(depth: nat, y: Bytes)
    ensures Decode(Enc(Null, depth) + y, depth) == Prepend(Null, Decode(y, depth))
  {
    EncodedLayout(Null, depth);
    var b := Enc(Null, depth) + y;
    if depth == 0 {
      assert b[1..] == y;
    } else {
      assert b[1] == ESCAPE && b[2..] == y;
    }
  }

  lemma {:induction false} DecodesNested(t: Term, depth: nat, y: Bytes)
    requires t.Nested? && Encodable(t)
    requires Decode(Run(t.elems, depth + 1, y), depth + 1) == Some((CanonAll(t.elems), y))
    ensures Decode(Enc(t, depth) + y, depth) == Prepend(Canon(t), Decode(y, depth))
  {
    var inner := Run(t.elems, depth + 1, y);
    NestedBytes(t, depth, y, inner);
    var b := Enc(t, depth) + y;
    assert b != [] && b[0] == NESTED && b[1..] == inner;
  }

  lemma {:induction false} NestedBytes(t: Term, depth: nat, y: Bytes, inner: Bytes)
    requires t.Nested? && Encodable(t) && inner == EncAll(t.elems, depth + 1) + ([NULL] + y)
    ensures Enc(t, depth) + y == [NESTED] + inner
    ensures (Enc(t, depth) + y)[1..] == inner
  {
    EncodedLayout(t, depth);
  }

  /** Round trip: unpacking a packed tuple gives back its canonical form, for every tuple
      `pack` accepts, any nesting and any prefix. */
  lemma {:induction false} PackUnpackRoundTrip(tuple: Tuple, prefix: Bytes)
    requires Pack(tuple, prefix).Some?
    ensures Unpack(Pack(tuple, prefix).value, prefix) == Unpacked(CanonAll(tuple))
    ensures Unpack(Pack(tuple, prefix).value, prefix) == Unpacked(tuple)
       <==> CanonicalAll(tuple)
  {
    UnpacksCanonical(tuple, prefix);
    CanonIsIdentity(Nested(tuple));
    assert Canon(Nested(tuple)) == Nested(CanonAll(tuple));
  }

  /** A float in a tuple comes back unchanged exactly if its tag fits the fields of its bits: 1.0 does,
      zero and the other subnormals do only in their tagged form. */
  lemma {:induction false} FloatsComeBack(s: Float32, d: Float64, prefix: Bytes)
    ensures Pack([Single(s)], prefix).Some? && Pack([Double(d)], prefix).Some?
    ensures Unpack(Pack([Single(s)], prefix).value, prefix) == Unpacked([Single(s)]) <==> FieldsFit(s)
    ensures Unpack(Pack([Double(d)], prefix).value, prefix) == Unpacked([Double(d)]) <==> FieldsFit(d)
  {
    assert Encodable(Single(s)) && Encodable(Double(d));
    PackUnpackRoundTrip([Single(s)], prefix);
    PackUnpackRoundTrip([Double(d)], prefix);
    assert CanonicalAll([Single(s)]) <==> Canonical([Single(s)][0]);
    assert CanonicalAll([Double(d)]) <==> Canonical([Double(d)][0]);
    FieldsFitIff(s);
    FieldsFitIff(d);
  }

  lemma {:induction false} UnpacksCanonical(tuple: Tuple, prefix: Bytes)
    requires EncodableAll(tuple)
    ensures Unpack(prefix + EncAll(tuple, 0), prefix) == Unpacked(CanonAll(tuple))
  {
    var b := EncAll(tuple, 0);
    assert (prefix + b)[..|prefix|] == prefix && (prefix + b)[|prefix|..] == b;
    assert Run(tuple, 0, []) == b;
    DecodeUndoesEncode(tuple, 0, []);
  }

  /** What comes out of any bytes can be packed, and unpacking that gives it back. */
  lemma {:induction false} UnpackedIsCanonical(b: Bytes, prefix: Bytes)
    requires Unpack(b, prefix).Unpacked?
    ensures var tuple := Unpack(b, prefix).tuple;
      CanonicalAll(tuple) && Pack(tuple, prefix).Some? && Unpack(Pack(tuple, prefix).value, prefix) == Unpacked(tuple)
  {
    DecodedIsCanonical(b[|prefix|..], 0);
    PackUnpackRoundTrip(Unpack(b, prefix).tuple, prefix);
  }

  lemma {:induction false} DecodedIsCanonical(b: Bytes, depth: nat)
    requires Decode(b, depth).Some?
    ensures CanonicalAll(Decode(b, depth).value.0) && EncodableAll(Decode(b, depth).value.0)
    decreases |b|
  {
    if b != [] {
      if b[0] == NULL && depth == 0 {
        DecodedIsCanonical(b[1..], 0);
      } else if b[0] == NULL {
        if 1 < |b| && b[1] == ESCAPE {
          DecodedIsCanonical(b[2..], depth);
        }
      } else if b[0] == NESTED {
        DecodedIsCanonical(b[1..], depth + 1);
        DecodedIsCanonical(Decode(b[1..], depth + 1).value.1, depth);
      } else {
        ScalarIsCanonical(b);
        DecodedIsCanonical(DecodeScalar(b).value.1, depth);
      }
    }
  }

  lemma {:induction false} ScalarIsCanonical(b: Bytes)
    requires b != [] && DecodeScalar(b).Some?
    ensures Canonical(DecodeScalar(b).value.0) && Encodable(DecodeScalar(b).value.0)
  {
    var code, rest := b[0], b[1..];
    if NEG_INT_9P <= code <= POS_INT_9P {
      DecodedIntIsEncodable(code, rest);
    } else if code == FLOAT {
      FloatRoundTrip(DecFloat(rest[..4]));
    } else if code == DOUBLE {
      FloatRoundTrip(DecFloat(rest[..8]));
    }
  }

  lemma {:induction false} DecodedIntIsEncodable(code: byte, rest: Bytes)
    requires NEG_INT_9P <= code <= POS_INT_9P && DecodeIntCode(code, rest).Some?
    ensures DecodeIntCode(code, rest).value.0.Int? && Encodable(DecodeIntCode(code, rest).value.0)
  {
    if code == NEG_INT_9P {
      DecIntIsEncodable(true, 255 - rest[0], rest[1..]);
    } else if code == POS_INT_9P {
      DecIntIsEncodable(false, rest[0], rest[1..]);
    } else if code < ZERO {
      DecIntIsEncodable(true, ZERO - code, rest);
    } else if code > ZERO {
      DecIntIsEncodable(false, code - ZERO, rest);
    }
  }

  lemma {:induction false} DecIntIsEncodable(negative: bool, size: nat, rest: Bytes)
    requires size <= 255 && DecInt(negative, size, rest).Some?
    ensures DecInt(negative, size, rest).value.0.Int? && Encodable(DecInt(negative, size, rest).value.0)
  {
    var v := DecInt(negative, size, rest).value.0.value;
    var m, limit := Abs(v), 255;
    Pow256Monotone(size, limit);
    IntEncodableIff(v, m, limit);
  }

  /** Bytes that begin with no code of the layout are refused. */
  lemma {:induction false} UnknownCodesAreRefused(b: Bytes, prefix: Bytes)
    requires b != []
    requires b[0] !in {0x00, 0x01, 0x02, 0x05, 0x20, 0x21, 0x26, 0x27, 0x30, 0x31, 0x32, 0x33} && !(0x0B <= b[0] <= 0x1D)
    ensures Unpack(prefix + b, prefix) == Malformed
  {
    assert (prefix + b)[..|prefix|] == prefix && (prefix + b)[|prefix|..] == b;
  }

  /** Packing is injective up to the canonical form. */
  lemma {:induction false} PackInjective(a: Tuple, b: Tuple, prefix: Bytes)
    requires Pack(a, prefix).Some? && Pack(a, prefix) == Pack(b, prefix)
    ensures CanonAll(a) == CanonAll(b)
  {
    PackUnpackRoundTrip(a, prefix);
    PackUnpackRoundTrip(b, prefix);
  }

  /** Rewriting a tuple to its canonical form leaves its packed bytes alone and makes every
      fixed-width field fit, so order and range facts carry over to all encodable tuples. */
  lemma {:induction false} CanonKeepsBytes(ts: Tuple, depth: nat)
    requires EncodableAll(ts)
    ensures WellFormedAll(CanonAll(ts)) && EncodableAll(CanonAll(ts))
    ensures EncAll(CanonAll(ts), depth) == EncAll(ts, depth)
    decreases ts
  {
    if ts != [] {
      EncAllCons(ts, depth);
      CanonElementKeepsBytes(ts[0], depth);
      CanonKeepsBytes(ts[1..], depth);
      var c := CanonAll(ts);
      assert c[1..] == CanonAll(ts[1..]);
      assert forall i :: 1 <= i < |c| ==> c[i] == c[1..][i - 1];
      EncAllCons(c, depth);
    }
  }

  lemma {:induction false} CanonElementKeepsBytes(t: Term, depth: nat)
    requires Encodable(t)
    ensures WellFormed(Canon(t)) && Encodable(Canon(t))
    ensures Enc(Canon(t), depth) == Enc(t, depth)
    decreases t
  {
    EncodedLayout(t, depth);
    match t
    case Nested(elems) =>
      CanonKeepsBytes(elems, depth + 1);
      EncodedLayout(Canon(t), depth);
    case Id64(id) => ReducedFixed(id, 8); EncodedLayout(Canon(t), depth);
    case Versionstamp80(id, batch) =>
      ReducedFixed(id, 8);
      ReducedFixed(batch, 2);
      EncodedLayout(Canon(t), depth);
    case Versionstamp96(id, batch, tx) =>
      ReducedFixed(id, 8);
      ReducedFixed(batch, 2);
      ReducedFixed(tx, 2);
      EncodedLayout(Canon(t), depth);
    case _ => EncodedLayout(Canon(t), depth);
  }

  lemma {:induction false} ReducedFixed(v: int, n: nat)
    ensures FitsBytes(v % Pow256(n), n)
    ensures BeFixed(v % Pow256(n), n) == BeFixed(v, n)
  {
    var r := v % Pow256(n);
    BeFixedValue(v, n);
    BeFixedValue(r, n);
    FitsIffUnchanged(r, n);
    BeValueInjective(BeFixed(r, n), BeFixed(v, n));
  }
}
