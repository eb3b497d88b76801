/** erlfdb_tuple:pack: terms to iolists to bytes. */
module TupleEncode {
  import opened Options
  import opened ByteStrings
  import opened FloatBits
  import opened Terms
  import opened NullTerminated

  /** `encode/2`. A null is escaped inside a nested tuple, where a bare NUL ends the tuple. */
  function Encode(t: Term, depth: nat): Io
    requires Encodable(t)
    decreases t, 1
  {
    match t
    case Null => if depth == 0 then Bin([NULL]) else List([Bin([NULL, ESCAPE])])
    case False => Bin([FALSE])
    case True => Bin([TRUE])
    case Utf8(text) => List([Bin([STRING]), EncNullTerminated(text)])
    case Single(f) => List([Bin([FLOAT]), Bin(ToOrdered(EncodeFloat(f)))])
    case Double(d) => List([Bin([DOUBLE]), Bin(ToOrdered(EncodeFloat(d)))])
    case Uuid(uuid) => List([Bin([UUID]), Bin(uuid)])
    case Id64(id) => List([Bin([ID64]), Bin(BeFixed(id, 8))])
    case Versionstamp80(id, batch) => List([Bin([VS80]), Bin(BeFixed(id, 8) + BeFixed(batch, 2))])
    case Versionstamp96(id, batch, tx) =>
      List([Bin([VS96]), Bin(BeFixed(id, 8) + BeFixed(batch, 2) + BeFixed(tx, 2))])
    case Blob(bin) => List([Bin([BYTES]), EncNullTerminated(bin)])
    case Int(v) =>
      if v == 0 then List([Bin([ZERO])])
      else
        var magnitude := EncodeUnsigned(Abs(v));
        List([Bin(IntHead(v < 0, |magnitude|)), Bin(if v < 0 then Complement(magnitude) else magnitude)])
    case Nested(elems) => List([Bin([NESTED]), List(EncodeAll(elems, depth + 1)), Bin([NULL])])
  }

  /** The codes around ZERO: 1 to 8 bytes have a code each, 9 to 255 bytes share one and
      spell their size, inverted for negative numbers. */
  function IntHead(negative: bool, size: nat): Bytes
    requires size <= 255
  {
    if size <= 8 then [if negative then ZERO - size else ZERO + size]
    else if negative then [NEG_INT_9P, 255 - size]
    else [POS_INT_9P, size]
  }

  /** `[encode(E, Depth) || E <- Elems]`. */
  function EncodeAll(ts: Tuple, depth: nat): (r: seq<Io>)
    requires EncodableAll(ts)
    ensures |r| == |ts|
    decreases ts, 0
  {
    if ts == [] then []
    else
      assert Encodable(ts[0]);
      [Encode(ts[0], depth)] + EncodeAll(ts[1..], depth)
  }

  /** `pack/2`; `None` stands for the error raised on an integer of more than 255 bytes. */
  function Pack(tuple: Tuple, prefix: Bytes): Option<Bytes> {
    if EncodableAll(tuple) then Some(prefix + FlattenAll(EncodeAll(tuple, 0))) else None
  }

  /** The bytes of one element and of a run of elements. */
  ghost function Enc(t: Term, depth: nat): Bytes
    requires Encodable(t)
  {
    Flatten(Encode(t, depth))
  }

  ghost function EncAll(ts: Tuple, depth: nat): Bytes
    requires EncodableAll(ts)
  {
    FlattenAll(EncodeAll(ts, depth))
  }

  ghost function EncInt(v: int): Bytes
    requires Encodable(Int(v))
  {
    if v == 0 then [ZERO]
    else
      var magnitude := EncodeUnsigned(Abs(v));
      IntHead(v < 0, |magnitude|) + (if v < 0 then Complement(magnitude) else magnitude)
  }

  /** The bytes of each type, an integer's and a nested tuple's left to the encoder. */
  ghost function Layout(t: Term, depth: nat): Bytes
    requires Encodable(t)
  {
    match t
    case Null => if depth == 0 then [NULL] else [NULL, ESCAPE]
    case False => [FALSE]
    case True => [TRUE]
    case Utf8(text) => [STRING] + (Escape(text) + [NULL])
    case Single(f) => [FLOAT] + ToOrdered(f.raw)
    case Double(d) => [DOUBLE] + ToOrdered(d.raw)
    case Uuid(uuid) => [UUID] + uuid
    case Id64(id) => [ID64] + BeFixed(id, 8)
    case Versionstamp80(id, batch) => [VS80] + (BeFixed(id, 8) + BeFixed(batch, 2))
    case Versionstamp96(id, batch, tx) => [VS96] + (BeFixed(id, 8) + BeFixed(batch, 2) + BeFixed(tx, 2))
    case Blob(bin) => [BYTES] + (Escape(bin) + [NULL])
    case Int(v) => EncInt(v)
    case Nested(elems) => [NESTED] + EncAll(elems, depth + 1) + [NULL]
  }

  /** Flattening the iolists of the encoder gives these bytes. */
  lemma {:induction false} EncodedLayout(t: Term, depth: nat)
    requires Encodable(t)
    ensures Enc(t, depth) == Layout(t, depth)
  {
    var io := Encode(t, depth);
    if io.List? {
      FlattenShort(io.items);
    }
    if t.Utf8? {
      EncodesEscaped(t.text);
    }
    if t.Blob? {
      EncodesEscaped(t.bin);
    }
  }

  lemma {:induction false} EncAllCons(ts: Tuple, depth: nat)
    requires EncodableAll(ts) && ts != []
    ensures EncodableAll(ts[1..]) && Encodable(ts[0])
    ensures EncAll(ts, depth) == Enc(ts[0], depth) + EncAll(ts[1..], depth)
  {
    var items := EncodeAll(ts, depth);
    assert items[1..] == EncodeAll(ts[1..], depth);
  }

  lemma {:induction false} EncAllConcat(a: Tuple, b: Tuple, depth: nat)
    requires EncodableAll(a) && EncodableAll(b)
    ensures EncodableAll(a + b)
    ensures EncAll(a + b, depth) == EncAll(a, depth) + EncAll(b, depth)
  {
    EncodableConcat(a, b);
    EncodeAllConcat(a, b, depth);
    FlattenAllConcat(EncodeAll(a, depth), EncodeAll(b, depth));
  }

  lemma {:induction false} EncodableConcat(a: Tuple, b: Tuple)
    requires EncodableAll(a) && EncodableAll(b)
    ensures EncodableAll(a + b)
  {
    forall i | 0 <= i < |a + b| ensures Encodable((a + b)[i]) {
      assert (a + b)[i] == if i < |a| then a[i] else b[i - |a|];
    }
  }

  lemma {:induction false} EncodeAllConcat(a: Tuple, b: Tuple, depth: nat)
    requires EncodableAll(a) && EncodableAll(b) && EncodableAll(a + b)
    ensures EncodeAll(a + b, depth) == EncodeAll(a, depth) + EncodeAll(b, depth)
  {
    if a == [] {
      assert a + b == b;
    } else {
      assert (a + b)[1..] == a[1..] + b;
      EncodeAllConcat(a[1..], b, depth);
    }
  }

  /** The first byte of an element: a NUL for null alone, and never as large as 0x34, so
      never the escape byte 0xFF. */
  lemma {:induction false} FirstByte(t: Term, depth: nat)
    requires Encodable(t)
    ensures Enc(t, depth) != [] && Enc(t, depth)[0] <= VS96
    ensures Enc(t, depth)[0] == NULL <==> t.Null?
  {
    EncodedLayout(t, depth);
  }

  /** The leading byte is the type code, give or take the size of an integer. */
  lemma {:induction false} FirstByteIsCode(t: Term, depth: nat)
    requires Encodable(t)
    ensures Enc(t, depth) != []
    ensures t.Int? ==> NEG_INT_9P <= Enc(t, depth)[0] <= POS_INT_9P
    ensures !t.Int? ==> Enc(t, depth)[0] == CodeFor(t)
  {
    EncodedLayout(t, depth);
  }

  lemma {:induction false} SafeElements(ts: Tuple, depth: nat, x: Bytes)
    requires EncodableAll(ts) && Safe(x)
    ensures Safe(EncAll(ts, depth) + x)
    ensures ts != [] ==> EncAll(ts, depth) != []
  {
    if ts == [] {
      assert EncAll(ts, depth) + x == x;
    } else {
      EncAllCons(ts, depth);
      FirstByte(ts[0], depth);
    }
  }

  // ---------------------------------------------------------------- the specification

  /** The integers that can be encoded are those below 256^255 on either side. */
  lemma {:induction false} IntEncodableIff(v: int, m: nat, size: nat)
    requires m == Abs(v) && size == 255
    ensures Encodable(Int(v)) <==> m < Pow256(size)
  {
    FitsInBytes(m, size);
  }

  lemma {:induction false} FitsInBytes(m: nat, size: nat)
    requires size > 0
    ensures |EncodeUnsigned(m)| <= size <==> m < Pow256(size)
  {
    var k := |EncodeUnsigned(m)|;
    if k <= size {
      Pow256Monotone(k, size);
    } else if m > 0 {
      UnsignedBounds(m);
      Pow256Monotone(size, k - 1);
    }
  }

  /** How many bytes a magnitude takes. */
  ghost function Size(m: nat): (n: nat)
    requires m > 0
    ensures n > 0 && Pow256(n - 1) <= m < Pow256(n)
  {
    if m < 256 then
      assert Pow256(0) == 1 && Pow256(1) == 256 * Pow256(0);
      1
    else
      var n := Size(m / 256);
      assert Pow256(n) == 256 * Pow256(n - 1) && Pow256(n + 1) == 256 * Pow256(n);
      n + 1
  }

  /** An integer as the Tuple Layer specifies it. Up to 8 bytes the size is added to the code of
      zero, or taken away from it for negative numbers; beyond, code 0x1D is followed by the size
      and code 0x0B by its complement. Then comes the magnitude, big-endian, and for a negative
      number 256^size - 1 less the magnitude. */
  ghost function SpecifiedInt(v: int): Bytes
    requires Encodable(Int(v))
  {
    if v == 0 then [0x14]
    else
      var n := Size(Abs(v));
      SizeOfInt(v);
      SpecifiedHead(v < 0, n) + SpecifiedMagnitude(v, n)
  }

  ghost function SpecifiedHead(negative: bool, n: nat): Bytes
    requires n <= 255
  {
    if negative then (if n <= 8 then [0x14 - n] else [0x0B, 255 - n])
    else if n <= 8 then [0x14 + n] else [0x1D, n]
  }

  ghost function SpecifiedMagnitude(v: int, n: nat): Bytes {
    BeFixed(if v < 0 then Pow256(n) - 1 + v else v, n)
  }

  lemma {:induction false} SizeOfInt(v: int)
    requires v != 0
    ensures |EncodeUnsigned(Abs(v))| == Size(Abs(v))
  {
    var m := Abs(v);
    var k, n := |EncodeUnsigned(m)|, Size(m);
    UnsignedBounds(m);
    if k < n {
      Pow256Monotone(k, n - 1);
    } else if n < k {
      Pow256Monotone(n, k - 1);
    }
  }

  /** Any term as the Tuple Layer specifies it, all the way down. */
  ghost function Specified(t: Term, depth: nat): Bytes
    requires Encodable(t)
    decreases t, 1
  {
    match t
    case Null => if depth == 0 then [0x00] else [0x00, 0xFF]
    case Blob(bin) => [0x01] + Escape(bin) + [0x00]
    case Utf8(text) => [0x02] + Escape(text) + [0x00]
    case Nested(elems) => [0x05] + SpecifiedAll(elems, depth + 1) + [0x00]
    case Int(v) => SpecifiedInt(v)
    case Single(f) => [0x20] + ToOrdered(f.raw)
    case Double(d) => [0x21] + ToOrdered(d.raw)
    case False => [0x26]
    case True => [0x27]
    case Uuid(uuid) => [0x30] + uuid
    case Id64(id) => [0x31] + BeFixed(id, 8)
    case Versionstamp80(id, batch) => [0x32] + BeFixed(id, 8) + BeFixed(batch, 2)
    case Versionstamp96(id, batch, tx) => [0x33] + BeFixed(id, 8) + BeFixed(batch, 2) + BeFixed(tx, 2)
  }

  ghost function SpecifiedAll(ts: Tuple, depth: nat): Bytes
    requires EncodableAll(ts)
    decreases ts, 0
  {
    if ts == [] then []
    else
      assert Encodable(ts[0]);
      Specified(ts[0], depth) + SpecifiedAll(ts[1..], depth)
  }

  /** The magnitude of the encoder is the fixed-width form of its size. */
  lemma {:induction false} MagnitudeAsSpecified(v: int)
    requires v != 0
    ensures (if v < 0 then Complement(EncodeUnsigned(Abs(v))) else EncodeUnsigned(Abs(v))) == SpecifiedMagnitude(v, Size(Abs(v)))
  {
    SizeOfInt(v);
    MagnitudeIs(EncodeUnsigned(Abs(v)), v, Size(Abs(v)));
  }

  lemma {:induction false} MagnitudeIs(m: Bytes, v: int, n: nat)
    requires v != 0 && |m| == n && BeValue(m) == Abs(v)
    ensures (if v < 0 then Complement(m) else m) == SpecifiedMagnitude(v, n)
  {
    if v > 0 {
      FixedIsMagnitude(m, v, n);
    } else {
      ComplementValue(m);
      FixedIsMagnitude(Complement(m), Pow256(n) - 1 + v, n);
    }
  }

  lemma {:induction false} FixedIsMagnitude(x: Bytes, v: nat, n: nat)
    requires |x| == n && BeValue(x) == v
    ensures x == BeFixed(v, n)
  {
    BeFixedValue(v, n);
    RemainderFits(v, Pow256(n));
    BeValueInjective(x, BeFixed(v, n));
  }

  /** The encoder writes every term as specified. */
  lemma {:induction false} EncodesAsSpecified(t: Term, depth: nat)
    requires Encodable(t)
    ensures Enc(t, depth) == Specified(t, depth)
    decreases t, 1
  {
    EncodedLayout(t, depth);
    if t.Int? {
      IntAsSpecified(t.value);
    } else if t.Nested? {
      EncodesAllAsSpecified(t.elems, depth + 1);
    }
  }

  lemma {:induction false} IntAsSpecified(v: int)
    requires Encodable(Int(v))
    ensures EncInt(v) == SpecifiedInt(v)
  {
    if v != 0 {
      MagnitudeAsSpecified(v);
      SizeOfInt(v);
      HeadAsSpecified(v < 0, |EncodeUnsigned(Abs(v))|);
    }
  }

  lemma {:induction false} HeadAsSpecified(negative: bool, size: nat)
    requires size <= 255
    ensures IntHead(negative, size) == SpecifiedHead(negative, size)
  {
  }

  lemma {:induction false} EncodesAllAsSpecified(ts: Tuple, depth: nat)
    requires EncodableAll(ts)
    ensures EncAll(ts, depth) == SpecifiedAll(ts, depth)
    decreases ts, 0
  {
    if ts != [] {
      EncAllCons(ts, depth);
      EncodesAsSpecified(ts[0], depth);
      EncodesAllAsSpecified(ts[1..], depth);
    }
  }
}
