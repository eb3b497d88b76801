/** Packing embeds erlfdb_tuple:compare in byte order, and tuple ranges are exact. */
module TupleOrder {
  import opened Options
  import opened ByteStrings
  import opened FloatBits
  import opened Terms
  import opened NullTerminated
  import opened TupleEncode

  // ---------------------------------------------------------------- one type at a time

  /** A string that is safe to follow an encoding sorts below anything that starts with 0xFF. */
  lemma {:induction false} SafeIsLess(x: Bytes, r: Bytes)
    requires Safe(x) && r != [] && r[0] == ESCAPE
    ensures Lex(x, r) == -1
  {
    if x != [] {
      LexFirst(x, r);
    }
  }

  /** `s` escaped, closed and followed by `x`. */
  ghost function Text(s: Bytes, x: Bytes): Bytes {
    Escape(s) + ([NULL] + x)
  }

  lemma {:induction false} TextCons(s: Bytes, x: Bytes)
    requires s != []
    ensures Text(s, x) == (if s[0] == 0 then [0, 255] else [s[0]]) + Text(s[1..], x)
  {
  }

  lemma {:induction false} EndOfStringIsLess(x: Bytes, b: Bytes, y: Bytes)
    requires b != [] && Safe(x)
    ensures Lex(Text([], x), Text(b, y)) == -1
  {
    var u, v := Text([], x), Text(b, y);
    TextCons(b, y);
    assert u == [NULL] + x;
    if b[0] == 0 {
      var r := [ESCAPE] + Text(b[1..], y);
      assert v == [NULL] + r;
      LexCommonPrefix([NULL], x, r);
      SafeIsLess(x, r);
    } else {
      LexFirst(u, v);
    }
  }

  /** Escaped strings compare as the strings do, wherever the shorter one ends. */
  lemma {:induction false} StringOrder(a: Bytes, b: Bytes, x: Bytes, y: Bytes)
    requires a != b && Safe(x) && Safe(y)
    ensures Lex(Text(a, x), Text(b, y)) == Lex(a, b)
  {
    if a == [] {
      EndOfStringIsLess(x, b, y);
    } else if b == [] {
      EndOfStringIsLess(y, a, x);
      LexAntisymmetric(Text(b, y), Text(a, x));
    } else if a[0] == b[0] {
      SameHead(a, b, x, y);
      StringOrder(a[1..], b[1..], x, y);
    } else {
      OtherHead(a, b, x, y);
    }
  }

  /** A byte both begin with, escaped if it is NUL. */
  lemma {:induction false} SameHead(a: Bytes, b: Bytes, x: Bytes, y: Bytes)
    requires a != [] && b != [] && a[0] == b[0]
    ensures Lex(Text(a, x), Text(b, y)) == Lex(Text(a[1..], x), Text(b[1..], y))
    ensures Lex(a, b) == Lex(a[1..], b[1..]) && (a != b ==> a[1..] != b[1..])
  {
    TextCons(a, x);
    TextCons(b, y);
    assert a == [a[0]] + a[1..] && b == [b[0]] + b[1..];
    LexCommonPrefix(if a[0] == 0 then [0, 255] else [a[0]], Text(a[1..], x), Text(b[1..], y));
  }

  lemma {:induction false} OtherHead(a: Bytes, b: Bytes, x: Bytes, y: Bytes)
    requires a != [] && b != [] && a[0] != b[0]
    ensures Lex(Text(a, x), Text(b, y)) == Lex(a, b)
  {
    FirstOfText(a, x);
    FirstOfText(b, y);
    if a[0] < b[0] {
      LexFirst(Text(a, x), Text(b, y));
    } else {
      LexFirst(Text(b, y), Text(a, x));
    }
  }

  lemma {:induction false} FirstOfText(s: Bytes, x: Bytes)
    requires s != []
    ensures Text(s, x) != [] && Text(s, x)[0] == s[0]
  {
    TextCons(s, x);
  }

  /** The variable-length integer encoding sorts numerically over both signs and all sizes. */
  lemma {:induction false} IntOrder(v: int, w: int, x: Bytes, y: Bytes)
    requires Encodable(Int(v)) && Encodable(Int(w)) && v < w
    ensures Lex(EncInt(v) + x, EncInt(w) + y) == -1
  {
    if v > 0 {
      PositiveOrder(v, w, x, y);
    } else if w < 0 {
      NegativeOrder(v, w, x, y);
    } else {
      FirstOfInt(v);
      FirstOfInt(w);
      LexFirst(EncInt(v) + x, EncInt(w) + y);
    }
  }

  /** The first byte of an integer tells its sign. */
  lemma {:induction false} FirstOfInt(v: int)
    requires Encodable(Int(v))
    ensures EncInt(v) != []
    ensures v < 0 ==> EncInt(v)[0] < ZERO
    ensures v == 0 ==> EncInt(v)[0] == ZERO
    ensures v > 0 ==> EncInt(v)[0] > ZERO
  {
    if v != 0 {
      HeadOfInt(v < 0, |EncodeUnsigned(Abs(v))|);
    }
  }

  lemma {:induction false} HeadOfInt(negative: bool, size: nat)
    requires size <= 255
    ensures IntHead(negative, size) != []
    ensures size > 0 ==> if negative then IntHead(negative, size)[0] < ZERO else IntHead(negative, size)[0] > ZERO
  {
  }

  lemma {:induction false} PositiveOrder(v: int, w: int, x: Bytes, y: Bytes)
    requires Encodable(Int(v)) && Encodable(Int(w)) && 0 < v < w
    ensures Lex(EncInt(v) + x, EncInt(w) + y) == -1
  {
    var a, b := EncodeUnsigned(v), EncodeUnsigned(w);
    UnsignedLengthMonotone(v, w);
    if |a| == |b| {
      LexIsBeOrder(a, b);
    }
    HeadAndBodyOrder(IntHead(false, |a|), IntHead(false, |b|), a, b, x, y);
  }

  lemma {:induction false} NegativeOrder(v: int, w: int, x: Bytes, y: Bytes)
    requires Encodable(Int(v)) && Encodable(Int(w)) && v < w < 0
    ensures Lex(EncInt(v) + x, EncInt(w) + y) == -1
  {
    var a, b := EncodeUnsigned(-v), EncodeUnsigned(-w);
    UnsignedLengthMonotone(-w, -v);
    if |a| == |b| {
      ComplementOrder(a, b);
    }
    HeadAndBodyOrder(IntHead(true, |a|), IntHead(true, |b|), Complement(a), Complement(b), x, y);
  }

  lemma {:induction false} ComplementOrder(a: Bytes, b: Bytes)
    requires |a| == |b| && BeValue(a) > BeValue(b)
    ensures Lex(Complement(a), Complement(b)) == -1
  {
    LexIsBeOrder(a, b);
    ComplementReverses(a, b);
  }

  predicate HeadBelow(h: Bytes, k: Bytes) {
    h != [] && k != [] && (h[0] < k[0] || (|h| == |k| == 2 && h[0] == k[0] && h[1] < k[1]))
  }

  lemma {:induction false} HeadAndBodyOrder(h: Bytes, k: Bytes, a: Bytes, b: Bytes, x: Bytes, y: Bytes)
    requires HeadBelow(h, k) || (h == k && |a| == |b| && Lex(a, b) == -1)
    ensures Lex(h + a + x, k + b + y) == -1
  {
    if h == k {
      SameHeadOrder(h, a, b, x, y);
    } else {
      assert h + a + x == h + (a + x) && k + b + y == k + (b + y);
      HeadOrder(h, k, a + x, b + y);
    }
  }

  lemma {:induction false} HeadOrder(h: Bytes, k: Bytes, x: Bytes, y: Bytes)
    requires HeadBelow(h, k)
    ensures Lex(h + x, k + y) == -1
  {
    if h[0] == k[0] {
      LexSameLength(h, k, x, y);
      assert h == [h[0]] + [h[1]] && k == [h[0]] + [k[1]];
      LexCommonPrefix([h[0]], [h[1]], [k[1]]);
    } else {
      LexFirst(h + x, k + y);
    }
  }

  lemma {:induction false} SameHeadOrder(head: Bytes, a: Bytes, b: Bytes, x: Bytes, y: Bytes)
    requires |a| == |b| && a != b
    ensures Lex(head + a + x, head + b + y) == Lex(a, b)
  {
    assert head + a + x == head + (a + x) && head + b + y == head + (b + y);
    LexCommonPrefix(head, a + x, b + y);
    LexSameLength(a, b, x, y);
  }

  /** Fixed-width fields compare as the numbers they hold, in order of appearance. */
  lemma {:induction false} FixedOrder(v: int, w: int, n: nat)
    requires FitsBytes(v, n) && FitsBytes(w, n)
    ensures Lex(BeFixed(v, n), BeFixed(w, n)) == Sign(v - w)
  {
    BeFixedValue(v, n);
    BeFixedValue(w, n);
    RemainderFits(v, Pow256(n));
    RemainderFits(w, Pow256(n));
    LexIsBeOrder(BeFixed(v, n), BeFixed(w, n));
  }

  lemma {:induction false} FieldsOrder(a: Bytes, b: Bytes, c: Bytes, d: Bytes)
    requires |a| == |b|
    ensures Lex(a + c, b + d) == Then(Lex(a, b), Lex(c, d))
  {
    if a == b {
      LexCommonPrefix(a, c, d);
    } else {
      LexSameLength(a, b, c, d);
    }
  }

  // ---------------------------------------------------------------- elements and tuples

  /** Two elements of the same fixed-width type. */
  predicate SameFixedType(a: Term, b: Term) {
    || (a.Single? && b.Single?)
    || (a.Double? && b.Double?)
    || (a.Uuid? && b.Uuid?)
    || (a.Id64? && b.Id64?)
    || (a.Versionstamp80? && b.Versionstamp80?)
    || (a.Versionstamp96? && b.Versionstamp96?)
  }

  lemma {:induction false} FixedWidthOrder(a: Term, b: Term, depth: nat)
    requires WellFormed(a) && WellFormed(b) && SameFixedType(a, b)
    ensures Encodable(a) && Encodable(b)
    ensures |Enc(a, depth)| == |Enc(b, depth)|
    ensures Lex(Enc(a, depth), Enc(b, depth)) == CompareElems(a, b)
  {
    PayloadLayout(a, depth);
    PayloadLayout(b, depth);
    LexCommonPrefix([CodeFor(a)], Payload(a), Payload(b));
    PayloadOrder(a, b);
  }

  lemma {:induction false} PayloadOrder(a: Term, b: Term)
    requires WellFormed(a) && WellFormed(b) && SameFixedType(a, b)
    ensures Lex(Payload(a), Payload(b)) == CompareElems(a, b)
  {
    match a {
      case Single(_) => FloatPayloadOrder(a, b);
      case Double(_) => FloatPayloadOrder(a, b);
      case Uuid(_) =>
      case Id64(id) => FixedOrder(id, b.id, 8);
      case Versionstamp80(id, batch) => StampOrder(id, batch, b.id, b.batch);
      case Versionstamp96(_, _, _) => LongStampOrder(a, b);
    }
  }

  lemma {:induction false} FloatPayloadOrder(a: Term, b: Term)
    requires WellFormed(a) && WellFormed(b) && ((a.Single? && b.Single?) || (a.Double? && b.Double?))
    ensures Lex(Payload(a), Payload(b)) == CompareElems(a, b)
  {
    LexCommonPrefix([if a.Single? then FLOAT else DOUBLE], Payload(a), Payload(b));
  }

  lemma {:induction false} LongStampOrder(a: Term, b: Term)
    requires a.Versionstamp96? && b.Versionstamp96? && WellFormed(a) && WellFormed(b)
    ensures Lex(Payload(a), Payload(b)) == CompareElems(a, b)
  {
    StampOrder(a.id, a.batch, b.id, b.batch);
    FixedOrder(a.tx, b.tx, 2);
    FieldsOrder(BeFixed(a.id, 8) + BeFixed(a.batch, 2), BeFixed(b.id, 8) + BeFixed(b.batch, 2),
                BeFixed(a.tx, 2), BeFixed(b.tx, 2));
  }

  lemma {:induction false} PayloadLayout(t: Term, depth: nat)
    requires SameFixedType(t, t)
    ensures Enc(t, depth) == [CodeFor(t)] + Payload(t)
    ensures |Payload(t)| == match t case Single(_) => 4 case Double(_) => 8 case Uuid(_) => 16
                              case Id64(_) => 8 case Versionstamp80(_, _) => 10 case _ => 12
  {
    EncodedLayout(t, depth);
  }

  /** What follows the type code of a fixed-width element. */
  ghost function Payload(t: Term): Bytes {
    match t
    case Single(f) => ToOrdered(f.raw)
    case Double(d) => ToOrdered(d.raw)
    case Uuid(uuid) => uuid
    case Id64(id) => BeFixed(id, 8)
    case Versionstamp80(id, batch) => BeFixed(id, 8) + BeFixed(batch, 2)
    case Versionstamp96(id, batch, tx) => BeFixed(id, 8) + BeFixed(batch, 2) + BeFixed(tx, 2)
    case _ => []
  }

  lemma {:induction false} StampOrder(id: int, batch: int, id': int, batch': int)
    requires FitsBytes(id, 8) && FitsBytes(batch, 2) && FitsBytes(id', 8) && FitsBytes(batch', 2)
    ensures Lex(BeFixed(id, 8) + BeFixed(batch, 2), BeFixed(id', 8) + BeFixed(batch', 2))
         == Then(Sign(id - id'), Sign(batch - batch'))
  {
    FixedOrder(id, id', 8);
    FixedOrder(batch, batch', 2);
    FieldsOrder(BeFixed(id, 8), BeFixed(id', 8), BeFixed(batch, 2), BeFixed(batch', 2));
  }

  /** Elements of different types are told apart by their first byte. */
  lemma {:induction false} CodeOrder(a: Term, b: Term, depth: nat, x: Bytes, y: Bytes)
    requires Encodable(a) && Encodable(b) && CodeFor(a) != CodeFor(b)
    ensures Lex(Enc(a, depth) + x, Enc(b, depth) + y) == CompareElems(a, b)
  {
    FirstByteIsCode(a, depth);
    FirstByteIsCode(b, depth);
    if CodeFor(a) < CodeFor(b) {
      LexFirst(Enc(a, depth) + x, Enc(b, depth) + y);
    } else {
      LexFirst(Enc(b, depth) + y, Enc(a, depth) + x);
    }
  }

  lemma {:induction false} TextOrder(code: byte, a: Bytes, b: Bytes, x: Bytes, y: Bytes)
    requires Safe(x) && Safe(y) && a != b
    ensures Lex([code] + (Escape(a) + [NULL]) + x, [code] + (Escape(b) + [NULL]) + y) == Lex(a, b)
  {
    assert [code] + (Escape(a) + [NULL]) + x == [code] + Text(a, x);
    assert [code] + (Escape(b) + [NULL]) + y == [code] + Text(b, y);
    LexCommonPrefix([code], Text(a, x), Text(b, y));
    StringOrder(a, b, x, y);
  }

  /** Whatever follows them, two elements compare in bytes as they do as terms; elements
      that compare equal have equal bytes. */
  lemma {:induction false} ElementOrder(a: Term, b: Term, depth: nat, x: Bytes, y: Bytes)
    requires WellFormed(a) && WellFormed(b) && Safe(x) && Safe(y)
    ensures Encodable(a) && Encodable(b)
    ensures CompareElems(a, b) == 0 ==> Enc(a, depth) == Enc(b, depth)
    ensures CompareElems(a, b) != 0 ==> Lex(Enc(a, depth) + x, Enc(b, depth) + y) == CompareElems(a, b)
    decreases a, 1
  {
    WellFormedIsEncodable(a);
    WellFormedIsEncodable(b);
    if a.Nested? && b.Nested? {
      NestedTermOrder(a, b, depth, x, y);
    } else {
      FlatOrder(a, b, depth, x, y);
    }
  }

  /** Elements that are not both nested. */
  lemma {:induction false} FlatOrder(a: Term, b: Term, depth: nat, x: Bytes, y: Bytes)
    requires WellFormed(a) && WellFormed(b) && Encodable(a) && Encodable(b) && Safe(x) && Safe(y)
    requires !(a.Nested? && b.Nested?)
    ensures CompareElems(a, b) == 0 ==> Enc(a, depth) == Enc(b, depth)
    ensures CompareElems(a, b) != 0 ==> Lex(Enc(a, depth) + x, Enc(b, depth) + y) == CompareElems(a, b)
  {
    if CodeFor(a) != CodeFor(b) {
      CodeOrder(a, b, depth, x, y);
    } else if SameFixedType(a, b) {
      FixedElementOrder(a, b, depth, x, y);
    } else {
      ScalarOrder(a, b, depth, x, y);
    }
  }

  lemma {:induction false} NestedTermOrder(a: Term, b: Term, depth: nat, x: Bytes, y: Bytes)
    requires WellFormed(a) && WellFormed(b) && Safe(x) && Safe(y) && a.Nested? && b.Nested?
    ensures Encodable(a) && Encodable(b)
    ensures CompareElems(a, b) == 0 ==> Enc(a, depth) == Enc(b, depth)
    ensures CompareElems(a, b) != 0 ==> Lex(Enc(a, depth) + x, Enc(b, depth) + y) == CompareElems(a, b)
    decreases a, 0
  {
    WellFormedIsEncodable(a);
    WellFormedIsEncodable(b);
    NestedOrder(a.elems, b.elems, depth + 1, x, y);
    NestedElementOrder(a, b, depth, x, y);
  }

  lemma {:induction false} FixedElementOrder(a: Term, b: Term, depth: nat, x: Bytes, y: Bytes)
    requires WellFormed(a) && WellFormed(b) && SameFixedType(a, b)
    ensures Encodable(a) && Encodable(b)
    ensures CompareElems(a, b) == 0 ==> Enc(a, depth) == Enc(b, depth)
    ensures CompareElems(a, b) != 0 ==> Lex(Enc(a, depth) + x, Enc(b, depth) + y) == CompareElems(a, b)
  {
    FixedWidthOrder(a, b, depth);
    FieldsOrder(Enc(a, depth), Enc(b, depth), x, y);
  }

  /** What the elements of two nested tuples owe, their brackets owe. */
  lemma {:induction false} NestedElementOrder(a: Term, b: Term, depth: nat, x: Bytes, y: Bytes)
    requires a.Nested? && b.Nested? && Encodable(a) && Encodable(b)
    requires Compare(a.elems, b.elems) == 0 ==> EncAll(a.elems, depth + 1) == EncAll(b.elems, depth + 1)
    requires Compare(a.elems, b.elems) != 0 ==>
      Lex(EncAll(a.elems, depth + 1) + [NULL] + x, EncAll(b.elems, depth + 1) + [NULL] + y) == Compare(a.elems, b.elems)
    ensures CompareElems(a, b) == 0 ==> Enc(a, depth) == Enc(b, depth)
    ensures CompareElems(a, b) != 0 ==> Lex(Enc(a, depth) + x, Enc(b, depth) + y) == CompareElems(a, b)
  {
    NestedLayout(a, depth, x);
    NestedLayout(b, depth, y);
    LexCommonPrefix([NESTED], EncAll(a.elems, depth + 1) + [NULL] + x, EncAll(b.elems, depth + 1) + [NULL] + y);
  }

  lemma {:induction false} NestedLayout(a: Term, depth: nat, x: Bytes)
    requires a.Nested? && Encodable(a)
    ensures Enc(a, depth) == [NESTED] + EncAll(a.elems, depth + 1) + [NULL]
    ensures Enc(a, depth) + x == [NESTED] + (EncAll(a.elems, depth + 1) + [NULL] + x)
  {
    EncodedLayout(a, depth);
  }

  /** Constants, strings and integers. */
  lemma {:induction false} ScalarOrder(a: Term, b: Term, depth: nat, x: Bytes, y: Bytes)
    requires Encodable(a) && Encodable(b) && Safe(x) && Safe(y)
    requires CodeFor(a) == CodeFor(b) && !SameFixedType(a, b) && !a.Nested?
    ensures CompareElems(a, b) == 0 ==> Enc(a, depth) == Enc(b, depth)
    ensures CompareElems(a, b) != 0 ==> Lex(Enc(a, depth) + x, Enc(b, depth) + y) == CompareElems(a, b)
  {
    EncodedLayout(a, depth);
    EncodedLayout(b, depth);
    match a {
      case Blob(s) => if s != b.bin { TextOrder(BYTES, s, b.bin, x, y); }
      case Utf8(s) => if s != b.text { TextOrder(STRING, s, b.text, x, y); }
      case Int(v) => SignedOrder(v, b.value, x, y);
      case _ =>
    }
  }

  lemma {:induction false} SignedOrder(v: int, w: int, x: Bytes, y: Bytes)
    requires Encodable(Int(v)) && Encodable(Int(w))
    ensures v != w ==> Lex(EncInt(v) + x, EncInt(w) + y) == Sign(v - w)
  {
    if v < w {
      IntOrder(v, w, x, y);
    } else if v > w {
      IntOrder(w, v, y, x);
      LexAntisymmetric(EncInt(w) + y, EncInt(v) + x);
    }
  }

  /** Runs of elements inside a nested tuple, with the NUL that closes it. */
  lemma {:induction false} NestedOrder(a: Tuple, b: Tuple, depth: nat, x: Bytes, y: Bytes)
    requires WellFormedAll(a) && WellFormedAll(b) && Safe(x) && Safe(y) && depth > 0
    ensures EncodableAll(a) && EncodableAll(b)
    ensures Compare(a, b) == 0 ==> EncAll(a, depth) == EncAll(b, depth)
    ensures Compare(a, b) != 0 ==>
      Lex(EncAll(a, depth) + [NULL] + x, EncAll(b, depth) + [NULL] + y) == Compare(a, b)
    decreases a, 0
  {
    AllEncodable(a);
    AllEncodable(b);
    var u, v := EncAll(a, depth) + [NULL] + x, EncAll(b, depth) + [NULL] + y;
    if a == [] && b == [] {
    } else if a == [] {
      assert u == [NULL] + x;
      CloseIsLess(b, depth, x, y);
    } else if b == [] {
      assert v == [NULL] + y;
      CloseIsLess(a, depth, y, x);
      LexAntisymmetric(v, u);
    } else {
      var u', v' := EncAll(a[1..], depth) + [NULL] + x, EncAll(b[1..], depth) + [NULL] + y;
      EncAllCons(a, depth);
      EncAllCons(b, depth);
      assert u == Enc(a[0], depth) + u' && v == Enc(b[0], depth) + v';
      SafeTail(a[1..], depth, x);
      SafeTail(b[1..], depth, y);
      ElementOrder(a[0], b[0], depth, u', v');
      NestedOrder(a[1..], b[1..], depth, x, y);
      LexCommonPrefix(Enc(a[0], depth), u', v');
    }
  }

  lemma {:induction false} SafeTail(ts: Tuple, depth: nat, x: Bytes)
    requires EncodableAll(ts)
    ensures Safe(EncAll(ts, depth) + [NULL] + x)
  {
    SafeElements(ts, depth, [NULL] + x);
    assert EncAll(ts, depth) + [NULL] + x == EncAll(ts, depth) + ([NULL] + x);
  }

  lemma {:induction false} AllEncodable(ts: Tuple)
    requires WellFormedAll(ts)
    ensures EncodableAll(ts)
  {
    forall i | 0 <= i < |ts| ensures Encodable(ts[i]) {
      WellFormedIsEncodable(ts[i]);
    }
  }

  /** The end of a nested tuple sorts before any further element, escaped nulls included. */
  lemma {:induction false} CloseIsLess(b: Tuple, depth: nat, x: Bytes, y: Bytes)
    requires EncodableAll(b) && b != [] && depth > 0 && Safe(x)
    ensures Lex([NULL] + x, EncAll(b, depth) + [NULL] + y) == -1
  {
    EncAllCons(b, depth);
    EncodedLayout(b[0], depth);
    FirstByte(b[0], depth);
    var u, v := [NULL] + x, EncAll(b, depth) + [NULL] + y;
    if b[0].Null? {
      var r := [ESCAPE] + (EncAll(b[1..], depth) + [NULL] + y);
      EscapedNullSplits(EncAll(b[1..], depth) + [NULL] + y, EncAll(b[1..], depth), y);
      LexCommonPrefix([NULL], x, r);
      SafeIsLess(x, r);
    } else {
      assert v[0] == Enc(b[0], depth)[0];
      LexFirst(u, v);
    }
  }

  lemma {:induction false} EscapedNullSplits(after: Bytes, tail: Bytes, y: Bytes)
    requires after == tail + [NULL] + y
    ensures ([NULL, ESCAPE] + tail) + [NULL] + y == [NULL] + ([ESCAPE] + after)
  {
  }

  lemma {:induction false} TopLevelOrder(a: Tuple, b: Tuple)
    requires WellFormedAll(a) && WellFormedAll(b)
    ensures EncodableAll(a) && EncodableAll(b)
    ensures Lex(EncAll(a, 0), EncAll(b, 0)) == Compare(a, b)
  {
    AllEncodable(a);
    AllEncodable(b);
    if a != [] {
      EncAllCons(a, 0);
      FirstByte(a[0], 0);
    }
    if b != [] {
      EncAllCons(b, 0);
      FirstByte(b[0], 0);
    }
    if a != [] && b != [] {
      var u, v := EncAll(a[1..], 0), EncAll(b[1..], 0);
      SafeElements(a[1..], 0, []);
      SafeElements(b[1..], 0, []);
      assert u + [] == u && v + [] == v;
      ElementOrder(a[0], b[0], 0, u, v);
      TopLevelOrder(a[1..], b[1..]);
      LexCommonPrefix(Enc(a[0], 0), u, v);
    }
  }

  /** Packing is an order embedding: byte order of the packed keys is exactly `compare`,
      equality included, at any nesting depth and behind any common prefix. */
  lemma {:induction false} PackIsOrderEmbedding(a: Tuple, b: Tuple, prefix: Bytes)
    requires WellFormedAll(a) && WellFormedAll(b)
    ensures Pack(a, prefix).Some? && Pack(b, prefix).Some?
    ensures Lex(Pack(a, prefix).value, Pack(b, prefix).value) == Compare(a, b)
  {
    TopLevelOrder(a, b);
    LexCommonPrefix(prefix, EncAll(a, 0), EncAll(b, 0));
  }

  // ---------------------------------------------------------------- ranges

  /** `range/2`. */
  function Range(tuple: Tuple, prefix: Bytes): Option<(Bytes, Bytes)> {
    match Pack(tuple, prefix)
    case None => None
    case Some(base) => Some((base + [0x00], base + [0xFF]))
  }

  /** `u` is `t` followed by at least one more element. */
  predicate StrictlyExtends(u: Tuple, t: Tuple) {
    |t| < |u| && Compare(u[..|t|], t) == 0
  }

  /** What lies between `base 00` and `base FF` is `base` followed by at least one byte,
      the first of them not 0xFF; and conversely. */
  lemma {:induction false} InsideBase(base: Bytes, k: Bytes)
    ensures InRange(k, base + [0x00], base + [0xFF])
        <==> |base| < |k| && IsPrefix(base, k) && k[|base|] != 0xFF
  {
    if base == [] {
      if k != [] {
        assert k == [k[0]] + k[1..];
        LexCommonPrefix([k[0]], [], k[1..]);
        assert [k[0]] + [] == [k[0]];
      }
    } else if k != [] && k[0] == base[0] {
      InsideBase(base[1..], k[1..]);
      assert (base + [0x00])[1..] == base[1..] + [0x00] && (base + [0xFF])[1..] == base[1..] + [0xFF];
      assert k == [k[0]] + k[1..] && base == [base[0]] + base[1..];
      if |base| <= |k| {
        assert k[..|base|] == [k[0]] + k[1..][..|base| - 1];
      }
    } else if k != [] && |base| <= |k| {
      assert k[..|base|][0] == k[0];
    }
  }

  /** If the bytes of `u` begin with the bytes of `t` and do not go on with 0xFF, the
      elements of `t` are the first elements of `u`. */
  lemma {:induction false} PrefixOfBytesIsPrefixOfElements(t: Tuple, u: Tuple, z: Bytes)
    requires WellFormedAll(t) && WellFormedAll(u) && Safe(z)
    requires EncodableAll(t) && EncodableAll(u) && EncAll(u, 0) == EncAll(t, 0) + z
    ensures |t| <= |u| && Compare(u[..|t|], t) == 0
    ensures EncodableAll(u[|t|..]) && z == EncAll(u[|t|..], 0)
  {
    if t == [] {
      assert u[0..] == u && EncAll(t, 0) + z == z;
    } else {
      FirstElementsAgree(t, u, z);
      PrefixOfBytesIsPrefixOfElements(t[1..], u[1..], z);
      assert u[..|t|][1..] == u[1..][..|t| - 1];
      assert u[|t|..] == u[1..][|t| - 1..];
    }
  }

  lemma {:induction false} FirstElementsAgree(t: Tuple, u: Tuple, z: Bytes)
    requires WellFormedAll(t) && WellFormedAll(u) && Safe(z) && t != []
    requires EncodableAll(t) && EncodableAll(u) && EncAll(u, 0) == EncAll(t, 0) + z
    ensures u != [] && CompareElems(u[0], t[0]) == 0
    ensures EncodableAll(u[1..]) && EncodableAll(t[1..]) && EncAll(u[1..], 0) == EncAll(t[1..], 0) + z
  {
    EncAllCons(t, 0);
    FirstByte(t[0], 0);
    assert EncAll(u, 0) != [];
    EncAllCons(u, 0);
    SafeElements(u[1..], 0, []);
    SafeElements(t[1..], 0, z);
    var x, y := EncAll(u[1..], 0), EncAll(t[1..], 0) + z;
    assert x + [] == x;
    Associate(Enc(t[0], 0), EncAll(t[1..], 0), z);
    ElementOrder(u[0], t[0], 0, x, y);
    Cancel(Enc(t[0], 0), x, y);
  }

  lemma {:induction false} Cancel(a: Bytes, x: Bytes, y: Bytes)
    requires a + x == a + y
    ensures x == y
  {
    LexCommonPrefix(a, x, y);
  }

  lemma {:induction false} EqualElementsEqualBytes(a: Tuple, b: Tuple)
    requires WellFormedAll(a) && WellFormedAll(b) && Compare(a, b) == 0
    ensures EncodableAll(a) && EncodableAll(b) && EncAll(a, 0) == EncAll(b, 0)
  {
    TopLevelOrder(a, b);
  }

  /** Range exactness: the half-open interval of a tuple holds the packed tuples that
      strictly extend it and no other, although its bytes are also a prefix of others'. */
  lemma {:induction false} RangeIsExact(t: Tuple, u: Tuple, prefix: Bytes)
    requires WellFormedAll(t) && WellFormedAll(u)
    ensures Pack(u, prefix).Some? && Range(t, prefix).Some?
    ensures InRange(Pack(u, prefix).value, Range(t, prefix).value.0, Range(t, prefix).value.1)
        <==> StrictlyExtends(u, t)
  {
    AllEncodable(t);
    AllEncodable(u);
    var base, k := Pack(t, prefix).value, Pack(u, prefix).value;
    InsideBase(base, k);
    if |base| < |k| && IsPrefix(base, k) && k[|base|] != 0xFF {
      var z := k[|base|..];
      assert k == prefix + (EncAll(t, 0) + z);
      assert EncAll(u, 0) == k[|prefix|..] == EncAll(t, 0) + z;
      PrefixOfBytesIsPrefixOfElements(t, u, z);
      assert z != [];
    }
    if StrictlyExtends(u, t) {
      var head, rest := u[..|t|], u[|t|..];
      assert u == head + rest;
      EqualElementsEqualBytes(head, t);
      EncAllConcat(head, rest, 0);
      EncAllCons(rest, 0);
      FirstByte(rest[0], 0);
      assert k == base + EncAll(rest, 0);
      assert k[|base|] == EncAll(rest, 0)[0];
    }
  }
}
