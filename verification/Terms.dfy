/** The terms a tuple may hold, and the order erlfdb_tuple:compare gives them. */
module Terms {
  import opened ByteStrings
  import opened FloatBits

  type Bytes16 = b: Bytes | |b| == 16 witness [0, 0, 0, 0, 0, 0, 0, 0, 0, 0, 0, 0, 0, 0, 0, 0]

  datatype Term =
    | Null
    | False
    | True
    | Blob(bin: Bytes)
    | Utf8(text: Bytes)
    | Int(value: int)
    | Single(f: Float32)
    | Double(d: Float64)
    | Uuid(uuid: Bytes16)
    | Id64(id: int)
    | Versionstamp80(id: int, batch: int)
    | Versionstamp96(id: int, batch: int, tx: int)
    | Nested(elems: seq<Term>)

  type Tuple = seq<Term>

  const NULL: byte := 0x00
  const BYTES: byte := 0x01
  const STRING: byte := 0x02
  const NESTED: byte := 0x05
  const NEG_INT_9P: byte := 0x0B
  const ZERO: byte := 0x14
  const POS_INT_9P: byte := 0x1D
  const FLOAT: byte := 0x20
  const DOUBLE: byte := 0x21
  const FALSE: byte := 0x26
  const TRUE: byte := 0x27
  const UUID: byte := 0x30
  const ID64: byte := 0x31
  const VS80: byte := 0x32
  const VS96: byte := 0x33
  const ESCAPE: byte := 0xFF

  function Abs(n: int): nat {
    if n < 0 then -n else n
  }

  /** The terms `encode` accepts: only integers of more than 255 bytes are turned away. */
  predicate Encodable(t: Term) {
    match t
    case Int(v) => |EncodeUnsigned(Abs(v))| <= 255
    case Nested(elems) => EncodableAll(elems)
    case _ => true
  }

  predicate EncodableAll(ts: Tuple) {
    forall i :: 0 <= i < |ts| ==> Encodable(ts[i])
  }

  predicate FitsBytes(v: int, n: nat) {
    0 <= v < Pow256(n)
  }

  /** The terms whose fixed-width fields hold what was given: nothing is cut off when
      they are written to 8 and 2 bytes. */
  predicate WellFormed(t: Term) {
    match t
    case Id64(id) => FitsBytes(id, 8)
    case Versionstamp80(id, batch) => FitsBytes(id, 8) && FitsBytes(batch, 2)
    case Versionstamp96(id, batch, tx) => FitsBytes(id, 8) && FitsBytes(batch, 2) && FitsBytes(tx, 2)
    case Nested(elems) => WellFormedAll(elems)
    case _ => Encodable(t)
  }

  predicate WellFormedAll(ts: Tuple) {
    forall i :: 0 <= i < |ts| ==> WellFormed(ts[i])
  }

  lemma {:induction false} WellFormedIsEncodable(t: Term)
    requires WellFormed(t)
    ensures Encodable(t)
  {
    if t.Nested? {
      forall i | 0 <= i < |t.elems| ensures Encodable(t.elems[i]) {
        WellFormedIsEncodable(t.elems[i]);
      }
    }
  }

  function CodeFor(t: Term): byte {
    match t
    case Null => NULL
    case Blob(_) => BYTES
    case Utf8(_) => STRING
    case Int(_) => ZERO
    case Single(_) => FLOAT
    case Double(_) => DOUBLE
    case False => FALSE
    case True => TRUE
    case Uuid(_) => UUID
    case Id64(_) => ID64
    case Versionstamp80(_, _) => VS80
    case Versionstamp96(_, _, _) => VS96
    case Nested(_) => NESTED
  }

  /** Lexicographic combination of two comparisons, as Erlang compares tuples of one size. */
  function Then(c: int, d: int): int {
    if c != 0 then c else d
  }

  /** `compare_impl`. */
  function Compare(a: Tuple, b: Tuple): (c: int)
    ensures -1 <= c <= 1
    decreases a, 0
  {
    if a == [] && b == [] then 0
    else if a == [] then -1
    else if b == [] then 1
    else Then(CompareElems(a[0], b[0]), Compare(a[1..], b[1..]))
  }

  /** `compare_elems`: the type code first, then Erlang's own order on the values, except
      that floats compare by their packed bytes and nested tuples element by element. */
  function CompareElems(a: Term, b: Term): (c: int)
    ensures -1 <= c <= 1
    decreases a, 1
  {
    if CodeFor(a) < CodeFor(b) then -1
    else if CodeFor(a) > CodeFor(b) then 1
    else match a
      case Null => 0
      case False => 0
      case True => 0
      case Blob(x) => Lex(x, b.bin)
      case Utf8(x) => Lex(x, b.text)
      case Int(v) => Sign(v - b.value)
      case Single(f) => Lex([FLOAT] + ToOrdered(f.raw), [FLOAT] + ToOrdered(b.f.raw))
      case Double(f) => Lex([DOUBLE] + ToOrdered(f.raw), [DOUBLE] + ToOrdered(b.d.raw))
      case Uuid(x) => Lex(x, b.uuid)
      case Id64(v) => Sign(v - b.id)
      case Versionstamp80(id, batch) => Then(Sign(id - b.id), Sign(batch - b.batch))
      case Versionstamp96(id, batch, tx) =>
        Then(Sign(id - b.id), Then(Sign(batch - b.batch), Sign(tx - b.tx)))
      case Nested(elems) => Compare(elems, b.elems)
  }
}
