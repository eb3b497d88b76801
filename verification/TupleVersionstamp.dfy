/** erlfdb_tuple:pack_vs: packing a tuple that holds one incomplete versionstamp. */
module TupleVersionstamp {
  import opened Options
  import opened ByteStrings
  import opened FloatBits
  import opened Terms
  import opened NullTerminated
  import opened TupleEncode

  const UNSET: Bytes := [255, 255, 255, 255, 255, 255, 255, 255, 255, 255]

  /** The result of the search; `Multiple` stands for the error raised on a second one. */
  datatype Search = NotFound(pos: nat) | Found(pos: nat) | Multiple

  predicate IsUnset80(io: Io) {
    io.Bin? && io.bytes == UNSET
  }

  predicate IsUnset96(io: Io) {
    io.Bin? && |io.bytes| == 12 && io.bytes[..10] == UNSET
  }

  /** After a hit at `pos`, anything but an empty rest is one too many. */
  function OnlyHit(pos: nat, rest: Search): Search {
    if rest.NotFound? then Found(pos) else Multiple
  }

  /** `find_incomplete_versionstamp/2`, clause by clause: adjacent items of the iolist are
      matched, not bytes. After a hit inside a list the rest is searched from the wrong
      position, as in the source, where only the kind of that result matters. */
  function FindIncomplete(items: seq<Io>, pos: nat): Search
    decreases items
  {
    if items == [] then NotFound(pos)
    else if items[0] == Bin([VS80]) && 1 < |items| && IsUnset80(items[1]) then
      OnlyHit(pos + 1, FindIncomplete(items[2..], pos + 11))
    else if items[0] == Bin([VS96]) && 1 < |items| && IsUnset96(items[1]) then
      OnlyHit(pos + 1, FindIncomplete(items[2..], pos + 13))
    else match items[0]
      case List(inner) =>
        (match FindIncomplete(inner, pos)
         case NotFound(newPos) => FindIncomplete(items[1..], newPos)
         case Found(foundPos) => OnlyHit(foundPos, FindIncomplete(items[1..], pos))
         case Multiple => Multiple)
      case Bin(bytes) => FindIncomplete(items[1..], pos + |bytes|)
  }

  /** `<<V:32/unsigned-little>>`. */
  function Le32(v: int): Bytes {
    [v % 0x100, v / 0x100 % 0x100, v / 0x1_0000 % 0x100, v / 0x100_0000 % 0x100]
  }

  datatype VsPacking =
    | VsPacked(bytes: Bytes)
    | MissingVersionstamp
    | MultipleVersionstamps
    | InvalidTerm

  /** `pack_vs/2`. */
  function PackVs(tuple: Tuple, prefix: Bytes): VsPacking {
    if !EncodableAll(tuple) then InvalidTerm
    else
      var encoded := EncodeAll(tuple, 0);
      match FindIncomplete(encoded, 0)
      case Found(pos) => VsPacked(prefix + FlattenAll(encoded) + Le32(pos + |prefix|))
      case NotFound(_) => MissingVersionstamp
      case Multiple => MultipleVersionstamps
  }

  // ---------------------------------------------------------------- what it should find

  /** A versionstamp whose id and batch, as written to 8 and 2 bytes, are all ones. */
  predicate Incomplete(t: Term) {
    match t
    case Versionstamp80(id, batch) => BeFixed(id, 8) + BeFixed(batch, 2) == UNSET
    case Versionstamp96(id, batch, _) => BeFixed(id, 8) + BeFixed(batch, 2) == UNSET
    case _ => false
  }

  /** That is when the id is 2^64 - 1 and the batch 2^16 - 1, as far as the fields hold them. */
  lemma {:induction false} IncompleteIff(t: Term)
    ensures Incomplete(t) <==>
      (t.Versionstamp80? || t.Versionstamp96?) &&
      t.id % 0x1_0000_0000_0000_0000 == 0xFFFF_FFFF_FFFF_FFFF && t.batch % 0x1_0000 == 0xFFFF
  {
    if t.Versionstamp80? || t.Versionstamp96? {
      AllOnesIff(t.id, 8, UNSET[..8]);
      AllOnesIff(t.batch, 2, UNSET[8..]);
      assert Pow256(8) == 0x1_0000_0000_0000_0000 && Pow256(2) == 0x1_0000;
      var x, y := BeFixed(t.id, 8), BeFixed(t.batch, 2);
      assert (x + y)[..8] == x && (x + y)[8..] == y && UNSET[..8] + UNSET[8..] == UNSET;
    }
  }

  lemma {:induction false} AllOnesIff(v: int, n: nat, ones: Bytes)
    requires |ones| == n && forall i :: 0 <= i < n ==> ones[i] == 0xFF
    ensures BeFixed(v, n) == ones <==> v % Pow256(n) == Pow256(n) - 1
  {
    BeFixedValue(v, n);
    AllOnesValue(ones);
    if BeValue(BeFixed(v, n)) == BeValue(ones) {
      BeValueInjective(BeFixed(v, n), ones);
    }
  }

  lemma {:induction false} AllOnesValue(ones: Bytes)
    requires forall i :: 0 <= i < |ones| ==> ones[i] == 0xFF
    ensures BeValue(ones) == Pow256(|ones|) - 1
  {
    if ones != [] {
      AllOnesValue(ones[..|ones| - 1]);
    }
  }

  /** How many incomplete versionstamps a tuple holds, at any depth. */
  function CountIncomplete(ts: Tuple): nat {
    if ts == [] then 0
    else
      (match ts[0]
       case Nested(elems) => CountIncomplete(elems)
       case t => if Incomplete(t) then 1 else 0)
      + CountIncomplete(ts[1..])
  }

  function Shift(hits: seq<nat>, d: nat): (r: seq<nat>)
    ensures |r| == |hits| && forall k :: 0 <= k < |hits| ==> r[k] == hits[k] + d
  {
    seq(|hits|, k requires 0 <= k < |hits| => hits[k] + d)
  }

  /** Where they are: the position of the ten bytes of each one in the flattened encoding. */
  ghost function Offsets(ts: Tuple, depth: nat): seq<nat>
    requires EncodableAll(ts)
    decreases ts, 0
  {
    if ts == [] then []
    else
      assert Encodable(ts[0]);
      ElementOffsets(ts[0], depth) + Shift(Offsets(ts[1..], depth), |Enc(ts[0], depth)|)
  }

  ghost function ElementOffsets(t: Term, depth: nat): seq<nat>
    requires Encodable(t)
    decreases t, 1
  {
    if t.Nested? then Shift(Offsets(t.elems, depth + 1), 1)
    else if Incomplete(t) then [1]
    else []
  }

  /** The result a search from `pos` over `len` bytes owes for the given hits. */
  ghost function Outcome(hits: seq<nat>, pos: nat, len: nat): Search {
    if |hits| == 0 then NotFound(pos + len) else if |hits| == 1 then Found(pos + hits[0]) else Multiple
  }

  lemma {:induction false} OffsetsCount(ts: Tuple, depth: nat)
    requires EncodableAll(ts)
    ensures |Offsets(ts, depth)| == CountIncomplete(ts)
    decreases ts
  {
    if ts != [] {
      assert Encodable(ts[0]);
      if ts[0].Nested? {
        OffsetsCount(ts[0].elems, depth + 1);
      }
      OffsetsCount(ts[1..], depth);
    }
  }

  // ---------------------------------------------------------------- what it does find

  lemma {:induction false} SearchBin(b: Bytes, rest: seq<Io>, pos: nat)
    requires (b != [VS80] && b != [VS96]) || rest == []
    ensures FindIncomplete([Bin(b)] + rest, pos) == FindIncomplete(rest, pos + |b|)
  {
    assert ([Bin(b)] + rest)[1..] == rest;
  }

  /** User strings are never mistaken for a versionstamp: a slice is followed by the escaped
      NUL that joins it to the next one, and that separator starts no versionstamp. */
  lemma {:induction false} SearchJoined(parts: seq<Bytes>, pos: nat)
    ensures FindIncomplete(JoinParts([0, 255], parts), pos)
         == NotFound(pos + |FlattenAll(JoinParts([0, 255], parts))|)
    decreases |parts|
  {
    var items := JoinParts([0, 255], parts);
    if |parts| == 1 {
      assert items[1..] == [];
    } else if |parts| > 1 {
      var rest := JoinParts([0, 255], parts[1..]);
      SearchJoined(parts[1..], pos + |parts[0]| + 2);
      assert items[1..] == [Bin([0, 255])] + rest;
      SearchBin([0, 255], rest, pos + |parts[0]|);
      assert !IsUnset80(items[1]) && !IsUnset96(items[1]);
      FlattenAllConcat([items[0], items[1]], rest);
      FlattenTwo(items[0], items[1]);
    }
  }

  lemma {:induction false} SearchText(bin: Bytes, start: nat, parts: seq<Bytes>, pos: nat)
    requires start <= |bin|
    ensures var io := EncNullTerminatedFrom(bin, start, parts);
            io.List? && FindIncomplete(io.items, pos) == NotFound(pos + |Flatten(io)|)
    decreases |bin| - start
  {
    match FindNul(bin, start)
    case None =>
      var joined := JoinParts([0, 255], parts + [bin[start..]]);
      SearchJoined(parts + [bin[start..]], pos);
      var items := [List(joined), Bin([0])];
      assert items[1..] == [Bin([0])] + [];
      SearchBin([0], [], pos + |FlattenAll(joined)|);
      FlattenTwo(List(joined), Bin([0]));
    case Some(nul) =>
      SearchText(bin, nul + 1, parts + [bin[start..nul]], pos);
  }

  /** A code and a payload that are no incomplete versionstamp. */
  lemma {:induction false} SearchPair(code: Bytes, payload: Bytes, pos: nat)
    requires code == [VS80] ==> payload != UNSET
    requires code == [VS96] ==> |payload| == 12 && payload[..10] != UNSET
    ensures FindIncomplete([Bin(code), Bin(payload)], pos) == NotFound(pos + |code| + |payload|)
  {
    assert [Bin(code), Bin(payload)][1..] == [Bin(payload)] + [];
    SearchBin(payload, [], pos + |code|);
  }

  lemma {:induction false} SearchOneList(io: Io, pos: nat)
    requires io.List? && FindIncomplete(io.items, pos).NotFound?
    ensures FindIncomplete([io], pos) == FindIncomplete(io.items, pos)
  {
    assert [io][1..] == [];
  }

  lemma {:induction false} SearchTextElement(code: byte, bin: Bytes, pos: nat)
    requires code == BYTES || code == STRING
    ensures FindIncomplete([Bin([code]), EncNullTerminated(bin)], pos)
         == NotFound(pos + 1 + |Flatten(EncNullTerminated(bin))|)
  {
    SearchText(bin, 0, [], pos + 1);
    SearchOneList(EncNullTerminated(bin), pos + 1);
    assert [Bin([code]), EncNullTerminated(bin)] == [Bin([code])] + [EncNullTerminated(bin)];
    SearchBin([code], [EncNullTerminated(bin)], pos);
  }

  /** The search inside the list an element other than a nested tuple encodes to. */
  lemma {:induction false} SearchScalar(t: Term, depth: nat, pos: nat)
    requires Encodable(t) && !t.Nested? && Encode(t, depth).List?
    ensures FindIncomplete(Encode(t, depth).items, pos)
         == Outcome(ElementOffsets(t, depth), pos, |Enc(t, depth)|)
  {
    match t
    case Blob(_) => SearchTextTerm(t, depth, pos);
    case Utf8(_) => SearchTextTerm(t, depth, pos);
    case Null => SearchEscapedNull(depth, pos);
    case Int(v) => SearchInt(v, depth, pos);
    case Versionstamp80(_, _) => SearchStamp(t, depth, pos);
    case Versionstamp96(_, _, _) => SearchStamp(t, depth, pos);
    case _ => SearchFixed(t, depth, pos);
  }

  lemma {:induction false} SearchTextTerm(t: Term, depth: nat, pos: nat)
    requires t.Blob? || t.Utf8?
    ensures FindIncomplete(Encode(t, depth).items, pos)
         == Outcome(ElementOffsets(t, depth), pos, |Enc(t, depth)|)
  {
    FlattenShort(Encode(t, depth).items);
    if t.Blob? {
      SearchTextElement(BYTES, t.bin, pos);
    } else {
      SearchTextElement(STRING, t.text, pos);
    }
  }

  lemma {:induction false} SearchEscapedNull(depth: nat, pos: nat)
    requires depth > 0
    ensures FindIncomplete(Encode(Null, depth).items, pos)
         == Outcome(ElementOffsets(Null, depth), pos, |Enc(Null, depth)|)
  {
    FlattenShort(Encode(Null, depth).items);
    SearchBin([NULL, ESCAPE], [], pos);
    assert Encode(Null, depth).items == [Bin([NULL, ESCAPE])] + [];
  }

  lemma {:induction false} SearchInt(v: int, depth: nat, pos: nat)
    requires Encodable(Int(v))
    ensures FindIncomplete(Encode(Int(v), depth).items, pos)
         == Outcome(ElementOffsets(Int(v), depth), pos, |Enc(Int(v), depth)|)
  {
    var items := Encode(Int(v), depth).items;
    FlattenShort(items);
    if v == 0 {
      SearchBin([ZERO], [], pos);
      assert items == [Bin([ZERO])] + [];
    } else {
      SearchPair(items[0].bytes, items[1].bytes, pos);
    }
  }

  lemma {:induction false} SearchFixed(t: Term, depth: nat, pos: nat)
    requires t.Single? || t.Double? || t.Uuid? || t.Id64?
    ensures FindIncomplete(Encode(t, depth).items, pos)
         == Outcome(ElementOffsets(t, depth), pos, |Enc(t, depth)|)
  {
    var items := Encode(t, depth).items;
    FlattenShort(items);
    SearchPair(items[0].bytes, items[1].bytes, pos);
  }

  lemma {:induction false} SearchStamp(t: Term, depth: nat, pos: nat)
    requires t.Versionstamp80? || t.Versionstamp96?
    ensures FindIncomplete(Encode(t, depth).items, pos)
         == Outcome(ElementOffsets(t, depth), pos, |Enc(t, depth)|)
  {
    var items := Encode(t, depth).items;
    FlattenShort(items);
    var payload := items[1].bytes;
    assert payload[..10] == BeFixed(t.id, 8) + BeFixed(t.batch, 2);
    assert t.Versionstamp80? ==> payload[..10] == payload;
    if Incomplete(t) {
      assert items[2..] == [];
    } else {
      SearchPair(items[0].bytes, payload, pos);
    }
  }

  lemma {:induction false} SearchElements(ts: Tuple, depth: nat, pos: nat)
    requires EncodableAll(ts)
    ensures FindIncomplete(EncodeAll(ts, depth), pos)
         == Outcome(Offsets(ts, depth), pos, |EncAll(ts, depth)|)
    decreases ts, 0
  {
    if ts == [] {
      SearchNothing(depth, pos);
    } else {
      EncAllCons(ts, depth);
      var m := |Enc(ts[0], depth)|;
      SearchElements(ts[1..], depth, pos + m);
      SearchElements(ts[1..], depth, pos);
      if Encode(ts[0], depth).List? {
        SearchElement(ts[0], depth, pos);
      }
      EncodeAndOffsetsCons(ts, depth);
      SearchStep(Encode(ts[0], depth), EncodeAll(ts[1..], depth), pos, ElementOffsets(ts[0], depth),
                 Offsets(ts[1..], depth), m, |EncAll(ts[1..], depth)|);
    }
  }

  lemma {:induction false} SearchNothing(depth: nat, pos: nat)
    ensures FindIncomplete(EncodeAll([], depth), pos) == Outcome(Offsets([], depth), pos, |EncAll([], depth)|)
  {
  }

  lemma {:induction false} EncodeAndOffsetsCons(ts: Tuple, depth: nat)
    requires EncodableAll(ts) && ts != []
    ensures Encodable(ts[0]) && EncodableAll(ts[1..])
    ensures EncodeAll(ts, depth) == [Encode(ts[0], depth)] + EncodeAll(ts[1..], depth)
    ensures Offsets(ts, depth) == ElementOffsets(ts[0], depth) + Shift(Offsets(ts[1..], depth), |Enc(ts[0], depth)|)
    ensures Encode(ts[0], depth).Bin? ==>
      var b := Encode(ts[0], depth).bytes;
      b != [VS80] && b != [VS96] && ElementOffsets(ts[0], depth) == [] && |Enc(ts[0], depth)| == |b|
  {
  }

  /** The search over a list is made of the searches over its head and its tail. */
  lemma {:induction false} SearchStep(first: Io, rest: seq<Io>, pos: nat, a: seq<nat>, b: seq<nat>, m: nat, n: nat)
    requires first.Bin? ==> first.bytes != [VS80] && first.bytes != [VS96] && a == [] && m == |first.bytes|
    requires first.List? ==> FindIncomplete(first.items, pos) == Outcome(a, pos, m)
    requires FindIncomplete(rest, pos + m) == Outcome(b, pos + m, n)
    requires FindIncomplete(rest, pos) == Outcome(b, pos, n)
    ensures FindIncomplete([first] + rest, pos) == Outcome(a + Shift(b, m), pos, m + n)
  {
    OutcomeJoins(a, b, pos, m, n);
    if first.Bin? {
      SearchBin(first.bytes, rest, pos);
    } else {
      SearchList(first, rest, pos);
    }
  }

  lemma {:induction false} OutcomeJoins(a: seq<nat>, b: seq<nat>, pos: nat, m: nat, n: nat)
    ensures Outcome(a + Shift(b, m), pos, m + n) ==
      if |a| == 0 then Outcome(b, pos + m, n)
      else if |a| == 1 then OnlyHit(pos + a[0], Outcome(b, pos, n))
      else Multiple
  {
    var hits := a + Shift(b, m);
    assert |a| > 0 ==> hits[0] == a[0];
    assert |a| == 0 && |b| > 0 ==> hits[0] == b[0] + m;
  }

  lemma {:induction false} SearchList(first: Io, rest: seq<Io>, pos: nat)
    requires first.List?
    ensures FindIncomplete([first] + rest, pos) ==
      var inner := FindIncomplete(first.items, pos);
      if inner.NotFound? then FindIncomplete(rest, inner.pos)
      else if inner.Found? then OnlyHit(inner.pos, FindIncomplete(rest, pos))
      else Multiple
  {
    assert ([first] + rest)[1..] == rest;
  }

  lemma {:induction false} SearchElement(t: Term, depth: nat, pos: nat)
    requires Encodable(t) && Encode(t, depth).List?
    ensures FindIncomplete(Encode(t, depth).items, pos)
         == Outcome(ElementOffsets(t, depth), pos, |Enc(t, depth)|)
    decreases t, 1
  {
    if t.Nested? {
      SearchElements(t.elems, depth + 1, pos + 1);
      SearchNested(EncodeAll(t.elems, depth + 1), pos);
      FlattenShort(Encode(t, depth).items);
    } else {
      SearchScalar(t, depth, pos);
    }
  }

  lemma {:induction false} SearchNested(inner: seq<Io>, pos: nat)
    ensures FindIncomplete([Bin([NESTED]), List(inner), Bin([NULL])], pos) ==
      var found := FindIncomplete(inner, pos + 1);
      if found.NotFound? then NotFound(found.pos + 1) else found
  {
    var open, close := Bin([NESTED]), [Bin([NULL])] + [];
    var found := FindIncomplete(inner, pos + 1);
    assert [open, List(inner), Bin([NULL])] == [open] + ([List(inner)] + close);
    SearchBin([NESTED], [List(inner)] + close, pos);
    SearchList(List(inner), close, pos + 1);
    SearchBin([NULL], [], pos + 1);
    if found.NotFound? {
      SearchBin([NULL], [], found.pos);
    }
  }

  // ---------------------------------------------------------------- the bytes pointed at

  predicate StampAt(b: Bytes, at: nat) {
    1 <= at && at + 10 <= |b| && (b[at - 1] == 0x32 || b[at - 1] == 0x33) && forall i :: at <= i < at + 10 ==> b[i] == 0xFF
  }

  lemma {:induction false} OffsetsPointAtStamps(ts: Tuple, depth: nat, k: nat)
    requires EncodableAll(ts) && k < |Offsets(ts, depth)|
    ensures StampAt(EncAll(ts, depth), Offsets(ts, depth)[k])
    decreases ts, 0
  {
    assert ts != [];
    EncAllCons(ts, depth);
    EncodeAndOffsetsCons(ts, depth);
    var hits, tailHits, m := ElementOffsets(ts[0], depth), Offsets(ts[1..], depth), |Enc(ts[0], depth)|;
    var e, rest := Enc(ts[0], depth), EncAll(ts[1..], depth);
    ShiftedHit(hits, tailHits, m, k);
    if k < |hits| {
      ElementOffsetPointsAtStamp(ts[0], depth, k);
    } else {
      OffsetsPointAtStamps(ts[1..], depth, k - |hits|);
    }
    HitInJoin(e, rest, hits, tailHits, k);
  }

  lemma {:induction false} HitInJoin(e: Bytes, rest: Bytes, hits: seq<nat>, tailHits: seq<nat>, k: nat)
    requires k < |hits + Shift(tailHits, |e|)| && |Shift(tailHits, |e|)| == |tailHits|
    requires k < |hits| ==> StampAt(e, hits[k])
    requires k >= |hits| ==> StampAt(rest, tailHits[k - |hits|])
    ensures StampAt(e + rest, (hits + Shift(tailHits, |e|))[k])
  {
    ShiftedHit(hits, tailHits, |e|, k);
    if k < |hits| {
      StampInFront(e, rest, hits[k]);
    } else {
      StampBehind(e, rest, tailHits[k - |hits|]);
    }
  }

  lemma {:induction false} ShiftedHit(hits: seq<nat>, tailHits: seq<nat>, m: nat, k: nat)
    requires k < |hits + Shift(tailHits, m)|
    ensures |Shift(tailHits, m)| == |tailHits|
    ensures (hits + Shift(tailHits, m))[k] == if k < |hits| then hits[k] else tailHits[k - |hits|] + m
  {
  }

  lemma {:induction false} StampInFront(b: Bytes, s: Bytes, at: nat)
    requires StampAt(b, at)
    ensures StampAt(b + s, at)
  {
    assert (b + s)[at..at + 10] == b[at..at + 10];
  }

  lemma {:induction false} StampBehind(p: Bytes, b: Bytes, at: nat)
    requires StampAt(b, at)
    ensures StampAt(p + b, at + |p|)
  {
    assert (p + b)[at + |p|..at + |p| + 10] == b[at..at + 10];
  }

  lemma {:induction false} ElementOffsetPointsAtStamp(t: Term, depth: nat, k: nat)
    requires Encodable(t) && k < |ElementOffsets(t, depth)|
    ensures StampAt(Enc(t, depth), ElementOffsets(t, depth)[k])
    decreases t, 1
  {
    if t.Nested? {
      EncodedLayout(t, depth);
      OffsetsPointAtStamps(t.elems, depth + 1, k);
      StampInside(EncAll(t.elems, depth + 1), Offsets(t.elems, depth + 1)[k]);
    } else {
      StampElement(t, depth, k);
    }
  }

  lemma {:induction false} StampInside(inner: Bytes, at: nat)
    requires StampAt(inner, at)
    ensures StampAt([NESTED] + inner + [NULL], at + 1)
  {
    StampBehind([NESTED], inner, at);
    StampInFront([NESTED] + inner, [NULL], at + 1);
  }

  lemma {:induction false} StampElement(t: Term, depth: nat, k: nat)
    requires Encodable(t) && !t.Nested? && k < |ElementOffsets(t, depth)|
    ensures StampAt(Enc(t, depth), ElementOffsets(t, depth)[k])
  {
    EncodedLayout(t, depth);
    assert Enc(t, depth)[1..11] == BeFixed(t.id, 8) + BeFixed(t.batch, 2);
  }

  lemma {:induction false} SearchTuple(tuple: Tuple)
    requires EncodableAll(tuple)
    ensures |Offsets(tuple, 0)| == CountIncomplete(tuple)
    ensures FindIncomplete(EncodeAll(tuple, 0), 0) == Outcome(Offsets(tuple, 0), 0, |EncAll(tuple, 0)|)
  {
    SearchElements(tuple, 0, 0);
    OffsetsCount(tuple, 0);
  }

  /** `pack_vs` succeeds exactly on tuples with one incomplete versionstamp, at any depth. */
  lemma {:induction false} PackVsSucceedsIff(tuple: Tuple, prefix: Bytes)
    requires EncodableAll(tuple)
    ensures PackVs(tuple, prefix).MissingVersionstamp? <==> CountIncomplete(tuple) == 0
    ensures PackVs(tuple, prefix).VsPacked? <==> CountIncomplete(tuple) == 1
    ensures PackVs(tuple, prefix).MultipleVersionstamps? <==> CountIncomplete(tuple) > 1
  {
    SearchTuple(tuple);
  }

  /** It then gives the packed tuple followed by the little-endian position of that
      versionstamp's ten bytes, counted from the start of the prefix. */
  lemma {:induction false} PackVsPointsAtStamp(tuple: Tuple, prefix: Bytes, at: nat)
    requires EncodableAll(tuple) && Offsets(tuple, 0) == [at]
    ensures Pack(tuple, prefix).Some? && StampAt(Pack(tuple, prefix).value, at + |prefix|)
    ensures PackVs(tuple, prefix) == VsPacked(Pack(tuple, prefix).value + Le32(at + |prefix|))
  {
    SearchTuple(tuple);
    PackedStamp(tuple, prefix, at);
  }

  lemma {:induction false} PackedStamp(tuple: Tuple, prefix: Bytes, at: nat)
    requires EncodableAll(tuple) && Offsets(tuple, 0) == [at]
    ensures StampAt(prefix + EncAll(tuple, 0), at + |prefix|)
  {
    OffsetsPointAtStamps(tuple, 0, 0);
    StampBehind(prefix, EncAll(tuple, 0), at);
  }

  /** The trailing four bytes read, lowest first, as the position modulo 2^32. */
  lemma {:induction false} Le32Value(v: nat)
    ensures var b: seq<int> := Le32(v);
            b[0] + 0x100 * b[1] + 0x1_0000 * b[2] + 0x100_0000 * b[3] == v % 0x1_0000_0000
  {
    var q0, q1, q2, q3 := v / 0x100, v / 0x1_0000, v / 0x100_0000, v / 0x1_0000_0000;
    assert q0 / 0x100 == q1 && q1 / 0x100 == q2 && q2 / 0x100 == q3;
  }
}
