/** Floating-point terms as raw IEEE 754 bits (erlfdb_float), and the transform
    that makes their bytes sort (enc_float and dec_float of erlfdb_tuple). */
module FloatBits {
  import opened ByteStrings

  datatype FloatKind = Denormalized | Infinite | NotANumber

  /** `Number` is an Erlang float, carried as its bits; `Special` is a
      `{float, Kind, Raw}` or `{double, Kind, Raw}` tuple. */
  datatype Float = Number(raw: Bytes) | Special(kind: FloatKind, raw: Bytes)

  type Float32 = f: Float | |f.raw| == 4 witness Number([0, 0, 0, 0])
  type Float64 = f: Float | |f.raw| == 8 witness Number([0, 0, 0, 0, 0, 0, 0, 0])

  predicate IsRaw(raw: Bytes) {
    |raw| == 4 || |raw| == 8
  }

  function Exponent(raw: Bytes): nat
    requires IsRaw(raw)
  {
    var b0: int, b1: int := raw[0], raw[1];
    if |raw| == 4 then (b0 % 128) * 2 + b1 / 128 else (b0 % 128) * 16 + b1 / 16
  }

  function MaxExponent(raw: Bytes): nat
    requires IsRaw(raw)
  {
    if |raw| == 4 then 255 else 2047
  }

  predicate FractionIsZero(raw: Bytes)
    requires IsRaw(raw)
  {
    && raw[1] % (if |raw| == 4 then 128 else 16) == 0
    && forall i :: 2 <= i < |raw| ==> raw[i] == 0
  }

  /** `erlfdb_float:encode`. */
  function EncodeFloat(f: Float): Bytes {
    f.raw
  }

  /** `erlfdb_float:decode`: the first clause that matches the bits wins. */
  function DecodeFloat(raw: Bytes): Float
    requires IsRaw(raw)
  {
    if Exponent(raw) == 0 then Special(Denormalized, raw)
    else if Exponent(raw) == MaxExponent(raw) then
      if FractionIsZero(raw) then Special(Infinite, raw) else Special(NotANumber, raw)
    else Number(raw)
  }

  /** The tag a float carries is the one its bits call for. Zero, written as an
      Erlang float, is the finite value for which this fails besides subnormals. */
  predicate TagMatchesBits(f: Float)
    requires IsRaw(f.raw)
  {
    match f
    case Number(raw) => 0 < Exponent(raw) < MaxExponent(raw)
    case Special(Denormalized, raw) => Exponent(raw) == 0
    case Special(Infinite, raw) => Exponent(raw) == MaxExponent(raw) && FractionIsZero(raw)
    case Special(NotANumber, raw) => Exponent(raw) == MaxExponent(raw) && !FractionIsZero(raw)
  }

  /** Bits survive a round trip always; the term survives exactly when its tag fits them. */
  lemma {:induction false} FloatRoundTrip(f: Float)
    requires IsRaw(f.raw)
    ensures EncodeFloat(DecodeFloat(f.raw)) == f.raw
    ensures DecodeFloat(EncodeFloat(f)) == f <==> TagMatchesBits(f)
    ensures DecodeFloat(EncodeFloat(f)) == f <==> FieldsFit(f)
  {
    assert Exponent(f.raw) <= MaxExponent(f.raw);
    FieldsFitIff(f);
  }

  // ---------------------------------------------------------------- the fields of the number

  /** The exponent and the fraction of an IEEE 754 number of 4 or 8 bytes, big-endian: 8 and 23 bits,
      or 11 and 52, below the sign. */
  function ExponentField(raw: Bytes): int
    requires IsRaw(raw)
  {
    if |raw| == 4 then BeValue(raw) / 0x80_0000 % 0x100 else BeValue(raw) / 0x10_0000_0000_0000 % 0x800
  }

  function FractionField(raw: Bytes): int
    requires IsRaw(raw)
  {
    if |raw| == 4 then BeValue(raw) % 0x80_0000 else BeValue(raw) % 0x10_0000_0000_0000
  }

  lemma {:induction false} BeValue4(raw: Bytes)
    requires |raw| == 4
    ensures var b: seq<int> := raw; BeValue(raw) == 0x100_0000 * b[0] + 0x1_0000 * b[1] + 0x100 * b[2] + b[3]
  {
    assert raw[..3][..2] == raw[..2] && raw[..2][..1] == raw[..1] && raw[..1][..0] == [];
    assert BeValue(raw[..1]) == raw[0];
    assert BeValue(raw[..2]) == 0x100 * BeValue(raw[..1]) + raw[1];
    assert BeValue(raw[..3]) == 0x100 * BeValue(raw[..2]) + raw[2];
  }

  lemma {:induction false} BeValueJoin(x: Bytes, y: Bytes)
    ensures BeValue(x + y) == BeValue(x) * Pow256(|y|) + BeValue(y)
  {
    if y == [] {
      assert x + y == x;
    } else {
      var front := y[..|y| - 1];
      assert (x + y)[..|x + y| - 1] == x + front;
      BeValueJoin(x, front);
      ShiftJoin(BeValue(x), Pow256(|front|), BeValue(front), y[|y| - 1]);
    }
  }

  lemma {:induction false} ShiftJoin(v: int, p: int, w: int, b: int)
    ensures 256 * (v * p + w) + b == v * (256 * p) + (256 * w + b)
  {
  }

  /** The bit fields the decoder matches are those. */
  lemma {:induction false} FieldsAreRead(raw: Bytes)
    requires IsRaw(raw)
    ensures Exponent(raw) == ExponentField(raw) && (FractionIsZero(raw) <==> FractionField(raw) == 0)
  {
    if |raw| == 4 {
      ShortFields(raw);
    } else {
      LongFields(raw);
    }
  }

  lemma {:induction false} ShortFields(raw: Bytes)
    requires |raw| == 4
    ensures Exponent(raw) == ExponentField(raw) && (FractionIsZero(raw) <==> FractionField(raw) == 0)
  {
    BeValue4(raw);
    SplitShort(raw[0], raw[1], raw[2], raw[3], BeValue(raw));
  }

  lemma {:induction false} SplitShort(b0: int, b1: int, b2: int, b3: int, v: int)
    requires 0 <= b0 < 256 && 0 <= b1 < 256 && 0 <= b2 < 256 && 0 <= b3 < 256
    requires v == 0x100_0000 * b0 + 0x1_0000 * b1 + 0x100 * b2 + b3
    ensures v / 0x80_0000 % 0x100 == b0 % 128 * 2 + b1 / 128
    ensures v % 0x80_0000 == 0 <==> b1 % 128 == 0 && b2 == 0 && b3 == 0
  {
    var a, low, top := 2 * b0 + b1 / 128, b1 % 128 * 0x1_0000 + b2 * 0x100 + b3, b0 % 128 * 2 + b1 / 128;
    ModUnique(v, 0x80_0000, a, low);
    ModUnique(a, 0x100, b0 / 128, top);
    assert v / 0x80_0000 == a;
  }

  lemma {:induction false} LongFields(raw: Bytes)
    requires |raw| == 8
    ensures Exponent(raw) == ExponentField(raw) && (FractionIsZero(raw) <==> FractionField(raw) == 0)
  {
    var x, y := raw[..4], raw[4..];
    assert raw == x + y;
    BeValueJoin(x, y);
    assert Pow256(4) == 0x1_0000_0000;
    BeValue4(x);
    BeValue4(y);
    SplitFields(BeValue(x), BeValue(y));
    HighFields(x);
    assert FractionIsZero(raw) <==> raw[1] % 16 == 0 && raw[2] == 0 && raw[3] == 0 && raw[4] == 0 && raw[5] == 0 && raw[6] == 0 && raw[7] == 0;
    assert BeValue(y) == 0 <==> raw[4] == 0 && raw[5] == 0 && raw[6] == 0 && raw[7] == 0;
  }

  lemma {:induction false} SplitFields(hi: nat, lo: nat)
    requires lo < 0x1_0000_0000
    ensures var v := hi * 0x1_0000_0000 + lo;
      v / 0x10_0000_0000_0000 == hi / 0x10_0000 && v % 0x10_0000_0000_0000 == hi % 0x10_0000 * 0x1_0000_0000 + lo
  {
    var v, low := hi * 0x1_0000_0000 + lo, hi % 0x10_0000 * 0x1_0000_0000 + lo;
    assert hi == hi / 0x10_0000 * 0x10_0000 + hi % 0x10_0000;
    assert v == hi / 0x10_0000 * 0x10_0000_0000_0000 + low;
    ModUnique(v, 0x10_0000_0000_0000, hi / 0x10_0000, low);
  }

  lemma {:induction false} HighFields(x: Bytes)
    requires |x| == 4
    ensures var b: seq<int> := x;
      && BeValue(x) / 0x10_0000 % 0x800 == b[0] % 128 * 16 + b[1] / 16
      && (BeValue(x) % 0x10_0000 == 0 <==> b[1] % 16 == 0 && b[2] == 0 && b[3] == 0)
  {
    BeValue4(x);
    SplitHigh(x[0], x[1], x[2], x[3], BeValue(x));
  }

  lemma {:induction false} SplitHigh(b0: int, b1: int, b2: int, b3: int, v: int)
    requires 0 <= b0 < 256 && 0 <= b1 < 256 && 0 <= b2 < 256 && 0 <= b3 < 256
    requires v == 0x100_0000 * b0 + 0x1_0000 * b1 + 0x100 * b2 + b3
    ensures v / 0x10_0000 % 0x800 == b0 % 128 * 16 + b1 / 16
    ensures v % 0x10_0000 == 0 <==> b1 % 16 == 0 && b2 == 0 && b3 == 0
  {
    var a, low, top := 16 * b0 + b1 / 16, b1 % 16 * 0x1_0000 + b2 * 0x100 + b3, b0 % 128 * 16 + b1 / 16;
    ModUnique(v, 0x10_0000, a, low);
    ModUnique(a, 0x800, b0 / 128, top);
    assert v / 0x10_0000 == a;
  }

  /** The tag a float should carry, by the value of its fields. */
  predicate FieldsFit(f: Float)
    requires IsRaw(f.raw)
  {
    var top := if |f.raw| == 4 then 0xFF else 0x7FF;
    if f.Number? then 0 < ExponentField(f.raw) < top
    else if f.kind.Denormalized? then ExponentField(f.raw) == 0
    else ExponentField(f.raw) == top && (f.kind.Infinite? <==> FractionField(f.raw) == 0)
  }

  /** What the decoder makes of any bits, by the value of their fields. */
  lemma {:induction false} DecodesByFields(raw: Bytes)
    requires IsRaw(raw)
    ensures var top := if |raw| == 4 then 0xFF else 0x7FF;
      && (DecodeFloat(raw) == Special(Denormalized, raw) <==> ExponentField(raw) == 0)
      && (DecodeFloat(raw) == Special(Infinite, raw) <==> ExponentField(raw) == top && FractionField(raw) == 0)
      && (DecodeFloat(raw) == Special(NotANumber, raw) <==> ExponentField(raw) == top && FractionField(raw) != 0)
      && (DecodeFloat(raw) == Number(raw) <==> 0 < ExponentField(raw) < top)
  {
    FieldsAreRead(raw);
  }

  lemma {:induction false} FieldsFitIff(f: Float)
    requires IsRaw(f.raw)
    ensures TagMatchesBits(f) <==> FieldsFit(f)
  {
    FieldsAreRead(f.raw);
  }

  /** `enc_float` on the raw bits: set the sign bit of a positive number, complement
      every bit of a negative one. */
  function ToOrdered(raw: Bytes): (r: Bytes)
    requires raw != []
    ensures |r| == |raw|
    ensures r[0] >= 128 <==> raw[0] < 128
  {
    if raw[0] < 128 then [raw[0] + 128] + raw[1..] else Complement(raw)
  }

  /** `dec_float` before the bits are classified. */
  function FromOrdered(b: Bytes): (r: Bytes)
    requires b != []
    ensures |r| == |b|
  {
    if b[0] < 128 then Complement(b) else [b[0] - 128] + b[1..]
  }

  /** The two transforms are mutual inverses on every non-empty pattern. */
  lemma {:induction false} OrderedRoundTrip(b: Bytes)
    requires b != []
    ensures FromOrdered(ToOrdered(b)) == b && ToOrdered(FromOrdered(b)) == b
  {
    ComplementTwice(b);
  }

  /** Sign-magnitude order of the raw bits: the totalOrder predicate of section 5.10 of
      IEEE 754-2008, with every negative value, -0 included, below every positive one. */
  function TotalOrderRank(raw: Bytes): int
    requires raw != []
  {
    if raw[0] < 128 then BeValue(raw) else -1 - BeValue([raw[0] - 128] + raw[1..])
  }

  lemma {:induction false} OrderedValue(raw: Bytes)
    requires raw != []
    ensures BeValue(ToOrdered(raw)) == TotalOrderRank(raw) + 128 * Pow256(|raw| - 1)
  {
    if raw[0] < 128 {
      PositiveValue(raw);
    } else {
      NegativeValue(raw);
    }
  }

  lemma {:induction false} PositiveValue(raw: Bytes)
    requires raw != [] && raw[0] < 128
    ensures BeValue([raw[0] + 128] + raw[1..]) == BeValue(raw) + 128 * Pow256(|raw| - 1)
  {
    RaiseHead(raw, raw[0] + 128, 128);
  }

  lemma {:induction false} NegativeValue(raw: Bytes)
    requires raw != [] && raw[0] >= 128
    ensures BeValue(Complement(raw)) == 128 * Pow256(|raw| - 1) - 1 - BeValue([raw[0] - 128] + raw[1..])
  {
    var y := [raw[0] - 128] + raw[1..];
    PositiveValue(y);
    assert [y[0] + 128] + y[1..] == raw;
    ComplementValue(raw);
    assert Pow256(|raw|) == 256 * Pow256(|raw| - 1);
  }

  /** Adding `d` to the leading byte adds `d` times its weight. */
  lemma {:induction false} RaiseHead(x: Bytes, b: byte, d: int)
    requires x != [] && b == x[0] + d
    ensures BeValue([b] + x[1..]) == BeValue(x) + d * Pow256(|x| - 1)
  {
    var y := [b] + x[1..];
    assert y[1..] == x[1..];
    BeValueHead(x);
    BeValueHead(y);
    RaiseProduct(BeValue(x), BeValue(y), x[0], b, d, Pow256(|x| - 1), BeValue(x[1..]));
  }

  lemma {:induction false} RaiseProduct(v: int, w: int, a: int, b: int, d: int, p: int, low: int)
    requires v == a * p + low && w == b * p + low && b == a + d
    ensures w == v + d * p
  {
  }

  /** Unsigned byte order of the transformed bits is the total order of the floats. */
  lemma {:induction false} OrderedBytesAreTotalOrder(x: Bytes, y: Bytes)
    requires |x| == |y| && x != []
    ensures Lex(ToOrdered(x), ToOrdered(y)) == Sign(TotalOrderRank(x) - TotalOrderRank(y))
  {
    LexIsBeOrder(ToOrdered(x), ToOrdered(y));
    OrderedValue(x);
    OrderedValue(y);
  }
}
