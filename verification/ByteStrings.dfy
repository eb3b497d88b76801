/** Byte strings, Erlang's order on binaries, and big-endian numbers. */
module ByteStrings {

  type byte = x: int | 0 <= x < 256
  type Bytes = seq<byte>

  /** Erlang's comparison of two binaries: the first differing byte decides,
      and a proper prefix is the smaller one. */
  function Lex(x: Bytes, y: Bytes): (r: int)
    ensures -1 <= r <= 1
    ensures r == 0 <==> x == y
  {
    if x == [] && y == [] then 0
    else if x == [] then -1
    else if y == [] then 1
    else if x[0] < y[0] then -1
    else if x[0] > y[0] then 1
    else
      assert x == [x[0]] + x[1..] && y == [y[0]] + y[1..];
      Lex(x[1..], y[1..])
  }

  /** `lo <= k < hi`: the half-open key ranges of the database. */
  predicate InRange(k: Bytes, lo: Bytes, hi: Bytes) {
    Lex(lo, k) <= 0 && Lex(k, hi) < 0
  }

  lemma {:induction false} LexAntisymmetric(x: Bytes, y: Bytes)
    ensures Lex(y, x) == -Lex(x, y)
  {
    if x != [] && y != [] && x[0] == y[0] {
      LexAntisymmetric(x[1..], y[1..]);
    }
  }

  lemma {:induction false} LexTransitive(x: Bytes, y: Bytes, z: Bytes)
    requires Lex(x, y) <= 0 && Lex(y, z) <= 0
    ensures Lex(x, z) <= 0
    ensures Lex(x, z) == 0 ==> Lex(x, y) == 0 && Lex(y, z) == 0
  {
    if x != [] && y != [] && z != [] && x[0] == y[0] == z[0] {
      LexTransitive(x[1..], y[1..], z[1..]);
    }
  }

  lemma {:induction false} LexCommonPrefix(p: Bytes, x: Bytes, y: Bytes)
    ensures Lex(p + x, p + y) == Lex(x, y)
  {
    if p == [] {
      assert p + x == x && p + y == y;
    } else {
      assert (p + x)[1..] == p[1..] + x && (p + y)[1..] == p[1..] + y;
      LexCommonPrefix(p[1..], x, y);
    }
  }

  lemma {:induction false} LexFirst(x: Bytes, y: Bytes)
    requires x != [] && y != [] && x[0] < y[0]
    ensures Lex(x, y) == -1 && Lex(y, x) == 1
  {
  }

  /** A difference inside two blocks of the same length decides the comparison. */
  lemma {:induction false} LexSameLength(x: Bytes, y: Bytes, u: Bytes, v: Bytes)
    requires |x| == |y| && x != y
    ensures Lex(x + u, y + v) == Lex(x, y)
  {
    assert x == [x[0]] + x[1..] && y == [y[0]] + y[1..];
    if x[0] == y[0] {
      assert (x + u)[1..] == x[1..] + u && (y + v)[1..] == y[1..] + v;
      LexSameLength(x[1..], y[1..], u, v);
    }
  }

  predicate IsPrefix(p: Bytes, x: Bytes) {
    |p| <= |x| && x[..|p|] == p
  }

  lemma {:induction false} PrefixIsAtMost(p: Bytes, x: Bytes)
    requires IsPrefix(p, x)
    ensures Lex(p, x) <= 0
  {
    assert x == p + x[|p|..] && p == p + [];
    LexCommonPrefix(p, [], x[|p|..]);
  }

  /** Neither string begins with the other. */
  predicate Apart(a: Bytes, b: Bytes) {
    !IsPrefix(a, b) && !IsPrefix(b, a)
  }

  lemma {:induction false} PrefixesOfOne(a: Bytes, b: Bytes, k: Bytes)
    requires IsPrefix(a, k) && IsPrefix(b, k)
    ensures IsPrefix(a, b) || IsPrefix(b, a)
  {
    if |a| <= |b| {
      assert b[..|a|] == k[..|a|];
    } else {
      assert a[..|b|] == k[..|b|];
    }
  }

  lemma {:induction false} Associate(a: Bytes, b: Bytes, c: Bytes)
    ensures (a + b) + c == a + (b + c)
  {
  }

  lemma {:induction false} PrefixesChain(a: Bytes, b: Bytes, c: Bytes)
    ensures IsPrefix(a, b) && IsPrefix(b, c) ==> IsPrefix(a, c)
  {
    if IsPrefix(a, b) && IsPrefix(b, c) {
      assert c[..|b|][..|a|] == c[..|a|];
    }
  }

  /** What lies between a string and one of its extensions extends that string too. */
  lemma {:induction false} BetweenPrefixAndExtension(p: Bytes, m: Bytes, x: Bytes)
    requires IsPrefix(p, x) && Lex(p, m) <= 0 && Lex(m, x) <= 0
    ensures IsPrefix(p, m)
  {
    if p != [] {
      assert x[0] == p[0];
      assert x[1..][..|p| - 1] == p[1..];
      BetweenPrefixAndExtension(p[1..], m[1..], x[1..]);
      assert m == [m[0]] + m[1..] && p == [p[0]] + p[1..];
      assert m[..|p|] == [m[0]] + m[1..][..|p| - 1];
    }
  }

  predicate IsGreatest(s: set<Bytes>, m: Bytes) {
    m in s && forall k :: k in s ==> Lex(k, m) <= 0
  }

  lemma {:induction false} OneGreatest(s: set<Bytes>)
    ensures forall m, n :: IsGreatest(s, m) && IsGreatest(s, n) ==> m == n
  {
    forall m, n | IsGreatest(s, m) && IsGreatest(s, n) ensures m == n {
      LexAntisymmetric(m, n);
    }
  }

  lemma {:induction false} SomeGreatest(s: set<Bytes>)
    requires s != {}
    ensures exists m :: IsGreatest(s, m)
  {
    var m := GreatestExists(s);
  }

  lemma {:induction false} GreatestExists(s: set<Bytes>) returns (m: Bytes)
    requires s != {}
    ensures IsGreatest(s, m)
  {
    var x :| x in s;
    m := x;
    var rest := s - {x};
    if rest != {} {
      var y := GreatestExists(rest);
      LexAntisymmetric(x, y);
      m := if Lex(x, y) <= 0 then y else x;
      forall k | k in s ensures Lex(k, m) <= 0 {
        if k in rest && m == x {
          LexTransitive(k, y, x);
        }
      }
    } else {
      assert s == {x};
    }
  }

  function Pow256(n: nat): (r: nat)
    ensures r >= 1
  {
    if n == 0 then 1 else 256 * Pow256(n - 1)
  }

  lemma {:induction false} Pow256Monotone(m: nat, n: nat)
    requires m <= n
    ensures Pow256(m) <= Pow256(n)
    decreases n - m
  {
    if m < n {
      Pow256Monotone(m + 1, n);
    }
  }

  /** The unsigned big-endian value of a byte string. */
  function BeValue(x: Bytes): (v: nat)
    ensures v < Pow256(|x|)
  {
    if x == [] then 0 else 256 * BeValue(x[..|x| - 1]) + x[|x| - 1]
  }

  lemma {:induction false} BeValueHead(x: Bytes)
    requires x != []
    ensures BeValue(x) == x[0] * Pow256(|x| - 1) + BeValue(x[1..])
  {
    if |x| == 1 {
      assert x[..0] == [] && x[1..] == [];
    } else {
      var front, tail := x[..|x| - 1], x[1..];
      BeValueHead(front);
      assert front[1..] == tail[..|tail| - 1];
      assert BeValue(tail) == 256 * BeValue(front[1..]) + x[|x| - 1];
      ShiftProduct(x[0], Pow256(|x| - 2));
    }
  }

  lemma {:induction false} ShiftProduct(a: nat, p: nat)
    ensures 256 * (a * p) == a * (256 * p)
  {
  }

  function Sign(n: int): int {
    if n < 0 then -1 else if n > 0 then 1 else 0
  }

  /** On strings of one length, byte order is the order of the big-endian values. */
  lemma {:induction false} LexIsBeOrder(x: Bytes, y: Bytes)
    requires |x| == |y|
    ensures Lex(x, y) == Sign(BeValue(x) - BeValue(y))
  {
    if x != [] {
      BeValueHead(x);
      BeValueHead(y);
      LexIsBeOrder(x[1..], y[1..]);
      var p, u, v := Pow256(|x| - 1), BeValue(x[1..]), BeValue(y[1..]);
      if x[0] < y[0] {
        HeadDecides(x[0], y[0], p, u, v);
      } else if x[0] > y[0] {
        HeadDecides(y[0], x[0], p, v, u);
      }
    }
  }

  lemma {:induction false} HeadDecides(a: nat, b: nat, p: nat, u: nat, v: nat)
    requires a < b && u < p
    ensures a * p + u < b * p + v
  {
    assert b * p == (b - a) * p + a * p;
    TimesAtLeast(b - a, p);
  }

  lemma {:induction false} BeValueInjective(x: Bytes, y: Bytes)
    requires |x| == |y| && BeValue(x) == BeValue(y)
    ensures x == y
  {
    LexIsBeOrder(x, y);
  }

  /** `binary:encode_unsigned`: the shortest big-endian form, one byte for zero. */
  function EncodeUnsigned(v: nat): (r: Bytes)
    ensures r != [] && BeValue(r) == v
    ensures v > 0 ==> r[0] != 0
  {
    if v < 256 then
      var r: Bytes := [v];
      assert r[..0] == [];
      r
    else
      var front := EncodeUnsigned(v / 256);
      var r := front + [v % 256];
      assert r[..|r| - 1] == front;
      r
  }

  /** A number with a non-zero leading byte lies in the range its length allows. */
  lemma {:induction false} UnsignedBounds(v: nat)
    requires v > 0
    ensures Pow256(|EncodeUnsigned(v)| - 1) <= v < Pow256(|EncodeUnsigned(v)|)
  {
    var r := EncodeUnsigned(v);
    BeValueHead(r);
    TimesAtLeast(r[0], Pow256(|r| - 1));
  }

  lemma {:induction false} TimesAtLeast(a: nat, p: nat)
    requires a >= 1
    ensures a * p >= p
  {
    assert a * p == (a - 1) * p + p;
  }

  lemma {:induction false} UnsignedLengthMonotone(v: nat, w: nat)
    requires 0 < v <= w
    ensures |EncodeUnsigned(v)| <= |EncodeUnsigned(w)|
  {
    UnsignedBounds(v);
    UnsignedBounds(w);
    var m, n := |EncodeUnsigned(v)|, |EncodeUnsigned(w)|;
    Pow256Monotone(if n < m then n else 0, m - 1);
  }

  lemma {:induction false} RemainderFits(v: int, m: nat)
    requires m > 0
    ensures v % m == v <==> 0 <= v < m
  {
  }

  /** `<<V:N/big>>` with N in bytes: the low-order `n` bytes, two's complement for negatives. */
  function BeFixed(v: int, n: nat): (r: Bytes)
    ensures |r| == n
    decreases n
  {
    if n == 0 then [] else BeFixed(v / 256, n - 1) + [v % 256]
  }

  lemma {:induction false} BeFixedValue(v: int, n: nat)
    ensures BeValue(BeFixed(v, n)) == v % Pow256(n)
    decreases n
  {
    if n > 0 {
      var r := BeFixed(v, n);
      assert r[..n - 1] == BeFixed(v / 256, n - 1);
      BeFixedValue(v / 256, n - 1);
      ModDecompose(v, Pow256(n - 1));
    }
  }

  lemma {:induction false} ModDecompose(v: int, p: nat)
    requires p > 0
    ensures v % (256 * p) == 256 * ((v / 256) % p) + v % 256
  {
    var q, r := v / 256, v % 256;
    var a, b := q / p, q % p;
    var low := 256 * b + r;
    assert v == 256 * (a * p + b) + r;
    assert v == a * (256 * p) + low by { assert 256 * (a * p) == a * (256 * p); }
    assert 0 <= low < 256 * p by { assert b <= p - 1; }
    ModUnique(v, 256 * p, a, low);
  }

  lemma {:induction false} ModUnique(v: int, m: nat, a: int, low: int)
    requires m > 0 && v == a * m + low && 0 <= low < m
    ensures v % m == low
  {
    var k := v / m - a;
    assert (v / m) * m + v % m == v;
    assert k * m == low - v % m by { assert k * m == (v / m) * m - a * m; }
    MultipleInsideModulus(k, m);
  }

  lemma {:induction false} MultipleInsideModulus(k: int, m: nat)
    requires (-1) * m < k * m < m
    ensures k == 0
  {
    if k != 0 {
      TimesAtLeast(if k > 0 then k else -k, m);
    }
  }

  /** The one's complement of every byte. */
  function Complement(x: Bytes): (r: Bytes)
    ensures |r| == |x|
    ensures forall i :: 0 <= i < |x| ==> r[i] == 255 - x[i]
  {
    seq(|x|, i requires 0 <= i < |x| => 255 - x[i])
  }

  lemma {:induction false} ComplementValue(x: Bytes)
    ensures BeValue(Complement(x)) == Pow256(|x|) - 1 - BeValue(x)
  {
    if x != [] {
      var front := x[..|x| - 1];
      assert Complement(x)[..|x| - 1] == Complement(front);
      ComplementValue(front);
    }
  }

  lemma {:induction false} ComplementTwice(x: Bytes)
    ensures Complement(Complement(x)) == x
  {
  }

  /** Complementing reverses the order of strings of one length. */
  lemma {:induction false} ComplementReverses(x: Bytes, y: Bytes)
    requires |x| == |y|
    ensures Lex(Complement(x), Complement(y)) == -Lex(x, y)
  {
    if x != [] {
      assert Complement(x)[1..] == Complement(x[1..]) && Complement(y)[1..] == Complement(y[1..]);
      ComplementReverses(x[1..], y[1..]);
    }
  }
}
