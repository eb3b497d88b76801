/** erlfdb_key: prefix ranges, split points and key selectors; and the C code that reads a
    selector (erlfdb_get_key_selector in util.c). */
module Keys {
  import opened Options
  import opened ByteStrings

  // ---------------------------------------------------------------- strinc

  /** `rstrip_ff`; `None` is the error on a key of 0xFF bytes only. */
  function RstripFf(key: Bytes): (r: Option<Bytes>)
    ensures r.Some? ==> r.value != [] && r.value <= key
  {
    if key == [] then None
    else if key[|key| - 1] == 0xFF then RstripFf(key[..|key| - 1])
    else Some(key)
  }

  /** `strinc`. */
  function Strinc(key: Bytes): (r: Option<Bytes>)
  {
    match RstripFf(key)
    case None => None
    case Some(prefix) =>
      assert prefix[|prefix| - 1] != 0xFF by { StrippedEnd(key); }
      var n := |prefix| - 1;
      Some(prefix[..n] + [prefix[n] + 1])
  }

  predicate AllFf(x: Bytes) {
    forall i :: 0 <= i < |x| ==> x[i] == 0xFF
  }

  lemma {:induction false} StrippedEnd(key: Bytes)
    ensures RstripFf(key).None? <==> AllFf(key)
    ensures RstripFf(key).Some? ==>
      var p := RstripFf(key).value;
      p != [] && p[|p| - 1] != 0xFF && |p| <= |key| && key == p + key[|p|..] && AllFf(key[|p|..])
  {
    if key != [] && key[|key| - 1] == 0xFF {
      var k := key[..|key| - 1];
      StrippedEnd(k);
      assert key == k + [0xFF];
      if RstripFf(k).Some? {
        var p := RstripFf(k).value;
        assert key[|p|..] == k[|p|..] + [0xFF];
      } else {
        assert AllFf(key) by {
          forall i | 0 <= i < |key| ensures key[i] == 0xFF {
            if i < |k| { assert key[i] == k[i]; }
          }
        }
      }
    }
  }

  lemma {:induction false} AboveAllFf(f: Bytes, m: Bytes)
    requires AllFf(f)
    ensures Lex(f, m) <= 0 <==> IsPrefix(f, m)
  {
    if f == [] {
      assert m[..0] == f;
    } else if m != [] && m[0] == 0xFF {
      AboveAllFf(f[1..], m[1..]);
      assert f == [0xFF] + f[1..] && m == [0xFF] + m[1..];
      if |f| <= |m| {
        assert m[..|f|] == [0xFF] + m[1..][..|f| - 1];
      }
    } else if m != [] {
      assert |f| <= |m| ==> m[..|f|][0] == m[0];
    }
  }

  /** `strinc` fails exactly on a key of 0xFF bytes only, the empty key included. */
  lemma {:induction false} StrincFailsIff(key: Bytes)
    ensures Strinc(key).None? <==> forall i :: 0 <= i < |key| ==> key[i] == 0xFF
  {
    StrippedEnd(key);
  }

  /** The range `[key, strinc(key))` holds the keys that begin with `key` and no other. */
  lemma {:induction false} StrincRangeIsExact(key: Bytes, m: Bytes)
    requires Strinc(key).Some?
    ensures InRange(m, key, Strinc(key).value) <==> IsPrefix(key, m)
  {
    StrippedEnd(key);
    var p := RstripFf(key).value;
    var n := |p| - 1;
    var head, c, tail := p[..n], p[n], key[|p|..];
    assert key == head + ([c] + tail);
    StrincSplit(head, c, tail, m);
  }

  lemma {:induction false} StrincSplit(head: Bytes, c: byte, tail: Bytes, m: Bytes)
    requires c < 0xFF && AllFf(tail)
    ensures InRange(m, head + ([c] + tail), head + [c + 1]) <==> IsPrefix(head + ([c] + tail), m)
  {
    var lo, hi := head + ([c] + tail), head + [c + 1];
    if head == [] {
      assert lo == [c] + tail && hi == [c + 1];
      if m != [] && m[0] == c {
        assert m == [c] + m[1..];
        LexCommonPrefix([c], tail, m[1..]);
        AboveAllFf(tail, m[1..]);
        PrefixCons(c, tail, m[1..]);
      } else if m != [] {
        assert |lo| <= |m| ==> m[..|lo|][0] == m[0];
        if m[0] == c + 1 {
          assert m == [c + 1] + m[1..] && [c + 1] + [] == [c + 1];
          LexCommonPrefix([c + 1], m[1..], []);
        }
      }
    } else if m != [] && m[0] == head[0] {
      var a, rest := head[0], head[1..] + ([c] + tail);
      StrincSplit(head[1..], c, tail, m[1..]);
      assert lo == [a] + rest && hi == [a] + (head[1..] + [c + 1]) && m == [a] + m[1..];
      LexCommonPrefix([a], rest, m[1..]);
      LexCommonPrefix([a], m[1..], head[1..] + [c + 1]);
      PrefixCons(a, rest, m[1..]);
    } else if m != [] {
      assert |lo| <= |m| ==> m[..|lo|][0] == m[0];
    }
  }

  lemma {:induction false} PrefixCons(a: byte, p: Bytes, x: Bytes)
    ensures IsPrefix([a] + p, [a] + x) <==> IsPrefix(p, x)
  {
    if |p| <= |x| {
      assert ([a] + x)[..|p| + 1] == [a] + x[..|p|];
      assert ([a] + p)[1..] == p && ([a] + x[..|p|])[1..] == x[..|p|];
    }
  }

  // ---------------------------------------------------------------- split points

  /** `list_to_ranges`; `None` is the badarg on fewer than two split points. */
  function ListToRanges(points: seq<Bytes>): Option<seq<(Bytes, Bytes)>> {
    if |points| < 2 then None else Some(ListToRangesFrom(points, []))
  }

  function ListToRangesFrom(points: seq<Bytes>, acc: seq<(Bytes, Bytes)>): seq<(Bytes, Bytes)>
    requires points != []
  {
    if |points| == 1 then acc
    else ListToRangesFrom(points[1..], acc + [(points[0], points[1])])
  }

  /** Two split points are enough, and every gap between neighbours becomes a range. */
  lemma {:induction false} RangesBetweenPoints(points: seq<Bytes>)
    ensures ListToRanges(points).None? <==> |points| < 2
    ensures |points| >= 2 ==>
      && |ListToRanges(points).value| == |points| - 1
      && forall i :: 0 <= i < |points| - 1 ==> ListToRanges(points).value[i] == (points[i], points[i + 1])
  {
    if |points| >= 2 {
      RangesAreConsecutive(points, []);
    }
  }

  lemma {:induction false} RangesAreConsecutive(points: seq<Bytes>, acc: seq<(Bytes, Bytes)>)
    requires points != []
    ensures |ListToRangesFrom(points, acc)| == |acc| + |points| - 1
    ensures forall i :: 0 <= i < |points| - 1 ==>
      ListToRangesFrom(points, acc)[|acc| + i] == (points[i], points[i + 1])
    ensures ListToRangesFrom(points, acc)[..|acc|] == acc
    decreases |points|
  {
    if |points| > 1 {
      var acc' := acc + [(points[0], points[1])];
      RangesAreConsecutive(points[1..], acc');
      var r := ListToRangesFrom(points, acc);
      assert r[..|acc|] == r[..|acc'|][..|acc|] == acc;
      forall i | 0 <= i < |points| - 1 ensures r[|acc| + i] == (points[i], points[i + 1]) {
        if i == 0 {
          assert r[|acc|] == r[..|acc'|][|acc|];
        } else {
          assert r[|acc'| + (i - 1)] == (points[1..][i - 1], points[1..][i]);
        }
      }
    }
  }

  // ---------------------------------------------------------------- selectors

  /** The second element of a selector tuple. */
  datatype SelectorOp = Lt | Lteq | Gt | Gteq | AtomTrue | AtomFalse | Number(n: int) | OtherTerm

  /** An Erlang term offered as a selector; a key or an offset that is not of the expected
      type is `None`. */
  datatype SelectorTerm =
    | Pair(key: Option<Bytes>, op: SelectorOp)
    | Triple(key: Option<Bytes>, op: SelectorOp, add: Option<int>)
    | NotASelector

  /** What libfdb_c is given. */
  datatype Selector = Selector(key: Bytes, orEqual: bool, offset: int)

  function FirstGreaterThan(key: Bytes): Selector { Selector(key, true, 1) }
  function FirstGreaterOrEqual(key: Bytes): Selector { Selector(key, false, 1) }
  function LastLessThan(key: Bytes): Selector { Selector(key, false, 0) }
  function LastLessOrEqual(key: Bytes): Selector { Selector(key, true, 0) }

  /** What a selector term stands for, or `None` if it is refused. */
  function SelectorOf(t: SelectorTerm): Option<Selector> {
    if t.NotASelector? || t.key.None? || t.op.OtherTerm? || (t.Triple? && t.add.None?) then None
    else
      var key := t.key.value;
      var base := match t.op
        case Lt => LastLessThan(key)
        case Lteq => LastLessOrEqual(key)
        case Gt => FirstGreaterThan(key)
        case Gteq => FirstGreaterOrEqual(key)
        case AtomTrue => Selector(key, true, 0)
        case AtomFalse => Selector(key, false, 0)
        case Number(n) => Selector(key, n != 0, 0)
        case OtherTerm => Selector(key, false, 0);
      Some(base.(offset := base.offset + if t.Triple? then t.add.value else 0))
  }

  /** `erlfdb_get_key_selector`, writing through its out-parameters. */
  method GetKeySelector(t: SelectorTerm) returns (ok: bool, bin: Bytes, orEqual: bool, offset: int)
    ensures ok <==> !t.NotASelector? && t.key.Some? && !t.op.OtherTerm? && (t.Triple? ==> t.add.Some?)
    ensures ok <==> SelectorOf(t).Some?
    ensures ok ==> SelectorOf(t) == Some(Selector(bin, orEqual, offset))
  {
    ok, bin, orEqual, offset := false, [], false, 0;
    if t.NotASelector? {
      return;
    }
    if t.key.None? {
      return;
    }
    bin := t.key.value;
    offset := 0;
    match t.op {
      case Lt => orEqual := false; offset := 0;
      case Lteq => orEqual := true; offset := 0;
      case Gt => orEqual := true; offset := 1;
      case Gteq => orEqual := false; offset := 1;
      case AtomTrue => orEqual := true;
      case AtomFalse => orEqual := false;
      case Number(n) => if n != 0 { orEqual := true; } else { orEqual := false; }
      case OtherTerm => return;
    }
    if t.Pair? {
      ok := true;
      return;
    }
    if t.add.None? {
      return;
    }
    offset := offset + t.add.value;
    ok := true;
  }
}
