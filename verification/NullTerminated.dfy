/** I/O lists, and the NUL-terminated strings of the Tuple Layer built from them. */
module NullTerminated {
  import opened Options
  import opened ByteStrings

  /** An Erlang iolist whose leaves are binaries. */
  datatype Io = Bin(bytes: Bytes) | List(items: seq<Io>)

  /** `iolist_to_binary`. */
  function Flatten(io: Io): Bytes
    decreases io, 1
  {
    match io
    case Bin(b) => b
    case List(items) => FlattenAll(items)
  }

  function FlattenAll(items: seq<Io>): Bytes
    decreases items, 0
  {
    if items == [] then [] else Flatten(items[0]) + FlattenAll(items[1..])
  }

  lemma {:induction false} FlattenAllConcat(a: seq<Io>, b: seq<Io>)
    ensures FlattenAll(a + b) == FlattenAll(a) + FlattenAll(b)
  {
    if a == [] {
      assert a + b == b;
    } else {
      assert (a + b)[1..] == a[1..] + b;
      FlattenAllConcat(a[1..], b);
    }
  }

  lemma {:induction false} FlattenOne(a: Io)
    ensures FlattenAll([a]) == Flatten(a)
  {
    assert [a][1..] == [];
  }

  lemma {:induction false} FlattenTwo(a: Io, b: Io)
    ensures FlattenAll([a, b]) == Flatten(a) + Flatten(b)
  {
    assert [a, b][1..] == [b];
    FlattenOne(b);
  }

  lemma {:induction false} FlattenShort(items: seq<Io>)
    requires 1 <= |items| <= 3
    ensures |items| == 1 ==> FlattenAll(items) == Flatten(items[0])
    ensures |items| == 2 ==> FlattenAll(items) == Flatten(items[0]) + Flatten(items[1])
    ensures |items| == 3 ==> FlattenAll(items) == Flatten(items[0]) + Flatten(items[1]) + Flatten(items[2])
  {
    if |items| == 1 {
      FlattenOne(items[0]);
      assert items == [items[0]];
    } else {
      FlattenTwo(items[|items| - 2], items[|items| - 1]);
      assert items[|items| - 2..] == [items[|items| - 2], items[|items| - 1]];
    }
  }

  /** `binary:match(Bin, <<0>>, [{scope, ...}])`: the first NUL at or after `start`. */
  function FindNul(bin: Bytes, start: nat): (r: Option<nat>)
    requires start <= |bin|
    ensures r.None? ==> forall i :: start <= i < |bin| ==> bin[i] != 0
    ensures r.Some? ==> start <= r.value < |bin| && bin[r.value] == 0
    ensures r.Some? ==> forall i :: start <= i < r.value ==> bin[i] != 0
    decreases |bin| - start
  {
    if start == |bin| then None
    else if bin[start] == 0 then Some(start)
    else FindNul(bin, start + 1)
  }

  /** `lists:join(Sep, Slices)`. */
  function JoinParts(sep: Bytes, parts: seq<Bytes>): seq<Io> {
    if parts == [] then []
    else if |parts| == 1 then [Bin(parts[0])]
    else [Bin(parts[0]), Bin(sep)] + JoinParts(sep, parts[1..])
  }

  /** `enc_null_terminated/3`: the slices between NULs joined by the escaped NUL. `parts`
      holds the slices themselves, oldest first, where the source conses `{Start, Length}`
      pairs and reverses them at the end. */
  function EncNullTerminatedFrom(bin: Bytes, start: nat, parts: seq<Bytes>): Io
    requires start <= |bin|
    decreases |bin| - start
  {
    match FindNul(bin, start)
    case None => List([List(JoinParts([0, 255], parts + [bin[start..]])), Bin([0])])
    case Some(nul) => EncNullTerminatedFrom(bin, nul + 1, parts + [bin[start..nul]])
  }

  function EncNullTerminated(bin: Bytes): Io {
    EncNullTerminatedFrom(bin, 0, [])
  }

  /** `dec_null_terminated/3`: stop at the first NUL that is not followed by 0xFF; `None`
      stands for the invalid_null_termination error. */
  function DecNullTerminatedFrom(bin: Bytes, start: nat, parts: seq<Bytes>): (r: Option<(Bytes, Bytes)>)
    requires start <= |bin|
    ensures r.Some? ==> |r.value.1| < |bin|
    decreases |bin| - start
  {
    match FindNul(bin, start)
    case None => None
    case Some(nul) =>
      var parts2 := parts + [bin[start..nul]];
      if nul + 1 < |bin| && bin[nul + 1] == 255 then DecNullTerminatedFrom(bin, nul + 2, parts2)
      else Some((FlattenAll(JoinParts([0], parts2)), bin[nul + 1..]))
  }

  function DecNullTerminated(bin: Bytes): (r: Option<(Bytes, Bytes)>)
    ensures r.Some? ==> |r.value.1| < |bin|
  {
    DecNullTerminatedFrom(bin, 0, [])
  }

  /** The escaping the Tuple Layer asks for: every NUL is followed by 0xFF. */
  function Escape(bin: Bytes): Bytes {
    if bin == [] then []
    else (if bin[0] == 0 then [0, 255] else [bin[0]]) + Escape(bin[1..])
  }

  predicate NulFree(bin: Bytes) {
    forall i :: 0 <= i < |bin| ==> bin[i] != 0
  }

  lemma {:induction false} EscapeNulFree(u: Bytes, w: Bytes)
    requires NulFree(u)
    ensures Escape(u + w) == u + Escape(w)
  {
    if u == [] {
      assert u + w == w;
    } else {
      assert (u + w)[1..] == u[1..] + w;
      EscapeNulFree(u[1..], w);
      assert [u[0]] + (u[1..] + Escape(w)) == u + Escape(w);
    }
  }

  lemma {:induction false} EscapeAtNul(bin: Bytes, start: nat, nul: nat)
    requires start <= nul < |bin| && bin[nul] == 0 && NulFree(bin[start..nul])
    ensures Escape(bin[start..]) == bin[start..nul] + [0, 255] + Escape(bin[nul + 1..])
  {
    var w := bin[nul..];
    assert bin[start..] == bin[start..nul] + w;
    EscapeNulFree(bin[start..nul], w);
    assert w[1..] == bin[nul + 1..];
  }

  /** The joined slices followed by one more separator, or nothing when there are none. */
  ghost function Lead(sep: Bytes, parts: seq<Bytes>): Bytes {
    if parts == [] then [] else parts[0] + sep + Lead(sep, parts[1..])
  }

  lemma {:induction false} LeadSnoc(sep: Bytes, parts: seq<Bytes>, p: Bytes)
    ensures Lead(sep, parts + [p]) == Lead(sep, parts) + p + sep
  {
    if parts == [] {
      assert (parts + [p])[1..] == [];
    } else {
      assert (parts + [p])[1..] == parts[1..] + [p];
      LeadSnoc(sep, parts[1..], p);
    }
  }

  lemma {:induction false} JoinSnoc(sep: Bytes, parts: seq<Bytes>, p: Bytes)
    ensures FlattenAll(JoinParts(sep, parts + [p])) == Lead(sep, parts) + p
  {
    if parts == [] {
      FlattenOne(Bin(p));
    } else {
      var all := parts + [p];
      assert all[1..] == parts[1..] + [p];
      JoinSnoc(sep, parts[1..], p);
      FlattenAllConcat([Bin(all[0]), Bin(sep)], JoinParts(sep, all[1..]));
      FlattenTwo(Bin(all[0]), Bin(sep));
    }
  }

  lemma {:induction false} EncodesFrom(bin: Bytes, start: nat, parts: seq<Bytes>)
    requires start <= |bin|
    ensures Flatten(EncNullTerminatedFrom(bin, start, parts)) == Lead([0, 255], parts) + (Escape(bin[start..]) + [0])
    decreases |bin| - start
  {
    match FindNul(bin, start)
    case None =>
      JoinSnoc([0, 255], parts, bin[start..]);
      FlattenTwo(List(JoinParts([0, 255], parts + [bin[start..]])), Bin([0]));
      EscapeNulFree(bin[start..], []);
      assert bin[start..] + [] == bin[start..];
    case Some(nul) =>
      EncodesFrom(bin, nul + 1, parts + [bin[start..nul]]);
      LeadSnoc([0, 255], parts, bin[start..nul]);
      EscapeAtNul(bin, start, nul);
      var lead, u, rest := Lead([0, 255], parts), bin[start..nul], Escape(bin[nul + 1..]);
      Associate(lead, u, [0, 255]);
      Associate(lead, u + [0, 255], rest + [0]);
      Associate(u + [0, 255], rest, [0]);
  }

  /** The slice-and-join encoder writes the escaped string and its terminator. */
  lemma {:induction false} EncodesEscaped(bin: Bytes)
    ensures Flatten(EncNullTerminated(bin)) == Escape(bin) + [0]
  {
    EncodesFrom(bin, 0, []);
    assert bin[0..] == bin;
    assert [] + (Escape(bin) + [0]) == Escape(bin) + [0];
  }

  /** Whatever follows an encoding must not begin with 0xFF, or a terminating NUL would read
      as an escaped one. No type code is 0xFF, so encodings may follow one another. */
  predicate Safe(x: Bytes) {
    x == [] || x[0] != 255
  }

  lemma {:induction false} DecodesFrom(bin: Bytes, start: nat, parts: seq<Bytes>, rest: Bytes, x: Bytes)
    requires start <= |bin| && bin[start..] == Escape(rest) + ([0] + x) && Safe(x)
    ensures DecNullTerminatedFrom(bin, start, parts) == Some((Lead([0], parts) + rest, x))
    decreases |rest|
  {
    if NulFree(rest) {
      DecodesNulFree(bin, start, parts, rest, x);
    } else {
      var n := FirstNul(rest);
      FirstEscapedNul(bin, start, rest, n, x);
      DecodesFrom(bin, start + n + 2, parts + [rest[..n]], rest[n + 1..], x);
      DecodesThroughNul(bin, start, parts, rest, n, x);
    }
  }

  lemma {:induction false} DecodesThroughNul(bin: Bytes, start: nat, parts: seq<Bytes>, rest: Bytes, n: nat, x: Bytes)
    requires n < |rest| && rest[n] == 0 && NulFree(rest[..n])
    requires start + n + 1 < |bin| && bin[start..start + n] == rest[..n]
    requires bin[start + n] == 0 && bin[start + n + 1] == 255
    requires DecNullTerminatedFrom(bin, start + n + 2, parts + [rest[..n]])
          == Some((Lead([0], parts + [rest[..n]]) + rest[n + 1..], x))
    ensures DecNullTerminatedFrom(bin, start, parts) == Some((Lead([0], parts) + rest, x))
  {
    DecodesMore(bin, start, parts, rest[..n]);
    RejoinParts(parts, rest, n);
  }

  lemma {:induction false} FirstNul(rest: Bytes) returns (n: nat)
    requires !NulFree(rest)
    ensures n < |rest| && rest[n] == 0 && NulFree(rest[..n])
  {
    n := FindNul(rest, 0).value;
  }

  lemma {:induction false} FirstEscapedNul(bin: Bytes, start: nat, rest: Bytes, n: nat, x: Bytes)
    requires start <= |bin| && bin[start..] == Escape(rest) + ([0] + x)
    requires n < |rest| && rest[n] == 0 && NulFree(rest[..n])
    ensures start + n + 1 < |bin| && bin[start + n] == 0 && bin[start + n + 1] == 255
    ensures bin[start..start + n] == rest[..n] && bin[start + n + 2..] == Escape(rest[n + 1..]) + ([0] + x)
  {
    SplitAtNul(rest, n, x);
    LocateEscapedNul(bin, start, rest[..n], Escape(rest[n + 1..]) + ([0] + x));
  }

  lemma {:induction false} RejoinParts(parts: seq<Bytes>, rest: Bytes, n: nat)
    requires n < |rest| && rest[n] == 0
    ensures Lead([0], parts + [rest[..n]]) + rest[n + 1..] == Lead([0], parts) + rest
  {
    LeadSnoc([0], parts, rest[..n]);
    Rejoin(Lead([0], parts), rest, n);
  }

  lemma {:induction false} DecodesNulFree(bin: Bytes, start: nat, parts: seq<Bytes>, rest: Bytes, x: Bytes)
    requires start <= |bin| && bin[start..] == Escape(rest) + ([0] + x) && Safe(x) && NulFree(rest)
    ensures DecNullTerminatedFrom(bin, start, parts) == Some((Lead([0], parts) + rest, x))
  {
    EscapeNulFree(rest, []);
    assert rest + [] == rest;
    LocateNul(bin, start, rest, x);
    DecodesLast(bin, start, parts, start + |rest|);
  }

  lemma {:induction false} LocateNul(bin: Bytes, start: nat, u: Bytes, x: Bytes)
    requires start <= |bin| && bin[start..] == u + ([0] + x)
    ensures start + |u| < |bin| && bin[start + |u|] == 0
    ensures bin[start..start + |u|] == u && bin[start + |u| + 1..] == x
  {
    SliceIndex(bin, start, u, [0] + x);
    assert ([0] + x)[1..] == x;
  }

  lemma {:induction false} LocateEscapedNul(bin: Bytes, start: nat, u: Bytes, after: Bytes)
    requires start <= |bin| && bin[start..] == u + ([0, 255] + after)
    ensures start + |u| + 1 < |bin| && bin[start + |u|] == 0 && bin[start + |u| + 1] == 255
    ensures bin[start..start + |u|] == u && bin[start + |u| + 2..] == after
  {
    SliceIndex(bin, start, u, [0, 255] + after);
    assert ([0, 255] + after)[2..] == after;
  }

  lemma {:induction false} Rejoin(lead: Bytes, rest: Bytes, n: nat)
    requires n < |rest| && rest[n] == 0
    ensures (lead + rest[..n] + [0]) + rest[n + 1..] == lead + rest
  {
    assert rest == rest[..n] + [0] + rest[n + 1..];
  }

  lemma {:induction false} SplitAtNul(rest: Bytes, n: nat, x: Bytes)
    requires n < |rest| && rest[n] == 0 && NulFree(rest[..n])
    ensures Escape(rest) + ([0] + x) == rest[..n] + ([0, 255] + (Escape(rest[n + 1..]) + ([0] + x)))
  {
    EscapeAtNul(rest, 0, n);
    assert rest[0..] == rest;
    Associate(rest[..n] + [0, 255], Escape(rest[n + 1..]), [0] + x);
    Associate(rest[..n], [0, 255], Escape(rest[n + 1..]) + ([0] + x));
  }

  lemma {:induction false} DecodesLast(bin: Bytes, start: nat, parts: seq<Bytes>, nul: nat)
    requires start <= nul < |bin|
    requires NulFree(bin[start..nul]) && bin[nul] == 0 && Safe(bin[nul + 1..])
    ensures DecNullTerminatedFrom(bin, start, parts) == Some((Lead([0], parts) + bin[start..nul], bin[nul + 1..]))
  {
    NulIsAt(bin, start, nul);
    JoinSnoc([0], parts, bin[start..nul]);
    assert nul + 1 < |bin| ==> bin[nul + 1] == bin[nul + 1..][0];
  }

  lemma {:induction false} DecodesMore(bin: Bytes, start: nat, parts: seq<Bytes>, u: Bytes)
    requires start + |u| + 1 < |bin| && bin[start..start + |u|] == u
    requires NulFree(u) && bin[start + |u|] == 0 && bin[start + |u| + 1] == 255
    ensures DecNullTerminatedFrom(bin, start, parts)
         == DecNullTerminatedFrom(bin, start + |u| + 2, parts + [u])
  {
    NulIsAt(bin, start, start + |u|);
  }

  lemma {:induction false} SliceIndex(bin: Bytes, start: nat, u: Bytes, w: Bytes)
    requires start <= |bin| && w != []
    requires bin[start..] == u + w
    ensures |bin| == start + |u| + |w|
    ensures bin[start..start + |u|] == u
    ensures forall i :: 0 <= i < |w| ==> bin[start + |u| + i] == w[i] == bin[start..][|u| + i]
    ensures forall i :: 0 <= i <= |w| ==> bin[start + |u| + i..] == w[i..]
  {
    assert |bin[start..]| == |u| + |w|;
    assert bin[start..start + |u|] == bin[start..][..|u|];
    forall i | 0 <= i < |w| ensures bin[start + |u| + i] == w[i] {
      assert bin[start..][|u| + i] == w[i];
    }
  }

  lemma {:induction false} NulIsAt(bin: Bytes, start: nat, nul: nat)
    requires start <= nul < |bin| && bin[nul] == 0 && NulFree(bin[start..nul])
    ensures FindNul(bin, start) == Some(nul)
    decreases nul - start
  {
    if start < nul {
      assert bin[start] == bin[start..nul][0];
      assert bin[start + 1..nul] == bin[start..nul][1..];
      NulIsAt(bin, start + 1, nul);
    }
  }

  /** Decoding undoes encoding, whatever bytes the string holds, as long as what follows
      does not begin with 0xFF. */
  lemma {:induction false} NullTerminatedRoundTrip(bin: Bytes, x: Bytes)
    requires Safe(x)
    ensures DecNullTerminated(Flatten(EncNullTerminated(bin)) + x) == Some((bin, x))
  {
    EncodesEscaped(bin);
    var all := Escape(bin) + ([0] + x);
    assert all == Flatten(EncNullTerminated(bin)) + x && all[0..] == all;
    DecodesFrom(all, 0, [], bin, x);
    assert [] + bin == bin;
  }
}
