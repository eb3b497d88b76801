/** Lists collected newest first and put in order at the end. */
module Batching {

  function Reverse<T>(s: seq<T>): (r: seq<T>)
    ensures |r| == |s| && forall i :: 0 <= i < |s| ==> r[i] == s[|s| - 1 - i]
  {
    seq(|s|, i requires 0 <= i < |s| => s[|s| - 1 - i])
  }

  /** `lists:append/1`, and `lists:flatten/1` on a list of lists of rows. */
  function Append<T>(batches: seq<seq<T>>): seq<T> {
    if batches == [] then [] else batches[0] + Append(batches[1..])
  }

  lemma {:induction false} AppendSnoc<T>(batches: seq<seq<T>>, b: seq<T>)
    ensures Append(batches + [b]) == Append(batches) + b
  {
    if batches == [] {
      assert ([b])[1..] == [];
    } else {
      assert (batches + [b])[1..] == batches[1..] + [b];
      AppendSnoc(batches[1..], b);
    }
  }

  lemma {:induction false} NewestBatch<T>(batches: seq<seq<T>>, b: seq<T>)
    ensures Append(Reverse([b] + batches)) == Append(Reverse(batches)) + b
  {
    assert Reverse([b] + batches) == Reverse(batches) + [b];
    AppendSnoc(Reverse(batches), b);
  }
}
