/** Stores into a sequence in a given order: the last store to a position wins. */
module OrderedStores {

  /** The buffer after storing xs[0], xs[1], ... at positions at[0], at[1], ..., in that order. */
  function Stored<T>(buf: seq<T>, at: seq<int>, xs: seq<T>): (r: seq<T>)
    requires |at| == |xs| && forall k :: 0 <= k < |at| ==> 0 <= at[k] < |buf|
    ensures |r| == |buf|
  {
    if xs == [] then buf
    else Stored(buf, at[..|at| - 1], xs[..|xs| - 1])[at[|at| - 1] := xs[|xs| - 1]]
  }

  /** Every position holds the last sample stored there, or what it held before. */
  lemma {:induction false} LastWriterWins<T>(buf: seq<T>, at: seq<int>, xs: seq<T>, j: int)
    requires |at| == |xs| && (forall k :: 0 <= k < |at| ==> 0 <= at[k] < |buf|) && 0 <= j < |buf|
    ensures (forall k :: 0 <= k < |at| ==> at[k] != j) ==> Stored(buf, at, xs)[j] == buf[j]
    ensures forall k :: 0 <= k < |at| && at[k] == j && (forall k' :: k < k' < |at| ==> at[k'] != j)
                        ==> Stored(buf, at, xs)[j] == xs[k]
    decreases |at|
  {
    if xs != [] {
      LastWriterWins(buf, at[..|at| - 1], xs[..|xs| - 1], j);
    }
  }

  /** The last sample stored at the position of sample a. */
  lemma {:induction false} LastWriter<T>(buf: seq<T>, at: seq<int>, xs: seq<T>, a: nat) returns (k: nat)
    requires |at| == |xs| && (forall k :: 0 <= k < |at| ==> 0 <= at[k] < |buf|) && a < |at|
    ensures a <= k < |at| && at[k] == at[a] && Stored(buf, at, xs)[at[a]] == xs[k]
    decreases |at|
  {
    if at[|at| - 1] == at[a] {
      k := |at| - 1;
    } else {
      k := LastWriter(buf, at[..|at| - 1], xs[..|xs| - 1], a);
    }
  }

  /** Storing two batches is storing their concatenation. */
  lemma {:induction false} StoredAppend<T>(buf: seq<T>, at: seq<int>, xs: seq<T>, at': seq<int>, ys: seq<T>)
    requires |at| == |xs| && |at'| == |ys|
    requires forall k :: 0 <= k < |at| ==> 0 <= at[k] < |buf|
    requires forall k :: 0 <= k < |at'| ==> 0 <= at'[k] < |buf|
    ensures Stored(Stored(buf, at, xs), at', ys) == Stored(buf, at + at', xs + ys)
    decreases |ys|
  {
    if ys == [] {
      assert at + at' == at && xs + ys == xs;
    } else {
      var n := |ys| - 1;
      StoredAppend(buf, at, xs, at'[..n], ys[..n]);
      assert (at + at')[..|at| + n] == at + at'[..n] && (xs + ys)[..|xs| + n] == xs + ys[..n];
    }
  }

  lemma StoredStep<T>(buf: seq<T>, at: seq<int>, xs: seq<T>, k: nat)
    requires |at| == |xs| && (forall k :: 0 <= k < |at| ==> 0 <= at[k] < |buf|) && k < |at|
    ensures Stored(buf, at[..k + 1], xs[..k + 1]) == Stored(buf, at[..k], xs[..k])[at[k] := xs[k]]
  {
    assert xs[..k + 1][..k] == xs[..k] && at[..k + 1][..k] == at[..k];
  }

  lemma StoredNone<T>(buf: seq<T>)
    ensures Stored(buf, [], []) == buf
  {
  }

  /** What a position that is stored to ends up with does not depend on the buffer before. */
  lemma {:induction false} SameLastWriter<T>(buf: seq<T>, buf': seq<T>, at: seq<int>, xs: seq<T>, j: int)
    requires |at| == |xs| && |buf| == |buf'| && (forall k :: 0 <= k < |at| ==> 0 <= at[k] < |buf|)
    requires 0 <= j < |buf| && j in at
    ensures Stored(buf, at, xs)[j] == Stored(buf', at, xs)[j]
    decreases |at|
  {
    var n := |at| - 1;
    if at[n] != j {
      assert at == at[..n] + [at[n]];
      SameLastWriter(buf, buf', at[..n], xs[..n], j);
    }
  }
}
