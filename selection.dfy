/**
 * The LINQ selections the registries make over a per-team key (member count
 * or score), stated on the sequence of keys in registration order.
 * `OrderBy(key).First()` and `OrderByDescending(key).First()` use a stable
 * sort, so they pick the FIRST index holding the extreme key;
 * `GroupBy(key).OrderBy(g => g.Key).First()` gives all indices holding the
 * minimal key, in their original order.
 */
module Selection {
  /** `Enumerable.Min` (`MinOfSpec`). */
  function MinOf(xs: seq<int>): int
    requires |xs| > 0
  {
    if |xs| == 1 then xs[0]
    else
      var rest := MinOf(xs[1..]);
      if xs[0] <= rest then xs[0] else rest
  }

  /** The minimum is no greater than any key and is one of them. */
  lemma {:induction false} MinOfSpec(xs: seq<int>)
    requires |xs| > 0
    ensures forall i :: 0 <= i < |xs| ==> MinOf(xs) <= xs[i]
    ensures exists i :: 0 <= i < |xs| && xs[i] == MinOf(xs)
  {
    if |xs| > 1 {
      MinOfSpec(xs[1..]);
      assert forall i :: 1 <= i < |xs| ==> xs[i] == xs[1..][i - 1];
      var j :| 0 <= j < |xs[1..]| && xs[1..][j] == MinOf(xs[1..]);
      assert xs[j + 1] == MinOf(xs[1..]);
    } else {
      assert xs[0] == MinOf(xs);
    }
  }

  /** `Enumerable.Max`. */
  function MaxOf(xs: seq<int>): (m: int)
    requires |xs| > 0
    ensures forall i :: 0 <= i < |xs| ==> xs[i] <= m
    ensures exists i :: 0 <= i < |xs| && xs[i] == m
  {
    if |xs| == 1 then xs[0]
    else
      var rest := MaxOf(xs[1..]);
      assert forall i :: 1 <= i < |xs| ==> xs[i] == xs[1..][i - 1];
      if xs[0] >= rest then xs[0] else rest
  }

  /** `OrderBy(key).First()`: the first index whose key is minimal. */
  function FirstMinIndex(xs: seq<int>): (k: nat)
    requires |xs| > 0
    ensures k < |xs| && xs[k] == MinOf(xs)
    ensures forall j :: 0 <= j < k ==> xs[k] < xs[j]
  {
    if xs[0] == MinOf(xs) then 0
    else
      MinOfSpec(xs);
      MinOfSpec(xs[1..]);
      assert forall i :: 1 <= i < |xs| ==> xs[i] == xs[1..][i - 1];
      assert MinOf(xs[1..]) == MinOf(xs) by {
        var i :| 0 <= i < |xs[1..]| && xs[1..][i] == MinOf(xs[1..]);
      }
      1 + FirstMinIndex(xs[1..])
  }

  /** `OrderByDescending(key).First()`: the first index whose key is maximal. */
  function FirstMaxIndex(xs: seq<int>): (k: nat)
    requires |xs| > 0
    ensures k < |xs| && xs[k] == MaxOf(xs)
    ensures forall j :: 0 <= j < k ==> xs[j] < xs[k]
  {
    if xs[0] == MaxOf(xs) then 0
    else
      assert forall i :: 1 <= i < |xs| ==> xs[i] == xs[1..][i - 1];
      assert MaxOf(xs[1..]) == MaxOf(xs) by {
        var i :| 0 <= i < |xs[1..]| && xs[1..][i] == MaxOf(xs[1..]);
      }
      1 + FirstMaxIndex(xs[1..])
  }

  /** The indices `from..` of `xs` whose key equals `key`, in increasing order (`IndicesOfSpec`). */
  function IndicesOf(xs: seq<int>, key: int, from: nat): (r: seq<nat>)
    requires from <= |xs|
    ensures forall i :: 0 <= i < |r| ==> from <= r[i] < |xs|
    decreases |xs| - from
  {
    if from == |xs| then []
    else if xs[from] == key then [from] + IndicesOf(xs, key, from + 1)
    else IndicesOf(xs, key, from + 1)
  }

  /** `IndicesOf` keeps exactly the indices holding `key`, each once and in increasing order. */
  lemma {:induction false} IndicesOfSpec(xs: seq<int>, key: int, from: nat)
    requires from <= |xs|
    ensures forall i :: 0 <= i < |IndicesOf(xs, key, from)| ==> xs[IndicesOf(xs, key, from)[i]] == key
    ensures forall i, j :: 0 <= i < j < |IndicesOf(xs, key, from)| ==> IndicesOf(xs, key, from)[i] < IndicesOf(xs, key, from)[j]
    ensures forall k :: from <= k < |xs| && xs[k] == key ==> k in IndicesOf(xs, key, from)
    decreases |xs| - from
  {
    if from < |xs| {
      IndicesOfSpec(xs, key, from + 1);
    }
  }

  /**
   * `GroupBy(key).OrderBy(g => g.Key).First()`: every index with the minimal
   * key, in order (`MinimalIndicesSpec`).
   */
  function MinimalIndices(xs: seq<int>): (r: seq<nat>)
    requires |xs| > 0
    ensures |r| > 0
    ensures forall i :: 0 <= i < |r| ==> r[i] < |xs|
  {
    IndicesOfSpec(xs, MinOf(xs), 0);
    var r := IndicesOf(xs, MinOf(xs), 0);
    assert FirstMinIndex(xs) in r;
    r
  }

  /** The minimal group holds exactly the indices with the minimal key, in increasing order. */
  lemma MinimalIndicesSpec(xs: seq<int>)
    requires |xs| > 0
    ensures forall i :: 0 <= i < |MinimalIndices(xs)| ==> xs[MinimalIndices(xs)[i]] == MinOf(xs)
    ensures forall k :: 0 <= k < |xs| && xs[k] == MinOf(xs) ==> k in MinimalIndices(xs)
    ensures forall i, j :: 0 <= i < j < |MinimalIndices(xs)| ==> MinimalIndices(xs)[i] < MinimalIndices(xs)[j]
  {
    IndicesOfSpec(xs, MinOf(xs), 0);
    assert MinimalIndices(xs) == IndicesOf(xs, MinOf(xs), 0);
  }

  /** The first minimal index is the first member of the minimal group. */
  lemma {:induction false} FirstOfMinimalGroup(xs: seq<int>)
    requires |xs| > 0
    ensures MinimalIndices(xs)[0] == FirstMinIndex(xs)
  {
    MinimalIndicesSpec(xs);
    var r := MinimalIndices(xs);
    var k := FirstMinIndex(xs);
    assert k in r;
    var p :| 0 <= p < |r| && r[p] == k;
    assert xs[r[0]] == xs[k];
    assert r[0] <= r[p];
  }

  /** Every index holding the minimal key appears in the minimal group, so a free choice can reach it. */
  lemma MinimalIndexReachable(xs: seq<int>, k: nat) returns (p: nat)
    requires k < |xs| && forall j :: 0 <= j < |xs| ==> xs[k] <= xs[j]
    ensures p < |MinimalIndices(xs)| && MinimalIndices(xs)[p] == k
  {
    MinimalIndicesSpec(xs);
    MinOfSpec(xs);
    var r := MinimalIndices(xs);
    var m :| 0 <= m < |xs| && xs[m] == MinOf(xs);
    assert xs[k] == MinOf(xs);
    assert k in r;
    p :| 0 <= p < |r| && r[p] == k;
  }

  /** A draw already smaller than the list length picks that very position: `choice % n` leaves it unchanged. */
  lemma SmallModulo(p: nat, n: nat)
    requires p < n
    ensures p % n == p
  {
  }
}
