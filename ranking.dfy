/** The ranking step of `SimpleRAG.retrieve`: `scores.argsort()[::-1][:top_k]`.
    The order of chunks with equal scores is not specified (numpy's default
    sort is not stable); the model ranks by insertion and promises only that
    scores do not increase along the result. */
module Ranking {

  /** No index occurs twice. */
  predicate Distinct(order: seq<nat>) {
    forall p, q :: 0 <= p < q < |order| ==> order[p] != order[q]
  }

  /** Every entry indexes `scores`, and scores do not increase along `order`. */
  predicate Descending(order: seq<nat>, scores: seq<real>) {
    && (forall p :: 0 <= p < |order| ==> order[p] < |scores|)
    && (forall p, q :: 0 <= p < q < |order| ==> scores[order[p]] >= scores[order[q]])
  }

  /** Inserts index `j` in front of the first entry whose score is not above `scores[j]`. */
  function InsertByScore(order: seq<nat>, j: nat, scores: seq<real>): (r: seq<nat>)
    requires j < |scores| && Descending(order, scores)
    ensures |r| == |order| + 1
    ensures forall x :: x in r <==> x in order || x == j
    ensures Descending(r, scores)
    ensures j !in order && Distinct(order) ==> Distinct(r)
    ensures r[0] == j || (order != [] && r[0] == order[0])
  {
    if order == [] then [j]
    else if scores[j] >= scores[order[0]] then
      ConsDescending(j, order, scores);
      ConsDistinct(j, order);
      [j] + order
    else
      var rest := InsertByScore(order[1..], j, scores);
      assert rest[0] == j || rest[0] == order[1];
      ConsDescending(order[0], rest, scores);
      assert forall x :: x in order[1..] ==> x in order;
      assert Distinct(order) ==> order[0] !in order[1..] && Distinct(order[1..]);
      ConsDistinct(order[0], rest);
      [order[0]] + rest
  }

  lemma ConsDescending(x: nat, rest: seq<nat>, scores: seq<real>)
    requires x < |scores| && Descending(rest, scores)
    requires rest != [] ==> scores[x] >= scores[rest[0]]
    ensures Descending([x] + rest, scores)
  {
    var r := [x] + rest;
    forall p, q | 0 <= p < q < |r| ensures scores[r[p]] >= scores[r[q]] {
      if p == 0 && q > 1 {
        assert scores[rest[0]] >= scores[rest[q - 1]];
      }
    }
  }

  lemma ConsDistinct(x: nat, rest: seq<nat>)
    ensures x !in rest && Distinct(rest) ==> Distinct([x] + rest)
  {
    if x !in rest && Distinct(rest) {
      var r := [x] + rest;
      forall p, q | 0 <= p < q < |r| ensures r[p] != r[q] {
        assert r[q] == rest[q - 1] && rest[q - 1] in rest;
      }
    }
  }

  /** Indices `0 .. n-1` of `scores`, highest score first. */
  function RankPrefix(scores: seq<real>, n: nat): (r: seq<nat>)
    requires n <= |scores|
    ensures |r| == n && Distinct(r) && Descending(r, scores)
    ensures forall x :: x in r <==> 0 <= x < n
  {
    if n == 0 then [] else InsertByScore(RankPrefix(scores, n - 1), n - 1, scores)
  }

  /** `scores.argsort()[::-1]`: every index exactly once, highest score first. */
  function Rank(scores: seq<real>): seq<nat> {
    RankPrefix(scores, |scores|)
  }

  /** Length of Python's `xs[:k]` on a list of length `n`: a negative `k`
      drops `-k` entries from the end. */
  function SliceLength(n: nat, k: int): nat {
    if k >= 0 then (if k <= n then k else n)
    else if n + k >= 0 then n + k else 0
  }

  /** `scores.argsort()[::-1][:k]`: the first `SliceLength(|scores|, k)` indices
      of the ranking. */
  function TopIndices(scores: seq<real>, k: int): (r: seq<nat>)
    ensures |r| == SliceLength(|scores|, k)
    ensures 0 <= k ==> |r| == if k <= |scores| then k else |scores|
    ensures Distinct(r) && Descending(r, scores)
    ensures forall p, j :: 0 <= p < |r| && 0 <= j < |scores| && j !in r ==> scores[j] <= scores[r[p]]
  {
    var r := Rank(scores)[..SliceLength(|scores|, k)];
    PrefixOfRanking(scores, SliceLength(|scores|, k));
    r
  }

  /** A prefix of the ranking keeps its order, and nothing left out of it
      scores higher than anything in it. */
  lemma PrefixOfRanking(scores: seq<real>, m: nat)
    requires m <= |scores|
    ensures var r := Rank(scores)[..m];
      && Distinct(r) && Descending(r, scores)
      && forall p, j :: 0 <= p < |r| && 0 <= j < |scores| && j !in r ==> scores[j] <= scores[r[p]]
  {
    var order := Rank(scores);
    var r := order[..m];
    assert forall p :: 0 <= p < |r| ==> r[p] == order[p];
    forall p, j | 0 <= p < |r| && 0 <= j < |scores| && j !in r
      ensures scores[j] <= scores[r[p]]
    {
      assert j in order;
      var q :| 0 <= q < |order| && order[q] == j;
      assert q >= m by {
        assert forall t :: 0 <= t < m ==> order[t] in r;
      }
    }
  }
}
