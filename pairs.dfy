/**
 * Grouping the plotted parking nodes into fixed pairs: node 2i is drawn
 * together with node 2i + 1 in subplot i.
 */
module Pairs {

  /** Why a split can fail: the source raises a ValueError when the list is too short. */
  datatype PairError = NotEnoughNodes

  datatype Result<T> = Ok(value: T) | Err(error: PairError)

  /**
   * Splits `nodes` into `numPairs` consecutive pairs, four when no count is
   * given. Fails exactly when fewer than 2 * numPairs nodes are given; a count
   * of zero or less asks for no pairs and gets none (the loop over
   * range(numPairs) does not run).
   * Sequences are values, so the caller's list is left as it was.
   */
  method SplitNodesIntoPairs<T>(nodes: seq<T>, numPairs: int := 4) returns (result: Result<seq<(T, T)>>)
    ensures result.Err? <==> |nodes| < 2 * numPairs
    ensures result.Ok? ==> |result.value| == (if numPairs < 0 then 0 else numPairs)
    ensures result.Ok? ==> forall i :: 0 <= i < |result.value| ==>
      result.value[i] == (nodes[2 * i], nodes[2 * i + 1])
  {
    if |nodes| < numPairs * 2 {
      return Err(NotEnoughNodes);
    }
    var pairs: seq<(T, T)> := [];
    var i := 0;
    while i < numPairs
      invariant 0 <= i
      invariant i <= numPairs || i == 0
      invariant |pairs| == i
      invariant forall j :: 0 <= j < i ==> pairs[j] == (nodes[2 * j], nodes[2 * j + 1])
    {
      pairs := pairs + [(nodes[2 * i], nodes[2 * i + 1])];
      i := i + 1;
    }
    return Ok(pairs);
  }

  /** The nodes of a list of pairs, in order, first member before second. */
  function Flatten<T>(pairs: seq<(T, T)>): (flat: seq<T>)
  {
    if pairs == [] then []
    else
      var last := pairs[|pairs| - 1];
      Flatten(pairs[..|pairs| - 1]) + [last.0, last.1]
  }

  /**
   * Pairs built as above use exactly the first 2 * |pairs| nodes, each once and
   * in their original order: flattening them gives back that prefix.
   */
  lemma {:induction false} PairsUsePrefix<T>(nodes: seq<T>, pairs: seq<(T, T)>)
    requires 2 * |pairs| <= |nodes|
    requires forall i :: 0 <= i < |pairs| ==> pairs[i] == (nodes[2 * i], nodes[2 * i + 1])
    ensures Flatten(pairs) == nodes[..2 * |pairs|]
  {
    if pairs != [] {
      var n := |pairs| - 1;
      var init := pairs[..n];
      forall i | 0 <= i < |init| ensures init[i] == (nodes[2 * i], nodes[2 * i + 1]) {
        assert init[i] == pairs[i];
      }
      PairsUsePrefix(nodes, init);
      assert pairs[n] == (nodes[2 * n], nodes[2 * n + 1]);
      assert nodes[..2 * n + 2] == nodes[..2 * n] + [nodes[2 * n], nodes[2 * n + 1]];
    }
  }

  /** The split used by the plot: eight nodes into four pairs (0,1) (2,3) (4,5) (6,7). */
  method SplitEightNodes<T>(nodes: seq<T>) returns (pairs: seq<(T, T)>)
    requires |nodes| == 8
    ensures pairs == [(nodes[0], nodes[1]), (nodes[2], nodes[3]), (nodes[4], nodes[5]), (nodes[6], nodes[7])]
  {
    var result := SplitNodesIntoPairs(nodes, 4);
    pairs := result.value;
  }
}
