/**
 * What the classical validators of the QAOA examples share: the positions
 * a measured bit string marks, an undirected edge relation, and the
 * concatenation of a list of lists.
 */
module Marked {

  /** `[s for s in range(len(state)) if state[s] == "1"]`. */
  function MarkedIndices(state: string): (m: seq<nat>)
    ensures |m| <= |state|
    ensures forall k :: 0 <= k < |m| ==> m[k] < |state| && state[m[k]] == '1'
    ensures forall i :: 0 <= i < |state| && state[i] == '1' ==> i in m
    ensures forall a, b :: 0 <= a < b < |m| ==> m[a] < m[b]
  {
    if state == [] then []
    else
      var init := state[..|state| - 1];
      var m := MarkedIndices(init);
      assert forall i :: 0 <= i < |init| ==> init[i] == state[i];
      if state[|state| - 1] == '1' then m + [|state| - 1] else m
  }

  /** `(u, v) in G.edges()` for an undirected graph: either orientation of the pair is an edge. */
  predicate Adjacent(edges: set<(int, int)>, u: int, v: int) {
    (u, v) in edges || (v, u) in edges
  }

  /** Every pair of marked positions of the bit string is an edge (`want`) or is not (`!want`). */
  predicate AllMarkedPairs(state: string, edges: set<(int, int)>, want: bool) {
    forall i, j :: 0 <= i < j < |state| && state[i] == '1' && state[j] == '1' ==> Adjacent(edges, i, j) == want
  }

  /** Every pair `itertools.combinations(m, 2)` lists is an edge (`want`) or is not (`!want`). */
  predicate AllListedPairs(m: seq<nat>, edges: set<(int, int)>, want: bool) {
    forall a, b :: 0 <= a < b < |m| ==> Adjacent(edges, m[a], m[b]) == want
  }

  /**
   * The pairs `itertools.combinations(marked, 2)` lists are exactly the
   * pairs `i < j` of positions that carry a `'1'`, so a test over the ones
   * is a test over the others.
   */
  lemma MarkedPairs(state: string, edges: set<(int, int)>, want: bool)
    ensures AllListedPairs(MarkedIndices(state), edges, want) <==> AllMarkedPairs(state, edges, want)
  {
    var m := MarkedIndices(state);
    if AllListedPairs(m, edges, want) {
      forall i, j | 0 <= i < j < |state| && state[i] == '1' && state[j] == '1'
        ensures Adjacent(edges, i, j) == want
      {
        var a :| 0 <= a < |m| && m[a] == i;
        var b :| 0 <= b < |m| && m[b] == j;
      }
    }
    if AllMarkedPairs(state, edges, want) {
      forall a, b | 0 <= a < b < |m|
        ensures Adjacent(edges, m[a], m[b]) == want
      {
        assert m[a] < m[b] < |state| && state[m[a]] == '1' && state[m[b]] == '1';
      }
    }
  }

  /** All the entries of a list of lists, in order. */
  function Flatten<T>(xss: seq<seq<T>>): seq<T> {
    if xss == [] then [] else xss[0] + Flatten(xss[1..])
  }

  /** Flattening one more list appends its entries. */
  lemma {:induction false} FlattenSnoc<T>(xss: seq<seq<T>>, xs: seq<T>)
    ensures Flatten(xss + [xs]) == Flatten(xss) + xs
    decreases |xss|
  {
    if xss == [] {
      assert [] + [xs] == [xs];
      assert [xs][1..] == [];
    } else {
      assert (xss + [xs])[0] == xss[0] && (xss + [xs])[1..] == xss[1..] + [xs];
      FlattenSnoc(xss[1..], xs);
    }
  }
}
