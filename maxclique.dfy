/**
 * The classical check of the max-clique QAOA example: a bit string scores
 * minus the number of vertices it marks when those vertices form a clique,
 * and 0 otherwise.
 */
module MaxClique {
  import opened Marked

  /** Every two vertices the bit string marks are joined by an edge. */
  predicate IsClique(edges: set<(int, int)>, state: string) {
    forall i, j :: 0 <= i < j < |state| && state[i] == '1' && state[j] == '1' ==> Adjacent(edges, i, j)
  }

  /**
   * `aClcostFct(state, G)`: the flag `temp` starts true and is cleared by
   * every pair of marked vertices that is not an edge; `energy` becomes
   * `-len(intlist)` when the flag survives.
   */
  method CliqueCost(state: string, edges: set<(int, int)>) returns (energy: int)
    ensures energy == if IsClique(edges, state) then -|MarkedIndices(state)| else 0
    ensures -|state| <= energy <= 0
  {
    var temp := true;
    energy := 0;
    var marked := MarkedIndices(state);
    var a := 0;
    while a < |marked|
      invariant 0 <= a <= |marked|
      invariant temp <==> RowsJoined(edges, marked, a)
    {
      var b := a + 1;
      while b < |marked|
        invariant a + 1 <= b <= |marked|
        invariant temp <==> RowsJoined(edges, marked, a) && RowJoined(edges, marked, a, b)
      {
        if !Adjacent(edges, marked[a], marked[b]) {
          temp := false;
        }
        b := b + 1;
      }
      NextRow(edges, marked, a);
      a := a + 1;
    }
    CliqueByPairs(edges, state);
    if temp {
      energy := -|marked|;
    }
  }

  /** The first `a` marked vertices are each joined to every later one. */
  predicate RowsJoined(edges: set<(int, int)>, m: seq<nat>, a: nat) {
    forall x, y :: 0 <= x < a && x < y < |m| ==> Adjacent(edges, m[x], m[y])
  }

  /** Marked vertex `a` is joined to those after it and before `b`. */
  predicate RowJoined(edges: set<(int, int)>, m: seq<nat>, a: nat, b: nat)
    requires a < |m| && b <= |m|
  {
    forall y :: a < y < b ==> Adjacent(edges, m[a], m[y])
  }

  lemma NextRow(edges: set<(int, int)>, m: seq<nat>, a: nat)
    requires a < |m|
    ensures RowsJoined(edges, m, a + 1) <==> RowsJoined(edges, m, a) && RowJoined(edges, m, a, |m|)
  {
  }

  /** The check over the pairs of the marked list is the clique property of the bit string. */
  lemma CliqueByPairs(edges: set<(int, int)>, state: string)
    ensures RowsJoined(edges, MarkedIndices(state), |MarkedIndices(state)|) <==> IsClique(edges, state)
  {
    var m := MarkedIndices(state);
    MarkedPairs(state, edges, true);
    assert RowsJoined(edges, m, |m|) <==> AllListedPairs(m, edges, true);
    assert IsClique(edges, state) <==> AllMarkedPairs(state, edges, true);
  }

  /** With at most one marked vertex there is no pair to check: the selection scores minus its size. */
  lemma SmallSelectionIsClique(edges: set<(int, int)>, state: string)
    requires |MarkedIndices(state)| <= 1
    ensures IsClique(edges, state)
  {
  }

  /** Any one missing edge between marked vertices voids the selection. */
  lemma MissingEdgeVoids(edges: set<(int, int)>, state: string, i: nat, j: nat)
    requires i < j < |state| && state[i] == '1' && state[j] == '1'
    requires (i, j) !in edges && (j, i) !in edges
    ensures !IsClique(edges, state)
  {
  }
}
