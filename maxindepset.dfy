/**
 * The classical check of the maximum-independent-set QAOA example: a bit
 * string scores minus the number of vertices it marks when no two of them
 * are joined by an edge, and 0 otherwise.
 */
module MaxIndepSet {
  import opened Marked

  /** No two vertices the bit string marks are joined by an edge. */
  predicate IsIndependent(edges: set<(int, int)>, state: string) {
    forall i, j :: 0 <= i < j < |state| && state[i] == '1' && state[j] == '1' ==> !Adjacent(edges, i, j)
  }

  /**
   * `aClcostFct(state, G)`: the flag `temp` starts true and is cleared by
   * every pair of marked vertices that is an edge; `energy` becomes
   * `-len(intlist)` when the flag survives.
   */
  method IndependentSetCost(state: string, edges: set<(int, int)>) returns (energy: int)
    ensures energy == if IsIndependent(edges, state) then -|MarkedIndices(state)| else 0
    ensures -|state| <= energy <= 0
  {
    var temp := true;
    energy := 0;
    var marked := MarkedIndices(state);
    var a := 0;
    while a < |marked|
      invariant 0 <= a <= |marked|
      invariant temp <==> RowsApart(edges, marked, a)
    {
      var b := a + 1;
      while b < |marked|
        invariant a + 1 <= b <= |marked|
        invariant temp <==> RowsApart(edges, marked, a) && RowApart(edges, marked, a, b)
      {
        if Adjacent(edges, marked[a], marked[b]) {
          temp := false;
        }
        b := b + 1;
      }
      NextRow(edges, marked, a);
      a := a + 1;
    }
    IndependentByPairs(edges, state);
    if temp {
      energy := -|marked|;
    }
  }

  /** None of the first `a` marked vertices is joined to a later one. */
  predicate RowsApart(edges: set<(int, int)>, m: seq<nat>, a: nat) {
    forall x, y :: 0 <= x < a && x < y < |m| ==> !Adjacent(edges, m[x], m[y])
  }

  /** Marked vertex `a` is joined to none of those after it and before `b`. */
  predicate RowApart(edges: set<(int, int)>, m: seq<nat>, a: nat, b: nat)
    requires a < |m| && b <= |m|
  {
    forall y :: a < y < b ==> !Adjacent(edges, m[a], m[y])
  }

  lemma NextRow(edges: set<(int, int)>, m: seq<nat>, a: nat)
    requires a < |m|
    ensures RowsApart(edges, m, a + 1) <==> RowsApart(edges, m, a) && RowApart(edges, m, a, |m|)
  {
  }

  /** The check over the pairs of the marked list is the independence of the bit string's vertices. */
  lemma IndependentByPairs(edges: set<(int, int)>, state: string)
    ensures RowsApart(edges, MarkedIndices(state), |MarkedIndices(state)|) <==> IsIndependent(edges, state)
  {
    var m := MarkedIndices(state);
    MarkedPairs(state, edges, false);
    assert RowsApart(edges, m, |m|) <==> AllListedPairs(m, edges, false);
    assert IsIndependent(edges, state) <==> AllMarkedPairs(state, edges, false);
  }

  /** A string without a `'1'` marks nothing, is independent, and so scores 0. */
  lemma NothingMarked(edges: set<(int, int)>, state: string)
    requires forall i :: 0 <= i < |state| ==> state[i] != '1'
    ensures MarkedIndices(state) == [] && IsIndependent(edges, state)
  {
  }

  /** With at most one marked vertex there is no pair to check: the selection scores minus its size. */
  lemma SmallSelectionIsIndependent(edges: set<(int, int)>, state: string)
    requires |MarkedIndices(state)| <= 1
    ensures IsIndependent(edges, state)
  {
  }

  /** Any one edge between marked vertices voids the selection. */
  lemma EdgeVoids(edges: set<(int, int)>, state: string, i: nat, j: nat)
    requires i < j < |state| && state[i] == '1' && state[j] == '1'
    requires (i, j) in edges || (j, i) in edges
    ensures !IsIndependent(edges, state)
  {
  }
}
