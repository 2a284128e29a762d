/**
 * The classical check of the maximum-set-packing QAOA example: a bit
 * string chooses sets, and scores minus the number chosen when no element
 * of the universe is used twice by them, and 0 otherwise. The check marks
 * elements off in an array of flags, one per element of the universe.
 */
module MaxSetPacking {
  import opened Wrappers
  import opened Marked

  // ---------------------------------------------------------------------
  // Python list indexing
  // ---------------------------------------------------------------------

  /** `xs[v]` is defined for a list of length `n` exactly when `-n <= v < n`. */
  predicate InRange(v: int, n: nat) {
    -(n as int) <= v < n
  }

  /** Every entry of `xs` is an index of a list of length `n`. */
  predicate WithinUniverse(xs: seq<int>, n: nat) {
    forall k :: 0 <= k < |xs| ==> InRange(xs[k], n)
  }

  /** The position `xs[v]` denotes: counted from the end when `v` is negative. */
  function Slot(v: int, n: nat): (k: nat)
    requires InRange(v, n)
    ensures k < n
  {
    if v < 0 then v + n else v
  }

  // ---------------------------------------------------------------------
  // The scan, as a function
  // ---------------------------------------------------------------------

  /**
   * The inner loop over one set: each element is looked up in `used`; a
   * free one is taken, a taken one clears the flag and ends the loop.
   * None stands for the IndexError of an element outside the universe.
   */
  function ScanSet(used: seq<bool>, s: seq<int>, temp: bool): (r: Option<(seq<bool>, bool)>)
    ensures r.Some? ==> |r.value.0| == |used|
    decreases |s|
  {
    if s == [] then Some((used, temp))
    else if !InRange(s[0], |used|) then None
    else
      var k := Slot(s[0], |used|);
      if used[k] then ScanSet(used[k := false], s[1..], temp)
      else Some((used, false))
  }

  /** The outer loop: every chosen set in turn, whatever the flag says by then. */
  function Scan(used: seq<bool>, sets: seq<seq<int>>, temp: bool): (r: Option<(seq<bool>, bool)>)
    ensures r.Some? ==> |r.value.0| == |used|
    decreases |sets|
  {
    if sets == [] then Some((used, temp))
    else
      match ScanSet(used, sets[0], temp)
      case None => None
      case Some(st) => Scan(st.0, sets[1..], st.1)
  }

  /** `[sets[index] for index in intlist]`; None for the IndexError of an index past the list of sets. */
  function ChosenSets(marked: seq<nat>, sets: seq<seq<int>>): (r: Option<seq<seq<int>>>)
  {
    if marked == [] then Some([])
    else if marked[0] >= |sets| then None
    else
      match ChosenSets(marked[1..], sets)
      case None => None
      case Some(rest) => Some([sets[marked[0]]] + rest)
  }

  /** The comprehension fails exactly on an index past the list, and otherwise picks the sets in order. */
  lemma {:induction false} ChosenSetsMeaning(marked: seq<nat>, sets: seq<seq<int>>)
    ensures var r := ChosenSets(marked, sets);
      && (r.None? <==> exists k :: 0 <= k < |marked| && marked[k] >= |sets|)
      && (r.Some? ==> |r.value| == |marked| && forall k :: 0 <= k < |marked| ==> r.value[k] == sets[marked[k]])
  {
    if marked != [] && marked[0] < |sets| {
      ChosenSetsMeaning(marked[1..], sets);
      if exists k :: 0 <= k < |marked| && marked[k] >= |sets| {
        var k :| 0 <= k < |marked| && marked[k] >= |sets|;
        assert marked[1..][k - 1] == marked[k];
      }
      if ChosenSets(marked[1..], sets).None? {
        var k :| 0 <= k < |marked[1..]| && marked[1..][k] >= |sets|;
        assert marked[k + 1] == marked[1..][k];
      }
    }
  }

  function AllFree(n: nat): (used: seq<bool>)
    ensures |used| == n && forall k :: 0 <= k < n ==> used[k]
  {
    seq(n, _ => true)
  }

  /** What `testCostFun(state, universe)` returns for a universe of `n` elements; None when it raises. */
  function PackingCost(state: string, sets: seq<seq<int>>, n: nat): Option<int> {
    var marked := MarkedIndices(state);
    match ChosenSets(marked, sets)
    case None => None
    case Some(chosen) =>
      match Scan(AllFree(n), chosen, true)
      case None => None
      case Some(st) => Some(if st.1 then -|marked| else 0)
  }

  // ---------------------------------------------------------------------
  // The scan over an array of flags
  // ---------------------------------------------------------------------

  /**
   * `testCostFun(state, universe)` with the list of sets as a parameter:
   * `list_universe` is a fresh array of `len(universe)` flags, updated in
   * place by the two nested loops; the inner one ends at the first element
   * already taken.
   */
  method SetPackingCost(state: string, sets: seq<seq<int>>, universe: seq<int>) returns (obj: Option<int>)
    ensures obj == PackingCost(state, sets, |universe|)
  {
    var n := |universe|;
    var listUniverse := new bool[n](_ => true);
    assert listUniverse[..] == AllFree(n);
    var temp := true;
    var marked := MarkedIndices(state);
    var chosen := ChosenSets(marked, sets);
    if chosen.None? {
      return None;
    }
    var solSets := chosen.value;
    assert solSets[0..] == solSets;
    var i := 0;
    while i < |solSets|
      invariant 0 <= i <= |solSets|
      invariant Scan(AllFree(n), solSets, true) == Scan(listUniverse[..], solSets[i..], temp)
    {
      var seto := solSets[i];
      ghost var used0, temp0 := listUniverse[..], temp;
      var j := 0;
      while j < |seto|
        invariant 0 <= j <= |seto|
        invariant ScanSet(used0, seto, temp0) == ScanSet(listUniverse[..], seto[j..], temp)
      {
        var val := seto[j];
        ScanSetStep(listUniverse[..], seto, j, temp);
        if !(-n <= val < n) {
          ScanStep(used0, solSets, i, temp0);
          return None;
        }
        var k := if val < 0 then val + n else val;
        if listUniverse[k] {
          listUniverse[k] := false;
        } else {
          temp := false;
          break;
        }
        j := j + 1;
      }
      assert ScanSet(used0, seto, temp0) == Some((listUniverse[..], temp));
      ScanStep(used0, solSets, i, temp0);
      i := i + 1;
    }
    assert solSets[i..] == [];
    obj := Some(if temp then 0 - |marked| else 0);
  }

  /** One turn of the outer loop: the scan of the rest starts with the scan of the next set. */
  lemma ScanStep(used: seq<bool>, sets: seq<seq<int>>, i: nat, temp: bool)
    requires i < |sets|
    ensures Scan(used, sets[i..], temp) ==
      match ScanSet(used, sets[i], temp)
      case None => None
      case Some(st) => Scan(st.0, sets[i + 1..], st.1)
  {
    assert sets[i..][0] == sets[i] && sets[i..][1..] == sets[i + 1..];
  }

  /** One turn of the inner loop. */
  lemma ScanSetStep(used: seq<bool>, s: seq<int>, j: nat, temp: bool)
    requires j < |s|
    ensures ScanSet(used, s[j..], temp) ==
      if !InRange(s[j], |used|) then None
      else if used[Slot(s[j], |used|)] then ScanSet(used[Slot(s[j], |used|) := false], s[j + 1..], temp)
      else Some((used, false))
  {
    assert s[j..][0] == s[j] && s[j..][1..] == s[j + 1..];
  }

  // ---------------------------------------------------------------------
  // What the scan decides
  // ---------------------------------------------------------------------

  /** Every element lies in the universe, is still free in `used`, and no two share a slot. */
  predicate Fresh(used: seq<bool>, xs: seq<int>)
    decreases |xs|
  {
    xs == [] ||
    (InRange(xs[0], |used|) && used[Slot(xs[0], |used|)] && Fresh(used[Slot(xs[0], |used|) := false], xs[1..]))
  }

  /** `used` with the slot of every element of `xs` taken. */
  function Take(used: seq<bool>, xs: seq<int>): (r: seq<bool>)
    requires forall k :: 0 <= k < |xs| ==> InRange(xs[k], |used|)
    ensures |r| == |used|
    decreases |xs|
  {
    if xs == [] then used
    else
      assert forall k :: 0 <= k < |xs[1..]| ==> xs[1..][k] == xs[k + 1];
      Take(used[Slot(xs[0], |used|) := false], xs[1..])
  }

  /** Pairwise distinct elements that are all in the universe and free: the reference reading of `Fresh`. */
  predicate Distinct(used: seq<bool>, xs: seq<int>) {
    && (forall k :: 0 <= k < |xs| ==> InRange(xs[k], |used|) && used[Slot(xs[k], |used|)])
    && (forall a, b :: 0 <= a < b < |xs| && InRange(xs[a], |used|) && InRange(xs[b], |used|) ==>
          Slot(xs[a], |used|) != Slot(xs[b], |used|))
  }

  lemma {:induction false} FreshIsDistinct(used: seq<bool>, xs: seq<int>)
    ensures Fresh(used, xs) <==> Distinct(used, xs)
    decreases |xs|
  {
    if xs != [] {
      var n := |used|;
      var rest := xs[1..];
      assert forall k :: 0 <= k < |rest| ==> rest[k] == xs[k + 1];
      if InRange(xs[0], n) {
        var k0 := Slot(xs[0], n);
        var used' := used[k0 := false];
        FreshIsDistinct(used', rest);
        if Distinct(used, xs) {
          forall k | 0 <= k < |rest|
            ensures InRange(rest[k], n) && used'[Slot(rest[k], n)]
          {
            assert Slot(xs[0], n) != Slot(xs[k + 1], n);
          }
          forall a, b | 0 <= a < b < |rest| && InRange(rest[a], n) && InRange(rest[b], n)
            ensures Slot(rest[a], n) != Slot(rest[b], n)
          {
            assert rest[a] == xs[a + 1] && rest[b] == xs[b + 1];
          }
          assert Distinct(used', rest);
        }
        if Fresh(used, xs) {
          assert used[k0] && Distinct(used', rest);
          forall k | 0 <= k < |xs|
            ensures InRange(xs[k], n) && used[Slot(xs[k], n)]
          {
            if k > 0 {
              assert rest[k - 1] == xs[k];
            }
          }
          forall a, b | 0 <= a < b < |xs| && InRange(xs[a], n) && InRange(xs[b], n)
            ensures Slot(xs[a], n) != Slot(xs[b], n)
          {
            if a == 0 {
              assert rest[b - 1] == xs[b];
              assert used'[Slot(rest[b - 1], n)];
            } else {
              assert rest[a - 1] == xs[a] && rest[b - 1] == xs[b];
            }
          }
        }
      }
    }
  }

  /** The inner loop clears the flag exactly when the set is not fresh, and otherwise takes all of it. */
  lemma {:induction false} ScanSetMeaning(used: seq<bool>, s: seq<int>, temp: bool)
    requires ScanSet(used, s, temp).Some?
    ensures var st := ScanSet(used, s, temp).value;
      && (st.1 <==> temp && Fresh(used, s))
      && (Fresh(used, s) ==> (forall k :: 0 <= k < |s| ==> InRange(s[k], |used|)) && st.0 == Take(used, s))
    decreases |s|
  {
    if s != [] {
      assert InRange(s[0], |used|);
      var k0 := Slot(s[0], |used|);
      if used[k0] {
        ScanSetMeaning(used[k0 := false], s[1..], temp);
        if Fresh(used, s) {
          assert forall k :: 0 < k < |s| ==> s[k] == s[1..][k - 1];
        }
      }
    }
  }

  /**
   * The inner loop breaks at the first element already taken: the elements
   * before it are taken, the rest of the set is never looked at, and the
   * flag is cleared.
   */
  lemma {:induction false} ScanSetBreak(used: seq<bool>, s: seq<int>, temp: bool, p: nat)
    requires p < |s|
    requires forall k :: 0 <= k <= p ==> InRange(s[k], |used|)
    requires Fresh(used, s[..p])
    requires !Take(used, s[..p])[Slot(s[p], |used|)]
    ensures ScanSet(used, s, temp) == Some((Take(used, s[..p]), false))
    decreases p
  {
    if p > 0 {
      var used' := used[Slot(s[0], |used|) := false];
      var rest := s[1..];
      assert s[..p][0] == s[0] && s[..p][1..] == rest[..p - 1];
      assert forall k :: 0 <= k <= p - 1 ==> rest[k] == s[k + 1];
      assert Take(used, s[..p]) == Take(used', rest[..p - 1]);
      ScanSetBreak(used', rest, temp, p - 1);
    }
  }

  lemma {:induction false} FreshConcat(used: seq<bool>, s: seq<int>, rest: seq<int>)
    ensures Fresh(used, s + rest) ==> Fresh(used, s)
    ensures Fresh(used, s) && (forall k :: 0 <= k < |s| ==> InRange(s[k], |used|)) ==>
      (Fresh(used, s + rest) <==> Fresh(Take(used, s), rest))
    decreases |s|
  {
    if s == [] {
      assert s + rest == rest;
    } else {
      assert (s + rest)[0] == s[0] && (s + rest)[1..] == s[1..] + rest;
      if InRange(s[0], |used|) {
        var k0 := Slot(s[0], |used|);
        FreshConcat(used[k0 := false], s[1..], rest);
        assert forall k :: 0 <= k < |s[1..]| ==> s[1..][k] == s[k + 1];
      }
    }
  }

  lemma {:induction false} TakeConcat(used: seq<bool>, s: seq<int>, rest: seq<int>)
    requires forall k :: 0 <= k < |s| ==> InRange(s[k], |used|)
    requires forall k :: 0 <= k < |rest| ==> InRange(rest[k], |used|)
    ensures forall k :: 0 <= k < |s + rest| ==> InRange((s + rest)[k], |used|)
    ensures Take(used, s + rest) == Take(Take(used, s), rest)
    decreases |s|
  {
    if s == [] {
      assert s + rest == rest;
    } else {
      var k0 := Slot(s[0], |used|);
      assert (s + rest)[0] == s[0] && (s + rest)[1..] == s[1..] + rest;
      assert forall k :: 0 <= k < |s[1..]| ==> s[1..][k] == s[k + 1];
      TakeConcat(used[k0 := false], s[1..], rest);
    }
  }

  /**
   * The whole scan: the flag survives exactly when it was set and all the
   * chosen elements together are fresh; then every one of them is taken.
   */
  lemma {:induction false} ScanMeaning(used: seq<bool>, sets: seq<seq<int>>, temp: bool)
    requires Scan(used, sets, temp).Some?
    ensures var st := Scan(used, sets, temp).value;
      && (st.1 <==> temp && Fresh(used, Flatten(sets)))
      && (st.1 ==>
            && (forall k :: 0 <= k < |Flatten(sets)| ==> InRange(Flatten(sets)[k], |used|))
            && st.0 == Take(used, Flatten(sets)))
    decreases |sets|
  {
    if sets != [] {
      var s := sets[0];
      var st1 := ScanSet(used, s, temp).value;
      ScanSetMeaning(used, s, temp);
      ScanMeaning(st1.0, sets[1..], st1.1);
      FreshConcat(used, s, Flatten(sets[1..]));
      var st := Scan(used, sets, temp).value;
      if st.1 {
        TakeConcat(used, s, Flatten(sets[1..]));
      }
    }
  }

  /** An IndexError can only come from an element outside the universe. */
  lemma {:induction false} ScanDefined(used: seq<bool>, sets: seq<seq<int>>, temp: bool)
    requires WithinUniverse(Flatten(sets), |used|)
    ensures Scan(used, sets, temp).Some?
    decreases |sets|
  {
    if sets != [] {
      assert Flatten(sets) == sets[0] + Flatten(sets[1..]);
      ScanSetDefined(used, sets[0], Flatten(sets[1..]), temp);
      var st := ScanSet(used, sets[0], temp).value;
      assert forall k :: 0 <= k < |Flatten(sets[1..])| ==>
        Flatten(sets[1..])[k] == Flatten(sets)[|sets[0]| + k];
      ScanDefined(st.0, sets[1..], st.1);
    }
  }

  lemma {:induction false} ScanSetDefined(used: seq<bool>, s: seq<int>, rest: seq<int>, temp: bool)
    requires forall k :: 0 <= k < |s + rest| ==> InRange((s + rest)[k], |used|)
    ensures ScanSet(used, s, temp).Some?
    decreases |s|
  {
    if s != [] {
      assert (s + rest)[0] == s[0] && (s + rest)[1..] == s[1..] + rest;
      ScanSetDefined(used[Slot(s[0], |used|) := false], s[1..], rest, temp);
    }
  }

  // ---------------------------------------------------------------------
  // What testCostFun computes
  // ---------------------------------------------------------------------

  /** The sets the marked indices pick, when every one of them is an index of the list. */
  function Picked(marked: seq<nat>, sets: seq<seq<int>>): (chosen: seq<seq<int>>)
    requires forall k :: 0 <= k < |marked| ==> marked[k] < |sets|
    ensures |chosen| == |marked|
  {
    seq(|marked|, k requires 0 <= k < |marked| => sets[marked[k]])
  }

  /** An index past the list of sets raises before any element is looked at. */
  lemma PackingCostIndexError(state: string, sets: seq<seq<int>>, n: nat)
    requires exists k :: 0 <= k < |MarkedIndices(state)| && MarkedIndices(state)[k] >= |sets|
    ensures PackingCost(state, sets, n).None?
  {
    ChosenSetsMeaning(MarkedIndices(state), sets);
  }

  /** When the indices all name sets, the comprehension picks exactly those. */
  lemma {:induction false} PickedChosen(marked: seq<nat>, sets: seq<seq<int>>)
    requires forall k :: 0 <= k < |marked| ==> marked[k] < |sets|
    ensures ChosenSets(marked, sets) == Some(Picked(marked, sets))
    decreases |marked|
  {
    if marked != [] {
      var rest := marked[1..];
      assert forall k :: 0 <= k < |rest| ==> rest[k] == marked[k + 1];
      PickedChosen(rest, sets);
      assert [sets[marked[0]]] + Picked(rest, sets) == Picked(marked, sets);
    }
  }

  /**
   * With every marked index naming a set, the cost is defined when all the
   * picked elements lie in the universe.
   */
  lemma PackingCostDefined(state: string, sets: seq<seq<int>>, n: nat)
    requires forall k :: 0 <= k < |MarkedIndices(state)| ==> MarkedIndices(state)[k] < |sets|
    requires WithinUniverse(Flatten(Picked(MarkedIndices(state), sets)), n)
    ensures PackingCost(state, sets, n).Some?
  {
    var chosen := Picked(MarkedIndices(state), sets);
    PickedChosen(MarkedIndices(state), sets);
    ScanDefined(AllFree(n), chosen, true);
  }

  /**
   * With every marked index naming a set, a defined cost is minus the
   * number of sets picked if their elements are pairwise distinct positions
   * of the universe, and 0 otherwise.
   */
  lemma PackingCostMeaning(state: string, sets: seq<seq<int>>, n: nat)
    requires forall k :: 0 <= k < |MarkedIndices(state)| ==> MarkedIndices(state)[k] < |sets|
    requires PackingCost(state, sets, n).Some?
    ensures var m := MarkedIndices(state);
      PackingCost(state, sets, n).value == if Distinct(AllFree(n), Flatten(Picked(m, sets))) then -|m| else 0
  {
    var m := MarkedIndices(state);
    var chosen := Picked(m, sets);
    PickedChosen(MarkedIndices(state), sets);
    ScanMeaning(AllFree(n), chosen, true);
    FreshIsDistinct(AllFree(n), Flatten(chosen));
  }

  /**
   * For a universe `range(n)` whose sets hold its own elements, and a state
   * whose every marked index names a set, the cost is defined, and it is
   * minus the number of sets picked exactly when no element occurs twice
   * among them.
   */
  lemma PackingCostOnUniverse(state: string, sets: seq<seq<int>>, n: nat)
    requires forall k :: 0 <= k < |MarkedIndices(state)| ==> MarkedIndices(state)[k] < |sets|
    requires forall i, k :: 0 <= i < |sets| && 0 <= k < |sets[i]| ==> 0 <= sets[i][k] < n
    ensures var m := MarkedIndices(state);
      var xs := Flatten(Picked(m, sets));
      PackingCost(state, sets, n) ==
        Some(if forall a, b :: 0 <= a < b < |xs| ==> xs[a] != xs[b] then -|m| else 0)
  {
    var m := MarkedIndices(state);
    var chosen := Picked(m, sets);
    var xs := Flatten(chosen);
    FlattenWithin(chosen, n);
    PackingCostDefined(state, sets, n);
    PackingCostMeaning(state, sets, n);
  }

  lemma {:induction false} FlattenWithin(chosen: seq<seq<int>>, n: nat)
    requires forall i, k :: 0 <= i < |chosen| && 0 <= k < |chosen[i]| ==> 0 <= chosen[i][k] < n
    ensures forall k :: 0 <= k < |Flatten(chosen)| ==> 0 <= Flatten(chosen)[k] < n
    decreases |chosen|
  {
    if chosen != [] {
      FlattenWithin(chosen[1..], n);
      var xs := Flatten(chosen);
      forall k | 0 <= k < |xs|
        ensures 0 <= xs[k] < n
      {
        if k >= |chosen[0]| {
          assert xs[k] == Flatten(chosen[1..])[k - |chosen[0]|];
        }
      }
    }
  }
}
