/**
 * The result dictionary of the MaxSat QAOA example: how often each literal
 * occurs across the decoded clauses. The dictionary keeps its keys in the
 * order they were first inserted, as a Python `dict` does.
 */
module MaxSat {
  import opened Marked

  /** A dictionary with insertion order: the keys in order, and the value of each. The keys are whatever the clause decoder yields. */
  datatype Dict<K> = Dict(order: seq<K>, values: map<K, nat>)

  /** The keys of a Python `dict`: each once, and exactly those with a value. */
  predicate WellFormed<K(==)>(d: Dict<K>) {
    && (forall i, j :: 0 <= i < j < |d.order| ==> d.order[i] != d.order[j])
    && (forall k :: k in d.values ==> k in d.order)
    && (forall k :: k in d.order ==> k in d.values)
  }

  /** The keys in the order a left-to-right scan of `xs` first meets them. */
  function FirstOccurrences<K(==)>(xs: seq<K>): seq<K> {
    if xs == [] then []
    else
      var o := FirstOccurrences(xs[..|xs| - 1]);
      if xs[|xs| - 1] in o then o else o + [xs[|xs| - 1]]
  }

  /** The sum of the values of the keys `order` lists. */
  function SumOver<K(==)>(order: seq<K>, m: map<K, nat>): nat {
    if order == [] then 0
    else
      var k := order[|order| - 1];
      SumOver(order[..|order| - 1], m) + (if k in m then m[k] else 0)
  }

  /** `resDict[x] += 1` for a key already present, `resDict[x] = 1` otherwise. */
  function Bump<K(==)>(d: Dict<K>, x: K): Dict<K> {
    if x in d.values then Dict(d.order, d.values[x := d.values[x] + 1])
    else Dict(d.order + [x], d.values[x := 1])
  }

  /** The dictionary the loop builds from the entries `xs`, one at a time. */
  function Tally<K(==)>(xs: seq<K>): Dict<K> {
    if xs == [] then Dict([], map[]) else Bump(Tally(xs[..|xs| - 1]), xs[|xs| - 1])
  }

  /**
   * The nested loop of the example over `decodedClauses`: a literal seen
   * before has its count incremented, a new one is inserted with count 1.
   */
  method CountOccurrences<K(==)>(decodedClauses: seq<seq<K>>) returns (resDict: Dict<K>)
    ensures resDict == Tally(Flatten(decodedClauses))
  {
    resDict := Dict([], map[]);
    ghost var seen: seq<K> := [];
    var i := 0;
    while i < |decodedClauses|
      invariant 0 <= i <= |decodedClauses|
      invariant seen == Flatten(decodedClauses[..i])
      invariant resDict == Tally(seen)
    {
      var index := decodedClauses[i];
      var j := 0;
      while j < |index|
        invariant 0 <= j <= |index|
        invariant seen == Flatten(decodedClauses[..i]) + index[..j]
        invariant resDict == Tally(seen)
      {
        var index2 := index[j];
        ghost var before := resDict;
        if index2 in resDict.values {
          resDict := Dict(resDict.order, resDict.values[index2 := resDict.values[index2] + 1]);
        } else {
          resDict := Dict(resDict.order + [index2], resDict.values[index2 := 1]);
        }
        assert resDict == Bump(before, index2);
        TallySnoc(seen, index2);
        PrefixSnoc(Flatten(decodedClauses[..i]), index, j);
        seen := seen + [index2];
        j := j + 1;
      }
      assert index[..j] == index;
      assert decodedClauses[..i + 1] == decodedClauses[..i] + [index];
      FlattenSnoc(decodedClauses[..i], index);
      i := i + 1;
    }
    assert decodedClauses[..i] == decodedClauses;
  }

  /**
   * What `CountOccurrences` returns: a well-formed `dict` whose keys are
   * exactly the literals occurring in the clauses, in the order they first
   * occur, each mapped to its number of occurrences, the counts summing to
   * the number of clause entries.
   */
  lemma OccurrenceCounts<K>(decodedClauses: seq<seq<K>>)
    ensures var d := Tally(Flatten(decodedClauses));
      var xs := Flatten(decodedClauses);
      && WellFormed(d)
      && (forall k :: k in d.values <==> k in xs)
      && (forall k :: k in d.values ==> d.values[k] == multiset(xs)[k])
      && d.order == FirstOccurrences(xs)
      && SumOver(d.order, d.values) == |xs|
  {
    TallyMeaning(Flatten(decodedClauses));
  }

  lemma PrefixSnoc<K>(done: seq<K>, xs: seq<K>, j: nat)
    requires j < |xs|
    ensures done + xs[..j] + [xs[j]] == done + xs[..j + 1]
  {
    assert xs[..j + 1] == xs[..j] + [xs[j]];
  }

  lemma TallySnoc<K>(seen: seq<K>, x: K)
    ensures Tally(seen + [x]) == Bump(Tally(seen), x)
  {
    var s := seen + [x];
    assert s[..|s| - 1] == seen;
  }

  /**
   * The dictionary built from `xs` is a well-formed `dict` whose keys are the
   * entries in order of first occurrence, each counted, the counts summing
   * to the number of entries.
   */
  lemma {:induction false} TallyMeaning<K>(xs: seq<K>)
    ensures Counted(Tally(xs), xs)
    ensures Tally(xs).order == FirstOccurrences(xs)
    decreases |xs|
  {
    if xs != [] {
      var init := xs[..|xs| - 1];
      var x := xs[|xs| - 1];
      assert xs == init + [x];
      TallyMeaning(init);
      var d := Tally(init);
      if x in d.values {
        CountAgain(d, init, x);
      } else {
        CountFirst(d, init, x);
      }
      OrderSnoc(init, x);
    }
  }

  /** `d` is the dictionary the loop has built from the entries `seen`. */
  predicate Counted<K(==)>(d: Dict<K>, seen: seq<K>) {
    && WellFormed(d)
    && KeysOf(d.values, seen)
    && CountsOf(d.values, seen)
    && SumOver(d.order, d.values) == |seen|
  }

  /** The keys are exactly the entries. */
  predicate KeysOf<K(==)>(m: map<K, nat>, seen: seq<K>) {
    && (forall k :: k in m ==> k in seen)
    && (forall k :: k in seen ==> k in m)
  }

  /** Each key maps to the number of times it occurs. */
  predicate CountsOf<K(==)>(m: map<K, nat>, seen: seq<K>) {
    forall k :: k in m ==> m[k] == multiset(seen)[k]
  }

  /** A literal seen before: its count goes up by one, and the key order stays. */
  lemma CountAgain<K>(d: Dict<K>, seen: seq<K>, x: K)
    requires Counted(d, seen) && x in d.values
    ensures Counted(Dict(d.order, d.values[x := d.values[x] + 1]), seen + [x])
  {
    var m := d.values[x := d.values[x] + 1];
    KeysSnoc(d.values, m, seen, x);
    CountsSnoc(d.values, m, seen, x);
    SumOverIncrement(d.order, d.values, x);
  }

  /** A new literal: it is inserted last with count 1. */
  lemma CountFirst<K>(d: Dict<K>, seen: seq<K>, x: K)
    requires Counted(d, seen) && x !in d.values
    ensures Counted(Dict(d.order + [x], d.values[x := 1]), seen + [x])
  {
    var m := d.values[x := 1];
    var d' := Dict(d.order + [x], m);
    KeysSnoc(d.values, m, seen, x);
    CountsSnoc(d.values, m, seen, x);
    WellFormedSnoc(d, x);
    SumOverFrame(d.order, d.values, m, x);
    SumOverSnoc(d.order, m, x);
    assert SumOver(d'.order, d'.values) == |seen + [x]|;
  }

  /** Inserting a new key last keeps the keys distinct and in step with the values. */
  lemma WellFormedSnoc<K>(d: Dict<K>, x: K)
    requires WellFormed(d) && x !in d.values
    ensures WellFormed(Dict(d.order + [x], d.values[x := 1]))
  {
    DistinctSnoc(d.order, x);
  }

  /** Taking `x` as a key keeps the keys those of the entries. */
  lemma KeysSnoc<K>(m: map<K, nat>, m': map<K, nat>, seen: seq<K>, x: K)
    requires KeysOf(m, seen)
    requires m'.Keys == m.Keys + {x}
    ensures KeysOf(m', seen + [x])
  {
  }

  /** Counting `x` once more keeps every count right. */
  lemma CountsSnoc<K>(m: map<K, nat>, m': map<K, nat>, seen: seq<K>, x: K)
    requires CountsOf(m, seen) && KeysOf(m, seen)
    requires m' == m[x := if x in m then m[x] + 1 else 1]
    ensures CountsOf(m', seen + [x])
  {
    assert multiset(seen + [x]) == multiset(seen) + multiset{x};
    assert x !in m ==> multiset(seen)[x] == 0;
  }

  lemma DistinctSnoc<K>(order: seq<K>, x: K)
    requires forall i, j :: 0 <= i < j < |order| ==> order[i] != order[j]
    requires x !in order
    ensures var o := order + [x]; forall i, j :: 0 <= i < j < |o| ==> o[i] != o[j]
  {
  }

  lemma SumOverSnoc<K>(order: seq<K>, m: map<K, nat>, x: K)
    requires x in m
    ensures SumOver(order + [x], m) == SumOver(order, m) + m[x]
  {
    assert (order + [x])[..|order|] == order;
  }

  /** Appending an entry appends it to the key order unless it is already a key. */
  lemma OrderSnoc<K>(seen: seq<K>, x: K)
    ensures FirstOccurrences(seen + [x]) ==
      if x in FirstOccurrences(seen) then FirstOccurrences(seen) else FirstOccurrences(seen) + [x]
  {
    var s := seen + [x];
    assert s[..|s| - 1] == seen;
  }

  /** Incrementing the value of a key listed once adds one to the sum. */
  lemma {:induction false} SumOverIncrement<K>(order: seq<K>, m: map<K, nat>, x: K)
    requires x in m && x in order
    requires forall i, j :: 0 <= i < j < |order| ==> order[i] != order[j]
    ensures SumOver(order, m[x := m[x] + 1]) == SumOver(order, m) + 1
    decreases |order|
  {
    var init := order[..|order| - 1];
    var last := order[|order| - 1];
    if last == x {
      assert x !in init by {
        forall i | 0 <= i < |init|
          ensures init[i] != x
        {
          assert init[i] == order[i];
        }
      }
      SumOverFrame(init, m, m[x := m[x] + 1], x);
    } else {
      assert x in init by {
        var i :| 0 <= i < |order| && order[i] == x;
        assert init[i] == x;
      }
      SumOverIncrement(init, m, x);
    }
  }

  /** Changing the value of a key not listed leaves the sum as it is. */
  lemma {:induction false} SumOverFrame<K>(order: seq<K>, m: map<K, nat>, m': map<K, nat>, x: K)
    requires x !in order
    requires forall k :: k != x ==> (k in m <==> k in m') && (k in m ==> m[k] == m'[k])
    ensures SumOver(order, m') == SumOver(order, m)
    decreases |order|
  {
    if order != [] {
      var init := order[..|order| - 1];
      assert x !in init by {
        forall i | 0 <= i < |init|
          ensures init[i] != x
        {
          assert init[i] == order[i];
        }
      }
      SumOverFrame(init, m, m', x);
    }
  }

  /**
   * The reference reading of the key order: each entry once, exactly the
   * entries of `xs`, and of two keys the one first met earlier comes first.
   */
  lemma {:induction false} FirstOccurrencesMeaning<K>(xs: seq<K>)
    ensures var o := FirstOccurrences(xs);
      && (forall i, j :: 0 <= i < j < |o| ==> o[i] != o[j])
      && (forall k :: k in o <==> k in xs)
      && (forall i, j :: 0 <= i < j < |o| ==> FirstIndex(xs, o[i]) < FirstIndex(xs, o[j]))
    decreases |xs|
  {
    if xs != [] {
      var init := xs[..|xs| - 1];
      var last := xs[|xs| - 1];
      FirstOccurrencesMeaning(init);
      var oi := FirstOccurrences(init);
      var o := FirstOccurrences(xs);
      assert forall k :: k in xs <==> k in init || k == last;
      forall k | k in init
        ensures FirstIndex(xs, k) == FirstIndex(init, k)
      {
        var p := FirstIndex(init, k);
        assert xs[..p] == init[..p];
        FirstIndexUnique(xs, k, p);
      }
      if last !in init {
        assert xs[..|init|] == init;
        FirstIndexUnique(xs, last, |init|);
      }
      forall i, j | 0 <= i < j < |o|
        ensures FirstIndex(xs, o[i]) < FirstIndex(xs, o[j])
      {
        assert o[i] == oi[i] && oi[i] in oi;
        if j < |oi| {
          assert o[j] == oi[j] && oi[j] in oi;
        } else {
          assert o[j] == last && last !in init;
        }
      }
    }
  }

  /** The position where `k` first occurs in `xs`. */
  function FirstIndex<K(==)>(xs: seq<K>, k: K): (p: nat)
    requires k in xs
    ensures p < |xs| && xs[p] == k && k !in xs[..p]
  {
    if xs[0] == k then 0
    else
      var p := FirstIndex(xs[1..], k);
      assert xs[..p + 1] == [xs[0]] + xs[1..][..p];
      p + 1
  }

  /** Only one position holds `k` with no `k` before it. */
  lemma FirstIndexUnique<K>(xs: seq<K>, k: K, q: nat)
    requires q < |xs| && xs[q] == k && k !in xs[..q]
    ensures FirstIndex(xs, k) == q
  {
  }
}
