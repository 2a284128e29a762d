/**
 * Loops with a dynamic bound (src/qrisp/jasp/control_flow/jrange_iterator.py).
 *
 * `jrange(*args)` returns Python's `range` when every bound is a host int.
 * Otherwise it returns a `JRangeIterator`, which traces the loop body exactly
 * twice: the first advance opens an iteration scope and yields the counter,
 * the second steps the counter, closes the scope, opens a fresh one and yields
 * again, the third steps the counter, closes the scope and ends the loop. The
 * recorded scopes are checked afterwards (both trials must record the same
 * operations; no value made inside the loop may be used after it) and then
 * compiled; the compilation itself is not part of this model.
 */
module JRangeLoop {
  import opened Wrappers

  // ---------------------------------------------------------------------
  // Loop arguments
  // ---------------------------------------------------------------------

  /** An argument of `jrange`: a host int, or a traced value standing for a runtime integer. */
  datatype Arg = Concrete(n: int) | Traced(v: int) {
    function Value(): int {
      match this
      case Concrete(n) => n
      case Traced(v) => v
    }
  }

  /**
   * The normalised loop: the counter always starts out as `stop - start`
   * (the plain `stop` when there is no start), and `start` is an offset added
   * only to the values handed to the loop body.
   */
  datatype LoopSpec = LoopSpec(start: Option<int>, stop: int, step: int) {
    /** The value handed to the loop body when the counter is `c`. */
    function Yielded(c: int): int {
      match start
      case None => c
      case Some(s) => c + s
    }
  }

  /** The argument normalisation of `JRangeIterator.__init__` for 1, 2 or 3 arguments. */
  function Normalize(args: seq<int>): (spec: LoopSpec)
    requires 1 <= |args| <= 3
    ensures spec.start.None? <==> |args| == 1
    ensures spec.start.Some? ==> spec.start.value == args[0]
    ensures spec.step == (if |args| == 3 then args[2] else 1)
    ensures spec.Yielded(spec.stop) == (if |args| == 1 then args[0] else args[1])
  {
    if |args| == 1 then LoopSpec(None, args[0], 1)
    else LoopSpec(Some(args[0]), args[1] - args[0], if |args| == 3 then args[2] else 1)
  }

  // ---------------------------------------------------------------------
  // The iteration scope recorder
  // ---------------------------------------------------------------------

  datatype ScopeEvent = Enter | Exit

  /** Number of scopes left open by a log of scope events. */
  function Depth(events: seq<ScopeEvent>): int {
    if events == [] then 0
    else Depth(events[..|events| - 1]) + (if events[|events| - 1] == Enter then 1 else -1)
  }

  function EnterCount(events: seq<ScopeEvent>): nat {
    if events == [] then 0
    else EnterCount(events[..|events| - 1]) + (if events[|events| - 1] == Enter then 1 else 0)
  }

  /** Along the whole log, at most one scope is open and no scope is closed that was not open. */
  ghost predicate NeverNested(events: seq<ScopeEvent>) {
    forall k :: 0 <= k <= |events| ==> 0 <= Depth(events[..k]) <= 1
  }

  /** One recorded operation: its primitive and the abstract values it reads and produces. */
  datatype Op = Op(kind: string, inputs: seq<nat>, outputs: seq<nat>)

  /**
   * The scope that records a trial (JIterationEnvironment, whose code is not
   * part of this model): a log of enter and exit events and one trace of
   * recorded operations per entered scope.
   */
  class IterationEnv {
    var events: seq<ScopeEvent>
    var traces: seq<seq<Op>>
    var active: bool

    ghost predicate Valid()
      reads this
    {
      && Depth(events) == (if active then 1 else 0)
      && NeverNested(events)
      && |traces| == EnterCount(events)
      && (active ==> |traces| > 0)
    }

    constructor ()
      ensures Valid() && events == [] && traces == [] && !active
    {
      events, traces, active := [], [], false;
    }

    /** `__enter__`: opens a scope with an empty trace. */
    method Enter()
      requires Valid() && !active
      modifies this
      ensures Valid() && active
      ensures events == old(events) + [ScopeEvent.Enter] && traces == old(traces) + [[]]
    {
      LogExtended(events, ScopeEvent.Enter);
      events := events + [ScopeEvent.Enter];
      traces := traces + [[]];
      active := true;
      PrefixesBounded(old(events), ScopeEvent.Enter);
    }

    /** `__exit__`: closes the open scope; its trace is kept for the loop check. */
    method Exit()
      requires Valid() && active
      modifies this
      ensures Valid() && !active
      ensures events == old(events) + [ScopeEvent.Exit] && traces == old(traces)
    {
      LogExtended(events, ScopeEvent.Exit);
      events := events + [ScopeEvent.Exit];
      active := false;
      PrefixesBounded(old(events), ScopeEvent.Exit);
    }

    /** An operation issued by the loop body while the scope is open lands in the newest trace. */
    method Record(op: Op)
      requires Valid() && active
      modifies this
      ensures Valid() && active && events == old(events)
      ensures |traces| == |old(traces)|
      ensures traces == old(traces)[..|traces| - 1] + [old(traces)[|traces| - 1] + [op]]
    {
      var n := |traces|;
      traces := traces[..n - 1] + [traces[n - 1] + [op]];
    }

    /** The loop body: every operation in `ops`, in order, into the open scope. */
    method RecordAll(ops: seq<Op>)
      requires Valid() && active
      modifies this
      ensures Valid() && active && events == old(events)
      ensures |traces| == |old(traces)|
      ensures traces == old(traces)[..|traces| - 1] + [old(traces)[|traces| - 1] + ops]
    {
      ghost var t0, n := traces, |traces|;
      assert t0[n - 1] + ops[..0] == t0[n - 1] && traces == t0[..n - 1] + [t0[n - 1]];
      var i := 0;
      while i < |ops|
        invariant 0 <= i <= |ops|
        invariant Valid() && active && events == old(events)
        invariant |traces| == n
        invariant traces == t0[..n - 1] + [t0[n - 1] + ops[..i]]
      {
        ghost var prev := traces;
        Record(ops[i]);
        assert prev[..n - 1] == t0[..n - 1] && prev[n - 1] == t0[n - 1] + ops[..i];
        assert ops[..i + 1] == ops[..i] + [ops[i]];
        assert (t0[n - 1] + ops[..i]) + [ops[i]] == t0[n - 1] + ops[..i + 1];
        i := i + 1;
      }
      assert ops[..i] == ops;
    }
  }

  /** Appending an event that leaves the depth at 0 or 1 keeps the log never nested. */
  lemma PrefixesBounded(events: seq<ScopeEvent>, e: ScopeEvent)
    requires NeverNested(events)
    requires 0 <= Depth(events + [e]) <= 1
    ensures NeverNested(events + [e])
  {
    var log := events + [e];
    forall k | 0 <= k <= |log|
      ensures 0 <= Depth(log[..k]) <= 1
    {
      if k <= |events| {
        assert log[..k] == events[..k];
      } else {
        assert log[..k] == log;
      }
    }
  }

  /** Appending one event moves the depth by one and keeps every earlier prefix. */
  lemma LogExtended(events: seq<ScopeEvent>, e: ScopeEvent)
    ensures Depth(events + [e]) == Depth(events) + (if e == Enter then 1 else -1)
    ensures EnterCount(events + [e]) == EnterCount(events) + (if e == Enter then 1 else 0)
    ensures forall k :: 0 <= k <= |events| ==> (events + [e])[..k] == events[..k]
  {
    assert (events + [e])[..|events|] == events;
  }

  // ---------------------------------------------------------------------
  // The dynamic-bound iterator
  // ---------------------------------------------------------------------

  /**
   * What one call of `__next__` does: yield a value, raise StopIteration,
   * raise AttributeError (an attribute it reads was never set), or (past the
   * end) return None.
   */
  datatype Advance = Yield(value: int) | StopIteration | AttributeError | NoValue

  class JRangeIterator {
    var start: Option<int>
    var stop: int
    var step: int
    /** Whether `__init__` set `start`, `stop` and `step`: it does so only for 1, 2 or 3 arguments. */
    var bounded: bool
    /** The advance count; None until `__iter__` first sets it. */
    var iteration: Option<nat>
    var env: IterationEnv?

    /** Between the first and the third advance a scope of `env` is open. */
    ghost predicate Valid()
      reads this, env
    {
      (iteration == Some(1) || iteration == Some(2)) ==> env != null && env.Valid() && env.active
    }

    function Spec(): LoopSpec
      reads this
    {
      LoopSpec(start, stop, step)
    }

    /**
     * `__init__(*args)`: the bounds are set for 1, 2 or 3 arguments, and for
     * any other count nothing is set. The advance count is left unset.
     */
    constructor (args: seq<int>)
      ensures Valid() && iteration == None && env == null
      ensures bounded <==> 1 <= |args| <= 3
      ensures bounded ==> Spec() == Normalize(args)
    {
      if |args| == 1 {
        start, stop, step := None, args[0], 1;
      } else if |args| == 2 {
        start, stop, step := Some(args[0]), args[1] - args[0], 1;
      } else if |args| == 3 {
        start, stop, step := Some(args[0]), args[1] - args[0], args[2];
      } else {
        start, stop, step := None, 0, 0;
      }
      bounded := 1 <= |args| <= 3;
      iteration, env := None, null;
    }

    /** `__iter__`: sets the advance count to 0 and returns the iterator itself. */
    method Iter() returns (self: JRangeIterator)
      requires Valid()
      modifies this`iteration
      ensures self == this && iteration == Some(0) && Valid()
    {
      iteration := Some(0);
      self := this;
    }

    /**
     * `__next__`: the three-advance state machine. Without `__iter__` the
     * count is unset and the first statement raises; without bounds the
     * first advance raises once its scope is open, and the next two raise
     * at once.
     */
    method Next() returns (r: Advance)
      requires Valid()
      modifies this, env
      ensures Valid()
      ensures start == old(start) && step == old(step) && bounded == old(bounded)
      ensures old(iteration) == None ==>
        && iteration == None && env == old(env) && (env != null ==> unchanged(env))
        && stop == old(stop) && r == AttributeError
      ensures old(iteration) != None ==> iteration == Some(old(iteration).value + 1)
      ensures old(iteration) == Some(0) ==>
        && env != null && fresh(env) && env.active
        && env.events == [Enter] && env.traces == [[]]
        && stop == old(stop) && r == (if bounded then Yield(Spec().Yielded(stop)) else AttributeError)
        && (old(env) != null ==> unchanged(old(env)))
      ensures old(iteration) == Some(1) && bounded ==>
        && env == old(env) && env.active
        && env.events == old(env.events) + [Exit, Enter] && env.traces == old(env.traces) + [[]]
        && stop == old(stop) + step && r == Yield(Spec().Yielded(stop))
      ensures old(iteration) == Some(2) && bounded ==>
        && env == old(env) && env.Valid() && !env.active
        && env.events == old(env.events) + [Exit] && env.traces == old(env.traces)
        && stop == old(stop) + step && r == StopIteration
      ensures (old(iteration) == Some(1) || old(iteration) == Some(2)) && !bounded ==>
        && env == old(env) && unchanged(env) && stop == old(stop) && r == AttributeError
      ensures old(iteration) != None && old(iteration).value > 2 ==>
        && env == old(env) && (env != null ==> unchanged(env))
        && stop == old(stop) && r == NoValue
    {
      if iteration == None {
        return AttributeError;
      }
      iteration := Some(iteration.value + 1);
      if iteration == Some(1) {
        env := new IterationEnv();
        env.Enter();
        r := if bounded then Yield(Spec().Yielded(stop)) else AttributeError;
      } else if iteration == Some(2) || iteration == Some(3) {
        if !bounded {
          // `self.stop += self.step` reads attributes that were never set.
          return AttributeError;
        }
        stop := stop + step;
        env.Exit();
        if iteration == Some(2) {
          env.Enter();
          // The source adds 0 here to obtain a fresh tracer; the number is unchanged.
          stop := stop + 0;
          r := Yield(Spec().Yielded(stop));
        } else {
          r := StopIteration;
        }
      } else {
        r := NoValue;
      }
    }
  }

  /**
   * `for i in it: <body>` over a traced iterator: `__iter__`, then advances
   * until StopIteration. The body records `body1` in the first trial and
   * `body2` in the second; `after` is what the program records once the loop
   * is over. The verdict is the loop check on the two traces, or
   * AttributeError when the iterator has no bounds: then the first advance
   * raises inside its scope and the body never runs.
   */
  method TraceLoop(it: JRangeIterator, body1: seq<Op>, body2: seq<Op>, after: seq<Op>)
    returns (i1: int, i2: int, verdict: Result<(), LoopError>)
    requires it.Valid()
    modifies it, it.env
    ensures it.env != null && fresh(it.env)
    ensures it.start == old(it.start) && it.step == old(it.step) && it.bounded == old(it.bounded)
    ensures !it.bounded ==>
      && it.env.active && it.env.events == [Enter] && it.env.traces == [[]]
      && it.iteration == Some(1) && it.stop == old(it.stop) && verdict == Err(RaisedAttributeError)
    ensures it.bounded ==>
      && !it.env.active && it.env.events == [Enter, Exit, Enter, Exit]
      && Depth(it.env.events) == 0 && NeverNested(it.env.events)
      && it.env.traces == [body1, body2] && it.iteration == Some(3)
      && i1 == it.Spec().Yielded(old(it.stop)) && i2 == i1 + it.step
      && it.stop == old(it.stop) + 2 * it.step
      && verdict == Validate(body1, body2, after)
  {
    var self := it.Iter();
    var a1 := it.Next();
    if !it.bounded {
      return 0, 0, Err(RaisedAttributeError);
    }
    i1 := a1.value;
    ghost var before := it.env.traces;
    it.env.RecordAll(body1);
    assert before[..0] == [] && before[0] + body1 == body1;
    assert it.env.traces == [body1];
    var a2 := it.Next();
    i2 := a2.value;
    assert it.env.traces == [body1, []];
    before := it.env.traces;
    it.env.RecordAll(body2);
    assert before[..1] == [body1] && before[1] + body2 == body2;
    assert it.env.traces == [body1, body2];
    var a3 := it.Next();
    assert a3 == StopIteration;
    verdict := Validate(it.env.traces[0], it.env.traces[1], after);
  }

  /** `JRangeIterator(*args).__next__()` without `iter()` first: the advance count was never set. */
  method NextWithoutIter(args: seq<int>) returns (r: Advance)
    ensures r == AttributeError
  {
    var it := new JRangeIterator(args);
    r := it.Next();
  }

  /** With a wrong number of arguments the first advance of a `for` loop raises, after opening its scope. */
  method UnboundedFirstAdvance(args: seq<int>) returns (r: Advance, events: seq<ScopeEvent>)
    requires !(1 <= |args| <= 3)
    ensures r == AttributeError && events == [Enter]
  {
    var it := new JRangeIterator(args);
    var self := it.Iter();
    r := it.Next();
    events := it.env.events;
  }

  // ---------------------------------------------------------------------
  // The loop check
  // ---------------------------------------------------------------------

  datatype LoopError =
    | SemanticsChanged(index: nat)   // "Jax semantics changed during jrange iteration"
    | ExternalCarry(value: nat)      // "Found jrange with external carry value"
    | RaisedAttributeError           // `__next__` read a bound `__init__` never set

  /** Two operations of the same primitive on the same number of operands. */
  predicate SameShape(a: Op, b: Op) {
    a.kind == b.kind && |a.inputs| == |b.inputs| && |a.outputs| == |b.outputs|
  }

  /** Position of the first operation where two traces differ in shape (or where one ends first). */
  function FirstMismatch(t1: seq<Op>, t2: seq<Op>): (r: Option<nat>)
    ensures r.None? <==> |t1| == |t2| && forall k :: 0 <= k < |t1| ==> SameShape(t1[k], t2[k])
    ensures r.Some? ==>
      && r.value <= |t1| && r.value <= |t2|
      && (forall k :: 0 <= k < r.value ==> SameShape(t1[k], t2[k]))
      && (r.value < |t1| && r.value < |t2| ==> !SameShape(t1[r.value], t2[r.value]))
  {
    if t1 == [] && t2 == [] then None
    else if t1 == [] || t2 == [] || !SameShape(t1[0], t2[0]) then Some(0)
    else
      match FirstMismatch(t1[1..], t2[1..])
      case None => None
      case Some(i) => Some(i + 1)
  }

  /** The values produced by the operations of a trace. */
  function Produced(t: seq<Op>): (vs: set<nat>)
    ensures forall k, j :: 0 <= k < |t| && 0 <= j < |t[k].outputs| ==> t[k].outputs[j] in vs
    ensures forall v :: v in vs ==> exists k, j :: 0 <= k < |t| && 0 <= j < |t[k].outputs| && t[k].outputs[j] == v
  {
    if t == [] then {}
    else
      var rest := Produced(t[..|t| - 1]);
      var last := t[|t| - 1];
      var vs := rest + set j | 0 <= j < |last.outputs| :: last.outputs[j];
      assert forall k :: 0 <= k < |t| - 1 ==> t[..|t| - 1][k] == t[k];
      vs
  }

  /** The first value read by the operations of `after` that lies in `inside`, if any. */
  function FirstCarry(after: seq<Op>, inside: set<nat>): (r: Option<nat>)
    ensures r.None? <==> forall k, j :: 0 <= k < |after| && 0 <= j < |after[k].inputs| ==> after[k].inputs[j] !in inside
    ensures r.Some? ==> r.value in inside && exists k, j :: CarriedFirstAt(after, inside, k, j) && after[k].inputs[j] == r.value
  {
    if after == [] then None
    else
      var hit := FirstIn(after[0].inputs, inside);
      if hit < |after[0].inputs| then
        assert CarriedFirstAt(after, inside, 0, hit);
        Some(after[0].inputs[hit])
      else
        var rest := FirstCarry(after[1..], inside);
        assert forall k :: 1 <= k < |after| ==> after[1..][k - 1] == after[k];
        match rest
        case None => None
        case Some(v) =>
          assert exists k, j :: CarriedFirstAt(after, inside, k, j) && after[k].inputs[j] == v by {
            var k', j :| CarriedFirstAt(after[1..], inside, k', j) && after[1..][k'].inputs[j] == v;
            assert CarriedFirstAt(after, inside, k' + 1, j);
          }
          Some(v)
  }

  /**
   * Input `j` of operation `k` of `after` lies in `inside`, and no input read
   * before it (in an earlier operation, or earlier in the same one) does.
   */
  ghost predicate CarriedFirstAt(after: seq<Op>, inside: set<nat>, k: int, j: int)
  {
    && 0 <= k < |after| && 0 <= j < |after[k].inputs| && after[k].inputs[j] in inside
    && (forall k', j' :: 0 <= k' < k && 0 <= j' < |after[k'].inputs| ==> after[k'].inputs[j'] !in inside)
    && (forall j' :: 0 <= j' < j ==> after[k].inputs[j'] !in inside)
  }

  /** Index of the first element of `vs` that lies in `inside`, or `|vs|`. */
  function FirstIn(vs: seq<nat>, inside: set<nat>): (i: nat)
    ensures i <= |vs| && (i < |vs| ==> vs[i] in inside)
    ensures forall j :: 0 <= j < i ==> vs[j] !in inside
  {
    if vs == [] || vs[0] in inside then 0 else 1 + FirstIn(vs[1..], inside)
  }

  /**
   * The check made once both trials are recorded: the traces must agree in
   * shape, position by position, and no operation after the loop may read a
   * value produced inside it.
   */
  function Validate(t1: seq<Op>, t2: seq<Op>, after: seq<Op>): Result<(), LoopError> {
    match FirstMismatch(t1, t2)
    case Some(i) => Err(SemanticsChanged(i))
    case None =>
      match FirstCarry(after, Produced(t1) + Produced(t2))
      case Some(v) => Err(ExternalCarry(v))
      case None => Ok(())
  }

  /** The check passes exactly when the two trials match in shape and nothing made inside the loop escapes. */
  lemma ValidateAccepts(t1: seq<Op>, t2: seq<Op>, after: seq<Op>)
    ensures Validate(t1, t2, after).Ok? <==>
      && |t1| == |t2| && (forall k :: 0 <= k < |t1| ==> SameShape(t1[k], t2[k]))
      && (forall k, j, i :: 0 <= k < |after| && 0 <= j < |after[k].inputs| && 0 <= i < |t1| ==> after[k].inputs[j] !in t1[i].outputs)
      && (forall k, j, i :: 0 <= k < |after| && 0 <= j < |after[k].inputs| && 0 <= i < |t2| ==> after[k].inputs[j] !in t2[i].outputs)
  {
    var inside := Produced(t1) + Produced(t2);
    if FirstMismatch(t1, t2).None? && FirstCarry(after, inside).Some? {
      var v := FirstCarry(after, inside).value;
      var k, j :| 0 <= k < |after| && 0 <= j < |after[k].inputs| && after[k].inputs[j] == v;
      if v in Produced(t1) {
        var i, m :| 0 <= i < |t1| && 0 <= m < |t1[i].outputs| && t1[i].outputs[m] == v;
      } else {
        var i, m :| 0 <= i < |t2| && 0 <= m < |t2[i].outputs| && t2[i].outputs[m] == v;
      }
    }
  }

  /** A trial that does something the other does not is reported at the first differing position. */
  lemma SemanticChangeReported(t1: seq<Op>, t2: seq<Op>, after: seq<Op>, i: nat)
    requires i < |t1| && i < |t2| && !SameShape(t1[i], t2[i])
    requires forall k :: 0 <= k < i ==> SameShape(t1[k], t2[k])
    ensures Validate(t1, t2, after) == Err(SemanticsChanged(i))
  {
    var r := FirstMismatch(t1, t2);
    assert r.Some?;
    if r.value < i {
      assert false;
    } else if r.value > i {
      assert false;
    }
  }

  // ---------------------------------------------------------------------
  // Python's range and the dispatch of jrange
  // ---------------------------------------------------------------------

  /** Whether a range with this bound and step still goes on at `x`. */
  predicate Continues(x: int, stop: int, step: int) {
    if step > 0 then x < stop else x > stop
  }

  /** The values of `range(start, stop, step)`. */
  function RangeValues(start: int, stop: int, step: int): seq<int>
    requires step != 0
    decreases if step > 0 then stop - start else start - stop
  {
    if Continues(start, stop, step) then [start] + RangeValues(start + step, stop, step) else []
  }

  /** The k-th value is `start + k * step`, every value is before the bound and the next one would not be. */
  lemma {:induction false} RangeValuesAre(start: int, stop: int, step: int)
    requires step != 0
    ensures var r := RangeValues(start, stop, step);
      && (forall k :: 0 <= k < |r| ==> r[k] == start + k * step && Continues(r[k], stop, step))
      && !Continues(start + |r| * step, stop, step)
    decreases if step > 0 then stop - start else start - stop
  {
    var r := RangeValues(start, stop, step);
    if Continues(start, stop, step) {
      var tail := RangeValues(start + step, stop, step);
      RangeValuesAre(start + step, stop, step);
      assert r == [start] + tail;
      forall k | 0 < k < |r|
        ensures r[k] == start + k * step
      {
        assert r[k] == tail[k - 1] == start + step + (k - 1) * step;
        StepShift(start, step, k);
      }
      StepShift(start, step, |r|);
    }
  }

  lemma StepShift(start: int, step: int, k: int)
    ensures start + step + (k - 1) * step == start + k * step
  {
    assert (k - 1) * step == k * step - step;
  }

  datatype RangeError = WrongArgumentCount(count: nat) | ZeroStep

  /** Python's `range(*args)` over ints: TypeError for a wrong number of arguments, ValueError for a zero step. */
  function PyRange(args: seq<int>): (r: Result<seq<int>, RangeError>)
    ensures r.Err? <==> !(1 <= |args| <= 3) || (|args| == 3 && args[2] == 0)
  {
    if |args| == 0 || |args| > 3 then Err(WrongArgumentCount(|args|))
    else if |args| == 1 then Ok(RangeValues(0, args[0], 1))
    else if |args| == 2 then Ok(RangeValues(args[0], args[1], 1))
    else if args[2] == 0 then Err(ZeroStep)
    else Ok(RangeValues(args[0], args[1], args[2]))
  }

  predicate AllConcrete(args: seq<Arg>) {
    forall i :: 0 <= i < |args| ==> args[i].Concrete?
  }

  function Values(args: seq<Arg>): (vs: seq<int>)
    ensures |vs| == |args| && forall i :: 0 <= i < |args| ==> vs[i] == args[i].Value()
  {
    if args == [] then [] else [args[0].Value()] + Values(args[1..])
  }

  /** What `jrange` returns: a plain range, or the tracing iterator. */
  datatype Loop = Static(values: seq<int>) | Dynamic(driver: JRangeIterator)

  /**
   * `jrange(*args)`: `range(*args)` when every argument is a host int, a
   * fresh `JRangeIterator` otherwise (whose bounds stay unset for a wrong
   * number of arguments).
   */
  method JRange(args: seq<Arg>) returns (r: Result<Loop, RangeError>)
    ensures AllConcrete(args) ==>
      match PyRange(Values(args))
      case Ok(vs) => r == Ok(Static(vs))
      case Err(e) => r == Err(e)
    ensures !AllConcrete(args) ==>
      && r.Ok? && r.value.Dynamic? && fresh(r.value.driver)
      && r.value.driver.Valid() && r.value.driver.iteration == None && r.value.driver.env == null
      && (r.value.driver.bounded <==> 1 <= |args| <= 3)
      && (r.value.driver.bounded ==> r.value.driver.Spec() == Normalize(Values(args)))
  {
    var vs := Values(args);
    if forall i :: 0 <= i < |args| ==> args[i].Concrete? {
      match PyRange(vs)
      case Ok(values) => r := Ok(Static(values));
      case Err(e) => r := Err(e);
    } else {
      var it := new JRangeIterator(vs);
      r := Ok(Dynamic(it));
    }
  }
}
