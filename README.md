# Qrisp classical core in Dafny

This project models the classical, sequential parts of the Qrisp quantum
programming framework and proves properties about them:

- **`jrange`, the loop with a dynamic bound** (`jrange.dfy`, module
  `JRangeLoop`). When every bound is a host `int`, `jrange(*args)` is Python's
  `range(*args)`. Otherwise it returns a `JRangeIterator`, which traces the
  loop body twice:
  - advance 1 opens an iteration scope and yields the counter;
  - advance 2 steps the counter, closes the scope, reopens it and yields again;
  - advance 3 steps the counter, closes the scope and ends the loop.

  The iterator is a class. Its fields `iteration`, `stop` and `env` are
  updated in place. The iteration scope is an abstract recorder class holding
  a log of enter/exit events and one trace of operations per scope. The loop
  check that follows compares the two traces and looks for values that escape
  the loop.
- **The Qunicorn backend client** (`qunicorn.dfy`, module `Qunicorn`): the
  endpoint URL built by the constructor, and `_ensure_binary`, which turns the
  hexadecimal count keys of a result into bit strings, one chunk per register.
- **The QCM instruction-tape parser** (`qcm.dfy`, module `Qcm`). It turns the
  program text of the quantum control machine into four parallel lists:
  - the operation;
  - the inversion flag;
  - the first argument index;
  - the second argument offset.

  It is written both as a loop (`ParseProgram`) and as the function it is
  proved against (`Program`).
- **The classical validators of the QAOA examples**:
  - max clique (`maxclique.dfy`);
  - maximum independent set (`maxindepset.dfy`);
  - maximum set packing (`maxsetpacking.dfy`, using an in-place array of
    "free" flags);
  - the literal-occurrence dictionary of the MaxSat example (`maxsat.dfy`,
    a dictionary with insertion order, updated in a nested loop).

  The code the validators share (the marked positions of a bit string, the
  undirected edge relation, flattening) is in `marked.dfy`.
- **Support**:
  - `wrappers.dfy` holds `Option` and `Result`.
  - `pystr.dfy` (module `PyStr`) holds the Python built-ins the core relies
    on, each stated as Python defines it: `str.split()`, `str.split(" ")`,
    `str.splitlines()`, `s[-k:]`, floor `%`, `int(s, base)`, `str(n)` and the
    `:b` format.

Values are mathematical integers. Strings are `seq<char>`. The exceptions
the modelled code raises become the `Err` side of a `Result`. Where only "it
raises" matters they become `None`, and for an iterator advance
`AttributeError`. Operations accept the inputs the source accepts rather than
requiring well-formed ones.

## Model

| member | source | states |
|---|---|---|
| JRangeLoop.Normalize | src/qrisp/jasp/control_flow/jrange_iterator.py:22-52 | The start offset is absent exactly for one argument; otherwise it is the first argument. The step is 1 unless a third argument gives it. The first value yielded, the counter plus the offset, is the `stop` argument (`args[0]` alone, `args[1]` otherwise), so the internal counter starts at `stop - start`. |
| JRangeLoop.JRangeIterator.constructor | src/qrisp/jasp/control_flow/jrange_iterator.py:22-52 | A new iterator has its bounds set exactly when it gets 1, 2 or 3 arguments, and then they are the normalised ones. Its advance count is left unset (only `__iter__` sets it), and it has no scope yet. |
| JRangeLoop.JRangeIterator.Iter | src/qrisp/jasp/control_flow/jrange_iterator.py:55-57 | `__iter__` sets the advance count to 0, returns the same object and changes nothing else. |
| JRangeLoop.JRangeIterator.Next | src/qrisp/jasp/control_flow/jrange_iterator.py:59-107 | With the advance count unset, the call raises AttributeError and changes nothing. Otherwise the count goes up by one. Advance 1 opens exactly one fresh scope, leaves the counter alone, leaves any earlier scope recorder untouched, and yields counter plus offset; without bounds it raises AttributeError once that scope is open. Advance 2 adds `step`, closes the scope, opens it again and yields the stepped value. Advance 3 adds `step`, closes the scope and raises StopIteration whatever the bounds are. Without bounds, advances 2 and 3 raise AttributeError and change nothing. A later call returns nothing and leaves `stop`, the recorder and its log unchanged. |
| JRangeLoop.IterationEnv.constructor | src/qrisp/jasp/control_flow/jrange_iterator.py:69 | A new scope recorder has no events and no traces, and no scope is open. |
| JRangeLoop.IterationEnv.Enter | src/qrisp/jasp/control_flow/jrange_iterator.py:71 | Entering appends an Enter event and an empty trace, and opens the scope. The log stays never-nested. |
| JRangeLoop.IterationEnv.Exit | src/qrisp/jasp/control_flow/jrange_iterator.py:90 | Exiting appends an Exit event, closes the scope and keeps the traces. |
| JRangeLoop.IterationEnv.Record | src/qrisp/jasp/control_flow/jrange_iterator.py:59-64 | An operation of the loop body is appended to the newest trace only. |
| JRangeLoop.IterationEnv.RecordAll | src/qrisp/jasp/control_flow/jrange_iterator.py:59-64 | A whole loop body is appended, in order, to the newest trace only. |
| JRangeLoop.TraceLoop | src/qrisp/jasp/control_flow/jrange_iterator.py:55-107 | A `for` loop over an iterator with bounds produces exactly the events Enter, Exit, Enter, Exit: depth back to 0, never nested. There is one trace per trial. The second yield is the first plus `step`. The final internal `stop` is the initial one plus `2 * step`. The verdict is the loop check of the two traces. Without bounds the loop raises AttributeError in its first advance, with one scope open and an empty trace. |
| JRangeLoop.FirstMismatch | src/qrisp/jasp/control_flow/jrange_iterator.py:122-125 | The result is None exactly when the traces have the same length and agree in shape everywhere. Otherwise it is the first position where they differ, or where one of them ends. |
| JRangeLoop.Produced | src/qrisp/jasp/control_flow/jrange_iterator.py:117-120 | The values made inside a trace are exactly the outputs of its operations. |
| JRangeLoop.FirstCarry | src/qrisp/jasp/control_flow/jrange_iterator.py:117-120 | The result is None exactly when no operation after the loop reads a value made inside it. Otherwise it is the first such read: no input read earlier after the loop, in an earlier operation or earlier in the same one, was made inside. |
| JRangeLoop.ValidateAccepts | src/qrisp/jasp/control_flow/jrange_iterator.py:117-125 | The loop check passes if and only if both trials perform the same instructions and nothing after the loop reads a value made in either trial. |
| JRangeLoop.SemanticChangeReported | src/qrisp/jasp/control_flow/jrange_iterator.py:122-125 | When the trials first differ at `i`, the check fails with "semantics changed" at `i`. |
| JRangeLoop.RangeValuesAre | src/qrisp/jasp/control_flow/jrange_iterator.py:232-233 | The k-th value of the range is `start + k * step`. Every value lies before the bound, in the step's direction, and the next one would not. |
| JRangeLoop.PyRange | src/qrisp/jasp/control_flow/jrange_iterator.py:232-233 | `range(*args)` fails if and only if the argument count is wrong (TypeError) or the step is zero (ValueError). |
| JRangeLoop.JRange | src/qrisp/jasp/control_flow/jrange_iterator.py:232-235 | With only host ints the result is Python's `range(*args)`, with its errors. Otherwise it is a fresh iterator: the count is unset, the bounds are set exactly for 1 to 3 arguments, and then they are the normalised ones. |
| JRangeLoop.NextWithoutIter | src/qrisp/jasp/control_flow/jrange_iterator.py:59-66 | `__next__` on a new iterator, before `iter()`, raises AttributeError for any arguments. |
| JRangeLoop.UnboundedFirstAdvance | src/qrisp/jasp/control_flow/jrange_iterator.py:22-83 | With a wrong number of arguments, the first advance of a `for` loop raises AttributeError after opening exactly one scope. |
| Qunicorn.BackendClient.constructor | src/qrisp/interface/qunicorn/backend_client.py:63-80 | A missing port becomes 9010. The endpoint is `"http://" + host + ":" + str(port)`. Provider, device and token are kept. |
| Qunicorn.EndpointRoundTrip | src/qrisp/interface/qunicorn/backend_client.py:67-80 | The endpoint string determines its host and port: the scheme comes first, the last colon separates the port, and the port text reads back as the port. |
| Qunicorn.Chunk | src/qrisp/interface/qunicorn/backend_client.py:188 | For `size >= 1` a chunk is `min(size, 3 + #binary digits)` characters long. For `size == 0` it is the whole `"000"` plus the digits, as Python's `[-0:]` is. |
| Qunicorn.ChunkValue | src/qrisp/interface/qunicorn/backend_client.py:188 | For `size >= 1`, read in binary, a chunk of a non-negative count is the count modulo `2^size`. At `size == 0` Python's `[-0:]` keeps the whole padded string, whose value is the count itself. |
| Qunicorn.ChunksOf | src/qrisp/interface/qunicorn/backend_client.py:187-190 | The join succeeds exactly when every token that `zip` pairs with a register was read. Otherwise it fails on the first token that was not. |
| Qunicorn.HexChunksErrors | src/qrisp/interface/qunicorn/backend_client.py:185-190 | Hex conversion succeeds if and only if the first `min(#tokens, #registers)` tokens are all base-16 literals. An error names the first token that is not, and all tokens before it are literals. |
| Qunicorn.HexChunksJoin | src/qrisp/interface/qunicorn/backend_client.py:185-190 | When those tokens read as `values`, the result is one chunk per pair that `zip` forms, joined in register order. |
| Qunicorn.Convert | src/qrisp/interface/qunicorn/backend_client.py:176-192 | `"bin"` returns the key unchanged. `"hex"` without registers fails with MissingRegisters. Any other format fails with UnknownFormat. `"hex"` with registers is the chunked conversion of the whitespace-split key. |
| Qunicorn.EnsureBinary | src/qrisp/interface/qunicorn/backend_client.py:176-192 | `_ensure_binary` as written: the format cases above, with the `"000"` padding. |
| Qunicorn.NarrowChunkExample | src/qrisp/interface/qunicorn/backend_client.py:188 | The key `"1"` with one 8-bit register converts to `"0001"` as written, and to `"00000001"` at full width. |
| Qunicorn.PaddedChunk | src/qrisp/interface/qunicorn/backend_client.py:188 | The corrected chunk is exactly `size` characters long (none for `size <= 0`). |
| Qunicorn.PaddedChunkValue | src/qrisp/interface/qunicorn/backend_client.py:188 | The corrected chunk is `size` characters long and denotes the count modulo `2^size`. |
| Qunicorn.EnsureBinaryFixedWidth | src/qrisp/interface/qunicorn/backend_client.py:176-192 | `_ensure_binary` with full-width chunks: the same format and error cases. |
| Qunicorn.FixedWidthLength | src/qrisp/interface/qunicorn/backend_client.py:187-190 | With full-width chunks the result is exactly as long as the sum of the sizes of the registers `zip` pairs. |
| Qcm.ProgramLines | qcm_experiments/qcm_machine.py:102-106 | An empty program raises IndexError. Otherwise the lines are those of `splitlines()`, with the first dropped exactly when it is empty and no other line dropped. |
| Qcm.RegisterIndex | qcm_experiments/qcm_machine.py:139-153 | A register token stands for `int(token[1:])`. It fails with ValueError on that text exactly when that text is no decimal literal. |
| Qcm.SecondOffset | qcm_experiments/qcm_machine.py:150-155 | It fails with ZeroDivisionError exactly when `n == 1`. On `n >= 2` registers the offset lies in `[0, n-1)`. On `n <= 0` it lies in `(n-1, 0]`, matching the sign of Python's `%`; the parser never sees such an `n`, because `n = len(init_state)` (qcm_machine.py:69) and an empty state already fails at line 92: `np.log2(0)` returns `-inf` with a warning, and `int(np.ceil(...))` of it raises OverflowError. |
| Qcm.SecondOffsetCongruent | qcm_experiments/qcm_machine.py:150-155 | On `n >= 2` the offset is congruent modulo `n - 1` to `1 + a0 - a1` when the second register lies above the first, and to `a1 - a0` otherwise. |
| Qcm.TapeOf | qcm_experiments/qcm_machine.py:110-157 | The four lists have one entry per instruction, and entry `i` of each is the matching field of instruction `i`. |
| Qcm.ParseLines | qcm_experiments/qcm_machine.py:115-157 | A program that parses yields one instruction per line. |
| Qcm.ParseProgram | qcm_experiments/qcm_machine.py:102-157 | The parsing loop (pop of the empty first line, split, appends, `continue` branches, first exception ends the parse) computes exactly `Program(code, n)`. |
| Qcm.ParseLinesOk | qcm_experiments/qcm_machine.py:115-157 | The lines parse if and only if every line does. |
| Qcm.ParseLinesEntries | qcm_experiments/qcm_machine.py:115-157 | Entry `i` of a parsed program is the instruction of line `i`. |
| Qcm.ParseLinesErr | qcm_experiments/qcm_machine.py:115-157 | A failing program fails with the exception of one of its lines. |
| Qcm.ProgramMeaning | qcm_experiments/qcm_machine.py:102-157 | An empty program raises IndexError. Otherwise the tape is Ok exactly when every remaining line parses, and then it holds one entry per line, in line order, in all four lists. A failure carries the exception of a line that fails. |
| Qcm.InversionFlag | qcm_experiments/qcm_machine.py:120-130 | In a line that parses, the operation token is non-empty. The inversion flag is true exactly when the token starts with `r`. The recorded operation is the token without that `r`. |
| Qcm.ArgumentlessParses | qcm_experiments/qcm_machine.py:133-136 | `nop` and `jmp`, inverted or not, always parse with arguments `(0, 1)`, whatever follows. |
| Qcm.OffsetRange | qcm_experiments/qcm_machine.py:138-157 | `jz`, `U` and `jmp*` store the offset 1. Every other operation on `n >= 2` registers stores an offset in `[0, n-1)`. |
| Qcm.OperandSources | qcm_experiments/qcm_machine.py:138-157 | `jz` reads its register from the third token, and the other operations with arguments read theirs from the second. A two-register operation stores the offset of the third token's register, or 0 when there is none. |
| Qcm.LeadingSpaceFails | qcm_experiments/qcm_machine.py:118-123 | A line starting with a space has an empty operation token, and `operation[0]` raises IndexError. |
| Marked.MarkedIndices | src/qrisp/examples/maxCliqueQAOAExample.py:61 | The marked list is exactly the positions holding `'1'`, in increasing order. |
| Marked.MarkedPairs | src/qrisp/examples/maxCliqueQAOAExample.py:61-67 | `combinations(marked, 2)` covers exactly the pairs `i < j` of positions holding `'1'`. A test over all of the first is a test over all of the second. |
| MaxClique.CliqueCost | src/qrisp/examples/maxCliqueQAOAExample.py:57-71 | The energy is `-|marked|` when every pair of marked vertices is an edge, and 0 otherwise. It always lies in `[-len(state), 0]`. |
| MaxClique.CliqueByPairs | src/qrisp/examples/maxCliqueQAOAExample.py:63-67 | The loop's pairwise test over the marked list holds if and only if the marked vertices form a clique. |
| MaxClique.SmallSelectionIsClique | src/qrisp/examples/maxCliqueQAOAExample.py:63-70 | With at most one marked vertex there is no pair to check, so the selection is a clique. |
| MaxClique.MissingEdgeVoids | src/qrisp/examples/maxCliqueQAOAExample.py:65-67 | One non-edge between marked vertices rules out the clique. |
| MaxIndepSet.IndependentSetCost | src/qrisp/examples/maxIndepSetQAOAExample.py:48-65 | The energy is `-|marked|` when no pair of marked vertices is an edge, and 0 otherwise. It always lies in `[-len(state), 0]`. |
| MaxIndepSet.IndependentByPairs | src/qrisp/examples/maxIndepSetQAOAExample.py:56-60 | The loop's pairwise test over the marked list holds if and only if the marked vertices are independent. |
| MaxIndepSet.NothingMarked | src/qrisp/examples/maxIndepSetQAOAExample.py:53-65 | A string without a `'1'` marks nothing and is independent, so it scores 0. |
| MaxIndepSet.SmallSelectionIsIndependent | src/qrisp/examples/maxIndepSetQAOAExample.py:56-63 | With at most one marked vertex the selection is independent. |
| MaxIndepSet.EdgeVoids | src/qrisp/examples/maxIndepSetQAOAExample.py:58-60 | One edge between marked vertices rules out independence. |
| MaxSetPacking.ChosenSetsMeaning | src/qrisp/examples/maxSetPackingQAOAExample.py:61-62 | The comprehension raises exactly when a marked index is past the list of sets. Otherwise it picks `sets[i]` for each marked `i`, in order. |
| MaxSetPacking.SetPackingCost | src/qrisp/examples/maxSetPackingQAOAExample.py:57-73 | The in-place loop over the array of free flags, with its `break`, returns exactly `PackingCost(state, sets, len(universe))`. |
| MaxSetPacking.FreshIsDistinct | src/qrisp/examples/maxSetPackingQAOAExample.py:63-69 | The elements the loop can take without clearing the flag are exactly those that are in the universe, still free and pairwise at distinct positions. |
| MaxSetPacking.ScanSetMeaning | src/qrisp/examples/maxSetPackingQAOAExample.py:64-69 | The inner loop clears the flag exactly when the set is not fresh. Otherwise it takes every element of the set. The used slots in the not-fresh case are stated by MaxSetPacking.ScanSetBreak. |
| MaxSetPacking.ScanSetBreak | src/qrisp/examples/maxSetPackingQAOAExample.py:64-69 | When the first already-taken element of a set is at `p`, the inner loop clears the flag and breaks there. Exactly the elements before `p` are taken, and the rest of the set is never looked at. |
| MaxSetPacking.ScanMeaning | src/qrisp/examples/maxSetPackingQAOAExample.py:63-69 | The flag survives both loops exactly when it was set and all chosen elements together are fresh. Then every one of them is taken. |
| MaxSetPacking.ScanDefined | src/qrisp/examples/maxSetPackingQAOAExample.py:65 | When every element lies in the universe, the scan raises no IndexError. |
| MaxSetPacking.PackingCostIndexError | src/qrisp/examples/maxSetPackingQAOAExample.py:62 | A marked index past the list of sets makes the function raise. |
| MaxSetPacking.PackingCostDefined | src/qrisp/examples/maxSetPackingQAOAExample.py:58-69 | With every marked index naming a set and every picked element in the universe, the function returns a value. |
| MaxSetPacking.PackingCostMeaning | src/qrisp/examples/maxSetPackingQAOAExample.py:57-73 | With every marked index naming a set, a returned value is `-|chosen|` exactly when the picked elements are distinct free positions of the universe, and 0 otherwise. |
| MaxSetPacking.PackingCostOnUniverse | src/qrisp/examples/maxSetPackingQAOAExample.py:57-73 | For sets drawn from `range(n)`, with every marked index naming a set, the cost is defined. It is `-|chosen|` if no element occurs twice in the concatenated chosen sets, and 0 otherwise. |
| MaxSat.CountOccurrences | src/qrisp/examples/maxSatQAOAExample.py:68-74 | The nested loop builds exactly the dictionary the entries of the flattened clauses tally to. |
| MaxSat.TallyMeaning | src/qrisp/examples/maxSatQAOAExample.py:68-74 | The tallied dictionary is well formed. Its keys are exactly the entries, in order of first occurrence. Each key maps to its number of occurrences, and the counts sum to the number of entries. |
| MaxSat.OccurrenceCounts | src/qrisp/examples/maxSatQAOAExample.py:68-74 | The same, stated for the clauses: every literal that occurs is a key, no other key exists, each count is the literal's total number of occurrences, and the counts sum to the total number of clause entries. |
| MaxSat.FirstOccurrencesMeaning | src/qrisp/examples/maxSatQAOAExample.py:69-74 | The key order lists each entry once and only entries. Of two keys, the one whose first occurrence (`FirstIndex`) is earlier comes first. |
| PyStr.SplitOn | qcm_experiments/qcm_machine.py:118 | `line.split(" ")` gives at least one piece, no piece holds the separator, and joining the pieces with the separator gives the line back. |
| PyStr.ParseIntOfIntToString | src/qrisp/interface/qunicorn/backend_client.py:80 | `int(str(v)) == v` for every integer `v`, leaving out Python's limit on the number of decimal digits (see Left out). |

## Left out

- Tracers, their identity and the `int32` dtype are not modelled. Bounds and counters are mathematical integers. The `+= 0` of the second advance therefore leaves the counter unchanged, and the fresh tracer it makes is not represented.
- `JIterationEnvironment` and `jcompile` are not part of this model (lowering to a JAX while primitive). The scope is an abstract recorder of enter/exit events and one trace per scope.
- The loop check is modelled as the `jrange` docstring states it. The two traces must agree in shape (primitive and operand count) position by position. No operation recorded after the loop may read a value produced inside either trial. Values carried over from the previous iteration are not modelled. The traces hold only the operations of the loop body. The iterator's own arithmetic is not recorded: the `+= step` of lines 87 and 105 and the `+= 0` of line 97 run inside an open scope in the source. So the counter is never the output of a recorded operation, and reading it after the loop is never flagged. The source flags that case by making a fresh tracer with `+= 0` (jrange_iterator.py:93-97).
- JRangeLoop.JRangeIterator.Next: a fourth call matches no branch in the source and returns `None`. The model returns `NoValue` and leaves `stop`, the scope recorder and its log unchanged. Nothing is claimed about repeated exhaustion.
- `BackendClient.run`, HTTP posting and polling, JSON parsing, `request_manager.py` and `token_manager.py` are network and clock plumbing and are not modelled.
- The quantum operations of `qcm_machine.py` are not modelled (argument loading, tape moves, execution, `OperationQuantumVariable` with its float `log2`), nor are the demo runs. Line 102 reads the module-level `qcm_code`. The model takes the program text as a parameter `code`.
- Qcm.ParseInstruction has no contract of its own. Its behaviour is stated by InversionFlag, ArgumentlessParses, OffsetRange, OperandSources and LeadingSpaceFails.
- Qunicorn.HexChunks has no contract of its own. Its behaviour is stated by HexChunksErrors and HexChunksJoin.
- `int(s, base)` is modelled with the surrounding white space Python's `str.isspace()` recognises (Unicode included), a sign, the optional base-16 prefix `0x`/`0X` (with one underscore allowed after it) and single underscores between digits. Only non-ASCII decimal digits, which Python also accepts, are not modelled.
- PyStr.ParseInt and PyStr.ParseIntOfIntToString: CPython limits conversions between `int` and decimal strings to 4300 digits by default (`sys.set_int_max_str_digits`). Past that limit `int(s)` in base 10 and `str(v)` raise ValueError. The model converts strings of any length, so `Qcm.RegisterIndex` (`int(token[1:])`) never raises for a long register number and the round trip holds for every integer. Base 16, which `_ensure_binary` uses, is a power of two and is not limited.
- `G.edges()` of networkx becomes an undirected edge relation over vertex pairs. Graph generation, drawing, QAOA/QIRO runs and sorting of measurement results are not modelled.
- The set-packing example reads the module-level `sets`. The model takes the list of sets as a parameter. An IndexError there is modelled as a `None` result. Python's negative indices count from the end, both for the flags and for `sets` (the marked indices are never negative).
- The MaxSat dictionary is a key order plus a map. Only its insertion order and contents are modelled. The `clausesdecoder` that produces the clauses is not modelled, so the key type is a type parameter with equality.
- The circuit constructions (`gidney.py`, `gidney_adder.py`), the random example scripts and the tests over quantum types are not part of this model.

## Findings

| source | as written | input that shows it | evidently intended | confidence | as-written member | corrected member |
|---|---|---|---|---|---|---|
| src/qrisp/interface/qunicorn/backend_client.py:188 | The chunk of a register is `"000"` plus the count's binary digits, cut to the last `size` characters, so it is narrower than the register whenever `size > 3 + #digits`. | `_ensure_binary("1", "hex", [8])` gives `"0001"`, four characters for an 8-bit register. | Each register is rendered at its own width (`"00000001"`), so that the result is a fixed-width bit string whose length is the sum of the register sizes. | medium; not executed | Qunicorn.NarrowChunkExample | Qunicorn.PaddedChunkValue |
