/**
 * The instruction-tape parser of the quantum control machine (QCM): the
 * program text becomes four parallel lists holding, per instruction, the
 * operation, whether it is inverted, the index of its first argument and
 * the offset of its second argument.
 */
module Qcm {
  import opened Wrappers
  import opened PyStr

  /** The exceptions the parser lets escape. */
  datatype ParseError =
    | IndexError                 // a missing line, token or character
    | ValueError(literal: string) // `int()` of text that is no decimal literal
    | ZeroDivisionError          // `% (n - 1)` with `n == 1`

  /** One parsed line of the program. */
  datatype Instruction = Instruction(operation: string, inverted: bool, arg0: int, arg1: int)

  /** The four lists written to the tape, index by index. */
  datatype Tape = Tape(operations: seq<string>, inversions: seq<bool>, qArgs0: seq<int>, qArgs1: seq<int>)

  /**
   * `code.splitlines()` without its first line when that one is empty; an
   * empty program has no first line to look at.
   */
  function ProgramLines(code: string): (r: Result<seq<string>, ParseError>)
    ensures r.Err? <==> code == []
    ensures r.Err? ==> r.error == IndexError
    ensures r.Ok? ==> var lines := SplitLines(code);
      if lines[0] == [] then r.value == lines[1..] else r.value == lines
  {
    var lines := SplitLines(code);
    if lines == [] then Err(IndexError)
    else if lines[0] == [] then Ok(lines[1..])
    else Ok(lines)
  }

  /** Python's `s[1:]`. */
  function Drop1(s: string): (r: string)
    ensures s == [] ==> r == []
    ensures s != [] ==> [s[0]] + r == s
  {
    if s == [] then [] else s[1..]
  }

  /** `int(token[1:])`: a register name such as `r2` stands for its number. */
  function RegisterIndex(token: string): (r: Result<int, ParseError>)
    ensures r.Err? <==> ParseInt(Drop1(token), 10).None?
    ensures r.Ok? ==> Some(r.value) == ParseInt(Drop1(token), 10)
    ensures r.Err? ==> r.error == ValueError(Drop1(token))
  {
    match ParseInt(Drop1(token), 10)
    case Some(v) => Ok(v)
    case None => Err(ValueError(Drop1(token)))
  }

  /** The operations whose arguments are fixed to `(0, 1)`. */
  predicate Argumentless(op: string) {
    op == "nop" || op == "jmp"
  }

  /** The operations with one register argument. */
  predicate OneRegister(op: string) {
    op == "U" || op == "jmp*"
  }

  /**
   * The offset stored for the second register, relative to the first one, on
   * a tape of `n` registers. The tape always has at least one register (an
   * empty one fails before parsing starts), so the `n <= 0` clause only
   * records the sign Python's `%` gives there.
   */
  function SecondOffset(a0: int, a1: int, n: int): (r: Result<int, ParseError>)
    ensures r.Err? <==> n == 1
    ensures r.Err? ==> r.error == ZeroDivisionError
    ensures r.Ok? && n >= 2 ==> 0 <= r.value < n - 1
    ensures r.Ok? && n <= 0 ==> n - 1 < r.value <= 0
  {
    if n - 1 == 0 then Err(ZeroDivisionError)
    else if a0 - a1 < 0 then Ok(FloorMod(n + a0 - a1, n - 1))
    else Ok(FloorMod(-a0 + a1, n - 1))
  }

  /**
   * On `n >= 2` registers the offset is the distance from the first
   * register to the second modulo `n - 1`, one more when the second lies
   * above the first.
   */
  lemma SecondOffsetCongruent(a0: int, a1: int, n: int)
    requires n >= 2
    ensures SecondOffset(a0, a1, n).Ok?
    ensures (SecondOffset(a0, a1, n).value - (if a0 < a1 then 1 + a0 - a1 else a1 - a0)) % (n - 1) == 0
  {
    if a0 - a1 < 0 {
      OffsetUpward(a0, a1, n);
    } else {
      OffsetDownward(a0, a1, n);
    }
  }

  lemma OffsetUpward(a0: int, a1: int, n: int)
    requires n >= 2 && a0 < a1
    ensures (SecondOffset(a0, a1, n).value - (1 + a0 - a1)) % (n - 1) == 0
  {
    var x, m := 1 + a0 - a1, n - 1;
    assert SecondOffset(a0, a1, n).value == (x + m) % m;
    ShiftedMod(x, m);
  }

  lemma OffsetDownward(a0: int, a1: int, n: int)
    requires n >= 2 && a1 <= a0
    ensures (SecondOffset(a0, a1, n).value - (a1 - a0)) % (n - 1) == 0
  {
    var x, m := a1 - a0, n - 1;
    assert SecondOffset(a0, a1, n).value == x % m;
    ModDifference(x, m);
  }

  /** `(x + m) % m` leaves the same remainder as `x`, and a value minus its remainder is a multiple. */
  lemma ShiftedMod(x: int, m: int)
    requires m >= 1
    ensures ((x + m) % m - x) % m == 0
  {
    ModDifference(x + m, m);
    assert (x + m) % m - x == ((x + m) % m - (x + m)) + m;
    MultipleShift((x + m) % m - (x + m), m);
  }

  lemma ModDifference(x: int, m: int)
    requires m >= 1
    ensures (x % m - x) % m == 0
  {
    var q := x / m;
    assert x == q * m + x % m;
    assert x % m - x == (-q) * m;
    MultipleMod(-q, m);
  }

  lemma MultipleMod(k: int, m: int)
    requires m >= 1
    ensures (k * m) % m == 0
  {
    var x := k * m;
    var q, rem := x / m, x % m;
    assert x == q * m + rem;
    var d := k - q;
    SubMul(k, q, m);
    assert d * m == rem;
    if d >= 1 {
      MulMonotone(1, d, m);
      assert false;
    } else if d <= -1 {
      MulMonotone(d, -1, m);
      assert false;
    }
  }

  lemma SubMul(a: int, b: int, m: int)
    ensures a * m - b * m == (a - b) * m
  {
  }

  lemma MultipleShift(d: int, m: int)
    requires m >= 1 && d % m == 0
    ensures (d + m) % m == 0
  {
    var q := d / m;
    assert d == q * m;
    assert d + m == (q + 1) * m;
    MultipleMod(q + 1, m);
  }

  /**
   * One line of the program: `line.split(" ")`, an optional leading `r` on
   * the operation marking inversion, then the argument entries the
   * operation calls for. The inversion flag and the operation are appended
   * before the arguments are read, but an exception there ends the parse.
   */
  function ParseInstruction(line: string, n: int): Result<Instruction, ParseError> {
    var tokens := SplitOn(line, ' ');
    var first := tokens[0];
    if first == [] then Err(IndexError)
    else
      var inverted := first[0] == 'r';
      var op := if inverted then first[1..] else first;
      match Operands(op, tokens, n)
      case Err(e) => Err(e)
      case Ok(args) => Ok(Instruction(op, inverted, args.0, args.1))
  }

  /** The two argument entries of operation `op` on the tokens of its line. */
  function Operands(op: string, tokens: seq<string>, n: int): Result<(int, int), ParseError> {
    if Argumentless(op) then Ok((0, 1))
    else if op == "jz" then
      if |tokens| < 3 then Err(IndexError)
      else
        match RegisterIndex(tokens[2])
        case Err(e) => Err(e)
        case Ok(a) => Ok((a, 1))
    else if |tokens| < 2 then Err(IndexError)
    else
      match RegisterIndex(tokens[1])
      case Err(e) => Err(e)
      case Ok(a0) =>
        if OneRegister(op) then Ok((a0, 1))
        else if |tokens| > 2 then
          match RegisterIndex(tokens[2])
          case Err(e) => Err(e)
          case Ok(a1) =>
            match SecondOffset(a0, a1, n)
            case Err(e) => Err(e)
            case Ok(off) => Ok((a0, off))
        else Ok((a0, 0))
  }

  /** The lines parsed in order; the first line that raises decides the outcome. */
  function ParseLines(lines: seq<string>, n: int): (r: Result<seq<Instruction>, ParseError>)
    ensures r.Ok? ==> |r.value| == |lines|
  {
    if lines == [] then Ok([])
    else
      match ParseLines(lines[..|lines| - 1], n)
      case Err(e) => Err(e)
      case Ok(prefix) =>
        match ParseInstruction(lines[|lines| - 1], n)
        case Err(e) => Err(e)
        case Ok(ins) => Ok(prefix + [ins])
  }

  /** The four parallel lists of a sequence of instructions. */
  function TapeOf(instructions: seq<Instruction>): (t: Tape)
    ensures |t.operations| == |instructions| && |t.inversions| == |instructions|
    ensures |t.qArgs0| == |instructions| && |t.qArgs1| == |instructions|
    ensures forall i :: 0 <= i < |instructions| ==>
      && t.operations[i] == instructions[i].operation && t.inversions[i] == instructions[i].inverted
      && t.qArgs0[i] == instructions[i].arg0 && t.qArgs1[i] == instructions[i].arg1
  {
    if instructions == [] then Tape([], [], [], [])
    else
      var t := TapeOf(instructions[..|instructions| - 1]);
      var ins := instructions[|instructions| - 1];
      Tape(t.operations + [ins.operation], t.inversions + [ins.inverted], t.qArgs0 + [ins.arg0], t.qArgs1 + [ins.arg1])
  }

  /** The whole program: its lines, each parsed, laid out as the tape's four lists. */
  function Program(code: string, n: int): Result<Tape, ParseError> {
    match ProgramLines(code)
    case Err(e) => Err(e)
    case Ok(lines) =>
      match ParseLines(lines, n)
      case Err(e) => Err(e)
      case Ok(instructions) => Ok(TapeOf(instructions))
  }

  /**
   * The parsing loop: every line in turn is split, its inversion flag and
   * operation appended, then its two argument entries. The first line that
   * raises ends the parse with that exception.
   */
  method ParseProgram(code: string, n: int) returns (r: Result<Tape, ParseError>)
    ensures r == Program(code, n)
  {
    var program := ProgramLines(code);
    if program.Err? {
      return Err(program.error);
    }
    var lines := program.value;
    var operations, inversions, qArgs0, qArgs1 := [], [], [], [];
    ghost var done: seq<Instruction> := [];
    var i := 0;
    while i < |lines|
      invariant 0 <= i <= |lines|
      invariant ParseLines(lines[..i], n) == Ok(done)
      invariant Tape(operations, inversions, qArgs0, qArgs1) == TapeOf(done)
    {
      var parsed := ParseInstruction(lines[i], n);
      ParseLinesSnoc(lines, i, n);
      if parsed.Err? {
        ErrorPersists(lines, i + 1, n);
        return Err(parsed.error);
      }
      var ins := parsed.value;
      inversions := inversions + [ins.inverted];
      operations := operations + [ins.operation];
      qArgs0 := qArgs0 + [ins.arg0];
      qArgs1 := qArgs1 + [ins.arg1];
      TapeOfSnoc(done, ins);
      done := done + [ins];
      i := i + 1;
    }
    assert lines[..i] == lines;
    r := Ok(Tape(operations, inversions, qArgs0, qArgs1));
  }

  /** One more instruction appends one entry to each of the four lists. */
  lemma TapeOfSnoc(done: seq<Instruction>, ins: Instruction)
    ensures var t := TapeOf(done);
      TapeOf(done + [ins]) == Tape(t.operations + [ins.operation], t.inversions + [ins.inverted], t.qArgs0 + [ins.arg0], t.qArgs1 + [ins.arg1])
  {
    assert (done + [ins])[..|done|] == done;
  }

  /** Parsing one more line extends the instructions parsed so far, or fails with that line's exception. */
  lemma ParseLinesSnoc(lines: seq<string>, i: nat, n: int)
    requires i < |lines| && ParseLines(lines[..i], n).Ok?
    ensures ParseInstruction(lines[i], n).Err? ==> ParseLines(lines[..i + 1], n) == Err(ParseInstruction(lines[i], n).error)
    ensures ParseInstruction(lines[i], n).Ok? ==>
      ParseLines(lines[..i + 1], n) == Ok(ParseLines(lines[..i], n).value + [ParseInstruction(lines[i], n).value])
  {
    assert lines[..i + 1][..i] == lines[..i] && lines[..i + 1][i] == lines[i];
  }

  /** Once a prefix of the lines fails, the whole program fails with the same exception. */
  lemma {:induction false} ErrorPersists(lines: seq<string>, k: nat, n: int)
    requires k <= |lines| && ParseLines(lines[..k], n).Err?
    ensures ParseLines(lines, n) == ParseLines(lines[..k], n)
    decreases |lines| - k
  {
    if k < |lines| {
      assert lines[..k + 1][..k] == lines[..k];
      ErrorPersists(lines, k + 1, n);
    } else {
      assert lines[..k] == lines;
    }
  }

  /** The program parses exactly when every line does. */
  lemma {:induction false} ParseLinesOk(lines: seq<string>, n: int)
    ensures ParseLines(lines, n).Ok? <==> forall i :: 0 <= i < |lines| ==> LineParses(lines[i], n)
  {
    if lines != [] {
      var init := lines[..|lines| - 1];
      ParseLinesOk(init, n);
      assert forall i :: 0 <= i < |init| ==> init[i] == lines[i];
    }
  }

  /** Entry `i` of a parsed program is the instruction of line `i`. */
  lemma {:induction false} ParseLinesEntries(lines: seq<string>, n: int)
    requires ParseLines(lines, n).Ok?
    ensures forall i :: 0 <= i < |lines| ==> LineParses(lines[i], n) && ParseLines(lines, n).value[i] == Parsed(lines[i], n)
  {
    if lines != [] {
      var init := lines[..|lines| - 1];
      var last := lines[|lines| - 1];
      assert ParseLines(init, n).Ok? && LineParses(last, n);
      ParseLinesEntries(init, n);
      var prefix := ParseLines(init, n).value;
      assert ParseLines(lines, n).value == prefix + [Parsed(last, n)];
      forall i | 0 <= i < |lines|
        ensures LineParses(lines[i], n) && ParseLines(lines, n).value[i] == Parsed(lines[i], n)
      {
        if i < |init| {
          assert init[i] == lines[i];
        }
      }
    }
  }

  /** A failing program fails with the exception of its first failing line. */
  lemma {:induction false} ParseLinesErr(lines: seq<string>, n: int)
    requires ParseLines(lines, n).Err?
    ensures exists i :: && 0 <= i < |lines| && ParseInstruction(lines[i], n) == Err(ParseLines(lines, n).error)
                        && forall j :: 0 <= j < i ==> LineParses(lines[j], n)
  {
    var init := lines[..|lines| - 1];
    assert forall i :: 0 <= i < |init| ==> init[i] == lines[i];
    if ParseLines(init, n).Err? {
      ParseLinesErr(init, n);
      var i :| 0 <= i < |init| && ParseInstruction(init[i], n) == Err(ParseLines(init, n).error)
        && forall j :: 0 <= j < i ==> LineParses(init[j], n);
      assert ParseInstruction(lines[i], n) == Err(ParseLines(lines, n).error);
    } else {
      ParseLinesOk(init, n);
      var i := |lines| - 1;
      assert forall j :: 0 <= j < i ==> LineParses(lines[j], n);
    }
  }

  /**
   * What the tape holds: nothing for an empty program; otherwise one entry
   * per remaining line, in line order, when every line parses, and else the
   * exception of the first line that does not.
   */
  lemma ProgramMeaning(code: string, n: int)
    ensures code == [] ==> Program(code, n) == Err(IndexError)
    ensures code != [] ==> var lines, r := ProgramLines(code).value, Program(code, n);
      && (r.Ok? <==> forall i :: 0 <= i < |lines| ==> LineParses(lines[i], n))
      && (r.Ok? ==> TapeHolds(r.value, lines, n))
      && (r.Err? ==> exists i :: && 0 <= i < |lines| && ParseInstruction(lines[i], n) == Err(r.error)
                                && forall j :: 0 <= j < i ==> LineParses(lines[j], n))
  {
    if code != [] {
      var lines := ProgramLines(code).value;
      ParseLinesOk(lines, n);
      if ParseLines(lines, n).Ok? {
        ParseLinesEntries(lines, n);
      } else {
        ParseLinesErr(lines, n);
      }
    }
  }

  /** Entry `i` of all four lists is the instruction of line `i`. */
  predicate TapeHolds(t: Tape, lines: seq<string>, n: int) {
    && |t.operations| == |lines| && |t.inversions| == |lines| && |t.qArgs0| == |lines| && |t.qArgs1| == |lines|
    && forall i :: 0 <= i < |lines| ==>
         LineParses(lines[i], n) && Parsed(lines[i], n) == Instruction(t.operations[i], t.inversions[i], t.qArgs0[i], t.qArgs1[i])
  }

  predicate LineParses(line: string, n: int) {
    ParseInstruction(line, n).Ok?
  }

  /** The instruction a line that parses stands for. */
  function Parsed(line: string, n: int): Instruction
    requires LineParses(line, n)
  {
    ParseInstruction(line, n).value
  }

  // ---------------------------------------------------------------------
  // Properties of one line
  // ---------------------------------------------------------------------

  /**
   * The operation token of a line that parses is not empty; the instruction
   * is inverted exactly when it starts with `r`, and the operation is the
   * token without that `r`.
   */
  lemma InversionFlag(line: string, n: int)
    requires LineParses(line, n)
    ensures var first, ins := SplitOn(line, ' ')[0], Parsed(line, n);
      && first != []
      && (ins.inverted <==> first[0] == 'r')
      && (if ins.inverted then "r" + ins.operation else ins.operation) == first
  {
    var first := SplitOn(line, ' ')[0];
    if first[0] == 'r' {
      assert "r" + first[1..] == first;
    }
  }

  /** `nop` and `jmp`, inverted or not, always parse, whatever follows, with arguments `(0, 1)`. */
  lemma ArgumentlessParses(line: string, n: int)
    requires var first := SplitOn(line, ' ')[0];
      Argumentless(first) || (first != [] && first[0] == 'r' && Argumentless(first[1..]))
    ensures ParseInstruction(line, n).Ok?
    ensures ParseInstruction(line, n).value.arg0 == 0 && ParseInstruction(line, n).value.arg1 == 1
  {
    var first := SplitOn(line, ' ')[0];
    if first[0] == 'r' {
      assert first[1..] == "nop" || first[1..] == "jmp";
    } else {
      assert first == "nop" || first == "jmp";
      assert first[1..] != "nop" && first[1..] != "jmp";
    }
  }

  /** `jz`, `U` and `jmp*` always store 1 as the offset; every two-register operation on `n >= 2` registers an offset below `n - 1`. */
  lemma OffsetRange(line: string, n: int)
    requires n >= 2
    requires ParseInstruction(line, n).Ok?
    ensures var ins := ParseInstruction(line, n).value;
      if ins.operation == "jz" || OneRegister(ins.operation) || Argumentless(ins.operation)
      then ins.arg1 == 1
      else 0 <= ins.arg1 < n - 1
  {
  }

  /**
   * Where the argument entries come from: `jz` reads its register from the
   * third token, every other operation with arguments from the second; a
   * two-register operation stores the offset of the third token's register,
   * or 0 when the line has no third token.
   */
  lemma OperandSources(line: string, n: int)
    requires LineParses(line, n)
    ensures var tokens, ins := SplitOn(line, ' '), Parsed(line, n);
      && (ins.operation == "jz" ==> |tokens| >= 3 && ParseInt(Drop1(tokens[2]), 10) == Some(ins.arg0))
      && (!Argumentless(ins.operation) && ins.operation != "jz" ==> |tokens| >= 2 && ParseInt(Drop1(tokens[1]), 10) == Some(ins.arg0))
      && (!Argumentless(ins.operation) && ins.operation != "jz" && !OneRegister(ins.operation) ==>
           if |tokens| > 2 then
             exists a1 :: ParseInt(Drop1(tokens[2]), 10) == Some(a1) && SecondOffset(ins.arg0, a1, n) == Ok(ins.arg1)
           else ins.arg1 == 0)
  {
    var tokens, ins := SplitOn(line, ' '), Parsed(line, n);
    if !Argumentless(ins.operation) && ins.operation != "jz" && !OneRegister(ins.operation) && |tokens| > 2 {
      var a1 := RegisterIndex(tokens[2]).value;
      assert ParseInt(Drop1(tokens[2]), 10) == Some(a1) && SecondOffset(ins.arg0, a1, n) == Ok(ins.arg1);
    }
  }

  /** A line starting with a space has an empty operation token, which cannot be indexed. */
  lemma LeadingSpaceFails(line: string, n: int)
    requires line != [] && line[0] == ' '
    ensures ParseInstruction(line, n) == Err(IndexError)
  {
    assert IndexOf(line, ' ') == 0;
  }
}
