/**
 * The Brainfuck interpreter (brainfuck/interpreter.c, brainfuck/interpreter.h).
 *
 * interpreter_run fetches the opcode at `pc` until `pc` runs past the end of
 * the stream. The tape is the 512-byte array `bp` and `sp` points into it;
 * the model keeps `sp - bp` as the integer `ptr`. A pointer move that leaves
 * the tape stops the run with ESTACK_OVERFLOW, and a jump whose target is
 * outside the stream trips the C `assert`.
 *
 * `Step` is one pass of the loop body and `Exec` the whole loop, bounded by
 * a fuel count since a Brainfuck program need not terminate. The class
 * `Interpreter` is proved against them. putchar and getchar are the
 * sequences `output` and `input`; getchar at end of input yields EOF, which
 * the `char` cell stores as 0xFF.
 */
module BfInterpreter {
  import opened BfBytes
  import opened BfParser

  /** RUNTIME_STACK_SIZE: the number of tape cells. */
  const TAPE_SIZE: nat := 512
  /** Return code of a pointer move off the tape. */
  const ESTACK_OVERFLOW: int := 2
  /** EOF (-1) stored in a `char`. */
  const EOF_BYTE: Byte := 0xFF

  /** Everything interpreter_run reads or changes, with `ptr` = sp - bp. */
  datatype Machine = Machine(pc: nat, ptr: int, cells: seq<Byte>, input: seq<Byte>, output: seq<Byte>)

  /**
   * How a step or a run ended: Running (only after a step), Finished (pc
   * reached the end, interpreter_run returns 0), StackOverflow (returns
   * ESTACK_OVERFLOW), AssertFailed (the C assert aborts the process), or
   * OutOfFuel (the model's bound on the number of steps ran out).
   */
  datatype Status = Running | Finished | StackOverflow | AssertFailed | OutOfFuel

  datatype Run = Run(status: Status, m: Machine)

  /** The state every step starts from: the whole tape, the pointer on it, pc at most the count. */
  predicate Sane(ops: seq<Opcode>, m: Machine)
  {
    |m.cells| == TAPE_SIZE && 0 <= m.ptr < TAPE_SIZE && m.pc <= |ops|
  }

  /** interpreter_new: pc 0, all cells zero, sp at the first cell. */
  function Initial(input: seq<Byte>): (m: Machine)
    ensures forall ops :: Sane(ops, m)
  {
    Machine(0, 0, Repeat<Byte>(0, TAPE_SIZE), input, [])
  }

  /** One getchar: the next input byte, or EOF once the input is exhausted. */
  function GetChar(input: seq<Byte>): Byte
  {
    if input == [] then EOF_BYTE else input[0]
  }

  function Rest(input: seq<Byte>): seq<Byte>
  {
    if input == [] then [] else input[1..]
  }

  /** `n` getchar calls each stored into the cell: the final cell and the unread input. */
  function GetChars(input: seq<Byte>, n: nat, cell: Byte): (Byte, seq<Byte>)
    decreases n
  {
    if n == 0 then (cell, input) else GetChars(Rest(input), n - 1, GetChar(input))
  }

  /** A taken LOOP_BEGIN or LOOP_END: assert the target, set pc to it, then pc += 1. */
  function Jump(ops: seq<Opcode>, m: Machine, target: nat): Run
  {
    if target < |ops| then Run(Running, m.(pc := target + 1)) else Run(AssertFailed, m)
  }

  /** One pass of interpreter_run's loop body, on the opcode at pc. */
  function Step(ops: seq<Opcode>, m: Machine): (r: Run)
    requires m.pc < |ops| && Sane(ops, m)
    ensures r.status == Running || r.status == StackOverflow || r.status == AssertFailed
    ensures r.status == Running ==> Sane(ops, r.m)
    ensures r.status == StackOverflow <==>
      (ops[m.pc].kind == IncrementPtr && m.ptr + ops[m.pc].operand >= TAPE_SIZE) ||
      (ops[m.pc].kind == DecrementPtr && m.ptr - ops[m.pc].operand < 0)
  {
    var op := ops[m.pc];
    var cell := m.cells[m.ptr];
    var next := m.pc + 1;
    match op.kind
    case IncrementPtr =>
      var p := m.ptr + op.operand;
      if p >= TAPE_SIZE then Run(StackOverflow, m.(ptr := p)) else Run(Running, m.(ptr := p, pc := next))
    case DecrementPtr =>
      var p := m.ptr - op.operand;
      if p < 0 then Run(StackOverflow, m.(ptr := p)) else Run(Running, m.(ptr := p, pc := next))
    case IncrementVal =>
      Run(Running, m.(cells := m.cells[m.ptr := (cell + op.operand) % 256], pc := next))
    case DecrementVal =>
      Run(Running, m.(cells := m.cells[m.ptr := (cell - op.operand) % 256], pc := next))
    case OutputVal =>
      Run(Running, m.(output := m.output + Repeat<Byte>(cell, op.operand), pc := next))
    case InputVal =>
      var (c, rest) := GetChars(m.input, op.operand, cell);
      Run(Running, m.(cells := m.cells[m.ptr := c], input := rest, pc := next))
    case LoopBegin =>
      if cell == 0 then Jump(ops, m, op.operand) else Run(Running, m.(pc := next))
    case LoopEnd =>
      if cell != 0 then Jump(ops, m, op.operand) else Run(Running, m.(pc := next))
  }

  /**
   * interpreter_run from `m`, allowed `fuel` passes of the loop body. A run
   * that ends by itself ends Finished, StackOverflow or AssertFailed.
   */
  function Exec(ops: seq<Opcode>, m: Machine, fuel: nat): (r: Run)
    requires Sane(ops, m)
    ensures r.status != Running
    ensures r.status == Finished ==> r.m.pc == |ops| && Sane(ops, r.m)
    ensures r.status == OutOfFuel ==> r.m.pc < |ops| && Sane(ops, r.m)
    decreases fuel
  {
    if m.pc >= |ops| then Run(Finished, m)
    else if fuel == 0 then Run(OutOfFuel, m)
    else
      var s := Step(ops, m);
      if s.status == Running then Exec(ops, s.m, fuel - 1) else s
  }

  // ---------------------------------------------------------------------
  // Properties of one step
  // ---------------------------------------------------------------------

  /** A pointer move that stays on the tape changes only the pointer, and pc moves on. */
  lemma PointerMove(ops: seq<Opcode>, m: Machine)
    requires m.pc < |ops| && Sane(ops, m)
    requires ops[m.pc].kind == IncrementPtr || ops[m.pc].kind == DecrementPtr
    ensures var d: int := if ops[m.pc].kind == IncrementPtr then ops[m.pc].operand as int else -(ops[m.pc].operand as int);
      var r := Step(ops, m);
      r.m.ptr == m.ptr + d &&
      (r.status == Running <==> 0 <= m.ptr + d < TAPE_SIZE) &&
      r.m.cells == m.cells && r.m.input == m.input && r.m.output == m.output &&
      r.m.pc == (if r.status == Running then m.pc + 1 else m.pc)
  {
  }

  /** `+` and `-` change only the current cell, by the operand modulo 256, and pc moves on. */
  lemma CellArithmetic(ops: seq<Opcode>, m: Machine)
    requires m.pc < |ops| && Sane(ops, m)
    requires ops[m.pc].kind == IncrementVal || ops[m.pc].kind == DecrementVal
    ensures var r := Step(ops, m);
      var d: int := if ops[m.pc].kind == IncrementVal then ops[m.pc].operand as int else -(ops[m.pc].operand as int);
      r.status == Running && r.m == m.(pc := m.pc + 1, cells := r.m.cells) &&
      (forall k :: 0 <= k < TAPE_SIZE && k != m.ptr ==> r.m.cells[k] == m.cells[k]) &&
      r.m.cells[m.ptr] == (m.cells[m.ptr] + d) % 256
  {
  }

  /** A `-` with the operand of the preceding `+` restores the tape. */
  lemma IncrementThenDecrement(ops: seq<Opcode>, m: Machine)
    requires m.pc + 1 < |ops| && Sane(ops, m)
    requires ops[m.pc].kind == IncrementVal && ops[m.pc + 1] == Opcode(DecrementVal, ops[m.pc].operand)
    ensures Step(ops, Step(ops, m).m).m.cells == m.cells
  {
    var m1 := Step(ops, m).m;
    var n := ops[m.pc].operand;
    var c := m.cells[m.ptr];
    assert m1.cells[m.ptr] == (c + n) % 256;
    ModInverse(c, n);
    assert Step(ops, m1).m.cells == m1.cells[m.ptr := c];
    assert m1.cells[m.ptr := c] == m.cells;
  }

  lemma ModInverse(c: Byte, n: nat)
    ensures ((c + n) % 256 - n) % 256 == c
  {
    var q := (c + n) / 256;
    assert (c + n) % 256 - n == c - 256 * q;
    assert (c - 256 * q) % 256 == c by {
      assert c - 256 * q == c + 256 * (-q);
    }
  }

  /** `.` writes the current cell `operand` times and changes nothing else. */
  lemma OutputRepeats(ops: seq<Opcode>, m: Machine)
    requires m.pc < |ops| && Sane(ops, m) && ops[m.pc].kind == OutputVal
    ensures var r := Step(ops, m);
      r.status == Running && r.m == m.(pc := m.pc + 1, output := r.m.output) &&
      |r.m.output| == |m.output| + ops[m.pc].operand &&
      r.m.output[..|m.output|] == m.output &&
      forall k :: |m.output| <= k < |r.m.output| ==> r.m.output[k] == m.cells[m.ptr]
  {
    var n := ops[m.pc].operand;
    assert (m.output + Repeat<Byte>(m.cells[m.ptr], n))[..|m.output|] == m.output;
  }

  /**
   * `,` consumes `operand` bytes of input; the cell keeps the last byte
   * read, or EOF when the input ran out first, and is unchanged for operand 0.
   */
  lemma {:induction false} GetCharsReads(input: seq<Byte>, n: nat, cell: Byte)
    ensures n == 0 ==> GetChars(input, n, cell) == (cell, input)
    ensures 0 < n <= |input| ==> GetChars(input, n, cell) == (input[n - 1], input[n..])
    ensures n > |input| ==> GetChars(input, n, cell) == (EOF_BYTE, [])
    decreases n
  {
    if n > 0 {
      GetCharsReads(Rest(input), n - 1, GetChar(input));
      if n <= |input| {
        assert input[1..][n - 1..] == input[n..];
      }
    }
  }

  /**
   * On a program the parser linked, a `[` on a zero cell resumes just past
   * its `]`, and a `]` on a nonzero cell resumes at the first opcode of
   * the loop body; neither ever trips the assert.
   */
  lemma LoopJumps(ops: seq<Opcode>, m: Machine)
    requires m.pc < |ops| && Sane(ops, m) && Linked(ops, 0)
    requires ops[m.pc].kind == LoopBegin || ops[m.pc].kind == LoopEnd
    ensures var r := Step(ops, m);
      var j := ops[m.pc].operand;
      var taken := if ops[m.pc].kind == LoopBegin then m.cells[m.ptr] == 0 else m.cells[m.ptr] != 0;
      r.status == Running && r.m == m.(pc := r.m.pc) &&
      (taken ==> j < |ops| && ops[j] == Opcode(if ops[m.pc].kind == LoopBegin then LoopEnd else LoopBegin, m.pc) &&
                 r.m.pc == j + 1) &&
      (!taken ==> r.m.pc == m.pc + 1)
  {
  }

  // ---------------------------------------------------------------------
  // Properties of a run
  // ---------------------------------------------------------------------

  /** A linked program never trips the jump assert. */
  lemma {:induction false} LinkedNeverAborts(ops: seq<Opcode>, m: Machine, fuel: nat)
    requires Sane(ops, m) && Linked(ops, 0)
    ensures Exec(ops, m, fuel).status != AssertFailed
    decreases fuel
  {
    if m.pc < |ops| && fuel > 0 {
      var s := Step(ops, m);
      if ops[m.pc].kind == LoopBegin || ops[m.pc].kind == LoopEnd {
        LoopJumps(ops, m);
      }
      if s.status == Running {
        LinkedNeverAborts(ops, s.m, fuel - 1);
      }
    }
  }

  /** More fuel does not change a run that ended by itself. */
  lemma {:induction false} FuelMonotone(ops: seq<Opcode>, m: Machine, fuel: nat, more: nat)
    requires Sane(ops, m) && fuel <= more && Exec(ops, m, fuel).status != OutOfFuel
    ensures Exec(ops, m, more) == Exec(ops, m, fuel)
    decreases fuel
  {
    if m.pc < |ops| {
      var s := Step(ops, m);
      if s.status == Running {
        FuelMonotone(ops, s.m, fuel - 1, more - 1);
      }
    }
  }

  /**
   * interpreter_t with the opcode vec replaced by its contents. `ptr` may
   * lie off the tape only after a run stopped with StackOverflow.
   */
  class Interpreter {
    const opcodes: seq<Opcode>
    var pc: nat
    const bp: array<Byte>
    var ptr: int
    var input: seq<Byte>
    var output: seq<Byte>

    function State(): Machine
      reads this, bp
    {
      Machine(pc, ptr, bp[..], input, output)
    }

    /** interpreter_new, with the input the program will read. */
    constructor (ops: seq<Opcode>, stdin: seq<Byte>)
      ensures opcodes == ops && State() == Initial(stdin) && fresh(bp)
    {
      opcodes := ops;
      pc := 0;
      bp := new Byte[TAPE_SIZE](_ => 0);
      ptr := 0;
      input := stdin;
      output := [];
      new;
      assert bp[..] == Repeat<Byte>(0, TAPE_SIZE);
    }

    /** The write loop of OUTPUT_VAL: putchar the current cell `n` times. */
    method PutChars(n: nat)
      requires bp.Length == TAPE_SIZE && 0 <= ptr < TAPE_SIZE
      modifies this
      ensures pc == old(pc) && ptr == old(ptr) && input == old(input)
      ensures output == old(output) + Repeat(bp[ptr], n)
    {
      var i := 0;
      while i < n
        invariant i <= n && ptr == old(ptr) && pc == old(pc) && input == old(input)
        invariant output + Repeat(bp[ptr], n - i) == old(output) + Repeat(bp[ptr], n)
      {
        output := output + [bp[ptr]];
        i := i + 1;
      }
    }

    /** The read loop of INPUT_VAL: getchar into the current cell `n` times. */
    method ReadChars(n: nat)
      requires bp.Length == TAPE_SIZE && 0 <= ptr < TAPE_SIZE
      modifies this, bp
      ensures pc == old(pc) && ptr == old(ptr) && output == old(output)
      ensures (bp[ptr], input) == GetChars(old(input), n, old(bp[ptr]))
      ensures bp[..] == old(bp[..])[ptr := bp[ptr]]
    {
      var i := 0;
      while i < n
        invariant i <= n && ptr == old(ptr) && pc == old(pc) && output == old(output)
        invariant bp[..] == old(bp[..])[ptr := bp[ptr]]
        invariant GetChars(input, n - i, bp[ptr]) == GetChars(old(input), n, old(bp[ptr]))
      {
        var c := GetChar(input);
        input := Rest(input);
        bp[ptr] := c;
        i := i + 1;
      }
    }

    /** One pass of the loop body: dispatch on the opcode at pc. */
    method Execute() returns (status: Status)
      requires pc < |opcodes| && Sane(opcodes, State())
      modifies this, bp
      ensures Run(status, State()) == Step(opcodes, old(State()))
    {
      var op := opcodes[pc];
      match op.kind {
        case IncrementPtr =>
          ptr := ptr + op.operand;
          if ptr >= TAPE_SIZE {
            return StackOverflow;
          }
        case DecrementPtr =>
          ptr := ptr - op.operand;
          if ptr < 0 {
            return StackOverflow;
          }
        case IncrementVal =>
          bp[ptr] := (bp[ptr] + op.operand) % 256;
        case DecrementVal =>
          bp[ptr] := (bp[ptr] - op.operand) % 256;
        case OutputVal =>
          PutChars(op.operand);
        case InputVal =>
          ReadChars(op.operand);
        case LoopBegin =>
          if bp[ptr] == 0 {
            if op.operand >= |opcodes| {
              return AssertFailed;
            }
            pc := op.operand;
          }
        case LoopEnd =>
          if bp[ptr] != 0 {
            if op.operand >= |opcodes| {
              return AssertFailed;
            }
            pc := op.operand;
          }
      }
      pc := pc + 1;
      return Running;
    }

    /**
     * interpreter_run, allowed `fuel` passes of its loop. It returns 0
     * (Finished) exactly when pc has reached the end of the opcodes.
     */
    method RunFor(fuel: nat) returns (status: Status)
      requires Sane(opcodes, State())
      modifies this, bp
      ensures Run(status, State()) == Exec(opcodes, old(State()), fuel)
    {
      var f := fuel;
      while pc < |opcodes|
        invariant Sane(opcodes, State())
        invariant Exec(opcodes, State(), f) == Exec(opcodes, old(State()), fuel)
        decreases f
      {
        if f == 0 {
          return OutOfFuel;
        }
        status := Execute();
        if status != Running {
          return status;
        }
        f := f - 1;
      }
      return Finished;
    }
  }
}
