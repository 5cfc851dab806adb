/**
 * The Brainfuck-to-x86-64 compiler (brainfuck/compiler.c, brainfuck/compiler.h).
 *
 * compiler_compile appends machine code to the `code` vec: a fixed
 * prologue, one instruction group per opcode, and an exit epilogue. While
 * it goes it records in `table` where each opcode's group starts; a `]`
 * uses the table to compute its backward `jmp` and to patch the forward
 * `jz` of its `[`.
 *
 * The specification side is `Offset` (where group i starts), `Encoding`
 * (the bytes of one group, given its jump field) and `Rel` (that jump
 * field once the opcodes before some index have been emitted). `Laid`
 * says the code holds every group emitted so far at its offset, and
 * `Compiles` says so of the whole output, between prologue and epilogue;
 * `CompilesUnique` shows that this pins the output down.
 * `Compiler.Compile` is proved to produce code satisfying `Compiles`, and
 * `BackwardJump` / `ForwardJump` state where the jumps in that code land.
 */
module BfCompiler {
  import opened Wrappers
  import opened BfBytes
  import opened BfVec
  import opened BfParser

  /** Cells of the Brainfuck tape, allocated on the stack by the prologue. */
  const RUNTIME_STACK_SIZE: nat := 512
  /** Linux x86-64 system call numbers. */
  const SYS_READ: nat := 0
  const SYS_WRITE: nat := 1
  const SYS_EXIT: nat := 60

  // ---------------------------------------------------------------------
  // The bytes of each instruction group
  // ---------------------------------------------------------------------

  /**
   * compiler_asm_syscall: load the call number into eax (`31 C0` is
   * `xor eax, eax`, `B8 id` is `mov eax, imm32`), then `0F 05` (syscall).
   */
  function SyscallBytes(n: nat): (r: seq<Byte>)
    ensures |r| == (if n == 0 then 4 else 7)
    ensures r[|r| - 2..] == [0x0F, 0x05]
  {
    (if n == 0 then [0x31, 0xC0] else [0xB8] + LittleEndian(4, n)) + [0x0F, 0x05]
  }

  /** sub rsp, 512; mov rsi, rsp: reserve the tape and point rsi at it. */
  function StackAlloc(): (r: seq<Byte>)
    ensures |r| == 10
  {
    [0x48, 0x81, 0xEC] + LittleEndian(4, RUNTIME_STACK_SIZE) + [0x48, 0x89, 0xE6]
  }

  /** mov ecx, 512; xor al, al; mov rdi, rsp; rep stosb: zero the tape. */
  function StackZero(): (r: seq<Byte>)
    ensures |r| == 12
  {
    [0xB9] + LittleEndian(4, RUNTIME_STACK_SIZE) + [0x30, 0xC0] + [0x48, 0x89, 0xE7] + [0xF3, 0xAA]
  }

  /** The code before the first group; it ends with mov edx, 1 (the count of every read and write). */
  function Prologue(): (r: seq<Byte>)
    ensures |r| == 27
  {
    StackAlloc() + StackZero() + [0xBA, 0x01, 0x00, 0x00, 0x00]
  }

  /** The prologue reserves RUNTIME_STACK_SIZE bytes and zeroes as many: 512 appears twice as an imm32. */
  lemma {:induction false} PrologueStackSize()
    ensures Prologue()[..3] == [0x48, 0x81, 0xEC] && FromLittleEndian(Prologue()[3..7]) == RUNTIME_STACK_SIZE
    ensures Prologue()[10] == 0xB9 && FromLittleEndian(Prologue()[11..15]) == RUNTIME_STACK_SIZE
  {
    var imm := LittleEndian(4, RUNTIME_STACK_SIZE);
    LittleEndianRoundTrip(4, RUNTIME_STACK_SIZE);
    assert Prologue()[..10] == StackAlloc();
    assert Prologue()[10..22] == StackZero();
    assert StackAlloc()[3..7] == imm;
    assert StackZero()[1..5] == imm;
    assert Prologue()[3..7] == imm;
    assert Prologue()[11..15] == imm;
  }

  /** xor rdi, rdi; then exit(rdi). */
  function Epilogue(): (r: seq<Byte>)
    ensures |r| == 10
    ensures r == [0x48, 0x31, 0xFF, 0xB8, 60, 0, 0, 0, 0x0F, 0x05]
  {
    [0x48, 0x31, 0xFF] + SyscallBytes(SYS_EXIT)
  }

  /** The size of the instruction group of `op`: wide forms take a 4-byte immediate. */
  function Length(op: Opcode): nat
  {
    match op.kind
    case IncrementPtr => if op.operand <= 255 then 4 else 7
    case DecrementPtr => if op.operand <= 255 then 4 else 7
    case IncrementVal => if op.operand <= 255 then 3 else 6
    case DecrementVal => if op.operand <= 255 then 3 else 6
    case OutputVal => 12
    case InputVal => 7
    case LoopBegin => 9
    case LoopEnd => 5
  }

  /** The instruction constant compiler_compile passes to compiler_asm_ins for a folded opcode. */
  function ArithIns(op: Opcode): nat
    requires IsFoldedKind(op.kind)
  {
    var narrow := op.operand <= 255;
    match op.kind
    case IncrementPtr => if narrow then 0x4883C6 else 0x4881C6
    case DecrementPtr => if narrow then 0x4883EE else 0x4881EE
    case IncrementVal => if narrow then 0x8006 else 0x8306
    case DecrementVal => if narrow then 0x802E else 0x832E
  }

  /** How many bytes of ArithIns(op) are emitted: REX.W-prefixed forms on rsi take 3. */
  function ArithSize(k: OpKind): nat
  {
    if k == IncrementPtr || k == DecrementPtr then 3 else 2
  }

  /** The opcode bytes of a folded group: `add`/`sub` on rsi, or on the byte at [rsi]. */
  function ArithOpcode(op: Opcode): (r: seq<Byte>)
    requires IsFoldedKind(op.kind)
    ensures |r| == ArithSize(op.kind)
  {
    var narrow := op.operand <= 255;
    match op.kind
    case IncrementPtr => [0x48, if narrow then 0x83 else 0x81, 0xC6]
    case DecrementPtr => [0x48, if narrow then 0x83 else 0x81, 0xEE]
    case IncrementVal => [if narrow then 0x80 else 0x83, 0x06]
    case DecrementVal => [if narrow then 0x80 else 0x83, 0x2E]
  }

  /** compiler_asm_ins spells each arithmetic constant as the intended opcode bytes. */
  lemma {:induction false} ArithInsBytes(op: Opcode)
    requires IsFoldedKind(op.kind)
    ensures BigEndian(ArithSize(op.kind), ArithIns(op)) == ArithOpcode(op)
  {
    if op.operand <= 255 {
      match op.kind
      case IncrementPtr => assert BigEndian(3, 0x4883C6) == [0x48, 0x83, 0xC6];
      case DecrementPtr => assert BigEndian(3, 0x4883EE) == [0x48, 0x83, 0xEE];
      case IncrementVal => assert BigEndian(2, 0x8006) == [0x80, 0x06];
      case DecrementVal => assert BigEndian(2, 0x802E) == [0x80, 0x2E];
    } else {
      match op.kind
      case IncrementPtr => assert BigEndian(3, 0x4881C6) == [0x48, 0x81, 0xC6];
      case DecrementPtr => assert BigEndian(3, 0x4881EE) == [0x48, 0x81, 0xEE];
      case IncrementVal => assert BigEndian(2, 0x8306) == [0x83, 0x06];
      case DecrementVal => assert BigEndian(2, 0x832E) == [0x83, 0x2E];
    }
  }

  /**
   * The instruction group compiler_compile emits for `op`. `rel` is the
   * rel32 field of the `jz` of a `[` or of the `jmp` of a `]`. An operand
   * above 255 gets the `81`/`83` form and the low 4 bytes of the operand;
   * for the cell operations that form is `83 /0 ib` / `83 /5 ib` followed
   * by 4 bytes, which is kept as emitted.
   */
  function Encoding(op: Opcode, rel: int): (r: seq<Byte>)
    ensures |r| == Length(op)
  {
    match op.kind
    case OutputVal => [0xBF, 0x01, 0x00, 0x00, 0x00] + SyscallBytes(SYS_WRITE)
    case InputVal => [0x48, 0x31, 0xFF] + SyscallBytes(SYS_READ)
    case LoopBegin => [0x80, 0x3E, 0x00, 0x0F, 0x84] + LittleEndian(4, rel)
    case LoopEnd => [0xE9] + LittleEndian(4, rel)
    case _ => ArithOpcode(op) + LittleEndian(if op.operand <= 255 then 1 else 4, op.operand)
  }

  // ---------------------------------------------------------------------
  // What the pointer groups do
  // ---------------------------------------------------------------------

  /** The move of the tape pointer interpreter.c makes for a `>` or `<` run: the operand, forward or back. */
  function PointerStep(op: Opcode): int
  {
    if op.kind == IncrementPtr then op.operand else -(op.operand as int)
  }

  /**
   * How far an x86-64 `add rsi` / `sub rsi` moves rsi: `48 83 C6 ib` and
   * `48 83 EE ib` add or subtract their byte sign-extended, `48 81 C6 id`
   * and `48 81 EE id` their doubleword sign-extended. None for any other
   * bytes.
   */
  function RsiDelta(ins: seq<Byte>): Option<int>
  {
    var narrow := |ins| == 4 && ins[1] == 0x83;
    var wide := |ins| == 7 && ins[1] == 0x81;
    if !(narrow || wide) || ins[0] != 0x48 || (ins[2] != 0xC6 && ins[2] != 0xEE) then None
    else
      var u := FromLittleEndian(ins[3..]);
      var imm := if narrow then (if u >= 0x80 then u - 0x100 else u) else (if u >= 0x8000_0000 then u - U32 else u);
      Some(if ins[2] == 0xC6 then imm else -imm)
  }

  /**
   * The compiled pointer group moves the pointer as interpreter.c does
   * exactly when the operand is below 2^31 and not in 128..255. Operands in
   * 128..255 get the imm8 form, whose byte the processor sign-extends, so
   * the pointer moves by operand - 256 instead; from 2^31 on, the imm32
   * form keeps the low 32 bits of the size_t, sign-extended.
   */
  lemma PointerGroupAsWritten(op: Opcode)
    requires op.kind == IncrementPtr || op.kind == DecrementPtr
    ensures RsiDelta(Encoding(op, 0)) == Some(PointerStep(op)) <==> !(128 <= op.operand <= 255) && op.operand < 0x8000_0000
    ensures 128 <= op.operand <= 255 ==>
      RsiDelta(Encoding(op, 0)) == Some(if op.kind == IncrementPtr then op.operand - 256 else 256 - op.operand)
    ensures op.operand >= 0x8000_0000 ==>
      RsiDelta(Encoding(op, 0)) == Some(if op.kind == IncrementPtr then Low32Signed(op.operand) else -Low32Signed(op.operand))
  {
    if op.operand <= 255 {
      NarrowDelta(op);
    } else {
      WideDelta(op);
      var w := op.operand % U32;
      assert 0 <= w < U32;
      assert op.operand < 0x8000_0000 ==> w == op.operand;
      assert -0x8000_0000 <= Low32Signed(op.operand) < 0x8000_0000;
    }
  }

  /** An operand up to 255 gets the `48 83` form, which moves rsi by its byte, sign-extended. */
  lemma NarrowDelta(op: Opcode)
    requires (op.kind == IncrementPtr || op.kind == DecrementPtr) && op.operand <= 255
    ensures var imm := if op.operand >= 0x80 then op.operand - 0x100 else op.operand;
      RsiDelta(Encoding(op, 0)) == Some(if op.kind == IncrementPtr then imm else -imm)
  {
    LittleEndianRoundTrip(1, op.operand);
    assert Encoding(op, 0)[3..] == LittleEndian(1, op.operand);
  }

  /** The low 32 bits of x as a two's-complement doubleword: what the processor sign-extends. */
  function Low32Signed(x: int): int
  {
    var w := x % U32;
    if w >= 0x8000_0000 then w - U32 else w
  }

  /** An operand above 255 gets the imm32 form, which moves rsi by its low 32 bits, sign-extended. */
  lemma WideDelta(op: Opcode)
    requires (op.kind == IncrementPtr || op.kind == DecrementPtr) && op.operand > 255
    ensures RsiDelta(Encoding(op, 0)) == Some(if op.kind == IncrementPtr then Low32Signed(op.operand) else -Low32Signed(op.operand))
  {
    var e := Encoding(op, 0);
    assert Pow256(4) == U32;
    LittleEndianWrap(4, op.operand);
    LittleEndianRoundTrip(4, op.operand % U32);
    assert e[3..] == LittleEndian(4, op.operand % U32);
  }

  /** The pointer group as evidently intended: the imm8 form only up to 127, which sign extension keeps. */
  function PointerGroupFixed(op: Opcode): (r: seq<Byte>)
  {
    var narrow := op.operand <= 127;
    [0x48, if narrow then 0x83 else 0x81, if op.kind == IncrementPtr then 0xC6 else 0xEE]
    + LittleEndian(if narrow then 1 else 4, op.operand)
  }

  /** The corrected pointer group moves the pointer by the operand, as interpreter.c does, for every operand below 2^31. */
  lemma PointerGroupFixedMoves(op: Opcode)
    requires (op.kind == IncrementPtr || op.kind == DecrementPtr) && op.operand < 0x8000_0000
    ensures RsiDelta(PointerGroupFixed(op)) == Some(PointerStep(op))
  {
    var e := PointerGroupFixed(op);
    if op.operand <= 127 {
      LittleEndianRoundTrip(1, op.operand);
      assert e[3..] == LittleEndian(1, op.operand);
    } else {
      assert Pow256(4) == U32;
      LittleEndianRoundTrip(4, op.operand);
      assert e[3..] == LittleEndian(4, op.operand);
    }
  }

  // ---------------------------------------------------------------------
  // Layout of the whole program
  // ---------------------------------------------------------------------

  /** Where the group of opcode i starts, the first group starting at `start`: table[i]. */
  function Offset(ops: seq<Opcode>, start: nat, i: nat): (o: nat)
    requires i <= |ops|
    ensures o >= start
  {
    if i == 0 then start else Offset(ops, start, i - 1) + Length(ops[i - 1])
  }

  /**
   * The rel32 field of the group of opcode k once the opcodes before
   * `done` have been emitted: a `]` jumps back to its `[`; a `[` jumps
   * just past its `]` once that has been emitted, and holds 0 before.
   * Both are signed differences; the field stores them as uint32, which
   * LittleEndian does for a negative value. (An operand past the end,
   * which a linked sequence never has, gives 0.)
   */
  ghost function Rel(ops: seq<Opcode>, start: nat, k: nat, done: nat): int
    requires k < |ops|
  {
    var j := ops[k].operand;
    if j >= |ops| then 0
    else if ops[k].kind == LoopBegin then
      if j < done then Offset(ops, start, j) + 5 - (Offset(ops, start, k) + 9) else 0
    else if ops[k].kind == LoopEnd then
      Offset(ops, start, j) - (Offset(ops, start, k) + 5)
    else 0
  }


  /** `s` with the bytes at `at` overwritten by `x` (the memcpy of the patch). */
  function Splice(s: seq<Byte>, at: nat, x: seq<Byte>): (r: seq<Byte>)
    requires at + |x| <= |s|
    ensures |r| == |s|
  {
    s[..at] + x + s[at + |x|..]
  }

  /** table[k] holds where group k starts, for every k < n. */
  ghost predicate TableHolds(table: array<nat>, ops: seq<Opcode>, start: nat, n: nat)
    reads table
  {
    n <= table.Length && n <= |ops| && forall k :: 0 <= k < n ==> table[k] == Offset(ops, start, k)
  }

  /** The `]` at d closes the `[` at p, and no other `[` names d. */
  ghost predicate ClosesAt(ops: seq<Opcode>, d: nat, p: nat)
  {
    p < d < |ops| && ops[d] == Opcode(LoopEnd, p) && ops[p] == Opcode(LoopBegin, d) &&
    forall k :: 0 <= k < |ops| && k != p && ops[k].kind == LoopBegin ==> ops[k].operand != d
  }


  // ---------------------------------------------------------------------
  // Properties of the layout
  // ---------------------------------------------------------------------

  /** In a linked sequence every `]` closes exactly the `[` it names. */
  lemma {:induction false} LinkedCloses(ops: seq<Opcode>, d: nat)
    requires Linked(ops, 0) && d < |ops| && ops[d].kind == LoopEnd
    ensures ClosesAt(ops, d, ops[d].operand)
  {
    forall k | 0 <= k < |ops| && k != ops[d].operand && ops[k].kind == LoopBegin
      ensures ops[k].operand != d
    {
      assert ops[ops[k].operand] == Opcode(LoopEnd, k);
    }
  }

  /** In a linked sequence no `[` names an opcode other than a `]`. */
  lemma {:induction false} LinkedOpensOnlyEnds(ops: seq<Opcode>, d: nat)
    requires Linked(ops, 0) && d < |ops| && ops[d].kind != LoopEnd
    ensures forall k :: 0 <= k < |ops| && ops[k].kind == LoopBegin ==> ops[k].operand != d
  {
    forall k | 0 <= k < |ops| && ops[k].kind == LoopBegin
      ensures ops[k].operand != d
    {
      assert ops[ops[k].operand].kind == LoopEnd;
    }
  }

  /** Groups are laid out one after another. */
  lemma {:induction false} OffsetMonotone(ops: seq<Opcode>, start: nat, k: nat, l: nat)
    requires k < l <= |ops|
    ensures Offset(ops, start, k) + Length(ops[k]) <= Offset(ops, start, l)
    decreases l
  {
    if l > k + 1 {
      OffsetMonotone(ops, start, k, l - 1);
    }
  }


  /** Filling in the jump of a `[` changes its group only in the rel32 field. */
  lemma {:induction false} PatchLoopBegin(op: Opcode, rel: int)
    requires op.kind == LoopBegin
    ensures Encoding(op, rel) == Splice(Encoding(op, 0), 5, LittleEndian(4, rel))
  {
  }


  /**
   * The uint32 displacement compiler_compile gives the `jmp` of the `]`
   * at d, whose `[` is p, from tp == table[p] and the code length len
   * before the `jmp`: its bytes are those of Rel(d).
   */
  lemma {:induction false} JmpArith(ops: seq<Opcode>, start: nat, d: nat, p: nat, tp: nat, len: nat)
    requires ClosesAt(ops, d, p)
    requires tp == Offset(ops, start, p) && len == Offset(ops, start, d)
    ensures LittleEndian(4, (tp - (len + 5)) % 0x1_0000_0000) == LittleEndian(4, Rel(ops, start, d, d))
  {
    assert Pow256(4) == 0x1_0000_0000;
    LittleEndianWrap(4, tp - (len + 5));
  }

  /**
   * The patch arithmetic for the same `]`, from the code length `after`
   * once its `jmp` is emitted: the `jz` field of p starts 5 bytes into p's
   * group, and the value written there is Rel(p) once d is done.
   */
  lemma {:induction false} PatchArith(ops: seq<Opcode>, start: nat, d: nat, p: nat, tp: nat, after: nat)
    requires ClosesAt(ops, d, p) && Offset(ops, start, |ops|) < U32
    requires tp == Offset(ops, start, p) && after == Offset(ops, start, d) + 5
    ensures (tp + 5) % 0x1_0000_0000 == Offset(ops, start, p) + 5
    ensures (after - tp - 9) % 0x1_0000_0000 == Rel(ops, start, p, d + 1)
  {
    OffsetMonotone(ops, start, p, d);
    OffsetMonotone(ops, start, d, |ops|);
    SmallMod(tp + 5);
    SmallMod(after - tp - 9);
  }


  // ---------------------------------------------------------------------
  // The code, group by group
  // ---------------------------------------------------------------------

  /**
   * Code c holds the group of opcode k where the layout puts it, with the
   * jump field it has once the opcodes before `done` have been emitted.
   */
  ghost predicate GroupDone(c: seq<Byte>, ops: seq<Opcode>, start: nat, k: nat, done: nat)
    requires k < |ops|
  {
    Offset(ops, start, k + 1) <= |c| &&
    c[Offset(ops, start, k)..Offset(ops, start, k + 1)] == Encoding(ops[k], Rel(ops, start, k, done))
  }

  /**
   * Code c is `start` bytes followed by the groups of opcodes 0 .. n-1, as
   * they stand once those n opcodes have been emitted.
   */
  ghost predicate Laid(c: seq<Byte>, ops: seq<Opcode>, start: nat, n: nat)
    requires n <= |ops|
  {
    |c| == Offset(ops, start, n) && forall k :: 0 <= k < n ==> GroupDone(c, ops, start, k, n)
  }

  /** Code c holds the final group of opcode k where the layout puts it. */
  ghost predicate GroupIn(c: seq<Byte>, ops: seq<Opcode>, start: nat, k: nat)
    requires k < |ops|
  {
    GroupDone(c, ops, start, k, |ops|)
  }

  /**
   * c is what compiler_compile leaves in a code vec that held `pre`: the
   * prologue, the final group of every opcode at its offset, the epilogue.
   */
  ghost predicate Compiles(pre: seq<Byte>, ops: seq<Opcode>, c: seq<Byte>)
  {
    var start := |pre| + 27;
    var end := Offset(ops, start, |ops|);
    |c| == end + 10 && c[..|pre|] == pre && c[|pre|..start] == Prologue() &&
    (forall k :: 0 <= k < |ops| ==> GroupIn(c, ops, start, k)) &&
    c[end..] == Epilogue()
  }

  lemma {:induction false} TakeOfAppend(c: seq<Byte>, e: seq<Byte>, n: nat)
    requires n <= |c|
    ensures (c + e)[..n] == c[..n]
  {
  }

  lemma {:induction false} SliceOfAppend(c: seq<Byte>, e: seq<Byte>, lo: nat, hi: nat)
    requires lo <= hi <= |c|
    ensures (c + e)[lo..hi] == c[lo..hi]
  {
  }

  lemma {:induction false} SliceOfTail(c: seq<Byte>, e: seq<Byte>, lo: nat, hi: nat)
    requires lo == |c| && hi == |c| + |e|
    ensures (c + e)[lo..hi] == e
  {
  }

  lemma {:induction false} TakeOfSplice(c: seq<Byte>, at: nat, x: seq<Byte>, n: nat)
    requires at + |x| <= |c| && n <= at
    ensures Splice(c, at, x)[..n] == c[..n]
  {
  }

  /** A slice clear of a splice is untouched by it. */
  lemma {:induction false} SliceBesideSplice(c: seq<Byte>, at: nat, x: seq<Byte>, lo: nat, hi: nat)
    requires at + |x| <= |c| && lo <= hi <= |c| && (hi <= at || at + |x| <= lo)
    ensures Splice(c, at, x)[lo..hi] == c[lo..hi]
  {
  }

  /** A slice around a splice is that slice, spliced. */
  lemma {:induction false} SliceAroundSplice(c: seq<Byte>, at: nat, x: seq<Byte>, lo: nat, hi: nat, off: nat)
    requires lo <= at && at + |x| <= hi <= |c| && off == at - lo
    ensures Splice(c, at, x)[lo..hi] == Splice(c[lo..hi], off, x)
  {
  }

  /**
   * Emitting an opcode other than `]`, which no `[` names, appends its
   * group with a zero jump field and leaves every earlier group as it was.
   */
  lemma {:induction false} LaidPlain(ops: seq<Opcode>, start: nat, i: nat, c: seq<Byte>)
    requires i < |ops| && ops[i].kind != LoopEnd
    requires ops[i].kind == LoopBegin ==> i < ops[i].operand
    requires forall k :: 0 <= k < |ops| && ops[k].kind == LoopBegin ==> ops[k].operand != i
    requires Laid(c, ops, start, i)
    ensures Laid(c + Encoding(ops[i], 0), ops, start, i + 1)
    ensures (c + Encoding(ops[i], 0))[..start] == c[..start]
  {
    var e := Encoding(ops[i], 0);
    var c2, n := c + e, i + 1;
    forall k | 0 <= k < n
      ensures GroupDone(c2, ops, start, k, n)
    {
      if k == i {
        SliceOfTail(c, e, Offset(ops, start, i), Offset(ops, start, i + 1));
        assert Rel(ops, start, i, i + 1) == 0;
      } else {
        assert GroupDone(c, ops, start, k, i);
        SliceOfAppend(c, e, Offset(ops, start, k), Offset(ops, start, k + 1));
        assert Rel(ops, start, k, i + 1) == Rel(ops, start, k, i);
      }
    }
    TakeOfAppend(c, e, start);
  }

  /** Emitting the `]` at d, whose `[` is p, leaves the group of every other k < d as it was. */
  lemma {:induction false} LaidKept(ops: seq<Opcode>, start: nat, d: nat, p: nat, c: seq<Byte>, jmp: seq<Byte>, x: seq<Byte>, c2: seq<Byte>, k: nat)
    requires ClosesAt(ops, d, p) && Laid(c, ops, start, d) && k < d && k != p
    requires Offset(ops, start, p) + 9 <= |c| && |x| == 4
    requires c2 == Splice(c + jmp, Offset(ops, start, p) + 5, x)
    ensures GroupDone(c2, ops, start, k, d + 1)
  {
    assert GroupDone(c, ops, start, k, d);
    if k < p {
      OffsetMonotone(ops, start, k, p);
    } else {
      OffsetMonotone(ops, start, p, k);
    }
    SliceOfAppend(c, jmp, Offset(ops, start, k), Offset(ops, start, k + 1));
    SliceBesideSplice(c + jmp, Offset(ops, start, p) + 5, x, Offset(ops, start, k), Offset(ops, start, k + 1));
    assert Rel(ops, start, k, d + 1) == Rel(ops, start, k, d);
  }

  /** Emitting the `]` at d fills in the jump field of the group of its `[` at p. */
  lemma {:induction false} LaidOpened(ops: seq<Opcode>, start: nat, d: nat, p: nat, c: seq<Byte>, jmp: seq<Byte>, x: seq<Byte>, c2: seq<Byte>)
    requires ClosesAt(ops, d, p) && Laid(c, ops, start, d)
    requires x == LittleEndian(4, Rel(ops, start, p, d + 1))
    requires Offset(ops, start, p) + 9 <= |c|
    requires c2 == Splice(c + jmp, Offset(ops, start, p) + 5, x)
    ensures GroupDone(c2, ops, start, p, d + 1)
  {
    assert GroupDone(c, ops, start, p, d);
    SliceOfAppend(c, jmp, Offset(ops, start, p), Offset(ops, start, p + 1));
    SliceAroundSplice(c + jmp, Offset(ops, start, p) + 5, x, Offset(ops, start, p), Offset(ops, start, p + 1), 5);
    assert Rel(ops, start, p, d) == 0;
    PatchLoopBegin(ops[p], Rel(ops, start, p, d + 1));
  }

  /** The `jmp` of the `]` at d is its group, and the patch does not reach it. */
  lemma {:induction false} LaidClosed(ops: seq<Opcode>, start: nat, d: nat, p: nat, c: seq<Byte>, jmp: seq<Byte>, x: seq<Byte>, c2: seq<Byte>)
    requires ClosesAt(ops, d, p) && Laid(c, ops, start, d)
    requires jmp == [0xE9] + LittleEndian(4, Rel(ops, start, d, d))
    requires Offset(ops, start, p) + 9 <= |c| && |x| == 4
    requires c2 == Splice(c + jmp, Offset(ops, start, p) + 5, x)
    ensures GroupDone(c2, ops, start, d, d + 1)
  {
    SliceOfTail(c, jmp, Offset(ops, start, d), Offset(ops, start, d + 1));
    SliceBesideSplice(c + jmp, Offset(ops, start, p) + 5, x, Offset(ops, start, d), Offset(ops, start, d + 1));
    assert Rel(ops, start, d, d + 1) == Rel(ops, start, d, d);
  }

  /** Where the `[` of the `]` at d lies in code laid out up to d, and how long the code gets. */
  lemma {:induction false} LoopEndBounds(ops: seq<Opcode>, start: nat, d: nat, p: nat, c: seq<Byte>)
    requires ClosesAt(ops, d, p) && Offset(ops, start, |ops|) < U32 && Laid(c, ops, start, d)
    ensures Offset(ops, start, p) + 9 <= |c| && |c| + 5 < U32
  {
    OffsetMonotone(ops, start, p, d);
    OffsetMonotone(ops, start, d, |ops|);
  }

  /**
   * The `]` step of compiler_compile, from tp == table[p] and the uint32
   * arithmetic of its `jmp` and its patch: appending the `jmp` of the `]`
   * at d and writing the forward distance over the `jz` field of its `[`
   * at p lays out every group up to and including d, and keeps the bytes
   * before the first group.
   */
  lemma {:induction false} LaidLoopEnd(ops: seq<Opcode>, start: nat, d: nat, p: nat, c: seq<Byte>, tp: nat, c2: seq<Byte>)
    requires ClosesAt(ops, d, p) && Offset(ops, start, |ops|) < U32 && Laid(c, ops, start, d)
    requires tp == Offset(ops, start, p) && tp + 9 <= |c|
    requires c2 == Splice(c + ([0xE9] + LittleEndian(4, (tp - (|c| + 5)) % 0x1_0000_0000)), tp + 5,
                          LittleEndian(4, (|c| + 5 - tp - 9) % 0x1_0000_0000))
    ensures Laid(c2, ops, start, d + 1) && c2[..start] == c[..start]
  {
    var delta := (tp - (|c| + 5)) % 0x1_0000_0000;
    var patch := (|c| + 5 - tp - 9) % 0x1_0000_0000;
    var jmp, x := [0xE9] + LittleEndian(4, delta), LittleEndian(4, patch);
    assert jmp == [0xE9] + LittleEndian(4, Rel(ops, start, d, d)) by {
      JmpArith(ops, start, d, p, tp, |c|);
    }
    assert x == LittleEndian(4, Rel(ops, start, p, d + 1)) by {
      PatchArith(ops, start, d, p, tp, |c| + 5);
    }
    var n := d + 1;
    forall k | 0 <= k < n
      ensures GroupDone(c2, ops, start, k, n)
    {
      if k == d {
        LaidClosed(ops, start, d, p, c, jmp, x, c2);
      } else if k == p {
        LaidOpened(ops, start, d, p, c, jmp, x, c2);
      } else {
        LaidKept(ops, start, d, p, c, jmp, x, c2, k);
      }
    }
    TakeOfSplice(c + jmp, tp + 5, x, start);
    TakeOfAppend(c, jmp, start);
  }

  /** The epilogue after the last group completes the compiled program. */
  lemma {:induction false} LaidFinish(pre: seq<Byte>, ops: seq<Opcode>, c: seq<Byte>)
    requires Laid(c, ops, |pre| + 27, |ops|) && c[..|pre| + 27] == pre + Prologue()
    ensures Compiles(pre, ops, c + Epilogue())
  {
    var start := |pre| + 27;
    var e := Epilogue();
    forall k | 0 <= k < |ops|
      ensures GroupIn(c + e, ops, start, k)
    {
      assert GroupDone(c, ops, start, k, |ops|);
      SliceOfAppend(c, e, Offset(ops, start, k), Offset(ops, start, k + 1));
    }
    TakeOfAppend(c, e, start);
    assert (c + e)[..|pre|] == (c + e)[..start][..|pre|];
    assert (c + e)[|pre|..start] == (c + e)[..start][|pre|..];
    assert (c + e)[|c|..] == e;
  }

  /** The group a position between start and Offset(n) falls in. */
  lemma {:induction false} FindGroup(ops: seq<Opcode>, start: nat, n: nat, i: nat) returns (k: nat)
    requires n <= |ops| && start <= i < Offset(ops, start, n)
    ensures k < n && Offset(ops, start, k) <= i < Offset(ops, start, k + 1)
    decreases n
  {
    if i >= Offset(ops, start, n - 1) {
      k := n - 1;
    } else {
      k := FindGroup(ops, start, n - 1, i);
    }
  }

  /** Two codes with the same slice agree inside it. */
  lemma {:induction false} SameSlice(c1: seq<Byte>, c2: seq<Byte>, lo: nat, hi: nat, i: nat)
    requires lo <= i < hi <= |c1| && hi <= |c2| && c1[lo..hi] == c2[lo..hi]
    ensures c1[i] == c2[i]
  {
    assert c1[i] == c1[lo..hi][i - lo];
  }

  /** Compiles pins the output down: two codes that both satisfy it are equal. */
  lemma {:induction false} CompilesUnique(pre: seq<Byte>, ops: seq<Opcode>, c1: seq<Byte>, c2: seq<Byte>)
    requires Compiles(pre, ops, c1) && Compiles(pre, ops, c2)
    ensures c1 == c2
  {
    var start := |pre| + 27;
    var end := Offset(ops, start, |ops|);
    assert c1[0..start] == c2[0..start] by {
      assert c1[0..start] == c1[..|pre|] + c1[|pre|..start];
      assert c2[0..start] == c2[..|pre|] + c2[|pre|..start];
    }
    assert c1[end..|c1|] == c2[end..|c2|];
    forall i | 0 <= i < |c1|
      ensures c1[i] == c2[i]
    {
      if i < start {
        SameSlice(c1, c2, 0, start, i);
      } else if i < end {
        var k := FindGroup(ops, start, |ops|, i);
        assert GroupIn(c1, ops, start, k) && GroupIn(c2, ops, start, k);
        SameSlice(c1, c2, Offset(ops, start, k), Offset(ops, start, k + 1), i);
      } else {
        SameSlice(c1, c2, end, |c1|, i);
      }
    }
  }


  /** A slice of the form head + x: its tail is x. */
  lemma {:induction false} SliceTail(c: seq<Byte>, from: nat, to: nat, head: seq<Byte>, x: seq<Byte>, mid: nat)
    requires from <= to <= |c| && c[from..to] == head + x && mid == from + |head|
    ensures mid <= to && c[mid..to] == x
  {
    assert c[mid..to] == c[from..to][|head|..];
  }

  /** A slice of the form head + x: its front is head. */
  lemma {:induction false} SliceHead(c: seq<Byte>, from: nat, to: nat, head: seq<Byte>, x: seq<Byte>, mid: nat)
    requires from <= to <= |c| && c[from..to] == head + x && mid == from + |head|
    ensures mid <= to && c[from..mid] == head
  {
    assert c[from..mid] == c[from..to][..|head|];
  }

  /** The rel32 field of the group at `at` in the final code, as an integer. */
  ghost function Rel32(c: seq<Byte>, at: nat): nat
    requires at + 5 <= |c|
  {
    FromLittleEndian(c[at + 1..at + 5])
  }

  lemma {:induction false} SmallMod(x: int)
    requires 0 <= x < U32
    ensures x % 0x1_0000_0000 == x
  {
  }

  /** Once its `]` at j is emitted, a `[` at i holds the distance from its own end to the end of j. */
  lemma {:induction false} ForwardRel(ops: seq<Opcode>, start: nat, i: nat)
    requires i < |ops| && ops[i].kind == LoopBegin
    requires i < ops[i].operand < |ops| && ops[ops[i].operand] == Opcode(LoopEnd, i)
    requires Offset(ops, start, |ops|) < U32
    ensures var j := ops[i].operand;
      Offset(ops, start, i) + 9 <= Offset(ops, start, j) &&
      Rel(ops, start, i, |ops|) == Offset(ops, start, j) + 5 - (Offset(ops, start, i) + 9) &&
      0 <= Rel(ops, start, i, |ops|) < U32
  {
    var j := ops[i].operand;
    OffsetMonotone(ops, start, i, j);
    OffsetMonotone(ops, start, j, |ops|);
  }

  /** A uint32 displacement added back to where it was taken from gives the target. */
  lemma {:induction false} WrapBack(from: nat, to: nat)
    requires to < U32
    ensures (from + (to - from) % 0x1_0000_0000) % 0x1_0000_0000 == to
  {
    var m := (to - from) % 0x1_0000_0000;
    var q := (to - from) / 0x1_0000_0000;
    assert to - from == q * 0x1_0000_0000 + m;
    assert from + m == to + (-q) * 0x1_0000_0000;
  }

  /** The rel32 field of a `]` group at t in code c, read back. */
  lemma {:induction false} JmpField(c: seq<Byte>, t: nat, t2: nat, delta: int)
    requires t2 == t + 5 <= |c| && c[t..t2] == [0xE9] + LittleEndian(4, delta)
    ensures c[t] == 0xE9 && Rel32(c, t) == delta % 0x1_0000_0000
  {
    SliceTail(c, t, t2, [0xE9], LittleEndian(4, delta), t + 1);
    assert Pow256(4) == 0x1_0000_0000;
    LittleEndianWrap(4, delta);
    LittleEndianRoundTrip(4, delta % 0x1_0000_0000);
  }

  /** A `jmp` at t whose field holds target - (t + 5) lands on target. */
  lemma {:induction false} JmpLands(c: seq<Byte>, t: nat, target: nat)
    requires t + 5 <= |c| && target < U32 && c[t..t + 5] == [0xE9] + LittleEndian(4, target - (t + 5))
    ensures c[t] == 0xE9 && (t + 5 + Rel32(c, t)) % 0x1_0000_0000 == target
  {
    JmpField(c, t, t + 5, target - (t + 5));
    WrapBack(t + 5, target);
  }

  /** The `cmp; jz` of a `[` group at b in code c, and its rel32 field read back. */
  lemma {:induction false} JzField(c: seq<Byte>, b: nat, b2: nat, patch: int)
    requires b2 == b + 9 <= |c| && c[b..b2] == [0x80, 0x3E, 0x00, 0x0F, 0x84] + LittleEndian(4, patch)
    requires 0 <= patch < U32
    ensures c[b..b + 5] == [0x80, 0x3E, 0x00, 0x0F, 0x84]
    ensures c[b + 3..b + 5] == [0x0F, 0x84] && FromLittleEndian(c[b + 5..b + 9]) == patch
  {
    SliceTail(c, b, b2, [0x80, 0x3E, 0x00, 0x0F, 0x84], LittleEndian(4, patch), b + 5);
    SliceHead(c, b, b2, [0x80, 0x3E, 0x00, 0x0F, 0x84], LittleEndian(4, patch), b + 5);
    SliceTail(c, b, b + 5, [0x80, 0x3E, 0x00], [0x0F, 0x84], b + 3);
    assert Pow256(4) == U32;
    LittleEndianRoundTrip(4, patch);
  }

  /**
   * In code c, whose groups start at `start`, the `]` at j is a `jmp` whose
   * target, taken from the end of its 5-byte group modulo 2^32, is the
   * `cmp; jz` of its `[`.
   */
  ghost predicate BackwardLands(c: seq<Byte>, ops: seq<Opcode>, start: nat, j: nat)
    requires j < |ops|
  {
    var t := Offset(ops, start, j);
    var p := ops[j].operand;
    p < j &&
    var target := Offset(ops, start, p);
    target + 9 <= t && t + 5 <= |c| &&
    c[t] == 0xE9 && (t + 5 + Rel32(c, t)) % 0x1_0000_0000 == target &&
    c[target..target + 5] == [0x80, 0x3E, 0x00, 0x0F, 0x84]
  }

  /** BackwardJump for any code c whose groups j and its `[` are in place. */
  lemma {:induction false} BackwardJumpIn(c: seq<Byte>, ops: seq<Opcode>, start: nat, j: nat)
    requires j < |ops| && ClosesAt(ops, j, ops[j].operand)
    requires Offset(ops, start, |ops|) < U32
    requires GroupIn(c, ops, start, j) && GroupIn(c, ops, start, ops[j].operand)
    ensures BackwardLands(c, ops, start, j)
  {
    var p := ops[j].operand;
    OffsetMonotone(ops, start, p, j);
    OffsetMonotone(ops, start, j, |ops|);
    var t := Offset(ops, start, j);
    var target := Offset(ops, start, p);
    assert c[t..t + 5] == [0xE9] + LittleEndian(4, target as int - (t + 5)) by {
      assert GroupIn(c, ops, start, j);
    }
    assert c[target..target + 9] == [0x80, 0x3E, 0x00, 0x0F, 0x84] + LittleEndian(4, Rel(ops, start, p, |ops|)) by {
      assert GroupIn(c, ops, start, p);
    }
    JmpLands(c, t, target);
    SliceHead(c, target, target + 9, [0x80, 0x3E, 0x00, 0x0F, 0x84], LittleEndian(4, Rel(ops, start, p, |ops|)), target + 5);
  }

  /** The `jmp` of every `]` in compiled code lands on the `cmp` of its `[`. */
  lemma {:induction false} BackwardJump(pre: seq<Byte>, ops: seq<Opcode>, c: seq<Byte>, j: nat)
    requires Linked(ops, 0) && j < |ops| && ops[j].kind == LoopEnd
    requires Offset(ops, |pre| + 27, |ops|) < U32
    requires Compiles(pre, ops, c)
    ensures BackwardLands(c, ops, |pre| + 27, j)
  {
    LinkedCloses(ops, j);
    BackwardJumpIn(c, ops, |pre| + 27, j);
  }

  /**
   * In code c, whose groups start at `start`, the `[` at i is a `jz` whose
   * target, taken from the end of its 9-byte group, is just past its `]`.
   */
  ghost predicate ForwardLands(c: seq<Byte>, ops: seq<Opcode>, start: nat, i: nat)
    requires i < |ops|
  {
    var b := Offset(ops, start, i);
    var j := ops[i].operand;
    b + 9 <= |c| && c[b + 3..b + 5] == [0x0F, 0x84] && j < |ops| &&
    b + 9 + FromLittleEndian(c[b + 5..b + 9]) == Offset(ops, start, j) + Length(ops[j])
  }

  /** ForwardJump for any code c whose group i is in place. */
  lemma {:induction false} ForwardJumpIn(c: seq<Byte>, ops: seq<Opcode>, start: nat, i: nat)
    requires i < |ops| && ops[i].kind == LoopBegin
    requires i < ops[i].operand < |ops| && ops[ops[i].operand] == Opcode(LoopEnd, i)
    requires Offset(ops, start, |ops|) < U32
    requires GroupIn(c, ops, start, i)
    ensures ForwardLands(c, ops, start, i)
  {
    ForwardRel(ops, start, i);
    var patch := Rel(ops, start, i, |ops|);
    assert Encoding(ops[i], patch) == [0x80, 0x3E, 0x00, 0x0F, 0x84] + LittleEndian(4, patch);
    JzField(c, Offset(ops, start, i), Offset(ops, start, i + 1), patch);
  }

  /** The `jz` of every `[` in compiled code lands just past the `jmp` of its `]`. */
  lemma {:induction false} ForwardJump(pre: seq<Byte>, ops: seq<Opcode>, c: seq<Byte>, i: nat)
    requires Linked(ops, 0) && i < |ops| && ops[i].kind == LoopBegin
    requires Offset(ops, |pre| + 27, |ops|) < U32
    requires Compiles(pre, ops, c)
    ensures ForwardLands(c, ops, |pre| + 27, i)
  {
    ForwardJumpIn(c, ops, |pre| + 27, i);
  }

  lemma {:induction false} AppendAssoc(a: seq<Byte>, b: seq<Byte>, c: seq<Byte>)
    ensures a + b + c == a + (b + c)
  {
  }

  lemma {:induction false} AppendAssoc3(a: seq<Byte>, b: seq<Byte>, c: seq<Byte>, d: seq<Byte>)
    ensures a + b + c + d == a + (b + c + d)
  {
  }

  lemma {:induction false} StackAllocBytes()
    ensures BigEndian(3, 0x4881EC) + LittleEndian(4, RUNTIME_STACK_SIZE) + BigEndian(3, 0x4889E6) == StackAlloc()
  {
    assert BigEndian(3, 0x4881EC) == [0x48, 0x81, 0xEC] && BigEndian(3, 0x4889E6) == [0x48, 0x89, 0xE6];
  }

  lemma {:induction false} SyscallInsBytes()
    ensures BigEndian(2, 0x31C0) == [0x31, 0xC0] && BigEndian(5, 0xB801000000) == [0xB8] + LittleEndian(4, 1)
    ensures BigEndian(1, 0xB8) == [0xB8] && BigEndian(2, 0x0F05) == [0x0F, 0x05]
  {
  }

  lemma {:induction false} ClearRdiBytes()
    ensures BigEndian(3, 0x4831FF) == [0x48, 0x31, 0xFF]
  {
  }

  lemma {:induction false} LoopBeginBytes()
    ensures BigEndian(3, 0x803E00) + BigEndian(2, 0x0F84) == [0x80, 0x3E, 0x00, 0x0F, 0x84]
  {
  }

  lemma {:induction false} MovEdxBytes()
    ensures BigEndian(5, 0xBA01000000) == [0xBA, 0x01, 0x00, 0x00, 0x00]
  {
  }

  lemma {:induction false} StackZeroBytes()
    ensures BigEndian(1, 0xB9) + LittleEndian(4, RUNTIME_STACK_SIZE) + ([0x30, 0xC0] + [0x48, 0x89, 0xE7] + [0xF3, 0xAA]) == StackZero()
  {
  }

  lemma {:induction false} StosbBytes()
    ensures BigEndian(2, 0x30C0) + BigEndian(3, 0x4889E7) + BigEndian(2, 0xF3AA) == [0x30, 0xC0] + [0x48, 0x89, 0xE7] + [0xF3, 0xAA]
  {
  }

  lemma {:induction false} OutputBytes()
    ensures BigEndian(5, 0xBF01000000) == [0xBF, 0x01, 0x00, 0x00, 0x00]
  {
  }

  /** compiler_new sizes the code vec at two bytes per opcode, and the prologue alone is 27 bytes. */
  lemma {:induction false} PrologueOverrunsSmallBuffer(opcodeCount: nat)
    requires 1 <= opcodeCount <= 3
    ensures var afterMov := Pushes(Dims(0, 2 * opcodeCount), 3);
      InBounds(afterMov) && !InBounds(ExtendDims(afterMov, 4))
  {
    PushesStayInBounds(Dims(0, 2 * opcodeCount), 3);
    assert Pushes(Dims(0, 2 * opcodeCount), 3).len == 3;
    if opcodeCount == 1 {
      assert Pushes(Dims(0, 2), 3) == Dims(3, 4);
    } else if opcodeCount == 2 {
      assert Pushes(Dims(0, 4), 3) == Dims(3, 4);
    } else {
      assert Pushes(Dims(0, 6), 3) == Dims(3, 6);
    }
  }

  // ---------------------------------------------------------------------
  // The compiler
  // ---------------------------------------------------------------------

  class Compiler {
    /** The parser's opcode vec, shared by pointer. */
    var opcodes: Vec<Opcode>
    var code: Vec<Byte>

    /** compiler_new: capacity two bytes per opcode (allocation assumed to succeed). */
    constructor (opcodes: Vec<Opcode>)
      ensures this.opcodes == opcodes && fresh(code)
      ensures code.data == [] && code.itemSize == 1 && code.capacity == 2 * |opcodes.data| && code.hasBuffer
    {
      this.opcodes := opcodes;
      code := new Vec<Byte>();
      new;
      var ignored := code.New(1, |opcodes.data| * 2, true);
    }

    /** compiler_free */
    method Free()
      modifies code
      ensures code.data == [] && code.capacity == 0 && !code.hasBuffer
    {
      code.Free();
    }

    /** compiler_asm_ins: the low `size` bytes of `ins`, most significant first. */
    method AsmIns(size: nat, ins: nat)
      modifies code
      ensures code.data == old(code.data) + BigEndian(size, ins)
      ensures code.itemSize == old(code.itemSize)
    {
      var i: int := size - 1;
      while i >= 0
        invariant -1 <= i < size
        invariant code.data == old(code.data) + BigEndian(size, ins)[..size - 1 - i]
        invariant code.itemSize == old(code.itemSize)
      {
        var val := Shr8(ins, i) % 256;
        BigEndianBytes(size, ins, size - 1 - i);
        var ignored := code.Push(val, true);
        assert BigEndian(size, ins)[..size - i] == BigEndian(size, ins)[..size - 1 - i] + [val];
        i := i - 1;
      }
    }

    /** compiler_asm_imm: the first `size` bytes of `value` in memory, least significant first. */
    method AsmImm(size: nat, value: nat)
      requires code.itemSize == 1
      modifies code
      ensures code.data == old(code.data) + LittleEndian(size, value)
      ensures code.itemSize == 1
    {
      var ignored := code.ExtendFromSlice(LittleEndian(size, value), true);
    }

    /** compiler_asm_syscall */
    method AsmSyscall(syscall: nat)
      requires code.itemSize == 1
      modifies code
      ensures code.data == old(code.data) + SyscallBytes(syscall)
      ensures code.itemSize == 1
    {
      ghost var c := code.data;
      SyscallInsBytes();
      if syscall == 0 {
        AsmIns(2, 0x31C0);
      } else if syscall == 1 {
        AsmIns(5, 0xB801000000);
      } else {
        AsmIns(1, 0xB8);
        AsmImm(4, syscall);
        AppendAssoc(c, BigEndian(1, 0xB8), LittleEndian(4, syscall));
      }
      ghost var load: seq<Byte> := if syscall == 0 then [0x31, 0xC0] else [0xB8] + LittleEndian(4, syscall);
      assert code.data == c + load;
      AsmIns(2, 0x0F05);
      AppendAssoc(c, load, BigEndian(2, 0x0F05));
    }

    /** The group of a folded opcode: the arithmetic instruction, then its 1- or 4-byte immediate. */
    method EmitArith(op: Opcode)
      requires code.itemSize == 1 && IsFoldedKind(op.kind)
      modifies code
      ensures code.data == old(code.data) + Encoding(op, 0)
      ensures code.itemSize == 1
    {
      ghost var c := code.data;
      AsmIns(ArithSize(op.kind), ArithIns(op));
      ArithInsBytes(op);
      AsmImm(if op.operand <= 255 then 1 else 4, op.operand);
      AppendAssoc(c, ArithOpcode(op), LittleEndian(if op.operand <= 255 then 1 else 4, op.operand));
    }

    /** The group of an opcode other than `]`; a `[` gets a 0 placeholder for its jump. */
    method EmitGroup(op: Opcode)
      requires code.itemSize == 1 && op.kind != LoopEnd
      modifies code
      ensures code.data == old(code.data) + Encoding(op, 0)
      ensures code.itemSize == 1
    {
      match op.kind {
        case IncrementPtr =>
          EmitArith(op);
        case DecrementPtr =>
          EmitArith(op);
        case IncrementVal =>
          EmitArith(op);
        case DecrementVal =>
          EmitArith(op);
        case OutputVal =>
          EmitOutput();
        case InputVal =>
          EmitInput();
        case LoopBegin =>
          EmitLoopBegin();
      }
    }

    /** `.`: mov edi, 1; write(1, rsi, 1). */
    method EmitOutput()
      requires code.itemSize == 1
      modifies code
      ensures code.data == old(code.data) + ([0xBF, 0x01, 0x00, 0x00, 0x00] + SyscallBytes(SYS_WRITE))
      ensures code.itemSize == 1
    {
      ghost var c := code.data;
      AsmIns(5, 0xBF01000000);
      OutputBytes();
      AsmSyscall(SYS_WRITE);
      AppendAssoc(c, BigEndian(5, 0xBF01000000), SyscallBytes(SYS_WRITE));
    }

    /** `,`: xor rdi, rdi; read(0, rsi, 1). */
    method EmitInput()
      requires code.itemSize == 1
      modifies code
      ensures code.data == old(code.data) + ([0x48, 0x31, 0xFF] + SyscallBytes(SYS_READ))
      ensures code.itemSize == 1
    {
      ghost var c := code.data;
      AsmIns(3, 0x4831FF);
      AsmSyscall(SYS_READ);
      ClearRdiBytes();
      AppendAssoc(c, BigEndian(3, 0x4831FF), SyscallBytes(SYS_READ));
    }

    /** `[`: cmp byte [rsi], 0; jz with a zero displacement, patched at its `]`. */
    method EmitLoopBegin()
      requires code.itemSize == 1
      modifies code
      ensures code.data == old(code.data) + ([0x80, 0x3E, 0x00, 0x0F, 0x84] + LittleEndian(4, 0))
      ensures code.itemSize == 1
    {
      ghost var c := code.data;
      var delta := 0;
      AsmIns(3, 0x803E00);
      AsmIns(2, 0x0F84);
      AsmImm(4, delta);
      LoopBeginBytes();
      AppendAssoc3(c, BigEndian(3, 0x803E00), BigEndian(2, 0x0F84), LittleEndian(4, delta));
    }

    /**
     * The `]` at index i of `ops`, whose `[` is p: the backward `jmp`, then
     * the forward distance written over the `jz` field of p. Group k of the
     * code starts at table[k] == Offset(k).
     */
    method EmitLoopEnd(ghost ops: seq<Opcode>, ghost start: nat, table: array<nat>, i: nat, p: nat)
      requires ClosesAt(ops, i, p) && Offset(ops, start, |ops|) < U32
      requires TableHolds(table, ops, start, i + 1)
      requires code.itemSize == 1 && Laid(code.data, ops, start, i)
      modifies code
      ensures code.itemSize == 1 && Laid(code.data, ops, start, i + 1)
      ensures code.data[..start] == old(code.data)[..start]
    {
      ghost var c := code.data;
      var tp := table[p];
      assert tp == Offset(ops, start, p);
      LoopEndBounds(ops, start, i, p, c);
      var delta := (tp - (|code.data| + 5)) % 0x1_0000_0000;
      EmitJmp(delta);
      PatchJz(tp);
      LaidLoopEnd(ops, start, i, p, c, tp, code.data);
    }

    /** jmp rel32 */
    method EmitJmp(delta: nat)
      requires code.itemSize == 1
      modifies code
      ensures code.itemSize == 1 && code.data == old(code.data) + ([0xE9] + LittleEndian(4, delta))
    {
      ghost var c := code.data;
      AsmIns(1, 0xE9);
      AsmImm(4, delta);
      assert BigEndian(1, 0xE9) == [0xE9];
      AppendAssoc(c, BigEndian(1, 0xE9), LittleEndian(4, delta));
    }

    /**
     * The patch of the `jz` of a `[` whose group starts at tp, once the
     * `jmp` of its `]` is emitted: vec_get of the uint32 sum tp + 5, then a
     * 4-byte memcpy of the uint32 distance from the end of the `[` group to
     * the end of the code.
     */
    method PatchJz(tp: nat)
      requires tp + 9 <= |code.data| < U32
      modifies code
      ensures code.itemSize == old(code.itemSize)
      ensures code.data == Splice(old(code.data), tp + 5, LittleEndian(4, (old(|code.data|) - tp - 9) % 0x1_0000_0000))
    {
      var at := (tp + 5) % 0x1_0000_0000;
      SmallMod(tp + 5);
      var jz := code.Get(at);
      var patch := (|code.data| - tp - 9) % 0x1_0000_0000;
      code.data := Splice(code.data, at, LittleEndian(4, patch));
    }

    /** The prologue: reserve and zero the tape on the stack, point rsi at it, set edx = 1. */
    method EmitPrologue()
      requires code.itemSize == 1
      modifies code
      ensures code.itemSize == 1 && code.data == old(code.data) + Prologue()
    {
      var memorySize := RUNTIME_STACK_SIZE;
      ghost var c := code.data;
      EmitStackAlloc(memorySize);
      EmitStackZero(memorySize);
      AsmIns(5, 0xBA01000000);
      MovEdxBytes();
      AppendAssoc3(c, StackAlloc(), StackZero(), BigEndian(5, 0xBA01000000));
    }

    method EmitStackAlloc(memorySize: nat)
      requires code.itemSize == 1 && memorySize == RUNTIME_STACK_SIZE
      modifies code
      ensures code.itemSize == 1 && code.data == old(code.data) + StackAlloc()
    {
      ghost var c := code.data;
      AsmIns(3, 0x4881EC);
      AsmImm(4, memorySize);
      AsmIns(3, 0x4889E6);
      StackAllocBytes();
      AppendAssoc3(c, BigEndian(3, 0x4881EC), LittleEndian(4, memorySize), BigEndian(3, 0x4889E6));
    }

    method EmitStackZero(memorySize: nat)
      requires code.itemSize == 1 && memorySize == RUNTIME_STACK_SIZE
      modifies code
      ensures code.itemSize == 1 && code.data == old(code.data) + StackZero()
    {
      ghost var c := code.data;
      AsmIns(1, 0xB9);
      AsmImm(4, memorySize);
      EmitStosb();
      StackZeroBytes();
      AppendAssoc3(c, BigEndian(1, 0xB9), LittleEndian(4, memorySize), [0x30, 0xC0] + [0x48, 0x89, 0xE7] + [0xF3, 0xAA]);
    }

    /** xor al, al; mov rdi, rsp; rep stosb */
    method EmitStosb()
      requires code.itemSize == 1
      modifies code
      ensures code.itemSize == 1 && code.data == old(code.data) + ([0x30, 0xC0] + [0x48, 0x89, 0xE7] + [0xF3, 0xAA])
    {
      ghost var c := code.data;
      AsmIns(2, 0x30C0);
      AsmIns(3, 0x4889E7);
      AsmIns(2, 0xF3AA);
      StosbBytes();
      AppendAssoc3(c, BigEndian(2, 0x30C0), BigEndian(3, 0x4889E7), BigEndian(2, 0xF3AA));
    }

    /** The epilogue: exit(0). */
    method EmitEpilogue()
      requires code.itemSize == 1
      modifies code
      ensures code.itemSize == 1 && code.data == old(code.data) + Epilogue()
    {
      ghost var c := code.data;
      AsmIns(3, 0x4831FF);
      AsmSyscall(SYS_EXIT);
      ClearRdiBytes();
      AppendAssoc(c, BigEndian(3, 0x4831FF), SyscallBytes(SYS_EXIT));
    }

    /**
     * One iteration of the compile loop: record where the group of opcode i
     * starts, then emit it.
     */
    method EmitOpcode(ghost ops: seq<Opcode>, ghost start: nat, table: array<nat>, i: nat, op: Opcode)
      requires Linked(ops, 0) && i < |ops| && ops[i] == op
      requires Offset(ops, start, |ops|) < U32
      requires TableHolds(table, ops, start, i) && i < table.Length
      requires code.itemSize == 1 && Laid(code.data, ops, start, i)
      modifies code, table
      ensures TableHolds(table, ops, start, i + 1)
      ensures code.itemSize == 1 && Laid(code.data, ops, start, i + 1)
      ensures code.data[..start] == old(code.data)[..start]
    {
      OffsetMonotone(ops, start, i, |ops|);
      SmallMod(|code.data|);
      table[i] := |code.data| % 0x1_0000_0000;
      if op.kind == LoopEnd {
        LinkedCloses(ops, i);
        EmitLoopEnd(ops, start, table, i, op.operand);
      } else {
        LinkedOpensOnlyEnds(ops, i);
        ghost var c := code.data;
        EmitGroup(op);
        LaidPlain(ops, start, i, c);
      }
    }

    /**
     * compiler_compile over the opcodes of a successful parse. Table
     * entries are uint32 code lengths, so the code must stay below 4 GiB.
     */
    method Compile() returns (ret: int)
      requires code.itemSize == 1 && Linked(opcodes.data, 0)
      requires Offset(opcodes.data, |code.data| + 27, |opcodes.data|) < U32
      modifies code
      ensures ret == 0
      ensures Compiles(old(code.data), opcodes.data, code.data)
    {
      EmitPrologue();
      ghost var prefix := code.data;
      ghost var ops := opcodes.data;
      ghost var start := |prefix|;
      var n := |opcodes.data|;
      var table := new nat[n];
      var i := 0;
      while i < n
        invariant i <= n && code.itemSize == 1 && opcodes.data == ops
        invariant TableHolds(table, ops, start, i)
        invariant Laid(code.data, ops, start, i) && code.data[..start] == prefix
      {
        var slot := opcodes.Get(i);
        EmitOpcode(ops, start, table, i, slot.value);
        i := i + 1;
      }
      ghost var body := code.data;
      EmitEpilogue();
      LaidFinish(old(code.data), ops, body);
      return 0;
    }
  }
}
