/**
 * The Brainfuck to CPython 3.12 bytecode transpiler (brainfuck/transpiler.py).
 *
 * Every command character becomes a fixed block of `ByteCode`s; a `[`
 * becomes a conditional forward jump whose three-byte argument is patched
 * when its `]` arrives, and a `]` a backward jump. Jump arithmetic is in
 * CPython code units: an instruction occupies one unit plus its trailing
 * CACHE entries.
 *
 * `Level` counts open brackets; `MatchClose` says which `]` closes which
 * `[`, in terms of levels alone. `Transpiles` is the layout the generator
 * promises, block by block, with `Start` / `UnitsAt` giving where the block
 * of each source character begins. `Transpiler.Generate` is proved to
 * produce it, and `BackwardLands` / `ForwardLands` show that the jumps
 * land where they should.
 *
 * The `dis.opmap` opcode numbers are left uninterpreted: `ToBytes` takes
 * them as a function.
 */
module BfTranspiler {
  import opened Wrappers
  import opened BfBytes

  // ---------------------------------------------------------------------
  // ByteCode
  // ---------------------------------------------------------------------

  /** The CPython instruction names the generator uses, and CACHE. */
  datatype Name =
    | Resume | LoadConst | LoadName | StoreName | LoadFast | StoreFast | Call
    | BuildList | BinarySubscr | StoreSubscr | PopJumpIfFalse | PopJumpIfTrue
    | JumpBackward | BinaryOp | CompareOp | ReturnConst | Copy | Swap | PushNull
    | PopTop | ExtendedArg | KwNames | Cache

  /** `ByteCode`: a name, an argument and the number of trailing CACHE entries. */
  datatype Instr = Instr(name: Name, operand: int, cache: nat)

  /** The trailing_cache each `define(...)` gives its instruction. */
  function TrailingCache(n: Name): nat
  {
    match n
    case Call => 3
    case BinarySubscr => 1
    case StoreSubscr => 1
    case BinaryOp => 1
    case CompareOp => 1
    case _ => 0
  }

  /** The wrapper `define(name, trailing_cache)` returns, applied to `arg`. */
  function Make(n: Name, arg: int): Instr
  {
    Instr(n, arg, TrailingCache(n))
  }

  /** occupied_size of one ByteCode: code_size 1 plus its caches. */
  function Occupied(b: Instr): nat
  {
    1 + b.cache
  }

  /** occupied_size of a list of ByteCodes. */
  function UnitsOf(s: seq<Instr>): nat
  {
    if s == [] then 0 else UnitsOf(s[..|s| - 1]) + Occupied(s[|s| - 1])
  }

  /**
   * to_bytes: the opcode and its argument, then a (CACHE, 0) pair per
   * cache entry. `bytes()` raises for an argument outside 0..255.
   */
  function ToBytes(opmap: Name -> Byte, b: Instr): (r: Option<seq<Byte>>)
    ensures r.Some? <==> 0 <= b.operand < 256
    ensures r.Some? ==> |r.value| == 2 * Occupied(b) && r.value[0] == opmap(b.name) && r.value[1] == b.operand
    ensures r.Some? ==> forall k :: 1 <= k <= b.cache ==> r.value[2 * k] == opmap(Cache) && r.value[2 * k + 1] == 0
  {
    if 0 <= b.operand < 256 then
      var r := [opmap(b.name), b.operand as Byte] + CachePairs(opmap, b.cache);
      assert forall k :: 1 <= k <= b.cache ==> r[2 * k] == CachePairs(opmap, b.cache)[2 * (k - 1)];
      Some(r)
    else None
  }

  function CachePairs(opmap: Name -> Byte, n: nat): (r: seq<Byte>)
    ensures |r| == 2 * n
    ensures forall k :: 0 <= k < n ==> r[2 * k] == opmap(Cache) && r[2 * k + 1] == 0
  {
    if n == 0 then [] else CachePairs(opmap, n - 1) + [opmap(Cache), 0]
  }

  // ---------------------------------------------------------------------
  // The constant and name tables of Transpiler
  // ---------------------------------------------------------------------

  datatype Constant = IntConst(i: int) | StrConst(s: string) | EndKeyword | NoneConst

  /** Transpiler.constants: (0, 1, RUNTIME_STACK_SIZE, "", ("end",), None). */
  const CONSTANTS: seq<Constant> := [IntConst(0), IntConst(1), IntConst(512), StrConst(""), EndKeyword, NoneConst]
  const NAMES: seq<string> := ["stack", "print", "input", "ord", "chr"]
  const VARNAMES: seq<string> := ["ptr"]

  /** Python's `tuple.index`: the first position holding `x`. */
  function IndexOf<T(==)>(s: seq<T>, x: T): (i: nat)
    requires x in s
    ensures i < |s| && s[i] == x && x !in s[..i]
  {
    if s[0] == x then 0 else
      assert s == [s[0]] + s[1..];
      var j := IndexOf(s[1..], x);
      assert s[..j + 1] == [s[0]] + s[1..][..j];
      1 + j
  }

  function ConstIndex(c: Constant): nat
    requires c in CONSTANTS
  {
    IndexOf(CONSTANTS, c)
  }

  function NameIndex(n: string): nat
    requires n in NAMES
  {
    IndexOf(NAMES, n)
  }

  function VarnameIndex(n: string): nat
    requires n in VARNAMES
  {
    IndexOf(VARNAMES, n)
  }

  /** Positions in the tables, as the code generator's `*_index` lookups find them. */
  const ZERO_CONST: nat := 0
  const ONE_CONST: nat := 1
  const STACK_SIZE_CONST: nat := 2
  const EMPTY_CONST: nat := 3
  const END_CONST: nat := 4
  const NONE_CONST: nat := 5
  const STACK_NAME: nat := 0
  const PRINT_NAME: nat := 1
  const INPUT_NAME: nat := 2
  const ORD_NAME: nat := 3
  const CHR_NAME: nat := 4
  const PTR_VAR: nat := 0

  /** The lookups `const_index`, `name_index` and `varname_index` give the positions above. */
  lemma TableIndices()
    ensures ConstIndex(IntConst(0)) == ZERO_CONST && ConstIndex(IntConst(1)) == ONE_CONST
    ensures ConstIndex(IntConst(512)) == STACK_SIZE_CONST && ConstIndex(StrConst("")) == EMPTY_CONST
    ensures ConstIndex(EndKeyword) == END_CONST && ConstIndex(NoneConst) == NONE_CONST
    ensures NameIndex("stack") == STACK_NAME && NameIndex("print") == PRINT_NAME && NameIndex("input") == INPUT_NAME
    ensures NameIndex("ord") == ORD_NAME && NameIndex("chr") == CHR_NAME && VarnameIndex("ptr") == PTR_VAR
  {
    assert CONSTANTS[..1] == [IntConst(0)];
    assert CONSTANTS[..2] == [IntConst(0), IntConst(1)];
    assert CONSTANTS[..3] == [IntConst(0), IntConst(1), IntConst(512)];
    assert CONSTANTS[..4] == [IntConst(0), IntConst(1), IntConst(512), StrConst("")];
    assert CONSTANTS[..5] == [IntConst(0), IntConst(1), IntConst(512), StrConst(""), EndKeyword];
    assert NAMES[..1] == ["stack"];
    assert NAMES[..2] == ["stack", "print"];
    assert NAMES[..3] == ["stack", "print", "input"];
    assert NAMES[..4] == ["stack", "print", "input", "ord"];
  }

  // ---------------------------------------------------------------------
  // CodeGenerator
  // ---------------------------------------------------------------------

  const NB_MULTIPLY: int := 5
  const NB_ADD: int := 13
  const NB_SUBTRACT: int := 23
  const CMP_EQ: int := 40

  function MemsetStack(): seq<Instr>
  {
    [Make(LoadConst, ZERO_CONST), Make(BuildList, 1), Make(LoadConst, STACK_SIZE_CONST),
     Make(BinaryOp, NB_MULTIPLY), Make(StoreName, STACK_NAME)]
  }

  function ShowStack(): seq<Instr>
  {
    [Make(PushNull, 0), Make(LoadName, PRINT_NAME), Make(LoadName, STACK_NAME), Make(Call, 1)]
  }

  function MemsetPtr(): seq<Instr>
  {
    [Make(LoadConst, ZERO_CONST), Make(StoreFast, PTR_VAR)]
  }

  function IncrementPtr(): seq<Instr>
  {
    [Make(LoadFast, PTR_VAR), Make(LoadConst, ONE_CONST), Make(BinaryOp, NB_ADD),
     Make(StoreFast, PTR_VAR)]
  }

  function DecrementPtr(): seq<Instr>
  {
    [Make(LoadFast, PTR_VAR), Make(LoadConst, ONE_CONST), Make(BinaryOp, NB_SUBTRACT),
     Make(StoreFast, PTR_VAR)]
  }

  /** `stack[ptr] += 1` or `-= 1`, depending on `op`. */
  function UpdateValue(op: int): seq<Instr>
  {
    [Make(LoadName, STACK_NAME), Make(LoadFast, PTR_VAR), Make(Copy, 2), Make(Copy, 2),
     Make(BinarySubscr, 0), Make(LoadConst, ONE_CONST), Make(BinaryOp, op), Make(Swap, 3),
     Make(Swap, 2), Make(StoreSubscr, 0)]
  }

  function IncrementValue(): seq<Instr> { UpdateValue(NB_ADD) }

  function DecrementValue(): seq<Instr> { UpdateValue(NB_SUBTRACT) }

  function InputValue(): seq<Instr>
  {
    [Make(PushNull, 0), Make(LoadName, ORD_NAME), Make(PushNull, 0), Make(LoadName, INPUT_NAME),
     Make(Call, 0), Make(Call, 1), Make(LoadName, STACK_NAME), Make(LoadFast, PTR_VAR),
     Make(StoreSubscr, 0)]
  }

  function OutputValue(): seq<Instr>
  {
    [Make(PushNull, 0), Make(LoadName, PRINT_NAME), Make(PushNull, 0), Make(LoadName, CHR_NAME),
     Make(LoadName, STACK_NAME), Make(LoadFast, PTR_VAR), Make(BinarySubscr, 0), Make(Call, 1),
     Make(LoadConst, EMPTY_CONST), Make(KwNames, END_CONST), Make(Call, 2)]
  }

  /**
   * `(offset >> 8 * k) & 0xFF`: Python's `>>` floors, as `/` by a positive
   * divisor does here, and `& 0xFF` keeps the non-negative remainder.
   */
  function Shr8(x: int): int
    decreases if x < 0 then 256 - x else x
  {
    if x < 0 then Shr8(x + 256) - 1 else if x < 256 then 0 else Shr8(x - 256) + 1
  }

  function Low8(x: int): int
    decreases if x < 0 then 256 - x else x
  {
    if x < 0 then Low8(x + 256) else if x < 256 then x else Low8(x - 256)
  }

  lemma {:induction false} Shift8(x: int)
    ensures Shr8(x) == x / 256 && Low8(x) == x % 256
    decreases if x < 0 then 256 - x else x
  {
    if x < 0 {
      Shift8(x + 256);
    } else if x >= 256 {
      Shift8(x - 256);
    }
  }

  function HighByte(offset: int): int { Low8(Shr8(Shr8(offset))) }

  function MiddleByte(offset: int): int { Low8(Shr8(offset)) }

  function LowByte(offset: int): int { Low8(offset) }

  /** The argument an EXTENDED_ARG, EXTENDED_ARG, jump triple carries. */
  function Recombined(hi: int, mid: int, lo: int): int
  {
    hi * 0x1_0000 + mid * 0x100 + lo
  }

  /** Splitting an offset into bytes and recombining them keeps its low 24 bits. */
  lemma SplitRecombine(offset: int)
    ensures Recombined(HighByte(offset), MiddleByte(offset), LowByte(offset)) == offset % 0x100_0000
  {
    var a, b := offset / 256, offset / 256 / 256;
    var r0, r1, r2 := offset % 256, a % 256, b % 256;
    Shift8(offset); Shift8(a); Shift8(b);
    assert offset == 256 * a + r0 && a == 256 * b + r1 && b == 256 * (b / 256) + r2;
    var low := r2 * 0x1_0000 + r1 * 0x100 + r0;
    assert offset == (b / 256) * 0x100_0000 + low;
    assert 0 <= low < 0x100_0000;
  }

  /** For the offsets that fit in three bytes the split is lossless. */
  lemma SplitRoundTrip(offset: int)
    requires 0 <= offset < 0x100_0000
    ensures Recombined(HighByte(offset), MiddleByte(offset), LowByte(offset)) == offset
  {
    SplitRecombine(offset);
  }

  /** `while stack[ptr]:` with a three-byte forward jump argument. */
  function LoopBegin(offset: int): seq<Instr>
  {
    [Make(LoadName, STACK_NAME), Make(LoadFast, PTR_VAR), Make(BinarySubscr, 0),
     Make(LoadConst, ZERO_CONST), Make(CompareOp, CMP_EQ),
     Make(ExtendedArg, HighByte(offset)), Make(ExtendedArg, MiddleByte(offset)), Make(PopJumpIfTrue, LowByte(offset))]
  }

  function LoopEnd(offset: int): seq<Instr>
  {
    [Make(ExtendedArg, HighByte(offset)), Make(ExtendedArg, MiddleByte(offset)), Make(JumpBackward, LowByte(offset))]
  }

  // ---------------------------------------------------------------------
  // occupied_size
  // ---------------------------------------------------------------------

  lemma UnitsOfAppend(a: seq<Instr>, b: seq<Instr>)
    ensures UnitsOf(a + b) == UnitsOf(a) + UnitsOf(b)
    decreases |b|
  {
    if b == [] {
      assert a + b == a;
    } else {
      assert (a + b)[..|a + b| - 1] == a + b[..|b| - 1];
      UnitsOfAppend(a, b[..|b| - 1]);
    }
  }

  /** Two lists with the same caches, position by position, occupy the same size. */
  lemma {:induction false} UnitsOfShape(a: seq<Instr>, b: seq<Instr>)
    requires |a| == |b| && forall k :: 0 <= k < |a| ==> a[k].cache == b[k].cache
    ensures UnitsOf(a) == UnitsOf(b)
  {
    if a != [] {
      UnitsOfShape(a[..|a| - 1], b[..|b| - 1]);
    }
  }

  lemma UnitsStep(s: seq<Instr>, k: nat)
    requires 0 < k <= |s|
    ensures UnitsOf(s[..k]) == UnitsOf(s[..k - 1]) + Occupied(s[k - 1])
  {
    assert s[..k][..k - 1] == s[..k - 1];
  }

  /** loop_begin_occupied_size: the `assert size == 10` holds, whatever the offset. */
  function LoopBeginOccupiedSize(): (size: nat)
    ensures size == 10 && forall offset :: UnitsOf(LoopBegin(offset)) == size
  {
    LoopBeginUnits();
    UnitsOf(LoopBegin(0))
  }

  lemma LoopBeginUnits()
    ensures forall offset :: UnitsOf(LoopBegin(offset)) == 10
  {
    forall offset ensures UnitsOf(LoopBegin(offset)) == 10 {
      LoopBeginUnitsAt(offset);
    }
  }

  lemma LoopBeginUnitsAt(offset: int)
    ensures UnitsOf(LoopBegin(offset)) == 10
  {
    var b := LoopBegin(offset);
    var h := b[..5];
    assert h == [Make(LoadName, STACK_NAME), Make(LoadFast, PTR_VAR), Make(BinarySubscr, 0),
     Make(LoadConst, ZERO_CONST), Make(CompareOp, CMP_EQ)];
    UnitsStep(h, 1); UnitsStep(h, 2); UnitsStep(h, 3); UnitsStep(h, 4); UnitsStep(h, 5);
    assert h[..0] == [] && h[..5] == h;
    assert b == h + b[5..];
    var t := b[5..];
    UnitsStep(t, 1); UnitsStep(t, 2); UnitsStep(t, 3);
    assert t[..0] == [] && t[..3] == t;
    UnitsOfAppend(h, t);
  }

  /** loop_end_occupied_size: the `assert size == 3` holds, whatever the offset. */
  function LoopEndOccupiedSize(): (size: nat)
    ensures size == 3 && forall offset :: UnitsOf(LoopEnd(offset)) == size
  {
    LoopEndUnits();
    UnitsOf(LoopEnd(0))
  }

  lemma LoopEndUnitsAt(offset: int)
    ensures UnitsOf(LoopEnd(offset)) == 3
  {
    var b := LoopEnd(offset);
    UnitsStep(b, 1); UnitsStep(b, 2); UnitsStep(b, 3);
    assert b[..0] == [] && b[..3] == b;
  }

  lemma LoopEndUnits()
    ensures forall offset :: UnitsOf(LoopEnd(offset)) == 3
  {
    forall offset ensures UnitsOf(LoopEnd(offset)) == 3 {
      LoopEndUnitsAt(offset);
    }
  }

  // ---------------------------------------------------------------------
  // Blocks and where they start
  // ---------------------------------------------------------------------

  /** RESUME, then memset_stack and memset_ptr. */
  function Prologue(): seq<Instr>
  {
    [Make(Resume, 0)] + MemsetStack() + MemsetPtr()
  }

  const PROLOGUE_LENGTH: nat := 8
  const PROLOGUE_UNITS: nat := 9

  /** The prologue holds 8 ByteCodes occupying 9 code units. */
  lemma PrologueShape()
    ensures |Prologue()| == PROLOGUE_LENGTH && UnitsOf(Prologue()) == PROLOGUE_UNITS
  {
    var b := Prologue();
    var h, t := b[..4], b[4..];
    UnitsStep(h, 1); UnitsStep(h, 2); UnitsStep(h, 3); UnitsStep(h, 4);
    assert h[..0] == [] && h[..4] == h;
    UnitsStep(t, 1); UnitsStep(t, 2); UnitsStep(t, 3); UnitsStep(t, 4);
    assert t[..0] == [] && t[..4] == t;
    assert b == h + t;
    UnitsOfAppend(h, t);
  }

  /** POP_TOP and RETURN_CONST(None). */
  function Epilogue(): seq<Instr>
  {
    [Make(PopTop, 0), Make(ReturnConst, NONE_CONST)]
  }

  /** The block a source character turns into; `offset` is used by the brackets only. */
  function BlockOf(c: char, offset: int): seq<Instr>
  {
    match c
    case '>' => IncrementPtr()
    case '<' => DecrementPtr()
    case '+' => IncrementValue()
    case '-' => DecrementValue()
    case '.' => OutputValue()
    case ',' => InputValue()
    case '[' => LoopBegin(offset)
    case ']' => LoopEnd(offset)
    case _ => []
  }

  predicate IsBracket(c: char) { c == '[' || c == ']' }

  /** How many ByteCodes the block of `c` holds. */
  function BlockLen(c: char): nat
  {
    match c
    case '>' => 4
    case '<' => 4
    case '+' => 10
    case '-' => 10
    case '.' => 11
    case ',' => 9
    case '[' => 8
    case ']' => 3
    case _ => 0
  }

  /** How many code units the block of `c` occupies. */
  function BlockUnits(c: char): nat
  {
    match c
    case '>' => 5
    case '<' => 5
    case '+' => 13
    case '-' => 13
    case '.' => 18
    case ',' => 16
    case '[' => 10
    case ']' => 3
    case _ => 0
  }

  /** How many code units each fixed block occupies, counted instruction by instruction. */
  lemma IncrementPtrUnits()
    ensures UnitsOf(IncrementPtr()) == 5
  {
    var b := IncrementPtr();
    UnitsStep(b, 1); UnitsStep(b, 2); UnitsStep(b, 3); UnitsStep(b, 4);
    assert b[..0] == [] && b[..4] == b;
  }

  lemma DecrementPtrUnits()
    ensures UnitsOf(DecrementPtr()) == 5
  {
    var b := DecrementPtr();
    UnitsStep(b, 1); UnitsStep(b, 2); UnitsStep(b, 3); UnitsStep(b, 4);
    assert b[..0] == [] && b[..4] == b;
  }

  lemma UpdateValueUnits(op: int)
    ensures UnitsOf(UpdateValue(op)) == 13
  {
    var b := UpdateValue(op);
    UnitsStep(b, 1); UnitsStep(b, 2); UnitsStep(b, 3); UnitsStep(b, 4); UnitsStep(b, 5); UnitsStep(b, 6);
    UnitsStep(b, 7); UnitsStep(b, 8); UnitsStep(b, 9); UnitsStep(b, 10);
    assert b[..0] == [] && b[..10] == b;
  }

  lemma InputValueUnits()
    ensures UnitsOf(InputValue()) == 16
  {
    var b := InputValue();
    var h, t := b[..5], b[5..];
    UnitsStep(h, 1); UnitsStep(h, 2); UnitsStep(h, 3); UnitsStep(h, 4); UnitsStep(h, 5);
    assert h[..0] == [] && h[..5] == h;
    UnitsStep(t, 1); UnitsStep(t, 2); UnitsStep(t, 3); UnitsStep(t, 4);
    assert t[..0] == [] && t[..4] == t;
    assert b == h + t;
    UnitsOfAppend(h, t);
  }

  lemma OutputValueUnits()
    ensures UnitsOf(OutputValue()) == 18
  {
    var b := OutputValue();
    UnitsStep(b, 1); UnitsStep(b, 2); UnitsStep(b, 3); UnitsStep(b, 4); UnitsStep(b, 5); UnitsStep(b, 6);
    UnitsStep(b, 7); UnitsStep(b, 8); UnitsStep(b, 9); UnitsStep(b, 10); UnitsStep(b, 11);
    assert b[..0] == [] && b[..11] == b;
  }

  /** A block's length and size do not depend on the jump offset it carries. */
  lemma BlockShape(c: char, offset: int)
    ensures |BlockOf(c, offset)| == BlockLen(c) && UnitsOf(BlockOf(c, offset)) == BlockUnits(c)
  {
    if c == '>' {
      IncrementPtrUnits();
    } else if c == '<' {
      DecrementPtrUnits();
    } else if c == '+' || c == '-' {
      UpdateValueUnits(if c == '+' then NB_ADD else NB_SUBTRACT);
    } else if c == ',' {
      InputValueUnits();
    } else if c == '.' {
      OutputValueUnits();
    } else if c == '[' {
      LoopBeginUnitsAt(offset);
    } else if c == ']' {
      LoopEndUnits();
    }
  }

  /** Index in the instruction list where the block of `s[k]` starts. */
  function Start(s: seq<char>, k: nat): (r: nat)
    requires k <= |s|
    ensures r >= PROLOGUE_LENGTH
  {
    if k == 0 then PROLOGUE_LENGTH else Start(s, k - 1) + BlockLen(s[k - 1])
  }

  /** current_occupied_size once `s[..k]` has been consumed. */
  function UnitsAt(s: seq<char>, k: nat): (r: nat)
    requires k <= |s|
  {
    if k == 0 then PROLOGUE_UNITS else UnitsAt(s, k - 1) + BlockUnits(s[k - 1])
  }

  lemma {:induction false} StartMono(s: seq<char>, a: nat, b: nat)
    requires a <= b <= |s|
    ensures Start(s, a) <= Start(s, b)
    decreases b
  {
    if a < b {
      StartMono(s, a, b - 1);
    }
  }

  /** The backward offset of a loop: from the start of its `[` block to the end of its `]` block. */
  function Span(s: seq<char>, i: nat, j: nat): int
    requires i <= j < |s|
  {
    UnitsAt(s, j + 1) - UnitsAt(s, i)
  }

  // ---------------------------------------------------------------------
  // Brackets
  // ---------------------------------------------------------------------

  /**
   * The positions of the `[` still open after `s[..i]`, innermost last,
   * or None once a `]` has found none to close.
   */
  function Scan(s: seq<char>, i: nat): Option<seq<nat>>
    requires i <= |s|
  {
    if i == 0 then Some([])
    else match Scan(s, i - 1)
      case None => None
      case Some(open) =>
        if s[i - 1] == '[' then Some(open + [i - 1])
        else if s[i - 1] == ']' then (if open == [] then None else Some(open[..|open| - 1]))
        else Some(open)
  }

  /** The open stack holds positions of `[` before `i`, in increasing order. */
  lemma {:induction false} ScanOpen(s: seq<char>, i: nat)
    requires i <= |s| && Scan(s, i).Some?
    ensures forall t :: 0 <= t < |Scan(s, i).value| ==> Scan(s, i).value[t] < i && s[Scan(s, i).value[t]] == '['
    ensures forall t, u :: 0 <= t < u < |Scan(s, i).value| ==> Scan(s, i).value[t] < Scan(s, i).value[u]
  {
    if i > 0 {
      ScanOpen(s, i - 1);
    }
  }

  /** The `[` that the `]` at `j` closes. */
  function Partner(s: seq<char>, j: nat): (p: nat)
    requires j < |s|
    ensures p <= j
    ensures Scan(s, j).Some? && Scan(s, j).value != [] ==> p < j && s[p] == '['
  {
    if Scan(s, j).Some? && Scan(s, j).value != [] then
      ScanOpen(s, j);
      Scan(s, j).value[|Scan(s, j).value| - 1]
    else 0
  }

  /** Bracket depth before `s[p]`: `[` minus `]` in `s[..p]`. */
  function Level(s: seq<char>, p: nat): int
    requires p <= |s|
  {
    if p == 0 then 0
    else Level(s, p - 1) + (if s[p - 1] == '[' then 1 else if s[p - 1] == ']' then -1 else 0)
  }

  /** The `]` at `j` closes the `[` at `i`: depth returns to that of `i` at `j` and not before. */
  ghost predicate MatchClose(s: seq<char>, i: nat, j: nat)
  {
    && i < j < |s| && s[i] == '[' && s[j] == ']'
    && Level(s, j + 1) == Level(s, i)
    && forall q :: i < q <= j ==> Level(s, q) > Level(s, i)
  }

  lemma {:induction false} ScanPrefix(s: seq<char>, a: nat, b: nat)
    requires a <= b <= |s| && Scan(s, b).Some?
    ensures Scan(s, a).Some?
    decreases b
  {
    if a < b {
      ScanPrefix(s, a, b - 1);
    }
  }

  /** Without an unmatched `]` the open stack is as deep as the bracket level, which never went negative. */
  lemma {:induction false} ScanDepth(s: seq<char>, i: nat)
    requires i <= |s| && Scan(s, i).Some?
    ensures |Scan(s, i).value| == Level(s, i)
    ensures forall p :: 0 <= p <= i ==> Level(s, p) >= 0
  {
    if i > 0 {
      ScanDepth(s, i - 1);
    }
  }

  /** A `]` is unmatched exactly when the bracket level goes negative: here is where. */
  lemma {:induction false} ScanNone(s: seq<char>, i: nat) returns (p: nat)
    requires i <= |s| && Scan(s, i).None?
    ensures p <= i && Level(s, p) < 0
  {
    if Scan(s, i - 1).None? {
      p := ScanNone(s, i - 1);
    } else {
      ScanDepth(s, i - 1);
      p := i;
    }
  }

  /** The `t`-th open `[` sits at level `t`, and the level has stayed above `t` since. */
  lemma {:induction false} ScanStackLevels(s: seq<char>, i: nat)
    requires i <= |s| && Scan(s, i).Some?
    ensures forall t :: 0 <= t < |Scan(s, i).value| ==> Scan(s, i).value[t] < i && Level(s, Scan(s, i).value[t]) == t
    ensures forall t, q :: 0 <= t < |Scan(s, i).value| && Scan(s, i).value[t] < q <= i ==> Level(s, q) > t
  {
    ScanOpen(s, i);
    if i > 0 {
      ScanStackLevels(s, i - 1);
      ScanDepth(s, i - 1);
      ScanDepth(s, i);
    }
  }

  /** `Partner` finds the `[` that `MatchClose` pairs with the `]`. */
  lemma PartnerMatches(s: seq<char>, j: nat)
    requires j < |s| && s[j] == ']' && Scan(s, j + 1).Some?
    ensures MatchClose(s, Partner(s, j), j)
  {
    ScanPrefix(s, j, j + 1);
    ScanStackLevels(s, j);
    ScanDepth(s, j);
    var open := Scan(s, j).value;
    var t := |open| - 1;
    assert Level(s, open[t]) == t;
  }

  /** A `[` is closed by at most one `]`. */
  lemma MatchUniqueClose(s: seq<char>, i: nat, j1: nat, j2: nat)
    requires MatchClose(s, i, j1) && MatchClose(s, i, j2)
    ensures j1 == j2
  {
  }

  /** A `]` closes at most one `[`. */
  lemma MatchUniqueOpen(s: seq<char>, i1: nat, i2: nat, j: nat)
    requires MatchClose(s, i1, j) && MatchClose(s, i2, j)
    ensures i1 == i2
  {
  }

  /** Once closed, a `[` never reappears on the open stack. */
  lemma {:induction false} ClosedNotOpen(s: seq<char>, j: nat, i: nat)
    requires j < i <= |s| && s[j] == ']' && Scan(s, i).Some?
    ensures Partner(s, j) !in Scan(s, i).value
  {
    ScanPrefix(s, j + 1, i);
    ScanOpen(s, j);
    if i > j + 1 {
      ScanPrefix(s, i - 1, i);
      ClosedNotOpen(s, j, i - 1);
      ScanOpen(s, i - 1);
    }
  }

  /** A `[` open after `s[..a]` and gone after `s[..b]` was closed by some `]` in between. */
  lemma {:induction false} ClosedBetween(s: seq<char>, k: nat, a: nat, b: nat) returns (j: nat)
    requires a <= b <= |s| && Scan(s, b).Some?
    requires Scan(s, a).Some? && k in Scan(s, a).value && k !in Scan(s, b).value
    ensures a <= j < b && s[j] == ']' && Partner(s, j) == k
    decreases b
  {
    ScanPrefix(s, b - 1, b);
    if k in Scan(s, b - 1).value {
      var open := Scan(s, b - 1).value;
      var t :| 0 <= t < |open| && open[t] == k;
      if t < |open| - 1 {
        assert open[..|open| - 1][t] == k;
      }
      j := b - 1;
    } else {
      j := ClosedBetween(s, k, a, b - 1);
    }
  }

  /** In a balanced program every `[` has its `]`. */
  lemma EveryOpenCloses(s: seq<char>, k: nat) returns (j: nat)
    requires k < |s| && s[k] == '[' && Scan(s, |s|) == Some([])
    ensures k < j < |s| && s[j] == ']' && Partner(s, j) == k && MatchClose(s, k, j)
  {
    ScanPrefix(s, k + 1, |s|);
    ScanPrefix(s, k, k + 1);
    assert Scan(s, k + 1).value[|Scan(s, k + 1).value| - 1] == k;
    j := ClosedBetween(s, k, k + 1, |s|);
    ScanPrefix(s, j + 1, |s|);
    PartnerMatches(s, j);
  }

  // ---------------------------------------------------------------------
  // Layout of the generated code
  // ---------------------------------------------------------------------

  /**
   * The jump offset each character's block carries once `s[..i]` has been
   * consumed: `-1` for a `[` still open, `span - 10` for a closed one,
   * `span` for a `]`, 0 for the rest. Defined step by step, as
   * parse_and_generate_bytecode writes them; `OffsetsLaid` says what they
   * are in terms of `Partner` and `Span`.
   */
  function Offsets(s: seq<char>, i: nat): (r: seq<int>)
    requires i <= |s| && Scan(s, i).Some?
    ensures |r| == i
  {
    if i == 0 then []
    else
      var offs := Offsets(s, i - 1);
      if s[i - 1] == '[' then offs + [-1]
      else if s[i - 1] == ']' then
        var open := Scan(s, i - 1).value;
        var p := open[|open| - 1];
        ScanOpen(s, i - 1);
        offs[p := Span(s, p, i - 1) - 10] + [Span(s, p, i - 1)]
      else offs + [0]
  }

  /** The block of each character of `s[..|offs|]`, with the offset `offs` gives it. */
  function Blocks(s: seq<char>, offs: seq<int>): (bs: seq<seq<Instr>>)
    requires |offs| <= |s|
    ensures |bs| == |offs|
  {
    seq(|offs|, m requires 0 <= m < |offs| => BlockOf(s[m], offs[m]))
  }

  /** The blocks `bs[..k]` laid one after another. */
  function Layout(bs: seq<seq<Instr>>, k: nat): seq<Instr>
    requires k <= |bs|
  {
    if k == 0 then [] else Layout(bs, k - 1) + bs[k - 1]
  }

  /** The prologue, then the blocks of the characters of `s[..k]`. */
  function Render(s: seq<char>, offs: seq<int>, k: nat): seq<Instr>
    requires k <= |offs| <= |s|
  {
    Prologue() + Layout(Blocks(s, offs), k)
  }

  /**
   * The output for a program without unmatched brackets: the prologue, one
   * block per character with the offsets fully patched, then POP_TOP and
   * RETURN_CONST(None).
   */
  ghost predicate Transpiles(s: seq<char>, code: seq<Instr>)
  {
    && Scan(s, |s|) == Some([])
    && code == Render(s, Offsets(s, |s|), |s|) + Epilogue()
  }

  /** The three operand writes that replace the placeholder of the `[` block at `at`. */
  function Patch(code: seq<Instr>, at: nat, offset: int): (r: seq<Instr>)
    requires at + 8 <= |code|
    ensures |r| == |code|
  {
    code[at + 5 := code[at + 5].(operand := HighByte(offset))]
        [at + 6 := code[at + 6].(operand := MiddleByte(offset))]
        [at + 7 := code[at + 7].(operand := LowByte(offset))]
  }

  /** Patching changes operands only, so the occupied size stays. */
  lemma PatchUnits(code: seq<Instr>, at: nat, offset: int)
    requires at + 8 <= |code|
    ensures UnitsOf(Patch(code, at, offset)) == UnitsOf(code)
  {
    UnitsOfShape(Patch(code, at, offset), code);
  }

  /** Patching a `[` block, whatever offset it held, gives the block with the new offset. */
  lemma PatchLoopBegin(old_offset: int, offset: int)
    ensures Patch(LoopBegin(old_offset), 0, offset) == LoopBegin(offset)
  {
  }

  // Layout of any blocks

  lemma {:induction false} LayoutAgree(bs: seq<seq<Instr>>, bs': seq<seq<Instr>>, k: nat)
    requires k <= |bs| && k <= |bs'|
    requires forall m :: 0 <= m < k ==> bs[m] == bs'[m]
    ensures Layout(bs, k) == Layout(bs', k)
  {
    if k > 0 {
      LayoutAgree(bs, bs', k - 1);
    }
  }

  /** The layout of `bs[..k]` starts with that of `bs[..m]`, followed by `bs[m]`. */
  lemma {:induction false} LayoutSplit(bs: seq<seq<Instr>>, m: nat, k: nat)
    requires m < k <= |bs|
    ensures |Layout(bs, m + 1)| <= |Layout(bs, k)| && |Layout(bs, m + 1)| == |Layout(bs, m)| + |bs[m]|
    ensures Layout(bs, k)[..|Layout(bs, m)|] == Layout(bs, m)
    ensures Layout(bs, k)[|Layout(bs, m)|..|Layout(bs, m + 1)|] == bs[m]
  {
    if k > m + 1 {
      LayoutSplit(bs, m, k - 1);
      var a := Layout(bs, k - 1);
      assert Layout(bs, k) == a + bs[k - 1];
      assert Layout(bs, k)[..|Layout(bs, m)|] == a[..|Layout(bs, m)|];
      assert Layout(bs, k)[|Layout(bs, m)|..|Layout(bs, m + 1)|] == a[|Layout(bs, m)|..|Layout(bs, m + 1)|];
    }
  }

  /** Patching inside block `p` of a layout is patching that block. */
  lemma {:induction false} LayoutPatch(bs: seq<seq<Instr>>, k: nat, p: nat, offset: int)
    requires p < k <= |bs| && 8 <= |bs[p]|
    ensures |Layout(bs, p)| + 8 <= |Layout(bs, k)|
    ensures Patch(Layout(bs, k), |Layout(bs, p)|, offset) == Layout(bs[p := Patch(bs[p], 0, offset)], k)
  {
    var bs' := bs[p := Patch(bs[p], 0, offset)];
    if k == p + 1 {
      LayoutAgree(bs, bs', p);
      PrefixPatch(Layout(bs, p), bs[p], 0, offset);
    } else {
      LayoutPatch(bs, k - 1, p, offset);
      LayoutSplit(bs, p, k - 1);
      PatchLeft(Layout(bs, k - 1), bs[k - 1], |Layout(bs, p)|, offset);
    }
  }

  /** A layout is as long, and occupies as many code units, as its blocks together. */
  lemma {:induction false} LayoutSize(s: seq<char>, bs: seq<seq<Instr>>, k: nat)
    requires k <= |bs| && k <= |s|
    requires forall m :: 0 <= m < k ==> |bs[m]| == BlockLen(s[m]) && UnitsOf(bs[m]) == BlockUnits(s[m])
    ensures PROLOGUE_LENGTH + |Layout(bs, k)| == Start(s, k)
    ensures PROLOGUE_UNITS + UnitsOf(Layout(bs, k)) == UnitsAt(s, k)
  {
    if k > 0 {
      LayoutSize(s, bs, k - 1);
      UnitsOfAppend(Layout(bs, k - 1), bs[k - 1]);
    }
  }

  /** Block `m` of a layout, behind a prefix. */
  lemma LayoutBlock(pre: seq<Instr>, bs: seq<seq<Instr>>, m: nat, k: nat)
    requires m < k <= |bs|
    ensures |pre| + |Layout(bs, m)| <= |pre| + |Layout(bs, m + 1)| <= |pre + Layout(bs, k)|
    ensures (pre + Layout(bs, k))[|pre| + |Layout(bs, m)|..|pre| + |Layout(bs, m + 1)|] == bs[m]
  {
    LayoutSplit(bs, m, k);
    PrefixSlice(pre, Layout(bs, k), |Layout(bs, m)|, |Layout(bs, m + 1)|);
  }

  lemma PrefixPatch(pre: seq<Instr>, a: seq<Instr>, at: nat, offset: int)
    requires at + 8 <= |a|
    ensures Patch(pre + a, |pre| + at, offset) == pre + Patch(a, at, offset)
  {
  }

  lemma PatchLeft(a: seq<Instr>, b: seq<Instr>, at: nat, offset: int)
    requires at + 8 <= |a|
    ensures Patch(a + b, at, offset) == Patch(a, at, offset) + b
  {
  }

  lemma PrefixSlice(pre: seq<Instr>, a: seq<Instr>, i: nat, j: nat)
    requires i <= j <= |a|
    ensures (pre + a)[..|pre| + i] == pre + a[..i]
    ensures (pre + a)[|pre| + i..|pre| + j] == a[i..j]
  {
  }

  // Layout of the blocks of a program

  lemma BlocksShape(s: seq<char>, offs: seq<int>)
    requires |offs| <= |s|
    ensures forall m :: 0 <= m < |offs| ==>
              |Blocks(s, offs)[m]| == BlockLen(s[m]) && UnitsOf(Blocks(s, offs)[m]) == BlockUnits(s[m])
  {
    forall m | 0 <= m < |offs|
      ensures |Blocks(s, offs)[m]| == BlockLen(s[m]) && UnitsOf(Blocks(s, offs)[m]) == BlockUnits(s[m])
    {
      BlockShape(s[m], offs[m]);
    }
  }

  /** The rendering of `s[..k]` is as long as `Start` says. */
  lemma RenderLength(s: seq<char>, offs: seq<int>, k: nat)
    requires k <= |offs| <= |s|
    ensures |Render(s, offs, k)| == Start(s, k)
  {
    BlocksShape(s, offs);
    PrologueShape();
    LayoutSize(s, Blocks(s, offs), k);
  }

  /** The rendering of `s[..k]` occupies `UnitsAt` code units. */
  lemma RenderUnits(s: seq<char>, offs: seq<int>, k: nat)
    requires k <= |offs| <= |s|
    ensures UnitsOf(Render(s, offs, k)) == UnitsAt(s, k)
  {
    BlocksShape(s, offs);
    PrologueShape();
    LayoutSize(s, Blocks(s, offs), k);
    UnitsOfAppend(Prologue(), Layout(Blocks(s, offs), k));
  }

  /** Appending the block of the next character. */
  lemma RenderAppend(s: seq<char>, offs: seq<int>, offset: int)
    requires |offs| < |s|
    ensures Render(s, offs + [offset], |offs| + 1) == Render(s, offs, |offs|) + BlockOf(s[|offs|], offset)
  {
    LayoutAgree(Blocks(s, offs + [offset]), Blocks(s, offs), |offs|);
  }

  /** Setting the offset of the `[` at `p` is patching its block. */
  lemma RenderPatch(s: seq<char>, offs: seq<int>, p: nat, offset: int)
    requires p < |offs| <= |s| && s[p] == '['
    ensures Start(s, p) + 8 <= |Render(s, offs, |offs|)|
    ensures Patch(Render(s, offs, |offs|), Start(s, p), offset) == Render(s, offs[p := offset], |offs|)
  {
    var bs := Blocks(s, offs);
    RenderLength(s, offs, p);
    PatchLoopBegin(offs[p], offset);
    LayoutPatch(bs, |offs|, p, offset);
    LayoutAgree(bs[p := Patch(bs[p], 0, offset)], Blocks(s, offs[p := offset]), |offs|);
    PrefixPatch(Prologue(), Layout(bs, |offs|), |Layout(bs, p)|, offset);
  }

  /** The rendering of `s[..k]` starts with that of `s[..m]`. */
  lemma RenderPrefix(s: seq<char>, offs: seq<int>, m: nat, k: nat)
    requires m < k <= |offs| <= |s|
    ensures Start(s, m) <= |Render(s, offs, k)|
    ensures Render(s, offs, k)[..Start(s, m)] == Render(s, offs, m)
  {
    var bs := Blocks(s, offs);
    RenderLength(s, offs, m);
    LayoutSplit(bs, m, k);
    PrefixSlice(Prologue(), Layout(bs, k), |Layout(bs, m)|, |Layout(bs, m)|);
  }

  /** In the rendering of `s[..k]`, the block of `s[m]` follows the rendering of `s[..m]`. */
  lemma RenderBlock(s: seq<char>, offs: seq<int>, m: nat, k: nat)
    requires m < k <= |offs| <= |s|
    ensures Start(s, m) <= Start(s, m + 1) <= |Render(s, offs, k)|
    ensures Render(s, offs, k)[Start(s, m)..Start(s, m + 1)] == Blocks(s, offs)[m]
  {
    var pre, bs := Prologue(), Blocks(s, offs);
    RenderLength(s, offs, m);
    RenderLength(s, offs, m + 1);
    LayoutBlock(pre, bs, m, k);
    assert Render(s, offs, k) == pre + Layout(bs, k);
  }

  // What the offsets are

  /** A `]` carries the span from the start of its partner's block to its own end; the partner carries that less 10. */
  lemma {:induction false} OffsetAtClose(s: seq<char>, i: nat, j: nat)
    requires j < i <= |s| && s[j] == ']' && Scan(s, i).Some?
    ensures Offsets(s, i)[j] == Span(s, Partner(s, j), j)
    ensures Offsets(s, i)[Partner(s, j)] == Span(s, Partner(s, j), j) - 10
  {
    ScanPrefix(s, i - 1, i);
    if i > j + 1 {
      OffsetAtClose(s, i - 1, j);
      if s[i - 1] == ']' {
        ClosedNotOpen(s, j, i - 1);
        ScanOpen(s, i - 1);
      }
    }
  }

  /** A `[` still open carries the placeholder -1. */
  lemma {:induction false} OffsetAtOpen(s: seq<char>, i: nat, t: nat)
    requires i <= |s| && Scan(s, i).Some? && t < |Scan(s, i).value|
    ensures Scan(s, i).value[t] < i && Offsets(s, i)[Scan(s, i).value[t]] == -1
  {
    ScanPrefix(s, i - 1, i);
    ScanOpen(s, i - 1);
    var open := Scan(s, i - 1).value;
    if s[i - 1] == '[' {
      if t < |open| {
        OffsetAtOpen(s, i - 1, t);
      }
    } else if s[i - 1] == ']' {
      OffsetAtOpen(s, i - 1, t);
      assert open[t] < open[|open| - 1];
    } else {
      OffsetAtOpen(s, i - 1, t);
    }
  }

  /** Every other character carries 0. */
  lemma {:induction false} OffsetAtPlain(s: seq<char>, i: nat, k: nat)
    requires k < i <= |s| && !IsBracket(s[k]) && Scan(s, i).Some?
    ensures Offsets(s, i)[k] == 0
  {
    ScanPrefix(s, i - 1, i);
    if i > k + 1 {
      OffsetAtPlain(s, i - 1, k);
      ScanOpen(s, i - 1);
    }
  }

  /** The `]` at `i` sets its own offset and that of the innermost open `[`. */
  lemma OffsetsClose(s: seq<char>, i: nat, p: nat)
    requires i < |s| && s[i] == ']' && Scan(s, i).Some? && Scan(s, i).value != []
    requires p == Scan(s, i).value[|Scan(s, i).value| - 1]
    ensures Scan(s, i + 1).Some? && p < i && s[p] == '['
    ensures Offsets(s, i + 1) == Offsets(s, i)[p := Span(s, p, i) - 10] + [Span(s, p, i)]
  {
    ScanOpen(s, i);
  }

  /** Appending loop_end(span) for the `]` after `s[..|offs|]`, then patching span - 10 into the `[` at `p`. */
  lemma RenderClose(s: seq<char>, offs: seq<int>, p: nat, span: int)
    requires p < |offs| < |s| && s[p] == '[' && s[|offs|] == ']'
    ensures Start(s, p) + 8 <= |Render(s, offs, |offs|) + LoopEnd(span)|
    ensures Patch(Render(s, offs, |offs|) + LoopEnd(span), Start(s, p), span - 10)
            == Render(s, offs[p := span - 10] + [span], |offs| + 1)
  {
    RenderPatch(s, offs, p, span - 10);
    PatchLeft(Render(s, offs, |offs|), LoopEnd(span), Start(s, p), span - 10);
    RenderAppend(s, offs[p := span - 10], span);
  }

  /**
   * The state of parse_and_generate_bytecode after `src[..i]`: the code so
   * far, current_occupied_size, and loop_stack holding, for each `[` still
   * open, where its block starts and the occupied size before it.
   */
  ghost predicate Generated(src: seq<char>, i: nat, code: seq<Instr>, size: int, stack: seq<(nat, nat)>, open: seq<nat>)
  {
    && i <= |src| && Scan(src, i) == Some(open)
    && code == Render(src, Offsets(src, i), i)
    && |code| == Start(src, i)
    && size == UnitsAt(src, i)
    && stack == Marks(src, open)
  }

  /** The loop_stack entry for the `[` at `p`: where its block starts and the occupied size before it. */
  function Mark(src: seq<char>, p: nat): (nat, nat)
  {
    if p <= |src| then (Start(src, p), UnitsAt(src, p)) else (0, 0)
  }

  /** loop_stack for the `[`s still open at `open`, innermost last. */
  function Marks(src: seq<char>, open: seq<nat>): (r: seq<(nat, nat)>)
    ensures |r| == |open|
  {
    if open == [] then [] else Marks(src, open[..|open| - 1]) + [Mark(src, open[|open| - 1])]
  }


  /** A `[`: remember where its block starts, then append loop_begin(-1). */
  lemma GeneratedOpen(src: seq<char>, i: nat, code: seq<Instr>, size: int, stack: seq<(nat, nat)>, open: seq<nat>)
    requires Generated(src, i, code, size, stack, open) && i < |src| && src[i] == '['
    ensures Generated(src, i + 1, code + LoopBegin(-1), size + UnitsOf(LoopBegin(-1)), stack + [(|code|, size)], open + [i])
  {
    RenderAppend(src, Offsets(src, i), -1);
    BlockShape('[', -1);
    assert (open + [i])[..|open|] == open;
  }

  /** Any character but a bracket: append its block. */
  lemma GeneratedPlain(src: seq<char>, i: nat, code: seq<Instr>, size: int, stack: seq<(nat, nat)>, open: seq<nat>)
    requires Generated(src, i, code, size, stack, open) && i < |src| && !IsBracket(src[i])
    ensures Generated(src, i + 1, code + BlockOf(src[i], 0), size + UnitsOf(BlockOf(src[i], 0)), stack, open)
  {
    RenderAppend(src, Offsets(src, i), 0);
    BlockShape(src[i], 0);
  }

  /**
   * A `]` with a `[` to close: append loop_end(offset), where offset runs
   * from the start of the `[` block to the end of this one, then patch
   * offset - 10 into the `[` block.
   */
  lemma GeneratedClose(src: seq<char>, i: nat, code: seq<Instr>, size: int, stack: seq<(nat, nat)>, open: seq<nat>,
                       at: nat, offset: int)
    requires Generated(src, i, code, size, stack, open) && i < |src| && src[i] == ']' && stack != []
    requires at == stack[|stack| - 1].0 && offset == size - stack[|stack| - 1].1 + 3
    ensures at + 8 <= |code|
    ensures Generated(src, i + 1, Patch(code + LoopEnd(offset), at, offset - 10), size + UnitsOf(LoopEnd(offset)),
                      stack[..|stack| - 1], open[..|open| - 1])
  {
    var p := open[|open| - 1];
    ScanOpen(src, i);
    ClosedMarks(src, stack, open);
    ClosedUnits(src, i, p, size, offset);
    ClosedState(src, i, code, p, offset);
  }

  /** Popping the innermost open `[` pops its entry from loop_stack. */
  lemma ClosedMarks(src: seq<char>, stack: seq<(nat, nat)>, open: seq<nat>)
    requires stack == Marks(src, open) && open != []
    ensures stack[..|stack| - 1] == Marks(src, open[..|open| - 1])
    ensures stack[|stack| - 1] == Mark(src, open[|open| - 1])
  {
  }

  /** The offset loop_end gets is the span of the loop, and the sizes after the `]`. */
  lemma ClosedUnits(src: seq<char>, i: nat, p: nat, size: int, offset: int)
    requires p < i < |src| && src[p] == '[' && src[i] == ']'
    requires size == UnitsAt(src, i) && offset == size - UnitsAt(src, p) + 3
    ensures offset == Span(src, p, i) && Start(src, p) + 8 <= Start(src, i)
    ensures Start(src, i + 1) == Start(src, i) + |LoopEnd(offset)|
    ensures UnitsAt(src, i + 1) == size + UnitsOf(LoopEnd(offset))
  {
    StartMono(src, p + 1, i);
    LoopEndUnitsAt(offset);
  }

  lemma ClosedState(src: seq<char>, i: nat, code: seq<Instr>, p: nat, offset: int)
    requires i < |src| && src[i] == ']' && Scan(src, i).Some? && Scan(src, i).value != []
    requires p == Scan(src, i).value[|Scan(src, i).value| - 1] && p < i && offset == Span(src, p, i)
    requires code == Render(src, Offsets(src, i), i)
    ensures Scan(src, i + 1).Some? && src[p] == '['
    ensures Start(src, p) + 8 <= |code + LoopEnd(offset)|
    ensures Patch(code + LoopEnd(offset), Start(src, p), offset - 10) == Render(src, Offsets(src, i + 1), i + 1)
  {
    OffsetsClose(src, i, p);
    RenderClose(src, Offsets(src, i), p, offset);
  }

  /** A `]` with nothing to close: the program has an unmatched `]`. */
  lemma GeneratedUnmatched(src: seq<char>, i: nat, code: seq<Instr>, size: int, stack: seq<(nat, nat)>, open: seq<nat>)
    requires Generated(src, i, code, size, stack, open) && i < |src| && src[i] == ']' && stack == []
    ensures Scan(src, |src|).None?
  {
    if Scan(src, |src|).Some? {
      ScanPrefix(src, i + 1, |src|);
    }
  }

  /** At the end, an empty loop_stack means balanced brackets, and POP_TOP, RETURN_CONST(None) finish the code. */
  lemma GeneratedEnd(src: seq<char>, code: seq<Instr>, size: int, stack: seq<(nat, nat)>, open: seq<nat>)
    requires Generated(src, |src|, code, size, stack, open)
    ensures stack == [] <==> Scan(src, |src|) == Some([])
    ensures stack == [] ==> Transpiles(src, code + Epilogue())
  {
  }

  datatype Transpiled = Code(code: seq<Instr>) | UnmatchedClose | UnmatchedOpen

  /** append_bytecode: extend the code and add the occupied size of what was appended. */
  method AppendBytecode(code: seq<Instr>, size: int, b: seq<Instr>) returns (code': seq<Instr>, size': int)
    ensures code' == code + b && size' == size + UnitsOf(b)
  {
    code' := code + b;
    size' := size + UnitsOf(b);
  }

  /** Replace the placeholder operands of the `[` block at `at` with the bytes of `offset`. */
  method ReplacePlaceholder(code: seq<Instr>, at: nat, offset: int) returns (code': seq<Instr>)
    requires at + 8 <= |code|
    ensures code' == Patch(code, at, offset)
  {
    code' := code[at + 5 := code[at + 5].(operand := HighByte(offset))];
    code' := code'[at + 6 := code'[at + 6].(operand := MiddleByte(offset))];
    code' := code'[at + 7 := code'[at + 7].(operand := LowByte(offset))];
  }

  /** The code before the first character: RESUME, memset_stack, memset_ptr, and its occupied size. */
  method Initialize(ghost src: seq<char>) returns (code: seq<Instr>, size: int)
    ensures Generated(src, 0, code, size, [], [])
  {
    code := [Make(Resume, 0)] + MemsetStack() + MemsetPtr();
    size := UnitsOf(code);
    PrologueShape();
  }

  /** POP_TOP, then RETURN_CONST of the index of None. */
  method Finish(code: seq<Instr>) returns (code': seq<Instr>)
    ensures code' == code + Epilogue()
  {
    TableIndices();
    code' := code + [Make(PopTop, 0), Make(ReturnConst, ConstIndex(NoneConst))];
  }

  /** After the last character: ValueError for an unclosed `[`, otherwise the finished code. */
  method Conclude(ghost src: seq<char>, code: seq<Instr>, ghost size: int, stack: seq<(nat, nat)>, ghost open: seq<nat>)
    returns (r: Transpiled)
    requires Generated(src, |src|, code, size, stack, open)
    ensures !r.UnmatchedClose?
    ensures r.UnmatchedOpen? <==> Scan(src, |src|).Some? && Scan(src, |src|).value != []
    ensures r.Code? ==> Transpiles(src, r.code)
  {
    GeneratedEnd(src, code, size, stack, open);
    if stack != [] {
      return UnmatchedOpen;
    }
    var finished := Finish(code);
    return Code(finished);
  }

  /** The `[` branch: push the start of its block and the occupied size so far, then append loop_begin(-1). */
  method OpenLoop(ghost src: seq<char>, ghost i: nat, code: seq<Instr>, size: int, stack: seq<(nat, nat)>, ghost open: seq<nat>)
    returns (code': seq<Instr>, size': int, stack': seq<(nat, nat)>)
    requires Generated(src, i, code, size, stack, open) && i < |src| && src[i] == '['
    ensures Generated(src, i + 1, code', size', stack', open + [i])
  {
    GeneratedOpen(src, i, code, size, stack, open);
    stack' := stack + [(|code|, size)];
    code', size' := AppendBytecode(code, size, LoopBegin(-1));
  }

  /**
   * The `]` branch with a `[` to close: pop it, append loop_end(offset) for
   * the offset back to the start of its block, then replace its placeholder
   * with offset - 10.
   */
  method CloseLoop(ghost src: seq<char>, ghost i: nat, code: seq<Instr>, size: int, stack: seq<(nat, nat)>, ghost open: seq<nat>)
    returns (code': seq<Instr>, size': int, stack': seq<(nat, nat)>)
    requires Generated(src, i, code, size, stack, open) && i < |src| && src[i] == ']' && stack != []
    ensures Generated(src, i + 1, code', size', stack', open[..|open| - 1])
  {
    var (loopBegin, sizeBefore) := stack[|stack| - 1];
    stack' := stack[..|stack| - 1];
    var offset := size - sizeBefore + LoopEndOccupiedSize();
    GeneratedClose(src, i, code, size, stack, open, loopBegin, offset);
    code', size' := AppendBytecode(code, size, LoopEnd(offset));
    offset := offset - LoopBeginOccupiedSize();
    code' := ReplacePlaceholder(code', loopBegin, offset);
  }

  /** Any other character: append its block (none for a character that is not a command). */
  method EmitBlock(ghost src: seq<char>, ghost i: nat, c: char, code: seq<Instr>, size: int, ghost stack: seq<(nat, nat)>, ghost open: seq<nat>)
    returns (code': seq<Instr>, size': int)
    requires Generated(src, i, code, size, stack, open) && i < |src| && src[i] == c && !IsBracket(c)
    ensures Generated(src, i + 1, code', size', stack, open)
  {
    GeneratedPlain(src, i, code, size, stack, open);
    code', size' := AppendBytecode(code, size, BlockOf(c, 0));
  }

  /**
   * parse_and_generate_bytecode on the characters of the source file:
   * ValueError at the first unmatched `]`, ValueError at the end for an
   * unclosed `[`, and otherwise the code `Transpiles` describes.
   */
  method Generate(src: seq<char>) returns (r: Transpiled)
    ensures r.UnmatchedClose? <==> Scan(src, |src|).None?
    ensures r.UnmatchedOpen? <==> Scan(src, |src|).Some? && Scan(src, |src|).value != []
    ensures r.Code? ==> Transpiles(src, r.code)
  {
    var code, size := Initialize(src);
    var stack: seq<(nat, nat)> := [];
    ghost var open: seq<nat> := [];
    var i, unmatched := 0, false;
    while i < |src| && !unmatched
      invariant unmatched ==> Scan(src, |src|).None?
      invariant !unmatched ==> Generated(src, i, code, size, stack, open) == true
    {
      code, size, stack, open, unmatched := Advance(src, i, src[i], code, size, stack, open);
      i := i + 1;
    }
    if unmatched {
      r := UnmatchedClose;
    } else {
      r := Conclude(src, code, size, stack, open);
    }
  }

  /** One character of the main loop: a `]` with nothing open stops it, and anything else extends the code. */
  method Advance(ghost src: seq<char>, ghost i: nat, c: char, code: seq<Instr>, size: int, stack: seq<(nat, nat)>, ghost open: seq<nat>)
    returns (code': seq<Instr>, size': int, stack': seq<(nat, nat)>, ghost open': seq<nat>, unmatched: bool)
    requires Generated(src, i, code, size, stack, open) && i < |src| && src[i] == c
    ensures unmatched ==> Scan(src, |src|).None?
    ensures !unmatched ==> Generated(src, i + 1, code', size', stack', open')
  {
    code', size', stack', open', unmatched := code, size, stack, open, false;
    if c == '[' {
      code', size', stack' := OpenLoop(src, i, code, size, stack, open);
      open' := open + [i];
    } else if c == ']' {
      if stack == [] {
        GeneratedUnmatched(src, i, code, size, stack, open);
        unmatched := true;
      } else {
        code', size', stack' := CloseLoop(src, i, code, size, stack, open);
        open' := open[..|open| - 1];
      }
    } else {
      code', size' := EmitBlock(src, i, c, code, size, stack, open);
    }
  }

  /** The argument of the three-instruction jump starting at `x`. */
  function JumpArg(code: seq<Instr>, x: nat): int
    requires x + 3 <= |code|
  {
    Recombined(code[x].operand, code[x + 1].operand, code[x + 2].operand)
  }

  lemma {:induction false} UnitsMono(s: seq<char>, a: nat, b: nat)
    requires a <= b <= |s|
    ensures UnitsAt(s, a) <= UnitsAt(s, b)
    decreases b
  {
    if a < b {
      UnitsMono(s, a, b - 1);
    }
  }

  lemma AppendSlice(a: seq<Instr>, b: seq<Instr>, i: nat, j: nat)
    requires i <= j <= |a|
    ensures (a + b)[..j] == a[..j] && (a + b)[i..j] == a[i..j]
  {
  }

  /** In code rendered from `offs` and closed by the epilogue, the code before the block of `s[k]`. */
  lemma OutputPrefix(s: seq<char>, offs: seq<int>, code: seq<Instr>, k: nat)
    requires |offs| == |s| && code == Render(s, offs, |s|) + Epilogue() && k <= |s|
    ensures Start(s, k) <= |code|
    ensures code[..Start(s, k)] == Render(s, offs, k)
    ensures UnitsOf(code[..Start(s, k)]) == UnitsAt(s, k)
  {
    var body := Render(s, offs, |s|);
    RenderLength(s, offs, |s|);
    RenderLength(s, offs, k);
    RenderUnits(s, offs, k);
    if k < |s| {
      RenderPrefix(s, offs, k, |s|);
    } else {
      assert body[..Start(s, k)] == body;
    }
    AppendSlice(body, Epilogue(), 0, Start(s, k));
  }

  /** In code rendered from `offs` and closed by the epilogue, the block of `s[m]`. */
  lemma OutputBlock(s: seq<char>, offs: seq<int>, code: seq<Instr>, m: nat)
    requires |offs| == |s| && code == Render(s, offs, |s|) + Epilogue() && m < |s|
    ensures Start(s, m + 1) <= |code|
    ensures code[Start(s, m)..Start(s, m + 1)] == Blocks(s, offs)[m]
  {
    var body := Render(s, offs, |s|);
    RenderBlock(s, offs, m, |s|);
    AppendSlice(body, Epilogue(), Start(s, m), Start(s, m + 1));
  }

  /** The code units up to a jump's argument, and the jump. */
  lemma LoopEndAt(code: seq<Instr>, x: nat, offset: int)
    requires x + 3 <= |code| && code[x..x + 3] == LoopEnd(offset)
    ensures code[x].name == ExtendedArg && code[x + 1].name == ExtendedArg && code[x + 2].name == JumpBackward
    ensures JumpArg(code, x) == Recombined(HighByte(offset), MiddleByte(offset), LowByte(offset))
    ensures UnitsOf(code[..x + 3]) == UnitsOf(code[..x]) + 3
  {
    assert code[x] == code[x..x + 3][0] && code[x + 1] == code[x..x + 3][1] && code[x + 2] == code[x..x + 3][2];
    LoopEndUnits();
    assert code[..x + 3] == code[..x] + code[x..x + 3];
    UnitsOfAppend(code[..x], code[x..x + 3]);
  }

  lemma LoopBeginAt(code: seq<Instr>, x: nat, offset: int)
    requires x + 8 <= |code| && code[x..x + 8] == LoopBegin(offset)
    ensures code[x + 5].name == ExtendedArg && code[x + 6].name == ExtendedArg && code[x + 7].name == PopJumpIfTrue
    ensures JumpArg(code, x + 5) == Recombined(HighByte(offset), MiddleByte(offset), LowByte(offset))
    ensures UnitsOf(code[..x + 8]) == UnitsOf(code[..x]) + 10
  {
    assert code[x + 5] == code[x..x + 8][5] && code[x + 6] == code[x..x + 8][6] && code[x + 7] == code[x..x + 8][7];
    LoopBeginUnitsAt(offset);
    assert code[..x + 8] == code[..x] + code[x..x + 8];
    UnitsOfAppend(code[..x], code[x..x + 8]);
  }

  /**
   * The jumps of a loop land where they should. JUMP_BACKWARD, measured
   * from the end of the `]` block, goes back to the start of the `[` block,
   * which tests the cell again; POP_JUMP_IF_TRUE, measured from the end of
   * the `[` block, goes past the `]` block. Both hold while the loop fits in
   * 2^24 code units.
   */
  lemma JumpsLand(s: seq<char>, code: seq<Instr>, p: nat, j: nat)
    requires Transpiles(s, code) && j < |s| && s[j] == ']' && p == Partner(s, j)
    requires Span(s, p, j) < 0x100_0000
    ensures MatchClose(s, p, j)
    ensures Start(s, p) + 8 <= Start(s, j) && Start(s, j) + 3 <= |code|
    ensures code[Start(s, j)].name == ExtendedArg && code[Start(s, j) + 1].name == ExtendedArg
    ensures code[Start(s, j) + 2].name == JumpBackward
    ensures UnitsOf(code[..Start(s, j) + 3]) - JumpArg(code, Start(s, j)) == UnitsOf(code[..Start(s, p)])
    ensures code[Start(s, p) + 5].name == ExtendedArg && code[Start(s, p) + 6].name == ExtendedArg
    ensures code[Start(s, p) + 7].name == PopJumpIfTrue
    ensures UnitsOf(code[..Start(s, p) + 8]) + JumpArg(code, Start(s, p) + 5) == UnitsOf(code[..Start(s, j) + 3])
  {
    ScanPrefix(s, j + 1, |s|);
    PartnerMatches(s, j);
    OffsetAtClose(s, |s|, j);
    LoopLands(s, Offsets(s, |s|), code, p, j);
  }

  /** The jumps of the loop from `p` to `j`, in code rendered from `offs` that carry its span. */
  lemma LoopLands(s: seq<char>, offs: seq<int>, code: seq<Instr>, p: nat, j: nat)
    requires |offs| == |s| && code == Render(s, offs, |s|) + Epilogue()
    requires p < j < |s| && s[p] == '[' && s[j] == ']'
    requires offs[j] == Span(s, p, j) < 0x100_0000 && offs[p] == Span(s, p, j) - 10
    ensures Start(s, p) + 8 <= Start(s, j) && Start(s, j) + 3 <= |code|
    ensures code[Start(s, j)].name == ExtendedArg && code[Start(s, j) + 1].name == ExtendedArg
    ensures code[Start(s, j) + 2].name == JumpBackward
    ensures UnitsOf(code[..Start(s, j) + 3]) - JumpArg(code, Start(s, j)) == UnitsOf(code[..Start(s, p)])
    ensures code[Start(s, p) + 5].name == ExtendedArg && code[Start(s, p) + 6].name == ExtendedArg
    ensures code[Start(s, p) + 7].name == PopJumpIfTrue
    ensures UnitsOf(code[..Start(s, p) + 8]) + JumpArg(code, Start(s, p) + 5) == UnitsOf(code[..Start(s, j) + 3])
  {
    CloseBlock(s, offs, code, j);
    OpenBlock(s, offs, code, p);
    BackwardLands(s, code, p, j, offs[j]);
    ForwardLands(s, code, p, j, offs[p]);
  }

  /** JUMP_BACKWARD at the end of the `]` block at `j` goes back to the start of the `[` block at `p`. */
  lemma BackwardLands(s: seq<char>, code: seq<Instr>, p: nat, j: nat, offset: int)
    requires p < j < |s| && s[p] == '[' && s[j] == ']'
    requires Start(s, p) + 8 <= |code| && UnitsOf(code[..Start(s, p)]) == UnitsAt(s, p)
    requires Start(s, j) + 3 <= |code| && code[Start(s, j)..Start(s, j) + 3] == LoopEnd(offset)
    requires UnitsOf(code[..Start(s, j)]) == UnitsAt(s, j)
    requires offset == Span(s, p, j) < 0x100_0000
    ensures Start(s, p) + 8 <= Start(s, j)
    ensures code[Start(s, j)].name == ExtendedArg && code[Start(s, j) + 1].name == ExtendedArg
    ensures code[Start(s, j) + 2].name == JumpBackward
    ensures UnitsOf(code[..Start(s, j) + 3]) == UnitsAt(s, j + 1)
    ensures UnitsOf(code[..Start(s, j) + 3]) - JumpArg(code, Start(s, j)) == UnitsOf(code[..Start(s, p)])
  {
    LoopSpan(s, p, j);
    BackwardJump(code, Start(s, j), offset, UnitsAt(s, p));
  }

  /** POP_JUMP_IF_TRUE at the end of the `[` block at `p` goes to the end of the `]` block at `j`. */
  lemma ForwardLands(s: seq<char>, code: seq<Instr>, p: nat, j: nat, offset: int)
    requires p < j < |s| && s[p] == '[' && s[j] == ']'
    requires Start(s, p) + 8 <= |code| && code[Start(s, p)..Start(s, p) + 8] == LoopBegin(offset)
    requires UnitsOf(code[..Start(s, p)]) == UnitsAt(s, p)
    requires Start(s, j) + 3 <= |code| && UnitsOf(code[..Start(s, j) + 3]) == UnitsAt(s, j + 1)
    requires offset == Span(s, p, j) - 10 && Span(s, p, j) < 0x100_0000
    ensures code[Start(s, p) + 5].name == ExtendedArg && code[Start(s, p) + 6].name == ExtendedArg
    ensures code[Start(s, p) + 7].name == PopJumpIfTrue
    ensures UnitsOf(code[..Start(s, p) + 8]) + JumpArg(code, Start(s, p) + 5) == UnitsOf(code[..Start(s, j) + 3])
  {
    LoopSpan(s, p, j);
    ForwardJump(code, Start(s, p), offset, UnitsAt(s, j + 1));
  }

  /** A loop's blocks do not overlap, and its span covers at least both of them. */
  lemma LoopSpan(s: seq<char>, p: nat, j: nat)
    requires p < j < |s| && s[p] == '[' && s[j] == ']'
    ensures Start(s, p) + 8 <= Start(s, j)
    ensures UnitsAt(s, j + 1) == UnitsAt(s, j) + 3 && 13 <= Span(s, p, j)
  {
    StartMono(s, p + 1, j);
    UnitsMono(s, p + 1, j);
  }

  /** The same, for any code holding loop_end(offset) at `x`, `offset` code units past `target`. */
  lemma BackwardJump(code: seq<Instr>, x: nat, offset: int, target: int)
    requires x + 3 <= |code| && code[x..x + 3] == LoopEnd(offset)
    requires offset == UnitsOf(code[..x]) + 3 - target && 0 <= offset < 0x100_0000
    ensures code[x].name == ExtendedArg && code[x + 1].name == ExtendedArg && code[x + 2].name == JumpBackward
    ensures UnitsOf(code[..x + 3]) == UnitsOf(code[..x]) + 3
    ensures UnitsOf(code[..x + 3]) - JumpArg(code, x) == target
  {
    SplitRoundTrip(offset);
    LoopEndAt(code, x, offset);
  }

  /** The same, for any code holding loop_begin(offset) at `x`, `offset` code units short of `target`. */
  lemma ForwardJump(code: seq<Instr>, x: nat, offset: int, target: int)
    requires x + 8 <= |code| && code[x..x + 8] == LoopBegin(offset)
    requires offset == target - UnitsOf(code[..x]) - 10 && 0 <= offset < 0x100_0000
    ensures code[x + 5].name == ExtendedArg && code[x + 6].name == ExtendedArg && code[x + 7].name == PopJumpIfTrue
    ensures UnitsOf(code[..x + 8]) + JumpArg(code, x + 5) == target
  {
    SplitRoundTrip(offset);
    LoopBeginAt(code, x, offset);
  }

  /** The `]` block in the output, and the code units before it. */
  lemma CloseBlock(s: seq<char>, offs: seq<int>, code: seq<Instr>, j: nat)
    requires |offs| == |s| && code == Render(s, offs, |s|) + Epilogue() && j < |s| && s[j] == ']'
    ensures Start(s, j) + 3 <= |code| && code[Start(s, j)..Start(s, j) + 3] == LoopEnd(offs[j])
    ensures UnitsOf(code[..Start(s, j)]) == UnitsAt(s, j)
  {
    OutputBlock(s, offs, code, j);
    OutputPrefix(s, offs, code, j);
  }

  /** The `[` block in the output, and the code units before it. */
  lemma OpenBlock(s: seq<char>, offs: seq<int>, code: seq<Instr>, p: nat)
    requires |offs| == |s| && code == Render(s, offs, |s|) + Epilogue() && p < |s| && s[p] == '['
    ensures Start(s, p) + 8 <= |code| && code[Start(s, p)..Start(s, p) + 8] == LoopBegin(offs[p])
    ensures UnitsOf(code[..Start(s, p)]) == UnitsAt(s, p)
  {
    OutputBlock(s, offs, code, p);
    OutputPrefix(s, offs, code, p);
  }

  /** Past 2^24 code units a loop's offset keeps only its low 24 bits: JUMP_BACKWARD lands short. */
  lemma LongLoopTruncates(s: seq<char>, code: seq<Instr>, j: nat)
    requires Transpiles(s, code) && j < |s| && s[j] == ']'
    requires Span(s, Partner(s, j), j) >= 0x100_0000
    ensures Start(s, j) + 3 <= |code|
    ensures JumpArg(code, Start(s, j)) == Span(s, Partner(s, j), j) % 0x100_0000 != Span(s, Partner(s, j), j)
  {
    var span := Span(s, Partner(s, j), j);
    OffsetAtClose(s, |s|, j);
    SplitRecombine(span);
    CloseBlock(s, Offsets(s, |s|), code, j);
    LoopEndAt(code, Start(s, j), span);
  }
}
