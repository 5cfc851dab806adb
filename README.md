# A verified model of a collection of small algorithm implementations

This project models, in Dafny, the core of a repository of independent,
single-threaded algorithm implementations, and proves properties of each:

- **Brainfuck toolchain** (`brainfuck/`): the growable buffer `vec_t`
  (`bf_vec.dfy`); the parser that folds runs of commands into opcodes and
  cross-links brackets with a bracket stack (`bf_parser.dfy`); the x86-64
  compiler that emits code bytes, records each opcode's offset in a table
  and backpatches the forward jump of every `[` (`bf_compiler.dfy`, with
  byte-order helpers in `bf_bytes.dfy`); the ELF-64 image it writes
  (`bf_elf.dfy`); the interpreter's state machine (`bf_interpreter.dfy`);
  and the Python transpiler that generates CPython bytecode with the same
  stack-and-backpatch shape (`bf_transpiler.dfy`).
- **JSON parser** (`json/parser.py`): the recursive-descent `JSONParser`
  over a `pos` cursor, as a class whose methods advance `pos`, each proved
  against a functional specification of the grammar (`json.dfy`), with the
  grammar's properties and the parser's leniencies proved on that
  specification (`json_props.dfy`). `str.isdigit`, which admits every
  Unicode digit, and the digit values `int()` and `float()` read come from
  the Unicode character database, which is a parameter (`Ucd`); only its
  ASCII part is fixed (`Consistent`).
- **Open-addressing hash map** (`hashmap/`): FNV-1 hashing, linear probing
  with tombstones, the 70%/50% watermarks and rehash, as a class over a
  bucket array (`hashmap.dfy`) proved against a table specification
  (`hashmap_table.dfy`).
- **Skip list** (`skiplist/skiplist.go`): the span-augmented skip list, as a
  class over an arena of nodes (`skiplist.dfy`), with its shape invariant
  and the per-step lemmas in `skiplist_shape.dfy` and `skiplist_steps.dfy`.
- **Binary heap and top-k** (`top-k/`): the heap with sift-up and sift-down
  in place (`heap.dfy`) and the bounded top-k collector on it (`topk.dfy`).
- **Sequence diff** (`diff/`): the result variants and their equality
  (`diff_result.dfy`), the LCS diff with prefix and suffix trimming
  (`lcs.dfy`), the greedy Myers diff (`myers.dfy`) and the `Diff` dispatch
  (`diff.dfy`).
- **Bloom filter** (`bloomfilter/src/lib.rs`): the bitset as `seq<bool>`,
  with murmur3 a parameter (`bloom.dfy`).

`wrappers.dfy` holds the `Option` type shared by the modules.

Where the source is imperative the model is too: the buffers, parser,
compiler, interpreter, hash map, skip list, heap, top-k collector, Bloom
filter and JSON parser are classes whose methods update their fields, and
each method is proved against a specification function whose properties
are proved as lemmas. Nothing here was executed; every property below is a
proof.

## Model

| member | source | states |
|---|---|---|
| BfVec.Vec.New | brainfuck/vec.c:7-17 | len 0 with the requested capacity and item size, or -ENOMEM with only the buffer pointer written |
| BfVec.Vec.Free | brainfuck/vec.c:19-25 | no buffer, len and capacity 0 |
| BfVec.Vec.Resize | brainfuck/vec.c:27-36 | capacity becomes the new size and len is untouched; -ENOMEM changes nothing |
| BfVec.Vec.Push | brainfuck/vec.c:38-49 | a full buffer doubles first; then the item is appended after the unchanged earlier items; -ENOMEM only when a needed growth fails |
| BfVec.Vec.Pop | brainfuck/vec.c:51-59 | -EINVAL and no change on an empty vec; otherwise the last item is returned and removed, so push then pop is a round trip |
| BfVec.Vec.Get | brainfuck/vec.c:61-67 | NULL exactly when index >= len, otherwise the item at index |
| BfVec.Vec.ExtendFromSlice | brainfuck/vec.c:76-88 | grows at most once and only when full, then appends the whole slice |
| BfVec.PushesStayInBounds | brainfuck/vec.c:38-49 | a buffer with room, pushed to one item at a time, never overruns |
| BfVec.ZeroCapacityNeverGrows | brainfuck/vec.c:41-45 | a capacity of 0 doubles to 0, so every push overruns |
| BfVec.ExtendInBoundsIff | brainfuck/vec.c:78-85 | an extend stays in bounds exactly when the slice fits the room left after at most one doubling |
| BfVec.OverrunIsPermanent | brainfuck/vec.c:78-83 | once len exceeds capacity, neither push nor extend ever grows the buffer again |
| BfParser.Parser.constructor | brainfuck/parser.c:7-11 | an empty opcode vec of the requested capacity |
| BfParser.Parser.Free | brainfuck/parser.c:13-17 | the opcode vec is freed |
| BfParser.Parser.ParseFile | brainfuck/parser.c:19-90 | the loop reads the file up to the first 0xFF byte at its head, which the signed `char c` takes for EOF; over that text, 0 with the folded opcodes appended, every bracket linked to its partner and properly nested; otherwise EPARSE_ERROR with the diagnosis bracket counting gives |
| BfParser.StopFrom | brainfuck/parser.c:24-41 | the first position where the loop head reads 0xFF; a 0xFF that ends a folded run is read inside the run and does not stop the loop |
| BfParser.EofByteEndsParse | brainfuck/parser.c:24-25 | for `[`, 0xFF, `]` the loop stops at the 0xFF and the `[` is reported unmatched, though the file's brackets balance |
| BfParser.EofByteAfterRunDropped | brainfuck/parser.c:44-50 | for `+`, 0xFF, `.` the failed ungetc drops the 0xFF and the loop goes on: IncrementVal 1, then OutputVal 1 |
| BfParser.Parser.ReadCommand | brainfuck/parser.c:28-83 | one pass of the read loop: a folded run (and a 0xFF that ends it, lost by ungetc), a single `.` or `,`, a bracket, or nothing for other characters, keeping the loop invariant and ending at a loop head |
| BfParser.Parser.ReadBracket | brainfuck/parser.c:66-78 | a `[` is pushed and stacked; a `]` with an empty stack is the unmatched-closing error; otherwise it closes the stack top |
| BfParser.Parser.EmitOpen | brainfuck/parser.c:66-69 | an unlinked LoopBegin is appended and its index stacked |
| BfParser.Parser.EmitClose | brainfuck/parser.c:70-78 | the `[` on the stack top and the new `]` name each other |
| BfParser.ExpandLex | brainfuck/parser.c:25-83 | expanding each opcode into operand copies of its character gives back the command characters of the text |
| BfParser.LexFoldsMaximalRuns | brainfuck/parser.c:30-57 | every folded opcode counts a maximal run of its character |
| BfParser.LexInputOutputOperands | brainfuck/parser.c:58-65 | `.` and `,` are never folded: their operand is 1 |
| BfParser.CheckUnmatchedByCounting | brainfuck/parser.c:70-74 | an unmatched `]` is reported exactly when some prefix closes more brackets than it opens |
| BfParser.CheckCleanByCounting | brainfuck/parser.c:85-89 | a clean parse is exactly every prefix non-negative and the whole text balanced |
| BfParser.StepCloseUnmatched | brainfuck/parser.c:70-74 | a `]` with nothing open is the unmatched closing bracket |
| BfParser.StepEnd | brainfuck/parser.c:85-89 | at the end of the text, brackets still open are the unmatched-opening error; none open means the linked opcodes of the text |
| BfParser.LinksDone | brainfuck/parser.c:66-77 | with nothing left open, every loop opcode is linked and the pairs nest |
| BfParser.RunLength | brainfuck/parser.c:30-57 | the length of the maximal run at the front of the text |
| BfParser.KindOf | brainfuck/parser.c:30-65 | the opcode kind of a command character, inverse to CharOf |
| BfCompiler.Compiler.constructor | brainfuck/compiler.c:91-97 | a code vec of 1-byte items with capacity two bytes per opcode |
| BfCompiler.Compiler.Free | brainfuck/compiler.c:99-103 | the code vec is freed |
| BfCompiler.Compiler.AsmIns | brainfuck/compiler.c:55-62 | appends the low `size` bytes of the instruction, most significant first |
| BfCompiler.Compiler.AsmImm | brainfuck/compiler.c:64-68 | appends the low `size` bytes of the value, least significant first |
| BfCompiler.Compiler.AsmSyscall | brainfuck/compiler.c:70-89 | appends the syscall sequence for the call number |
| BfCompiler.Compiler.EmitPrologue | brainfuck/compiler.c:107-125 | appends the 27-byte prologue |
| BfCompiler.Compiler.EmitOpcode | brainfuck/compiler.c:128-186 | records table[i] as the code length and appends opcode i's group, keeping every earlier group laid out |
| BfCompiler.Compiler.EmitLoopBegin | brainfuck/compiler.c:168-175 | `cmp byte [rsi], 0; jz` with a zero displacement |
| BfCompiler.Compiler.EmitLoopEnd | brainfuck/compiler.c:176-185 | the backward `jmp` and the patched forward displacement of its `[` |
| BfCompiler.Compiler.PatchJz | brainfuck/compiler.c:182-184 | the 4 bytes at table[p] + 5 are overwritten with the uint32 distance to the end of the `jmp`, nothing else changes |
| BfCompiler.Compiler.EmitEpilogue | brainfuck/compiler.c:188-190 | appends `xor rdi, rdi` and the exit syscall |
| BfCompiler.Compiler.Compile | brainfuck/compiler.c:105-194 | returns 0 and the code is the prologue, each opcode's group at its table offset with both jump fields filled in, and the epilogue |
| BfCompiler.SyscallBytes | brainfuck/compiler.c:70-89 | 4 bytes for read and 7 otherwise, always ending `0F 05` |
| BfCompiler.PrologueStackSize | brainfuck/compiler.c:111-119 | the prologue reserves and zeroes 512 bytes: 512 is an imm32 twice |
| BfCompiler.ArithInsBytes | brainfuck/compiler.c:133-156 | each arithmetic constant spells the intended opcode bytes |
| BfCompiler.Encoding | brainfuck/compiler.c:132-186 | the length of each opcode's group: 4/7 for pointer moves, 3/6 for cell arithmetic, 12, 7, 9 and 5 |
| BfCompiler.PointerGroupAsWritten | brainfuck/compiler.c:133-144 | the compiled `>`/`<` group moves rsi by the operand, as interpreter.c:106-107 does, exactly when the operand is below 2^31 and not in 128..255; in 128..255 the sign-extended imm8 moves it by operand - 256, and from 2^31 on the imm32 moves it by the low 32 bits, sign-extended |
| BfCompiler.NarrowDelta | brainfuck/compiler.c:133-144 | an operand up to 255 gets the `48 83` form, which moves rsi by its byte, sign-extended |
| BfCompiler.WideDelta | brainfuck/compiler.c:136-143 | an operand above 255 gets the `48 81` form, which moves rsi by the operand's low 32 bits, sign-extended |
| BfCompiler.PointerGroupFixedMoves | brainfuck/compiler.c:133-144 | with the imm8 form kept for operands up to 127, the group moves rsi by the operand for every operand below 2^31 |
| BfCompiler.JmpArith | brainfuck/compiler.c:176-181 | the uint32 `jmp` displacement is the relative jump to the start of the partner's group |
| BfCompiler.PatchArith | brainfuck/compiler.c:182-184 | the patch lands on the `jz` field and holds the distance to the end of the `jmp` |
| BfCompiler.LaidLoopEnd | brainfuck/compiler.c:176-185 | the `]` step lays out code up to and including that opcode |
| BfCompiler.LaidFinish | brainfuck/compiler.c:188-193 | the epilogue after the last group completes the compiled program |
| BfCompiler.CompilesUnique | brainfuck/compiler.c:105-194 | the description of the compiled code pins it down: two codes meeting it are equal |
| BfCompiler.BackwardJump | brainfuck/compiler.c:176-181 | the `jmp` of every `]` lands on the `cmp` of its `[` |
| BfCompiler.ForwardJump | brainfuck/compiler.c:182-184 | the `jz` of every `[` lands just past the `jmp` of its `]` |
| BfCompiler.PrologueOverrunsSmallBuffer | brainfuck/compiler.c:91-97 | with two bytes per opcode, the prologue alone overruns the code buffer of a program of one to three opcodes, and the buffer never grows again |
| BfBytes.LittleEndianRoundTrip | brainfuck/compiler.c:64-68 | reading back `n` little-endian bytes gives the value when it fits |
| BfBytes.BigEndianReversesLittleEndian | brainfuck/compiler.c:55-62 | the byte order of compiler_asm_ins is the reverse of that of compiler_asm_imm |
| BfBytes.LittleEndianWrap | brainfuck/compiler.c:177-183 | storing a value in n bytes keeps it modulo 256^n, so the uint32 casts change nothing |
| BfElf.FileHeader | brainfuck/compiler.c:198-218 | ELF magic, ET_EXEC for x86-64, e_phoff = e_ehsize = 64, e_phentsize = 56, e_phnum = 1, e_entry = 0x400000 + 64 + 56 |
| BfElf.ProgramHeader | brainfuck/compiler.c:219-227 | PT_LOAD with PF_X and PF_R, offset just past both headers, vaddr the entry point, filesz = memsz = code length |
| BfElf.ElfImage | brainfuck/compiler.c:229-231 | the file is the two headers, 120 bytes, followed by the code |
| BfElf.UnpackPack | brainfuck/compiler.c:229-230 | a header written field by field reads back as its fields |
| BfElf.FileHeaderFits | brainfuck/compiler.c:199-218 | every file header field fits its width |
| BfElf.FileHeaderReadsBack | brainfuck/compiler.c:229 | a loader reads back the ident bytes and every file header field from the image |
| BfElf.ProgramHeaderReadsBack | brainfuck/compiler.c:230 | a loader reads back the program header, the code length taken modulo 2^64 |
| BfInterpreter.Initial | brainfuck/interpreter.c:8-15 | the start state (pc 0, zeroed cells, pointer at cell 0) is sane for every program: pc within the opcodes, pointer on the 512-cell tape |
| BfInterpreter.Step | brainfuck/interpreter.c:98-152 | one pass of the loop body: ESTACK_OVERFLOW exactly when a pointer move leaves the tape, and a running state stays sane |
| BfInterpreter.Exec | brainfuck/interpreter.c:98-152 | a run that ends by itself ends with pc at the end of the opcodes, a stack overflow or a failed assert |
| BfInterpreter.PointerMove | brainfuck/interpreter.c:106-119 | a move that stays on the tape changes only the pointer |
| BfInterpreter.CellArithmetic | brainfuck/interpreter.c:120-125 | `+` and `-` change only the current cell, by the operand modulo 256 |
| BfInterpreter.IncrementThenDecrement | brainfuck/interpreter.c:120-125 | a `-` with the operand of the preceding `+` restores the tape |
| BfInterpreter.OutputRepeats | brainfuck/interpreter.c:126-130 | `.` writes the current cell operand times and changes nothing else |
| BfInterpreter.GetCharsReads | brainfuck/interpreter.c:131-135 | `,` consumes operand bytes and the cell keeps the last one, or EOF when the input ran out |
| BfInterpreter.LoopJumps | brainfuck/interpreter.c:136-149 | on linked code `[` on zero resumes past its `]`, `]` on nonzero resumes at the body's first opcode |
| BfInterpreter.LinkedNeverAborts | brainfuck/interpreter.c:136-149 | a linked program never trips the jump assert |
| BfInterpreter.FuelMonotone | brainfuck/interpreter.c:98-103 | more fuel does not change a run that ended by itself |
| BfInterpreter.Interpreter.constructor | brainfuck/interpreter.c:8-15 | the state is the initial one |
| BfInterpreter.Interpreter.PutChars | brainfuck/interpreter.c:126-130 | the output grows by the current cell, n times |
| BfInterpreter.Interpreter.ReadChars | brainfuck/interpreter.c:131-135 | the current cell and the input are as GetChars says; no other cell changes |
| BfInterpreter.Interpreter.Execute | brainfuck/interpreter.c:104-150 | the new state is Step of the old one |
| BfInterpreter.Interpreter.RunFor | brainfuck/interpreter.c:98-152 | the status and state are Exec of the old state, so 0 exactly when pc reaches the end |
| BfTranspiler.ToBytes | brainfuck/transpiler.py:60-68 | the opcode and argument, then a CACHE pair per cache entry: 2(1 + cache) bytes, or an error for an argument outside 0..255 |
| BfTranspiler.TableIndices | brainfuck/transpiler.py:149-156 | the constant, name and variable lookups give the indices the blocks use |
| BfTranspiler.SplitRecombine | brainfuck/transpiler.py:291-293 | splitting an offset into three bytes and recombining keeps its low 24 bits |
| BfTranspiler.SplitRoundTrip | brainfuck/transpiler.py:302-304 | for offsets below 2^24 the split is lossless |
| BfTranspiler.LoopBeginOccupiedSize | brainfuck/transpiler.py:307-310 | its assert holds: loop_begin occupies 10 code units whatever the offset |
| BfTranspiler.LoopEndOccupiedSize | brainfuck/transpiler.py:312-315 | its assert holds: loop_end occupies 3 code units whatever the offset |
| BfTranspiler.PrologueShape | brainfuck/transpiler.py:372-375 | the prologue is 8 instructions in 9 code units |
| BfTranspiler.IncrementPtrUnits | brainfuck/transpiler.py:190-199 | the `>` block occupies 5 code units |
| BfTranspiler.DecrementPtrUnits | brainfuck/transpiler.py:201-210 | the `<` block occupies 5 code units |
| BfTranspiler.UpdateValueUnits | brainfuck/transpiler.py:212-244 | the `+` and `-` blocks occupy 13 code units |
| BfTranspiler.InputValueUnits | brainfuck/transpiler.py:246-260 | the `,` block occupies 16 code units |
| BfTranspiler.OutputValueUnits | brainfuck/transpiler.py:262-278 | the `.` block occupies 18 code units |
| BfTranspiler.BlockShape | brainfuck/transpiler.py:280-305 | a block's length and size do not depend on its jump offset |
| BfTranspiler.AppendBytecode | brainfuck/transpiler.py:384-387 | the size counter grows by the occupied size of what is appended |
| BfTranspiler.ReplacePlaceholder | brainfuck/transpiler.py:425-427 | the three placeholder operands of the `[` block get the offset's bytes |
| BfTranspiler.PatchLoopBegin | brainfuck/transpiler.py:425-427 | patching a `[` block gives the block with the new offset |
| BfTranspiler.Initialize | brainfuck/transpiler.py:372-382 | the code before the first character, with its occupied size and an empty loop stack |
| BfTranspiler.OpenLoop | brainfuck/transpiler.py:407-410 | a `[` stacks the start of its block and the size so far, then appends loop_begin(-1) |
| BfTranspiler.CloseLoop | brainfuck/transpiler.py:414-427 | a `]` pops its `[`, appends loop_end(span) and patches span - 10 into the `[` block |
| BfTranspiler.EmitBlock | brainfuck/transpiler.py:395-406 | any other character appends its block, none for a non-command |
| BfTranspiler.Advance | brainfuck/transpiler.py:389-427 | one character of the loop: an unmatched `]` stops it, anything else extends the code |
| BfTranspiler.GeneratedUnmatched | brainfuck/transpiler.py:411-413 | a `]` with nothing to close means the program has an unmatched `]` |
| BfTranspiler.Conclude | brainfuck/transpiler.py:429-434 | ValueError for an unclosed `[`, otherwise the code ends with POP_TOP and RETURN_CONST |
| BfTranspiler.Generate | brainfuck/transpiler.py:369-434 | ValueError exactly for an unmatched `]` or an unclosed `[`, otherwise the prologue, one block per command and the epilogue |
| BfTranspiler.PartnerMatches | brainfuck/transpiler.py:407-418 | the loop stack pairs each `]` with the `[` it closes |
| BfTranspiler.EveryOpenCloses | brainfuck/transpiler.py:429-430 | in a balanced program every `[` has its `]` |
| BfTranspiler.OffsetAtClose | brainfuck/transpiler.py:415-427 | a `]` carries the span of its loop and its `[` carries the span less 10 |
| BfTranspiler.JumpsLand | brainfuck/transpiler.py:415-427 | JUMP_BACKWARD returns to the start of the `[` block and POP_JUMP_IF_TRUE goes to the end of the `]` block |
| BfTranspiler.BackwardLands | brainfuck/transpiler.py:415-419 | JUMP_BACKWARD at the `]` lands on the start of its `[` block |
| BfTranspiler.ForwardLands | brainfuck/transpiler.py:423-427 | the patched POP_JUMP_IF_TRUE lands just past the `]` block |
| BfTranspiler.LoopSpan | brainfuck/transpiler.py:415-424 | a loop's two blocks do not overlap and its span is at least 13 |
| BfTranspiler.LongLoopTruncates | brainfuck/transpiler.py:302-304 | past 2^24 code units a loop's offset keeps only its low 24 bits and JUMP_BACKWARD lands short |
| Json.WsEnd | json/parser.py:241-252 | where skip_whitespace stops: after a run of whitespace, at a non-whitespace character or the end |
| Json.DigitsEnd | json/parser.py:546-552 | where parse_digits stops: after a run of characters str.isdigit accepts, Unicode digits included |
| Json.MatchesSlice | json/parser.py:220-231 | the comparison of compare_and_consume is slice equality |
| Json.ElementAt | json/parser.py:262-266 | a successful element consumes at least one character |
| Json.ValueAt | json/parser.py:268-296 | a successful value consumes at least one character |
| Json.ObjectLoop | json/parser.py:311-335 | an object not closed at once starts the members loop after the whitespace |
| Json.ArrayLoop | json/parser.py:444-461 | an array not closed at once starts the items loop after the whitespace |
| Json.IntegerAt | json/parser.py:506-536 | a successful integer returns exactly the text it consumed |
| Json.IntegerLexeme | json/parser.py:506-536 | what parse_integer returns follows the integer grammar: an optional `-`, then `0`, or an ASCII 1-9 digit and a run of str.isdigit digits |
| Json.FractionAt | json/parser.py:564-571 | parse_fraction always succeeds and returns the text it consumed |
| Json.JsonParser.constructor | json/parser.py:187-189 | pos 0 and empty text |
| Json.JsonParser.HasMore | json/parser.py:191-192 | true exactly when pos is before the end |
| Json.JsonParser.Remaining | json/parser.py:194-195 | the text from pos on, empty past the end |
| Json.JsonParser.Reset | json/parser.py:197-199 | pos 0 and empty text |
| Json.JsonParser.Consume | json/parser.py:201-218 | pos advances by n and n is returned |
| Json.JsonParser.CompareAndConsume | json/parser.py:220-231 | true exactly when the text at pos starts with the expected string, advancing pos by its length then and only then |
| Json.JsonParser.Peek | json/parser.py:233-239 | the character at pos, or EOFError past the end |
| Json.JsonParser.SkipWhitespace | json/parser.py:241-252 | pos moves to the end of the whitespace run and the count skipped is returned |
| Json.JsonParser.Parse | json/parser.py:254-260 | the result is that of the grammar on the whole text |
| Json.JsonParser.ParseElement | json/parser.py:262-266 | whitespace, a value, whitespace, as the grammar says |
| Json.JsonParser.ParseValue | json/parser.py:268-296 | the dispatch on the character at pos, as the grammar says; any str.isdigit digit goes to parse_number |
| Json.JsonParser.ParseObject | json/parser.py:298-335 | an object, as the grammar says |
| Json.JsonParser.ParseMembers | json/parser.py:316-335 | the members loop up to the closing brace |
| Json.JsonParser.MemberTurn | json/parser.py:317-335 | one key, colon, element and separator |
| Json.JsonParser.ParseKey | json/parser.py:319-324 | whitespace, the key, whitespace and `:` |
| Json.JsonParser.ParseString | json/parser.py:337-389 | a string, as the grammar says |
| Json.JsonParser.HandleEscapeSequence | json/parser.py:391-429 | an escape, as the grammar says |
| Json.JsonParser.ParseArray | json/parser.py:431-461 | an array, as the grammar says |
| Json.JsonParser.ParseItems | json/parser.py:450-461 | the items loop up to the closing bracket |
| Json.JsonParser.ItemTurn | json/parser.py:452-461 | one value and separator |
| Json.JsonParser.ParseSeparator | json/parser.py:328-335 | whitespace, then the closing bracket or a comma consumed, or nothing |
| Json.JsonParser.ParseLiteral | json/parser.py:463-476 | the literal word at pos, or JSONParseError |
| Json.JsonParser.ParseTrue | json/parser.py:463-466 | `true` or JSONParseError |
| Json.JsonParser.ParseFalse | json/parser.py:468-471 | `false` or JSONParseError |
| Json.JsonParser.ParseNull | json/parser.py:473-476 | `null` or JSONParseError |
| Json.JsonParser.ParseNumber | json/parser.py:478-504 | int() of the integer part when there is neither fraction nor exponent, else the float's lexeme; ValueError when a digit is not decimal, when the integer has more than 4300 digits, or when the exponent has no digit |
| Json.JsonParser.ParseInteger | json/parser.py:506-536 | an optional `-`, then an ASCII 1-9 digit and a run of str.isdigit digits, or a single `0`; otherwise JSONParseError |
| Json.JsonParser.ParseOnenine | json/parser.py:538-544 | a digit 1-9 or JSONParseError |
| Json.JsonParser.ParseDigits | json/parser.py:546-552 | pos moves past the run of str.isdigit digits, which is returned |
| Json.JsonParser.ParseDigit | json/parser.py:554-562 | a digit 0-9 or JSONParseError |
| Json.JsonParser.ParseFraction | json/parser.py:564-571 | `.` and a run of str.isdigit digits, or nothing |
| Json.JsonParser.ParseExponent | json/parser.py:573-584 | `e` or `E`, a sign and a run of str.isdigit digits, spelt with `E`; or nothing |
| Json.JsonParser.ParseSign | json/parser.py:586-592 | `+`, `-` or nothing |
| JsonProperties.LookupPut | json/parser.py:330 | after `obj[key] = value` the key reads as the value |
| JsonProperties.LookupPutOther | json/parser.py:330 | the store leaves every other key as it was |
| JsonProperties.KeysPut | json/parser.py:330 | a present key keeps its place and a new key goes last |
| JsonProperties.PutDistinct | json/parser.py:330 | the store keeps keys distinct |
| JsonProperties.WsEndRun | json/parser.py:241-252 | skip_whitespace stops exactly at the end of a whitespace run |
| JsonProperties.DigitsEndRun | json/parser.py:546-552 | parse_digits stops exactly at the end of a run of str.isdigit digits |
| JsonProperties.CharsPlain | json/parser.py:376-389 | the string loop copies plain characters up to the closing quote |
| JsonProperties.StringRoundTrip | json/parser.py:374-389 | a quoted plain string reads back as itself whatever its opening character |
| JsonProperties.HexValueBound | json/parser.py:427 | int of n hex digits is below 16^n |
| JsonProperties.HexAtErrors | json/parser.py:417-426 | the hex loop raises EOFError or ValueError, never JSONParseError |
| JsonProperties.HexAtRun | json/parser.py:417-428 | hex digits in the text complete the code point |
| JsonProperties.HexAtOk | json/parser.py:417-426 | the hex loop succeeds only on hex digits |
| JsonProperties.HexAtBad | json/parser.py:420-424 | the first non-hex character raises ValueError there |
| JsonProperties.EscapeOk | json/parser.py:391-429 | an escape succeeds exactly when it is well formed |
| JsonProperties.SimpleEscapes | json/parser.py:395-415 | the one-character escapes decode to the characters they name, any other raises at the escape character |
| JsonProperties.UnicodeEscape | json/parser.py:414-429 | `\uXXXX` decodes to the code point XXXX, below 0x10000 |
| JsonProperties.BadUnicodeEscape | json/parser.py:421-424 | a non-hex character after `\u` raises ValueError, not JSONParseError |
| JsonProperties.LiteralExact | json/parser.py:463-476 | true, false and null parse exactly on the word, otherwise JSONParseError at pos |
| JsonProperties.IntegerAtLexeme | json/parser.py:506-536 | parse_integer reads exactly an integer lexeme not followed by a str.isdigit digit |
| JsonProperties.ShowNatRoundTrip | json/parser.py:502 | the decimal digits of n are a natural lexeme whose decimal value is n |
| JsonProperties.ShowIntRoundTrip | json/parser.py:502 | the numeral of n follows the integer grammar, and int() reads it back as n exactly when it has at most 4300 digits, else raises ValueError |
| JsonProperties.IntegerDocument | json/parser.py:254-260 | a written-out integer parses back to that int when it has at most 4300 digits and is a ValueError otherwise, whatever follows that is neither a digit, `.`, `e` nor `E` |
| JsonProperties.EmptyObject | json/parser.py:311-314 | `{`, whitespace and `}` give an empty dict |
| JsonProperties.EmptyArray | json/parser.py:444-448 | `[`, whitespace and `]` give an empty list |
| JsonProperties.MembersDistinct | json/parser.py:316-335 | the dict the members loop builds has distinct keys |
| JsonProperties.ObjectDistinct | json/parser.py:298-335 | a parsed dict has distinct keys |
| JsonProperties.UnexpectedCharacterIff | json/parser.py:278-296 | "Unexpected character" at pos exactly when that character starts no value (a str.isdigit digit starts one) |
| JsonProperties.DuplicateKey | json/parser.py:330 | a repeated key keeps its first place and its last value |
| JsonProperties.UncheckedQuote | json/parser.py:374 | the opening quote of a key is not checked |
| JsonProperties.MissingColon | json/parser.py:323-324 | a missing `:` raises at the character found instead |
| JsonProperties.MissingComma | json/parser.py:460-461 | a missing `,` raises at the next value |
| JsonProperties.ExponentWithoutDigits | json/parser.py:504 | an exponent without digits is a lexeme float() refuses |
| JsonProperties.ExponentAtEnd | json/parser.py:586-588 | an exponent at the end of the text peeks past the end |
| JsonProperties.UnicodeDecimalDigit | json/parser.py:497-502 | `1` and a decimal digit from any script (`1٣`) read as ten plus that digit's value |
| JsonProperties.UnicodeNonDecimalDigit | json/parser.py:497-502 | `1` and a digit that is not decimal (`1²`) pass parse_digits and then int() raises ValueError |
| JsonProperties.UnicodeLeadingDigit | json/parser.py:530-536 | a document starting with a digit outside ASCII (`٣`) is sent to parse_number, where parse_digit raises "Expected a digit" at it |
| JsonProperties.UnicodeFractionDigit | json/parser.py:564-571 | `1.` and a decimal digit from any script (`1.٣`) is a fraction float() reads |
| HashMaps.FnvHash | hashmap/src/hashmap.c:17-25 | the 64-bit FNV-1 hash of the key |
| HashMaps.CountLive | hashmap/src/hashmap.c:32-35 | the number of slots holding a live key |
| HashMaps.GrowCapacity | hashmap/src/hashmap.c:37-40 | the capacity doubled until the keys fill less than 50% |
| HashMaps.Strlen | hashmap/src/hashmap.c:112-115 | the index of the first NUL byte |
| HashMaps.HashMap.constructor | hashmap/include/hashmap.h:33-43 | no buckets and no contents |
| HashMaps.HashMap.GetEntry | hashmap/src/hashmap.c:62-77 | the slot the probe finds for the key, or none |
| HashMaps.HashMap.Get2 | hashmap/src/hashmap.c:117-121 | the key's value, or NULL when it is not stored |
| HashMaps.HashMap.Get | hashmap/src/hashmap.c:112-115 | hashmap_get2 on the key up to its NUL |
| HashMaps.HashMap.Rehash | hashmap/src/hashmap.c:29-55 | fresh buckets with exactly the live entries, no tombstones, `used` equal to their number, capacity kept or doubled |
| HashMaps.HashMap.CopyAll | hashmap/src/hashmap.c:47-51 | every live entry put into the new buckets |
| HashMaps.HashMap.GetOrInsertEntry | hashmap/src/hashmap.c:79-110 | allocate or rehash when due, then claim the first slot holding the key, a tombstone or NULL |
| HashMaps.HashMap.ClaimSlot | hashmap/src/hashmap.c:90-108 | the claimed slot gets the key, and `used` grows only for a NULL slot |
| HashMaps.HashMap.Put2 | hashmap/src/hashmap.c:128-132 | the key maps to the value, every other key keeps its own, and overwriting without a rehash leaves `used` unchanged |
| HashMaps.HashMap.Put | hashmap/src/hashmap.c:123-126 | hashmap_put2 on the key up to its NUL |
| HashMaps.HashMap.Delete2 | hashmap/src/hashmap.c:139-144 | the key is gone, the rest unchanged, `used` unchanged; an absent key changes nothing |
| HashMaps.HashMap.Delete | hashmap/src/hashmap.c:134-137 | hashmap_delete2 on the key up to its NUL |
| HashTable.FnvTestVectors | hashmap/src/hashmap.c:17-25 | the FNV-1 64-bit test vectors for "a" and "foobar" |
| HashTable.ProbeDistinct | hashmap/src/hashmap.c:69-70 | the probe visits each slot at most once |
| HashTable.ProbeDist | hashmap/src/hashmap.c:90-91 | the probe reaches every slot |
| HashTable.FindContents | hashmap/src/hashmap.c:62-77 | get_entry finds a slot exactly when the key is stored, and that slot holds its value |
| HashTable.SlotFacts | hashmap/src/hashmap.c:90-108 | get_or_insert_entry stops at the key's slot or a tombstone before it |
| HashTable.ClaimInv | hashmap/src/hashmap.c:96-107 | the claim keeps the table invariant, and `used` grows exactly when the slot was NULL |
| HashTable.InsertInv | hashmap/src/hashmap.c:128-132 | a put into buckets with room stores the value, keeps the others, and leaves `used` unchanged for a stored key |
| HashTable.DeleteInv | hashmap/src/hashmap.c:139-144 | a delete removes the key, keeps the others and `used`, and is a no-op for an absent key |
| HashTable.GetContents | hashmap/src/hashmap.c:117-121 | get returns the key's value, or NULL |
| HashTable.GetPut | hashmap/src/hashmap.c:128-132 | after put(k, v), get(k) is v and every other key reads as before |
| HashTable.GetDelete | hashmap/src/hashmap.c:139-144 | after delete(k), get(k) is NULL and every other key reads as before |
| HashTable.EmptyInv | hashmap/src/hashmap.c:81-83 | fresh buckets are empty and keep the invariant |
| HashTable.NewCapacity | hashmap/src/hashmap.c:37-39 | the new capacity is at least the old one, with the keys below 50% of it |
| HashTable.NewCapacityOnce | hashmap/src/hashmap.c:37-39 | with fewer keys than slots, the capacity doubles at most once |
| HashTable.RehashInv | hashmap/src/hashmap.c:29-55 | rehash keeps the contents, drops tombstones and sets `used` to the live count |
| HashTable.PutInv | hashmap/src/hashmap.c:79-132 | put, with any allocation or rehash first, stores the value and keeps the invariant |
| HashTable.ShadowedKeyStoredTwice | hashmap/src/hashmap.c:96-100 | a key after a tombstone on its probe is stored twice by put, and delete then get returns the stale value |
| HashTable.InsertCheckedInv | hashmap/src/hashmap.c:79-110 | a get_or_insert_entry that looks for the key before reusing a tombstone keeps the invariant and maps the key to the value, with no condition on tombstones |
| HashTable.ShadowedKeyStoredOnce | hashmap/src/hashmap.c:96-100 | on the same buckets that corrected insert stores the key once, and delete then get returns NULL |
| SkipLists.RandomLevel | skiplist/skiplist.go:96-102 | one level plus one per head flip, stopping at MaxLevel |
| SkipLists.CoinHeight | skiplist/skiplist.go:96-102 | the drawn level is between 1 and MaxLevel |
| SkipLists.Descend | skiplist/skiplist.go:109-120 | the walk from the top level down, recording where each level was left and its rank |
| SkipLists.ByRank | skiplist/skiplist.go:161-174 | the node at position r, or nil past the end |
| SkipLists.RankOf | skiplist/skiplist.go:179-194 | a positive answer is the 1-based position of (s, v) |
| SkipLists.Grow | skiplist/skiplist.go:122-130 | new levels start at the head with the list's length as span |
| SkipLists.Splice | skiplist/skiplist.go:133-139 | the new node takes over the pointers of the walk's nodes, and their spans split at it |
| SkipLists.Widen | skiplist/skiplist.go:141-143 | the levels above the new node cover one step more |
| SkipLists.Backlink | skiplist/skiplist.go:145-153 | backward pointers and the tail are set around the new node |
| SkipLists.Inserted | skiplist/skiplist.go:104-157 | insert on the arena: the shape invariant holds and the elements gain (s, v) where the walk ended |
| SkipLists.Unlink | skiplist/skiplist.go:225-232 | each level takes over the deleted node's pointer or covers one step less |
| SkipLists.Lower | skiplist/skiplist.go:238-240 | empty top levels are dropped |
| SkipLists.Deleted | skiplist/skiplist.go:212-244 | delete on the arena: found exactly when the node after the walk holds (s, v), which is then removed |
| SkipLists.SkipList.constructor | skiplist/skiplist.go:65-70 | a head of MaxLevel, no elements, level 1 |
| SkipLists.SkipList.Clear | skiplist/skiplist.go:89-94 | a fresh head, no elements, level 1 |
| SkipLists.SkipList.Len | skiplist/skiplist.go:72-74 | the elements plus the deletions still counted |
| SkipLists.SkipList.Search | skiplist/skiplist.go:196-208 | the node after the walk when it holds (s, v); with distinct scores, found exactly when (s, v) is an element |
| SkipLists.SkipList.Insert | skiplist/skiplist.go:104-157 | the invariant holds, (s, v) is inserted where the walk ended, the height is the max of the old one and the drawn level, and length grows by 1 |
| SkipLists.SkipList.Delete | skiplist/skiplist.go:212-244 | true and unlinked exactly when the node after the walk holds (s, v), otherwise nothing changes; the length stays as it was |
| SkipLists.SkipList.DeleteCounted | skiplist/skiplist.go:212-244 | Delete with the length decremented, so the length counts the elements |
| SkipLists.SkipList.GetElementByRank | skiplist/skiplist.go:161-174 | the node at 1-based position r, the head for 0, nil past the end |
| SkipLists.SkipList.GetRank | skiplist/skiplist.go:179-194 | a positive answer is the 1-based position; with distinct scores every element other than (0, 0) is found |
| SkipShape.WalkEndFinds | skiplist/skiplist.go:196-208 | with distinct scores the walk ends just before (s, v) when it is present |
| SkipSteps.InsertFinish | skiplist/skiplist.go:145-157 | after the splice and the backward pointers the shape invariant holds with the new node in place |
| SkipSteps.DeleteFinish | skiplist/skiplist.go:233-243 | after the unlink and the backward pointer the shape invariant holds without the node |
| Heaps.GoQuot | top-k/heap/heap.go:61-63 | Go's division truncates toward zero |
| Heaps.ParentIndex | top-k/heap/heap.go:61-63 | the parent of the root is the root; every other slot's parent is before it and has it as a child |
| Heaps.LeftChildIndex | top-k/heap/heap.go:65-67 | the left child is after its parent and has it as parent |
| Heaps.RightChildIndex | top-k/heap/heap.go:69-71 | the right child follows the left one with the same parent |
| Heaps.Heap.constructor | top-k/heap/heap.go:13-19 | an empty heap with the given order |
| Heaps.Heap.Len | top-k/heap/heap.go:21-23 | the number of elements |
| Heaps.Heap.Root | top-k/heap/heap.go:25-27 | the first slot, over which no element of a valid heap is preferred |
| Heaps.Heap.Swap | top-k/heap/heap.go:106-108 | two slots exchanged, the multiset kept |
| Heaps.Heap.Push | top-k/heap/heap.go:29-32 | heap order kept, and the multiset grows by the value |
| Heaps.Heap.Pop | top-k/heap/heap.go:34-46 | the zero value on an empty heap; otherwise the root leaves, heap order is kept, and no remaining element is preferred over it |
| Heaps.SiftUp | top-k/heap/heap.go:73-83 | heap order restored and the multiset kept |
| Heaps.SiftDown | top-k/heap/heap.go:85-104 | heap order restored, the multiset kept, and true exactly when the element moved down |
| Heaps.DownTurn | top-k/heap/heap.go:87-102 | one turn: stop at a leaf or when preferred over the chosen child, otherwise swap with it |
| Heaps.Pick | top-k/heap/heap.go:93-96 | the child compared against is one no sibling is preferred over |
| Heaps.RootBest | top-k/heap/heap.go:25-27 | in a heap no element is preferred over the root |
| TopKs.TopK.constructor | top-k/core.go:14-22 | an empty collector of capacity k, complete |
| TopKs.TopK.Len | top-k/core.go:44-46 | never more than k |
| TopKs.TopK.Push | top-k/core.go:24-38 | below k the value is added; at k the root is replaced exactly when it is less than the value; a complete collector holds the k best values seen |
| TopKs.TopK.Pop | top-k/core.go:40-42 | the root is returned and removed, and no remaining value is less than it |
| TopKs.Added | top-k/core.go:25-28 | a push below k keeps the collector complete |
| TopKs.Replaced | top-k/core.go:30-34 | a replacement of the root keeps the collector complete |
| TopKs.Skipped | top-k/core.go:30-36 | skipping a value not above the root keeps the collector complete |
| DiffResult.TypeName | diff/diff.go:24-64 | "common", "added", "removed" for the three variants |
| DiffResult.ComparePtrsIsEquality | diff/utils.go:9-17 | compareIntPtrs is equality of optional ints: true for two nils, false for one nil |
| DiffResult.EqualIsEquality | diff/diff.go:14-16 | Equal holds exactly for identical entries, so it is reflexive and symmetric |
| DiffResult.AlgorithmName | diff/diff.go:103-111 | "lcs", "myers", or "unknown" for any other value |
| Diff.Diff | diff/diff.go:113-121 | LCS runs lcs.go's LcsDiff as written, panicking where it panics and otherwise giving the corrected script, which rebuilds both sides; Myers panics "unimplemented", anything else panics "unknown" |
| Lcs.CreateTable | diff/lcs.go:8-31 | a (len(row) + 1) x (len(column) + 1) table whose [i, j] entry is the LCS length of the suffixes |
| Lcs.LcsDiff | diff/lcs.go:56-130 | for every input, with no panic, the script of LcsDiffSpec: the common prefix, the walk of the LCS table over the middles, then the common suffix; the rebuild, numbering and optimality lemmas are proved of that script |
| Lcs.CommonPrefix | diff/lcs.go:74-82 | a Common entry for each element of the common prefix |
| Lcs.CommonSuffixLength | diff/lcs.go:84-88 | the common suffix length clear of the prefix |
| Lcs.WalkTable | diff/lcs.go:95-110 | the table walk up to the end of one side |
| Lcs.RemovedTail | diff/lcs.go:112-116 | a Removed entry for each remaining old element |
| Lcs.AddedTail | diff/lcs.go:118-122 | an Added entry for each remaining new element |
| Lcs.CommonSuffix | diff/lcs.go:124-128 | a Common entry for each element of the common suffix |
| Lcs.LcsWalk | diff/lcs.go:90-122 | the table of the trimmed middles, walked |
| Lcs.LcsDiffRebuilds | diff/lcs.go:74-128 | Common and Removed rebuild the old sequence, Common and Added the new one |
| Lcs.LcsDiffNumbered | diff/lcs.go:95-128 | old and new indices count 0, 1, ... over their sides |
| Lcs.LcsDiffOptimal | diff/lcs.go:74-93 | the script keeps LcsLen Common entries and no rebuilding script keeps more |
| Lcs.LcsIsLongest | diff/lcs.go:20-29 | any script rebuilding both inputs has at most LcsLen Common entries |
| Lcs.LcsDiffIdentical | diff/lcs_test.go:27-35 | identical inputs give one Common entry per element |
| Lcs.LcsDiffDisjoint | diff/lcs.go:103-108 | disjoint inputs give every new element Added, then every old one Removed |
| Lcs.ShiftedExample | diff/diff_test.go:16-25 | [1,2,3] against [2,3,4] gives Removed 1, Common 2, Common 3, Added 4 |
| Lcs.SuffixScanAsWritten | diff/lcs.go:84-88 | the unbounded suffix scan, which panics past the start of either side |
| Lcs.SuffixScanAgrees | diff/lcs.go:84-88 | where the unbounded scan stays inside both sides it agrees with the bounded one |
| Lcs.AsWrittenAgrees | diff/lcs.go:56-130 | whenever lcs.go does not panic, it returns LcsDiff's script |
| Lcs.SuffixScanPanics | diff/lcs.go:86 | old [1], new [2, 1] panics as written, while LcsDiff returns Added 2, Common 1 |
| Myers.Lookup | diff/myers.go:19-26 | a missing diagonal reads as the zero Frontier |
| Myers.MyersDiff | diff/myers.go:8-53 | never reaches the panic, and the script rebuilds both inputs with numbered indices |
| Myers.Round | diff/myers.go:18-50 | a finished path's script rebuilds both inputs, otherwise every diagonal of the round is written |
| Myers.Advance | diff/myers.go:19-43 | the path for diagonal j extends a path of the previous round by one step and a snake |
| Myers.StepFrom | diff/myers.go:19-37 | the first step, down or right, as the frontier says |
| Myers.Record | diff/myers.go:33-37 | a down step adds newSeq[y - 1], a right step removes oldSeq[x - 1] |
| Myers.Snake | diff/myers.go:39-43 | equal elements are followed as Common entries to the first mismatch |
| Myers.Finished | diff/myers.go:45-47 | a finished path rebuilds both inputs |
| Myers.RoundsSuffice | diff/myers.go:17 | after len(old) + len(new) steps the path on diagonal len(old) - len(new) has reached the end |
| Myers.NotLastRound | diff/myers.go:52 | round len(old) + len(new) always returns, so the panic is unreachable |
| Myers.StepAdded | diff/myers.go:33-34 | an Added entry extends a script by one new element |
| Myers.StepRemoved | diff/myers.go:35-36 | a Removed entry extends a script by one old element |
| Myers.StepCommon | diff/myers.go:39-43 | a Common entry on equal elements extends a script on both sides |
| Bloom.SplitU128 | bloomfilter/src/lib.rs:6-10 | the high and low 64 bits, which recombine to the value |
| Bloom.ComputeHash | bloomfilter/src/lib.rs:27-35 | the halves of murmur3 of the data and of the data with 1 appended |
| Bloom.MixIndex | bloomfilter/src/lib.rs:37-42 | the second hash is h[2] or h[3], alternating in pairs |
| Bloom.GetLocation | bloomfilter/src/lib.rs:37-42 | every location is below m |
| Bloom.Locations | bloomfilter/src/lib.rs:60-63 | the k locations in visiting order, each below m |
| Bloom.SetBitsMeaning | bloomfilter/src/lib.rs:57-66 | setting bits sets exactly the locations and keeps every bit already set |
| Bloom.UnionBits | bloomfilter/src/lib.rs:94 | a bit is set exactly when it is set in either |
| Bloom.InsertedIsContained | bloomfilter/src/lib.rs:57-78 | no false negatives: an inserted datum is contained |
| Bloom.ContainedStaysContained | bloomfilter/src/lib.rs:57-66 | further insertions never clear a bit |
| Bloom.ClearedContainsNothing | bloomfilter/src/lib.rs:80-83 | after clear no datum is contained |
| Bloom.UnionIsInsertBoth | bloomfilter/src/lib.rs:85-96 | the union of two filters is one filter with both data inserted |
| Bloom.BloomFilter.constructor | bloomfilter/src/lib.rs:19-25 | m and k clamped to at least 1, and a cleared bitset of the raw length m |
| Bloom.BloomFilter.Capacity | bloomfilter/src/lib.rs:45-47 | the clamped m |
| Bloom.BloomFilter.K | bloomfilter/src/lib.rs:49-51 | the clamped k |
| Bloom.BloomFilter.Insert | bloomfilter/src/lib.rs:57-66 | the k locations of the data are set, nothing else changes |
| Bloom.BloomFilter.Contains | bloomfilter/src/lib.rs:68-78 | true exactly when every location is set |
| Bloom.BloomFilter.Clear | bloomfilter/src/lib.rs:80-83 | every bit off, the length kept |
| Bloom.BloomFilter.Union | bloomfilter/src/lib.rs:85-96 | an error and no change when m or k differ, otherwise the bitwise or |

## Left out

- BfParser.Parser.ParseFile: requires the bracket depth to stay within the 100 slots of the bracket stack; the source pushes without checking (brainfuck/parser.c:21,68).
- BfParser.Parser.ParseFile: every vec_push is assumed to succeed. The source ignores push failures (brainfuck/parser.c:9,82), so on ENOMEM it drops an opcode and carries on. The Vec model states that failure path.
- BfParser.Parser.ParseFile: the file is `src`, one character per byte, so only characters up to 0xFF stand for a real file; reading it (fopen, fgetc, ungetc) is not modelled beyond that.
- BfParser.Parser.ParseFile: `char` is taken to be signed, as on x86-64. Where it is unsigned, c never equals EOF and the loop at brainfuck/parser.c:25 never ends; that case is not modelled.
- BfParser.Parser.constructor: allocation is assumed to succeed.
- BfCompiler.Compiler.Compile: every append is assumed to succeed, and the contract gives the bytes but not the capacity. With the buffer sized at two bytes per opcode (brainfuck/compiler.c:95), the C program writes past its buffer. BfCompiler.PrologueOverrunsSmallBuffer and the BfVec lemmas state this overrun.
- BfCompiler.Compiler.Compile: requires a linked opcode stream, which is what a successful parse gives. It also requires code shorter than 4 GiB, because the table holds uint32 offsets.
- BfCompiler.Compiler.constructor: allocation is assumed to succeed.
- BfCompiler.Encoding: for an operand above 255, the `83` cell forms are modelled by their emitted length only. Their run-time meaning is not claimed.
- Executing the generated x86 code and loading the ELF file are not modelled. Opening, writing and chmod of the output file are left out too.
- BfVec.Vec.ExtendFromSlice: requires a vec of 1-byte items; vec_extend_from_slice (brainfuck/vec.c:76) takes any item size, but its only caller (brainfuck/compiler.c:66) extends the 1-byte code vec.
- vec_iterate (brainfuck/vec.c:69-74) is not modelled: nothing in the core calls it.
- BfInterpreter.Interpreter.RunFor: the run takes fuel, because termination is not guaranteed. getchar and putchar are modelled as an input sequence and an output sequence.
- The interpreter's show_state/show_opcodes printers are left out.
- BfTranspiler.ToBytes: `dis.opmap` opcode numbers are a parameter with no interpretation.
- The transpiler's Scanner, the code object and .pyc writing, and its Interpreter class are left out as file and process I/O. Characters come from a sequence.
- Json.JsonParser.ParseNumber: a number with a fraction or exponent returns its lexeme, not a float value.
- Json.MaxStrDigits: int()'s digit limit is fixed at its default of 4300. Changing or lifting it with sys.set_int_max_str_digits or PYTHONINTMAXSTRDIGITS is not modelled.
- Json.JsonParser.Parse: the nesting depth is unbounded in the model, while Python raises RecursionError once its recursion limit is reached (about 500 levels of `[`).
- The JSON parser's logging and colored error formatting are left out. Errors are modelled as a position and a kind.
- HashMaps.HashMap.Put2: requires that no tombstone earlier on the key's probe shadows it, and that used * 100 fits an int. HashTable.ShadowedKeyStoredTwice shows what the source does without the first.
- HashMaps.HashMap.Put: has the same precondition as Put2.
- Hash map keys are byte sequences held by value, so a caller mutating a key it still owns is not modelled. keylen is the length of that sequence.
- The hash map's `format` helper is left out.
- SkipLists.SkipList.Insert: scores are ints compared only by order, not float64. The level's coin flips are a parameter in place of rand.Float32.
- Skip list nodes are indices into an arena, not pointers. Display, Height, HeadNode and TailNode are left out.
- SkipLists.SkipList.Search: finding exactly the present elements needs distinct scores. With equal scores the walk order of Insert can leave a present element unfound.
- SkipLists.SkipList.GetRank: with distinct scores it finds every element other than (0, 0), which the head node's own score and value match.
- Heaps.Heap.constructor: requires a non-negative capacity, since Go's make panics on a negative one. The order must be a strict weak order.
- Heaps.Heap.Root: requires a non-empty heap; the source panics on an empty one.
- PrintTree and printState are left out.
- TopKs.TopK.Push: requires k >= 1. With k <= 0 the source calls Root on an empty heap (top-k/core.go:30) and panics.
- TopKs.TopK.Pop: the collector's completeness invariant (the k best of those seen) is kept by Push but not stated after Pop.
- Myers.MyersDiff: the contract does not state that the script is minimal (that the round it returns in is the edit distance). It also does not state that identical inputs give only Common entries.
- Myers.Record: the down step with y past the end of the new sequence (diff/myers.go:33-37) falls into the Removed branch. It is proved never to lie on a returned path.
- diff/diff_test.go:36-46 expects Removed before Added for disjoint inputs, while lcs_test.go:36-46 expects Added first. The code does what lcs_test.go expects, and Lcs.LcsDiffDisjoint states that.
- cloneAndGetPtr is modelled as `Some(value)`: the fresh allocation is not modelled.
- displayTable and DisplayDiff are left out.
- Bloom.BloomFilter.Insert: requires the bitset to have the clamped length m. A filter made with m = 0 has an empty bitset and panics on insert.
- Bloom.ComputeHash: murmur3 is a parameter, and FixedBitSet internals are not modelled.
- The println! in contains is left out.
- The allocator under malloc/ and all command-line drivers are not part of this model.

## Findings

| source | as written | input that shows it | evidently intended | confidence | as-written member | corrected member |
|---|---|---|---|---|---|---|
| hashmap/src/hashmap.c:96-100 | get_or_insert_entry reuses the first TOMBSTONE on the probe without looking further for the key | a key stored just past a TOMBSTONE at its home slot: put stores it again in the TOMBSTONE's slot, and after delete get returns the old value | look the key up first and reuse a TOMBSTONE only for an absent key | not executed (proved) | HashTable.ShadowedKeyStoredTwice | HashTable.InsertChecked |
| brainfuck/compiler.c:136-142 | an operand up to 255 gets the `48 83` imm8 form, whose byte the processor sign-extends | a run of 200 `>`: the compiled code moves the pointer back by 56, where interpreter.c moves it forward by 200 | the imm8 form only for operands up to 127 | not executed (proved) | BfCompiler.PointerGroupAsWritten | BfCompiler.PointerGroupFixed |
| diff/lcs.go:86 | the suffix scan re-tests the prefix indices, which it never changes, so only a mismatch stops it | old [1], new [2, 1]: it matches the 1s, then reads oldSeq[-1] and panics | the suffix stops where the prefix ends or a side runs out | not executed (proved) | Lcs.SuffixScanPanics | Lcs.LcsDiff |
| skiplist/skiplist.go:212-244 | Delete unlinks the node but never decrements `length`, so Len over-counts and Insert seeds new levels with the stale length (:127) | insert (1, a), then delete (1, a): Len is 1 on an empty list | a successful delete decrements `length` | not executed (proved) | SkipLists.SkipList.Delete | SkipLists.SkipList.DeleteCounted |
