/**
 * The Brainfuck parser (brainfuck/parser.c, brainfuck/parser.h).
 *
 * parser_parse_file reads the program text one character at a time, folds
 * runs of `>`, `<`, `+` and `-` into one opcode whose operand is the run
 * length, and cross-links `[` and `]` through a fixed bracket stack: when a
 * `]` arrives, the `[` on top of the stack gets the `]`'s index as operand
 * and the `]` gets the `[`'s index.
 *
 * The loop keeps fgetc's result in a signed `char`, so a 0xFF byte read
 * at the loop head ends the parse as EOF would; `ReadText` is the part of
 * the file read before that.
 *
 * The specification side is `Lex` (the opcode stream before linking, with
 * both bracket operands 0), `Check` (the bracket diagnosis) and the link
 * predicates `Linked` / `Nested`, applied to `ReadText`;
 * `Parser.ParseFile` is proved against them.
 */
module BfParser {
  import opened Wrappers
  import opened BfVec

  /** Return code of a failed parse. */
  const EPARSE_ERROR: int := 1
  /** Size of the bracket stack `size_t stack[100]`. */
  const MAX_DEPTH: nat := 100
  /** sizeof(Opcode): a 4-byte enum padded to 8, then a size_t. */
  const OPCODE_SIZE: nat := 16

  datatype OpKind =
    | IncrementPtr | DecrementPtr | IncrementVal | DecrementVal
    | OutputVal | InputVal | LoopBegin | LoopEnd

  datatype Opcode = Opcode(kind: OpKind, operand: nat)

  /** What the parser reports on stderr before returning. */
  datatype Diagnostic = Clean | UnmatchedClosing | UnmatchedOpening

  predicate IsCommand(c: char)
  {
    c == '>' || c == '<' || c == '+' || c == '-' || c == '.' || c == ',' || c == '[' || c == ']'
  }

  /** The four commands whose runs are folded. */
  predicate IsFolded(c: char) { c == '>' || c == '<' || c == '+' || c == '-' }

  predicate IsFoldedKind(k: OpKind) { k in {IncrementPtr, DecrementPtr, IncrementVal, DecrementVal} }

  function KindOf(c: char): (k: OpKind)
    requires IsCommand(c)
    ensures CharOf(k) == c
  {
    match c
    case '>' => IncrementPtr
    case '<' => DecrementPtr
    case '+' => IncrementVal
    case '-' => DecrementVal
    case '.' => OutputVal
    case ',' => InputVal
    case '[' => LoopBegin
    case ']' => LoopEnd
  }

  /** The command character an opcode kind stands for. */
  function CharOf(k: OpKind): (c: char)
    ensures IsCommand(c)
    ensures IsFolded(c) <==> IsFoldedKind(k)
  {
    match k
    case IncrementPtr => '>'
    case DecrementPtr => '<'
    case IncrementVal => '+'
    case DecrementVal => '-'
    case OutputVal => '.'
    case InputVal => ','
    case LoopBegin => '['
    case LoopEnd => ']'
  }

  /** Length of the maximal run of `c` at the front of `s`. */
  function RunLength(s: seq<char>, c: char): (n: nat)
    ensures n <= |s|
    ensures forall k :: 0 <= k < n ==> s[k] == c
    ensures n < |s| ==> s[n] != c
  {
    if s == [] || s[0] != c then 0 else 1 + RunLength(s[1..], c)
  }

  /** The opcode an unfolded command character yields before linking. */
  function Token(c: char): Opcode
    requires IsCommand(c)
  {
    Opcode(KindOf(c), if c == '.' || c == ',' then 1 else 0)
  }

  /**
   * The opcode stream for `s` before bracket linking: other characters
   * yield nothing, a run of a folded command yields one opcode counting
   * the run, and every other command yields one opcode.
   */
  function Lex(s: seq<char>): seq<Opcode>
    decreases |s|
  {
    if s == [] then []
    else if !IsCommand(s[0]) then Lex(s[1..])
    else if IsFolded(s[0]) then
      var n := RunLength(s, s[0]);
      assert n >= 1;
      [Opcode(KindOf(s[0]), n)] + Lex(s[n..])
    else [Token(s[0])] + Lex(s[1..])
  }

  /**
   * The byte 0xFF, the file's bytes being read as characters. parser.c:24
   * keeps fgetc's result in a plain `char`, which is signed on x86-64, so
   * this byte compares equal to EOF.
   */
  const EofByte: char := '\U{FF}'

  /**
   * The loop head of parser.c:25 stops at s[j]: a 0xFF byte that is not
   * the byte a folded run reads past its end. That byte is handed to
   * ungetc, which refuses EOF, so it is dropped and the loop goes on.
   */
  predicate StopsAt(s: seq<char>, j: nat)
    requires j < |s|
  {
    s[j] == EofByte && (j == 0 || !IsFolded(s[j - 1]))
  }

  /** The first position from `j` on where the read loop stops, or |s|. */
  function StopFrom(s: seq<char>, j: nat): (n: nat)
    requires j <= |s|
    ensures j <= n <= |s|
    ensures forall k :: j <= k < n ==> !StopsAt(s, k)
    ensures n < |s| ==> StopsAt(s, n)
    decreases |s| - j
  {
    if j == |s| then j else if StopsAt(s, j) then j else StopFrom(s, j + 1)
  }

  /** The part of the file parser_parse_file reads before its loop ends. */
  function ReadText(s: seq<char>): seq<char>
  {
    s[..StopFrom(s, 0)]
  }

  /** Position i of the file is one the loop head of parser.c:25 may read next. */
  predicate AtLoopHead(s: seq<char>, i: nat)
  {
    var n := StopFrom(s, 0);
    i <= n && (i < n ==> s[i] != EofByte)
  }

  /** The command-character subsequence of `s`. */
  function Commands(s: seq<char>): seq<char>
  {
    if s == [] then [] else (if IsCommand(s[0]) then [s[0]] else []) + Commands(s[1..])
  }

  /** `n` copies of `c`. */
  function Repeat<T>(c: T, n: nat): (r: seq<T>)
    ensures |r| == n && forall k :: 0 <= k < n ==> r[k] == c
  {
    if n == 0 then [] else [c] + Repeat(c, n - 1)
  }

  /** The characters one opcode stands for: `operand` copies for folded kinds, else one. */
  function Spell(op: Opcode): seq<char>
  {
    if IsFoldedKind(op.kind) then Repeat(CharOf(op.kind), op.operand) else [CharOf(op.kind)]
  }

  function Expand(ops: seq<Opcode>): seq<char>
  {
    if ops == [] then [] else Spell(ops[0]) + Expand(ops[1..])
  }

  /** An opcode with its link (if it is a bracket) erased. */
  function Blank(op: Opcode): Opcode
  {
    if op.kind == LoopBegin || op.kind == LoopEnd then Opcode(op.kind, 0) else op
  }

  function Unlinked(ops: seq<Opcode>): (r: seq<Opcode>)
    ensures |r| == |ops|
  {
    seq(|ops|, k requires 0 <= k < |ops| => Blank(ops[k]))
  }

  /**
   * The bracket diagnosis of a stream when `depth` brackets are already
   * open: a `]` with nothing open is reported at once, anything still open
   * at the end afterwards.
   */
  function Check(ops: seq<Opcode>, depth: nat): Diagnostic
  {
    if ops == [] then (if depth == 0 then Clean else UnmatchedOpening)
    else if ops[0].kind == LoopBegin then Check(ops[1..], depth + 1)
    else if ops[0].kind == LoopEnd then (if depth == 0 then UnmatchedClosing else Check(ops[1..], depth - 1))
    else Check(ops[1..], depth)
  }

  /** The bracket stack never needs more than MAX_DEPTH slots before the scan stops. */
  predicate FitsStack(ops: seq<Opcode>, depth: nat)
  {
    if ops == [] then true
    else if ops[0].kind == LoopBegin then depth < MAX_DEPTH && FitsStack(ops[1..], depth + 1)
    else if ops[0].kind == LoopEnd then depth == 0 || FitsStack(ops[1..], depth - 1)
    else FitsStack(ops[1..], depth)
  }

  /** Bracket contribution of one opcode to the nesting depth. */
  function Delta(op: Opcode): int
  {
    if op.kind == LoopBegin then 1 else if op.kind == LoopEnd then -1 else 0
  }

  /** Net bracket depth of a stream: opened minus closed. */
  function Depth(ops: seq<Opcode>): int
  {
    if ops == [] then 0 else Delta(ops[0]) + Depth(ops[1..])
  }

  /**
   * Every loop opcode at index base or later is cross-linked: a LoopBegin
   * at i names a LoopEnd j > i that names i back, and vice versa.
   */
  ghost predicate Linked(ops: seq<Opcode>, base: nat)
  {
    (forall i :: base <= i < |ops| && ops[i].kind == LoopBegin ==>
       i < ops[i].operand < |ops| && ops[ops[i].operand] == Opcode(LoopEnd, i)) &&
    EndsLinked(ops, base)
  }

  ghost predicate EndsLinked(ops: seq<Opcode>, base: nat)
  {
    forall j :: base <= j < |ops| && ops[j].kind == LoopEnd ==>
      base <= ops[j].operand < j && ops[ops[j].operand] == Opcode(LoopBegin, j)
  }

  /** Two loops are nested or disjoint, never interleaved. */
  ghost predicate Nested(ops: seq<Opcode>, base: nat)
  {
    forall a, b :: base <= a < b < |ops| && ops[a].kind == LoopBegin && ops[b].kind == LoopBegin ==>
      ops[b].operand < ops[a].operand || ops[a].operand < b
  }

  // ---------------------------------------------------------------------
  // Link bookkeeping in the middle of a parse. `open` lists the positions
  // of the LoopBegins still on the bracket stack, bottom first; they are
  // exactly the LoopBegins whose operand is still 0. A closed LoopBegin's
  // operand is its LoopEnd's index, which is never 0.
  // ---------------------------------------------------------------------

  ghost predicate OpenOk(ops: seq<Opcode>, base: nat, open: seq<nat>)
  {
    (forall k :: 0 <= k < |open| ==> base <= open[k] < |ops| && ops[open[k]] == Opcode(LoopBegin, 0)) &&
    (forall k, l :: 0 <= k < l < |open| ==> open[k] < open[l]) &&
    (forall i :: base <= i < |ops| && ops[i].kind == LoopBegin && ops[i].operand == 0 ==> i in open)
  }

  ghost predicate ClosedLinked(ops: seq<Opcode>, base: nat)
  {
    forall i :: base <= i < |ops| && ops[i].kind == LoopBegin && ops[i].operand != 0 ==>
      i < ops[i].operand < |ops| && ops[ops[i].operand] == Opcode(LoopEnd, i)
  }

  /** No closed loop contains a `[` that is still open. */
  ghost predicate OpenOutside(ops: seq<Opcode>, base: nat, open: seq<nat>)
  {
    forall i, k :: base <= i < |ops| && ops[i].kind == LoopBegin && 0 <= k < |open| ==>
      !(i < open[k] < ops[i].operand)
  }

  ghost predicate Links(ops: seq<Opcode>, base: nat, open: seq<nat>)
  {
    OpenOk(ops, base, open) && ClosedLinked(ops, base) && EndsLinked(ops, base) &&
    Nested(ops, base) && OpenOutside(ops, base, open)
  }

  // ---------------------------------------------------------------------
  // Properties of the specification
  // ---------------------------------------------------------------------

  lemma {:induction false} RunLengthUnique(u: seq<char>, c: char, m: nat)
    requires m <= |u| && forall k :: 0 <= k < m ==> u[k] == c
    requires m == |u| || u[m] != c
    ensures RunLength(u, c) == m
    decreases m
  {
    if m > 0 {
      assert u[1..][m - 1..] == u[m..];
      RunLengthUnique(u[1..], c, m - 1);
    }
  }

  lemma {:induction false} CommandsOfRun(s: seq<char>, c: char, n: nat)
    requires IsCommand(c) && n <= |s|
    requires forall k :: 0 <= k < n ==> s[k] == c
    ensures Commands(s) == Repeat(c, n) + Commands(s[n..])
    decreases n
  {
    if n > 0 {
      CommandsOfRun(s[1..], c, n - 1);
      assert s[1..][n - 1..] == s[n..];
    }
  }

  lemma ExpandCons(x: Opcode, r: seq<Opcode>)
    ensures Expand([x] + r) == Spell(x) + Expand(r)
  {
    assert ([x] + r)[1..] == r;
  }

  /** Folding loses nothing: expanding the opcodes gives back the command characters. */
  lemma {:induction false} ExpandLex(s: seq<char>)
    ensures Expand(Lex(s)) == Commands(s)
    decreases |s|
  {
    if s == [] {
    } else if !IsCommand(s[0]) {
      ExpandLex(s[1..]);
    } else if IsFolded(s[0]) {
      var n := RunLength(s, s[0]);
      var head := Opcode(KindOf(s[0]), n);
      ExpandLex(s[n..]);
      CommandsOfRun(s, s[0], n);
      ExpandCons(head, Lex(s[n..]));
      assert Spell(head) == Repeat(s[0], n);
    } else {
      ExpandLex(s[1..]);
      ExpandCons(Token(s[0]), Lex(s[1..]));
    }
  }

  /** Spelling ignores bracket operands, so linking does not change the expansion. */
  lemma {:induction false} ExpandUnlinked(ops: seq<Opcode>)
    ensures Expand(Unlinked(ops)) == Expand(ops)
    decreases |ops|
  {
    if ops != [] {
      ExpandUnlinked(ops[1..]);
      assert Unlinked(ops)[1..] == Unlinked(ops[1..]);
    }
  }

  /** `n` characters `c` at `p`, with no `c` right before or right after them. */
  predicate MaximalRun(s: seq<char>, p: nat, c: char, n: nat)
  {
    n >= 1 && p + n <= |s| && (forall k :: p <= k < p + n ==> s[k] == c) &&
    (p == 0 || s[p - 1] != c) && (p + n == |s| || s[p + n] != c)
  }

  /**
   * Every folded opcode of Lex(s[q..]) counts a maximal run of its
   * character in `s`, provided the scan does not start inside a run.
   */
  lemma {:induction false} LexFoldsMaximalRuns(s: seq<char>, q: nat, t: nat, op: Opcode) returns (p: nat)
    requires q <= |s| && t < |Lex(s[q..])| && op == Lex(s[q..])[t] && IsFoldedKind(op.kind)
    requires q == 0 || !IsFolded(s[q - 1]) || (q < |s| && s[q - 1] != s[q])
    ensures q <= p && MaximalRun(s, p, CharOf(op.kind), op.operand)
    decreases |s| - q
  {
    if !IsCommand(s[q]) {
      LexSkip(s, q);
      p := LexFoldsMaximalRuns(s, q + 1, t, op);
    } else if IsFolded(s[q]) {
      var e := LexRunAt(s, q);
      if t == 0 {
        assert CharOf(op.kind) == s[q];
        p := q;
      } else {
        p := LexFoldsMaximalRuns(s, e, t - 1, op);
      }
    } else {
      LexSingle(s, q);
      p := LexFoldsMaximalRuns(s, q + 1, t - 1, op);
    }
  }

  /** `.` and `,` are never folded: their opcodes always have operand 1. */
  lemma {:induction false} LexInputOutputOperands(s: seq<char>, t: nat)
    requires t < |Lex(s)| && (Lex(s)[t].kind == OutputVal || Lex(s)[t].kind == InputVal)
    ensures Lex(s)[t].operand == 1
    decreases |s|
  {
    if !IsCommand(s[0]) {
      LexInputOutputOperands(s[1..], t);
    } else if IsFolded(s[0]) {
      var n := RunLength(s, s[0]);
      assert Lex(s) == [Opcode(KindOf(s[0]), n)] + Lex(s[n..]);
      LexInputOutputOperands(s[n..], t - 1);
    } else if t > 0 {
      assert Lex(s) == [Token(s[0])] + Lex(s[1..]);
      LexInputOutputOperands(s[1..], t - 1);
    }
  }

  lemma DepthOfPrefix(ops: seq<Opcode>, p: nat)
    requires 1 <= p <= |ops|
    ensures Depth(ops[..p]) == Delta(ops[0]) + Depth(ops[1..][..p - 1])
  {
    assert ops[..p][1..] == ops[1..][..p - 1];
  }

  /**
   * The prefixes of a non-empty stream, seen from its first opcode: the
   * depths of ops[..p] for p >= 1 are Delta(ops[0]) plus the depths of the
   * prefixes of the tail.
   */
  lemma PrefixDepths(ops: seq<Opcode>, d: int)
    requires ops != []
    ensures (exists p :: 0 < p <= |ops| && d + Depth(ops[..p]) < 0) <==>
      (d + Delta(ops[0]) < 0 || exists q :: 0 < q <= |ops[1..]| && d + Delta(ops[0]) + Depth(ops[1..][..q]) < 0)
    ensures (d >= 0 && forall q :: 0 <= q <= |ops[1..]| ==> d + Delta(ops[0]) + Depth(ops[1..][..q]) >= 0) ==>
      forall p :: 0 <= p <= |ops| ==> d + Depth(ops[..p]) >= 0
    ensures (forall p :: 0 <= p <= |ops| ==> d + Depth(ops[..p]) >= 0) ==>
      forall q :: 0 <= q <= |ops[1..]| ==> d + Delta(ops[0]) + Depth(ops[1..][..q]) >= 0
  {
    var r := ops[1..];
    var d' := d + Delta(ops[0]);
    assert ops[..0] == [];
    assert ops[..1] == [ops[0]];
    assert Depth(ops[..1]) == Delta(ops[0]);
    forall p | 1 <= p <= |ops| ensures Depth(ops[..p]) == Delta(ops[0]) + Depth(r[..p - 1]) {
      DepthOfPrefix(ops, p);
    }
    if (exists q :: 0 < q <= |r| && d' + Depth(r[..q]) < 0) {
      var q :| 0 < q <= |r| && d' + Depth(r[..q]) < 0;
      assert d + Depth(ops[..q + 1]) < 0;
    }
    if (exists p :: 0 < p <= |ops| && d + Depth(ops[..p]) < 0) {
      var p :| 0 < p <= |ops| && d + Depth(ops[..p]) < 0;
      assert p == 1 || d' + Depth(r[..p - 1]) < 0;
    }
    if (forall p :: 0 <= p <= |ops| ==> d + Depth(ops[..p]) >= 0) {
      forall q | 0 <= q <= |r| ensures d' + Depth(r[..q]) >= 0 {
        assert d + Depth(ops[..q + 1]) >= 0;
      }
    }
  }

  /**
   * The diagnosis agrees with counting brackets: an unmatched `]` is
   * reported exactly when some prefix closes more brackets than are open.
   */
  lemma {:induction false} CheckUnmatchedByCounting(ops: seq<Opcode>, d: nat)
    ensures Check(ops, d) == UnmatchedClosing <==> exists p :: 0 < p <= |ops| && d + Depth(ops[..p]) < 0
    decreases |ops|
  {
    if ops != [] {
      PrefixDepths(ops, d);
      if !(ops[0].kind == LoopEnd && d == 0) {
        CheckUnmatchedByCounting(ops[1..], d + Delta(ops[0]));
      }
    }
  }

  /**
   * A clean parse is exactly every prefix staying at or above zero and the
   * whole stream returning to zero.
   */
  lemma {:induction false} CheckCleanByCounting(ops: seq<Opcode>, d: nat)
    ensures Check(ops, d) == Clean <==>
      (forall p :: 0 <= p <= |ops| ==> d + Depth(ops[..p]) >= 0) && d + Depth(ops) == 0
    decreases |ops|
  {
    if ops == [] {
      assert ops[..0] == [];
    } else {
      PrefixDepths(ops, d);
      assert ops[..|ops|] == ops;
      if !(ops[0].kind == LoopEnd && d == 0) {
        var r := ops[1..];
        CheckCleanByCounting(r, d + Delta(ops[0]));
        assert r[..|r|] == r;
      } else {
        assert d + Depth(ops[..1]) < 0 by { assert ops[..1] == [ops[0]]; }
      }
    }
  }

  // ---------------------------------------------------------------------
  // Steps of the scan
  // ---------------------------------------------------------------------

  lemma LexSkip(s: seq<char>, i: nat)
    requires i < |s| && !IsCommand(s[i])
    ensures Lex(s[i..]) == Lex(s[i + 1..])
  {
    assert s[i..][1..] == s[i + 1..];
  }

  lemma LexSingle(s: seq<char>, i: nat)
    requires i < |s| && IsCommand(s[i]) && !IsFolded(s[i])
    ensures Lex(s[i..]) == [Token(s[i])] + Lex(s[i + 1..])
  {
    assert s[i..][1..] == s[i + 1..];
  }

  lemma LexRun(s: seq<char>, i: nat, e: nat)
    requires i < e <= |s| && IsFolded(s[i])
    requires forall k :: i <= k < e ==> s[k] == s[i]
    requires e == |s| || s[e] != s[i]
    ensures Lex(s[i..]) == [Opcode(KindOf(s[i]), e - i)] + Lex(s[e..])
  {
    var u := s[i..];
    RunLengthUnique(u, s[i], e - i);
    assert u[e - i..] == s[e..];
  }

  /** The run of a folded command starting at s[q] ends at `e`, and Lex counts it. */
  lemma LexRunAt(s: seq<char>, q: nat) returns (e: nat)
    requires q < |s| && IsFolded(s[q])
    ensures q < e <= |s| && (forall k :: q <= k < e ==> s[k] == s[q]) && (e == |s| || s[e] != s[q])
    ensures Lex(s[q..]) == [Opcode(KindOf(s[q]), e - q)] + Lex(s[e..])
  {
    var u := s[q..];
    e := q + RunLength(u, s[q]);
    assert forall k :: q <= k < e ==> s[k] == u[k - q];
    assert e < |s| ==> s[e] == u[e - q];
    LexRun(s, q, e);
  }

  lemma UnlinkedPush(ops: seq<Opcode>, base: nat, x: Opcode)
    requires base <= |ops|
    ensures Unlinked((ops + [x])[base..]) == Unlinked(ops[base..]) + [Blank(x)]
  {
    assert (ops + [x])[base..] == ops[base..] + [x];
  }

  lemma UnlinkedRelink(ops: seq<Opcode>, base: nat, s: nat, x: Opcode)
    requires base <= s < |ops| && Blank(x) == Blank(ops[s])
    ensures Unlinked(ops[s := x][base..]) == Unlinked(ops[base..])
  {
    assert ops[s := x][base..] == ops[base..][s - base := x];
  }

  lemma ClosedLinkedPush(ops: seq<Opcode>, base: nat, x: Opcode)
    requires ClosedLinked(ops, base) && (x.kind != LoopBegin || x.operand == 0)
    ensures ClosedLinked(ops + [x], base)
  {
    var ops' := ops + [x];
    forall i | base <= i < |ops'| && ops'[i].kind == LoopBegin && ops'[i].operand != 0
      ensures i < ops'[i].operand < |ops'| && ops'[ops'[i].operand] == Opcode(LoopEnd, i)
    {
      assert i < |ops| && ops'[i] == ops[i];
    }
  }

  lemma EndsLinkedPush(ops: seq<Opcode>, base: nat, x: Opcode)
    requires EndsLinked(ops, base) && x.kind != LoopEnd
    ensures EndsLinked(ops + [x], base)
  {
    var ops' := ops + [x];
    forall j | base <= j < |ops'| && ops'[j].kind == LoopEnd
      ensures base <= ops'[j].operand < j && ops'[ops'[j].operand] == Opcode(LoopBegin, j)
    {
      assert j < |ops| && ops'[j] == ops[j];
    }
  }

  lemma NestedPush(ops: seq<Opcode>, base: nat, x: Opcode)
    requires Nested(ops, base) && (x.kind != LoopBegin || x.operand == 0)
    ensures Nested(ops + [x], base)
  {
    var ops' := ops + [x];
    forall a, b | base <= a < b < |ops'| && ops'[a].kind == LoopBegin && ops'[b].kind == LoopBegin
      ensures ops'[b].operand < ops'[a].operand || ops'[a].operand < b
    {
      assert ops'[a] == ops[a];
      if b < |ops| {
        assert ops'[b] == ops[b];
      }
    }
  }

  lemma OpenOkPush(ops: seq<Opcode>, base: nat, open: seq<nat>, x: Opcode)
    requires OpenOk(ops, base, open) && x.kind != LoopBegin
    ensures OpenOk(ops + [x], base, open)
  {
    var ops' := ops + [x];
    forall i | base <= i < |ops'| && ops'[i].kind == LoopBegin && ops'[i].operand == 0 ensures i in open {
      assert i < |ops| && ops'[i] == ops[i];
    }
  }

  lemma OpenOkOpen(ops: seq<Opcode>, base: nat, open: seq<nat>)
    requires base <= |ops| && OpenOk(ops, base, open)
    ensures OpenOk(ops + [Opcode(LoopBegin, 0)], base, open + [|ops|])
  {
    var ops' := ops + [Opcode(LoopBegin, 0)];
    var open' := open + [|ops|];
    forall i | base <= i < |ops'| && ops'[i].kind == LoopBegin && ops'[i].operand == 0 ensures i in open' {
      if i < |ops| {
        assert ops'[i] == ops[i] && i in open;
      } else {
        assert open'[|open|] == i;
      }
    }
  }

  lemma OpenOutsidePush(ops: seq<Opcode>, base: nat, open: seq<nat>, x: Opcode)
    requires OpenOutside(ops, base, open) && x.kind != LoopBegin
    ensures OpenOutside(ops + [x], base, open)
  {
    var ops' := ops + [x];
    forall i, k | base <= i < |ops'| && ops'[i].kind == LoopBegin && 0 <= k < |open|
      ensures !(i < open[k] < ops'[i].operand)
    {
      assert ops'[i] == ops[i];
    }
  }

  lemma OpenOutsideOpen(ops: seq<Opcode>, base: nat, open: seq<nat>)
    requires OpenOutside(ops, base, open) && ClosedLinked(ops, base)
    ensures OpenOutside(ops + [Opcode(LoopBegin, 0)], base, open + [|ops|])
  {
    var ops' := ops + [Opcode(LoopBegin, 0)];
    var open' := open + [|ops|];
    forall i, k | base <= i < |ops'| && ops'[i].kind == LoopBegin && 0 <= k < |open'|
      ensures !(i < open'[k] < ops'[i].operand)
    {
      if i < |ops| {
        assert ops'[i] == ops[i];
        if k < |open| {
          assert open'[k] == open[k];
        }
      }
    }
  }

  lemma LinksOpen(ops: seq<Opcode>, base: nat, open: seq<nat>)
    requires base <= |ops| && Links(ops, base, open)
    ensures Links(ops + [Opcode(LoopBegin, 0)], base, open + [|ops|])
  {
    var x := Opcode(LoopBegin, 0);
    OpenOkOpen(ops, base, open);
    ClosedLinkedPush(ops, base, x);
    EndsLinkedPush(ops, base, x);
    NestedPush(ops, base, x);
    OpenOutsideOpen(ops, base, open);
  }

  lemma LinksOther(ops: seq<Opcode>, base: nat, open: seq<nat>, x: Opcode)
    requires base <= |ops| && Links(ops, base, open)
    requires x.kind != LoopBegin && x.kind != LoopEnd
    ensures Links(ops + [x], base, open)
  {
    OpenOkPush(ops, base, open, x);
    ClosedLinkedPush(ops, base, x);
    EndsLinkedPush(ops, base, x);
    NestedPush(ops, base, x);
    OpenOutsidePush(ops, base, open, x);
  }

  /** The opcodes after a `]` closes the `[` at s: s gets the new index, the `]` gets s. */
  function Close(ops: seq<Opcode>, s: nat): seq<Opcode>
    requires s < |ops|
  {
    ops[s := Opcode(LoopBegin, |ops|)] + [Opcode(LoopEnd, s)]
  }

  lemma OpenOkClose(ops: seq<Opcode>, base: nat, open: seq<nat>)
    requires base <= |ops| && OpenOk(ops, base, open) && |open| > 0
    ensures OpenOk(Close(ops, open[|open| - 1]), base, open[..|open| - 1])
  {
    var s := open[|open| - 1];
    var ops' := Close(ops, s);
    var open' := open[..|open| - 1];
    forall i | base <= i < |ops'| && ops'[i].kind == LoopBegin && ops'[i].operand == 0 ensures i in open' {
      assert i < |ops| && i != s && ops'[i] == ops[i];
      var k :| 0 <= k < |open| && open[k] == i;
      assert open'[k] == i;
    }
  }

  lemma ClosedLinkedClose(ops: seq<Opcode>, base: nat, s: nat)
    requires base <= s < |ops| && ClosedLinked(ops, base) && ops[s] == Opcode(LoopBegin, 0)
    ensures ClosedLinked(Close(ops, s), base)
  {
    var ops' := Close(ops, s);
    forall i | base <= i < |ops'| && ops'[i].kind == LoopBegin && ops'[i].operand != 0
      ensures i < ops'[i].operand < |ops'| && ops'[ops'[i].operand] == Opcode(LoopEnd, i)
    {
      if i != s {
        assert ops'[i] == ops[i];
        assert ops'[ops[i].operand] == ops[ops[i].operand];
      }
    }
  }

  lemma EndsLinkedClose(ops: seq<Opcode>, base: nat, s: nat)
    requires base <= s < |ops| && EndsLinked(ops, base) && ops[s] == Opcode(LoopBegin, 0)
    ensures EndsLinked(Close(ops, s), base)
  {
    var ops' := Close(ops, s);
    forall j | base <= j < |ops'| && ops'[j].kind == LoopEnd
      ensures base <= ops'[j].operand < j && ops'[ops'[j].operand] == Opcode(LoopBegin, j)
    {
      if j < |ops| {
        assert ops'[j] == ops[j];
        assert ops[j].operand != s;
        assert ops'[ops[j].operand] == ops[ops[j].operand];
      }
    }
  }

  lemma NestedClose(ops: seq<Opcode>, base: nat, open: seq<nat>)
    requires base <= |ops| && |open| > 0
    requires Nested(ops, base) && ClosedLinked(ops, base) && OpenOk(ops, base, open) && OpenOutside(ops, base, open)
    ensures Nested(Close(ops, open[|open| - 1]), base)
  {
    var s := open[|open| - 1];
    var ops' := Close(ops, s);
    forall a, b | base <= a < b < |ops'| && ops'[a].kind == LoopBegin && ops'[b].kind == LoopBegin
      ensures ops'[b].operand < ops'[a].operand || ops'[a].operand < b
    {
      assert b < |ops|;
      if a == s {
        assert ops'[b] == ops[b];
        assert forall k :: 0 <= k < |open| ==> open[k] <= s;
        assert b !in open;
      } else if b == s {
        assert ops'[a] == ops[a];
        assert !(a < open[|open| - 1] < ops[a].operand);
      } else {
        assert ops'[a] == ops[a] && ops'[b] == ops[b];
      }
    }
  }

  lemma OpenOutsideClose(ops: seq<Opcode>, base: nat, open: seq<nat>)
    requires base <= |ops| && |open| > 0 && OpenOk(ops, base, open) && OpenOutside(ops, base, open)
    ensures OpenOutside(Close(ops, open[|open| - 1]), base, open[..|open| - 1])
  {
    var s := open[|open| - 1];
    var ops' := Close(ops, s);
    var open' := open[..|open| - 1];
    forall i, k | base <= i < |ops'| && ops'[i].kind == LoopBegin && 0 <= k < |open'|
      ensures !(i < open'[k] < ops'[i].operand)
    {
      assert open'[k] == open[k] && open[k] < s;
      if i != s {
        assert ops'[i] == ops[i];
      }
    }
  }

  lemma LinksClose(ops: seq<Opcode>, base: nat, open: seq<nat>)
    requires base <= |ops| && Links(ops, base, open) && |open| > 0
    ensures Links(Close(ops, open[|open| - 1]), base, open[..|open| - 1])
  {
    var s := open[|open| - 1];
    OpenOkClose(ops, base, open);
    ClosedLinkedClose(ops, base, s);
    EndsLinkedClose(ops, base, s);
    NestedClose(ops, base, open);
    OpenOutsideClose(ops, base, open);
  }

  /** With nothing left open, every loop opcode is linked. */
  lemma LinksDone(ops: seq<Opcode>, base: nat)
    requires Links(ops, base, [])
    ensures Linked(ops, base) && Nested(ops, base)
  {
  }

  /** What reading src[..i] has produced so far, `depth` brackets being open. */
  ghost predicate Scanned(src: seq<char>, i: nat, ops: seq<Opcode>, base: nat, depth: nat)
  {
    i <= |src| && base <= |ops| &&
    Unlinked(ops[base..]) + Lex(src[i..]) == Lex(src) &&
    Check(Lex(src), 0) == Check(Lex(src[i..]), depth) &&
    FitsStack(Lex(src[i..]), depth)
  }

  /**
   * The state of parser_parse_file after reading src[..i]. Contracts that
   * must establish it compare it with `true`, so that the verifier checks
   * it as one fact instead of unfolding it into each of its conjuncts.
   */
  ghost predicate Inv(src: seq<char>, i: nat, ops: seq<Opcode>, base: nat, open: seq<nat>)
  {
    Scanned(src, i, ops, base, |open|) && Links(ops, base, open)
  }

  lemma StepSkip(src: seq<char>, i: nat, ops: seq<Opcode>, base: nat, open: seq<nat>)
    requires Inv(src, i, ops, base, open) == true && i < |src| && !IsCommand(src[i])
    ensures Inv(src, i + 1, ops, base, open)
  {
    LexSkip(src, i);
  }

  lemma ScanOther(src: seq<char>, i: nat, e: nat, ops: seq<Opcode>, base: nat, depth: nat, op: Opcode)
    requires Scanned(src, i, ops, base, depth) && i < e <= |src|
    requires Lex(src[i..]) == [op] + Lex(src[e..]) && op.kind != LoopBegin && op.kind != LoopEnd
    ensures Scanned(src, e, ops + [op], base, depth)
  {
    UnlinkedPush(ops, base, op);
    assert ([op] + Lex(src[e..]))[1..] == Lex(src[e..]);
  }

  lemma StepOther(src: seq<char>, i: nat, e: nat, ops: seq<Opcode>, base: nat, open: seq<nat>, op: Opcode)
    requires Inv(src, i, ops, base, open) == true && i < e <= |src|
    requires Lex(src[i..]) == [op] + Lex(src[e..]) && op.kind != LoopBegin && op.kind != LoopEnd
    ensures Inv(src, e, ops + [op], base, open)
  {
    ScanOther(src, i, e, ops, base, |open|, op);
    LinksOther(ops, base, open, op);
  }

  lemma ScanOpen(src: seq<char>, i: nat, ops: seq<Opcode>, base: nat, depth: nat)
    requires Scanned(src, i, ops, base, depth) && i < |src| && src[i] == '['
    ensures depth < MAX_DEPTH
    ensures Scanned(src, i + 1, ops + [Opcode(LoopBegin, 0)], base, depth + 1)
  {
    LexSingle(src, i);
    UnlinkedPush(ops, base, Opcode(LoopBegin, 0));
    assert Lex(src[i..])[1..] == Lex(src[i + 1..]);
  }

  lemma StepOpen(src: seq<char>, i: nat, ops: seq<Opcode>, base: nat, open: seq<nat>)
    requires Inv(src, i, ops, base, open) == true && i < |src| && src[i] == '['
    ensures |open| < MAX_DEPTH
    ensures Inv(src, i + 1, ops + [Opcode(LoopBegin, 0)], base, open + [|ops|])
  {
    ScanOpen(src, i, ops, base, |open|);
    LinksOpen(ops, base, open);
  }

  lemma ScanClose(src: seq<char>, i: nat, ops: seq<Opcode>, base: nat, depth: nat, s: nat)
    requires Scanned(src, i, ops, base, depth) && i < |src| && src[i] == ']'
    requires base <= s < |ops| && ops[s].kind == LoopBegin
    ensures depth == 0 ==> Check(Lex(src), 0) == UnmatchedClosing
    ensures depth > 0 ==> Scanned(src, i + 1, Close(ops, s), base, depth - 1)
  {
    LexSingle(src, i);
    var rest := Lex(src[i + 1..]);
    assert Lex(src[i..]) == [Opcode(LoopEnd, 0)] + rest;
    if depth > 0 {
      var relinked := ops[s := Opcode(LoopBegin, |ops|)];
      var ops' := Close(ops, s);
      assert ops' == relinked + [Opcode(LoopEnd, s)];
      UnlinkedRelink(ops, base, s, Opcode(LoopBegin, |ops|));
      UnlinkedPush(relinked, base, Opcode(LoopEnd, s));
      assert Unlinked(ops'[base..]) == Unlinked(ops[base..]) + [Opcode(LoopEnd, 0)];
      assert Unlinked(ops'[base..]) + rest == Unlinked(ops[base..]) + Lex(src[i..]);
    }
  }

  /** A `]` with nothing open is the unmatched closing bracket the diagnosis reports. */
  lemma StepCloseUnmatched(src: seq<char>, i: nat, ops: seq<Opcode>, base: nat)
    requires Inv(src, i, ops, base, []) == true && i < |src| && src[i] == ']'
    ensures Check(Lex(src), 0) == UnmatchedClosing
  {
    assert Scanned(src, i, ops, base, 0);
    LexSingle(src, i);
    assert Lex(src[i..]) == [Opcode(LoopEnd, 0)] + Lex(src[i + 1..]);
  }

  /** A `]` with brackets open closes the top of the stack. */
  lemma StepClose(src: seq<char>, i: nat, ops: seq<Opcode>, base: nat, open: seq<nat>)
    requires Inv(src, i, ops, base, open) == true && i < |src| && src[i] == ']' && |open| > 0
    ensures base <= open[|open| - 1] < |ops| && ops[open[|open| - 1]].kind == LoopBegin
    ensures Inv(src, i + 1, Close(ops, open[|open| - 1]), base, open[..|open| - 1])
  {
    var s := open[|open| - 1];
    var open' := open[..|open| - 1];
    assert base <= s < |ops| && ops[s].kind == LoopBegin by { assert OpenOk(ops, base, open); }
    ScanClose(src, i, ops, base, |open|, s);
    assert Scanned(src, i + 1, Close(ops, s), base, |open'|);
    LinksClose(ops, base, open);
  }

  /**
   * At the end of the text the diagnosis is decided by whether brackets
   * are still open; when none is, the opcodes are those of `src`, linked.
   */
  lemma StepEnd(src: seq<char>, ops: seq<Opcode>, base: nat, open: seq<nat>)
    requires Inv(src, |src|, ops, base, open) == true
    ensures Check(Lex(src), 0) == (if |open| == 0 then Clean else UnmatchedOpening)
    ensures |open| == 0 ==>
      Unlinked(ops[base..]) == Lex(src) && Expand(ops[base..]) == Commands(src) &&
      Linked(ops, base) && Nested(ops, base)
  {
    assert src[|src|..] == [];
    if |open| == 0 {
      LinksDone(ops, base);
      ExpandLex(src);
      ExpandUnlinked(ops[base..]);
    }
  }

  /** The read loop is at its head again after a byte that is no folded command. */
  lemma HeadAfter(s: seq<char>, j: nat)
    requires j < StopFrom(s, 0) && !IsFolded(s[j])
    ensures AtLoopHead(s, j + 1)
  {
    if j + 1 < StopFrom(s, 0) {
      assert !StopsAt(s, j + 1);
    }
  }

  /**
   * A folded run the loop starts at s[i] lies inside the read text, and a
   * 0xFF right after it is read inside the run, so the loop does not stop
   * there.
   */
  lemma RunInText(s: seq<char>, i: nat, e: nat)
    requires i < StopFrom(s, 0) && IsFolded(s[i]) && i < e <= |s| && e - i == RunLength(s[i..], s[i])
    ensures e <= StopFrom(s, 0)
    ensures e < |s| && s[e] == EofByte ==> e < StopFrom(s, 0)
    ensures Lex(ReadText(s)[i..]) == [Opcode(KindOf(s[i]), e - i)] + Lex(ReadText(s)[e..])
  {
    var n := StopFrom(s, 0);
    var u := s[i..];
    assert forall k :: i <= k < e ==> s[k] == u[k - i];
    var t := ReadText(s);
    assert e < |t| ==> t[e] == u[e - i];
    LexRun(t, i, e);
  }

  /**
   * `[`, 0xFF, `]`: the read loop ends at the 0xFF, so the `[` is reported
   * unmatched, although the file's brackets balance.
   */
  lemma EofByteEndsParse()
    ensures Check(Lex(ReadText(['[', EofByte, ']'])), 0) == UnmatchedOpening
    ensures Check(Lex(['[', EofByte, ']']), 0) == Clean
  {
    var s := ['[', EofByte, ']'];
    assert StopsAt(s, 1);
    assert StopFrom(s, 0) == 1;
    assert ReadText(s) == ['['];
    assert Lex(['[']) == [Token('[')] + Lex([]);
    assert s[0..] == s;
    LexSingle(s, 0);
    LexSkip(s, 1);
    LexSingle(s, 2);
    assert s[3..] == [];
    var ops := [Opcode(LoopBegin, 0), Opcode(LoopEnd, 0)];
    assert Lex(s) == ops;
    assert ops[1..][1..] == [];
  }

  /**
   * `+`, 0xFF, `.`: the 0xFF ends the run and is dropped by ungetc, and the
   * loop goes on to the `.`.
   */
  lemma EofByteAfterRunDropped()
    ensures ReadText(['+', EofByte, '.']) == ['+', EofByte, '.']
    ensures Lex(ReadText(['+', EofByte, '.'])) == [Opcode(IncrementVal, 1), Opcode(OutputVal, 1)]
  {
    var s := ['+', EofByte, '.'];
    assert !StopsAt(s, 1);
    assert StopFrom(s, 0) == 3;
    assert ReadText(s) == s && s[0..] == s;
    LexRun(s, 0, 1);
    LexSkip(s, 1);
    LexSingle(s, 2);
    assert s[3..] == [];
  }

  /** `ops` starts with the opcodes `orig` that were there before the parse. */
  ghost predicate Extends(ops: seq<Opcode>, orig: seq<Opcode>)
  {
    |orig| <= |ops| && ops[..|orig|] == orig
  }

  /** The bracket stack stack[0 ..= stackPtr] holds the indices `open`. */
  ghost predicate StackHolds(stack: array<nat>, stackPtr: int, open: seq<nat>)
    reads stack
  {
    -1 <= stackPtr < stack.Length && |open| == stackPtr + 1 &&
    forall k :: 0 <= k < |open| ==> stack[k] == open[k]
  }

  lemma ExtendsPush(ops: seq<Opcode>, orig: seq<Opcode>, x: Opcode)
    requires Extends(ops, orig)
    ensures Extends(ops + [x], orig)
  {
    assert (ops + [x])[..|orig|] == ops[..|orig|];
  }

  lemma ExtendsClose(ops: seq<Opcode>, orig: seq<Opcode>, s: nat)
    requires Extends(ops, orig) && |orig| <= s < |ops|
    ensures Extends(Close(ops, s), orig)
  {
    assert Close(ops, s)[..|orig|] == ops[..|orig|];
  }

  /** Popping the bracket stack pops `open`. */
  lemma PopHolds(stack: array<nat>, stackPtr: int, open: seq<nat>)
    requires StackHolds(stack, stackPtr, open) && stackPtr >= 0
    ensures stack[stackPtr] == open[|open| - 1]
    ensures StackHolds(stack, stackPtr - 1, open[..|open| - 1])
  {
  }

  class Parser {
    var opcodes: Vec<Opcode>

    /** parser_new: an empty opcode vec with the requested capacity (allocation assumed to succeed). */
    constructor (opcodeCapacity: nat)
      ensures fresh(opcodes) && opcodes.data == [] && opcodes.hasBuffer
      ensures opcodes.capacity == opcodeCapacity && opcodes.itemSize == OPCODE_SIZE
    {
      opcodes := new Vec<Opcode>();
      new;
      var ignored := opcodes.New(OPCODE_SIZE, opcodeCapacity, true);
    }

    /** parser_free */
    method Free()
      modifies opcodes
      ensures opcodes.data == [] && opcodes.capacity == 0 && !opcodes.hasBuffer
    {
      opcodes.Free();
    }

    /**
     * The `do { operand++; } while ((c = fgetc(fp)) == ...); ungetc(c, fp);`
     * run of a folded command starting at src[i]: the run is src[i..e], and
     * the loop goes on at `next`. ungetc hands the byte that ended the run
     * back, except a 0xFF, which it refuses as EOF, so that byte is lost.
     */
    static method ScanRun(src: seq<char>, i: nat) returns (e: nat, next: nat)
      requires i < StopFrom(src, 0) && IsFolded(src[i])
      ensures i < e <= next && e - i == RunLength(src[i..], src[i])
      ensures AtLoopHead(src, next)
      ensures Lex(ReadText(src)[i..]) == [Opcode(KindOf(src[i]), e - i)] + Lex(ReadText(src)[next..])
    {
      var c := src[i];
      e := i + 1;
      while e < |src| && src[e] == c
        invariant i < e <= |src|
        invariant forall k :: i <= k < e ==> src[k] == c
      {
        e := e + 1;
      }
      RunLengthUnique(src[i..], c, e - i);
      RunInText(src, i, e);
      next := e;
      if e < |src| && src[e] == EofByte {
        ghost var t := ReadText(src);
        assert t[e] == src[e];
        LexSkip(t, e);
        HeadAfter(src, e);
        next := e + 1;
      }
    }

    /** Push the opcode `op` that the read text t[i..next] yields. */
    method EmitOther(ghost t: seq<char>, ghost i: nat, ghost next: nat, ghost orig: seq<Opcode>, ghost open: seq<nat>,
                     op: Opcode)
      requires Inv(t, i, opcodes.data, |orig|, open) == true && Extends(opcodes.data, orig) && i < next <= |t|
      requires Lex(t[i..]) == [op] + Lex(t[next..]) && op.kind != LoopBegin && op.kind != LoopEnd
      modifies opcodes
      ensures opcodes.data == old(opcodes.data) + [op]
      ensures Inv(t, next, opcodes.data, |orig|, open) == true && Extends(opcodes.data, orig)
    {
      StepOther(t, i, next, opcodes.data, |orig|, open, op);
      ExtendsPush(opcodes.data, orig, op);
      var ignored := opcodes.Push(op, true);
    }

    /** A `[`: push an unlinked LoopBegin and record its index on the bracket stack. */
    method EmitOpen(ghost open: seq<nat>, stack: array<nat>, stackPtr: int) returns (newPtr: int)
      requires stack.Length == MAX_DEPTH && StackHolds(stack, stackPtr, open) && |open| < MAX_DEPTH
      modifies opcodes, stack
      ensures newPtr == stackPtr + 1 && StackHolds(stack, newPtr, open + [old(|opcodes.data|)])
      ensures opcodes.data == old(opcodes.data) + [Opcode(LoopBegin, 0)]
    {
      newPtr := stackPtr + 1;
      stack[newPtr] := |opcodes.data|;
      var ignored := opcodes.Push(Opcode(LoopBegin, 0), true);
    }

    /**
     * A `]` matching the `[` at index `top`: link the two through
     * vec_get's pointer and push the LoopEnd.
     */
    method EmitClose(top: nat)
      requires top < |opcodes.data| && opcodes.data[top].kind == LoopBegin
      modifies opcodes
      ensures opcodes.data == Close(old(opcodes.data), top)
    {
      var slot := opcodes.Get(top);
      opcodes.data := opcodes.data[top := slot.value.(operand := |opcodes.data|)];
      var ignored := opcodes.Push(Opcode(LoopEnd, top), true);
    }

    /** The `[` and `]` cases of parser_parse_file's switch, for the bracket at src[i]. */
    method ReadBracket(src: seq<char>, i: nat, ghost orig: seq<Opcode>, ghost open: seq<nat>,
                       stack: array<nat>, stackPtr: int)
      returns (newPtr: int, ghost newOpen: seq<nat>, unmatched: bool)
      requires i < StopFrom(src, 0) && (src[i] == '[' || src[i] == ']')
      requires Inv(ReadText(src), i, opcodes.data, |orig|, open) == true && Extends(opcodes.data, orig)
      requires stack.Length == MAX_DEPTH && StackHolds(stack, stackPtr, open)
      modifies opcodes, stack
      ensures unmatched <==> src[i] == ']' && stackPtr < 0
      ensures unmatched ==> Check(Lex(ReadText(src)), 0) == UnmatchedClosing
      ensures Extends(opcodes.data, orig)
      ensures !unmatched ==> StackHolds(stack, newPtr, newOpen)
      ensures !unmatched ==> Inv(ReadText(src), i + 1, opcodes.data, |orig|, newOpen) == true
    {
      ghost var t := ReadText(src);
      assert t[i] == src[i];
      ghost var ops := opcodes.data;
      if src[i] == '[' {
        StepOpen(t, i, ops, |orig|, open);
        newOpen := open + [|ops|];
        newPtr := EmitOpen(open, stack, stackPtr);
        ExtendsPush(ops, orig, Opcode(LoopBegin, 0));
        unmatched := false;
      } else {
        if stackPtr < 0 {
          StepCloseUnmatched(t, i, ops, |orig|);
          return stackPtr, open, true;
        }
        PopHolds(stack, stackPtr, open);
        StepClose(t, i, ops, |orig|, open);
        EmitClose(stack[stackPtr]);
        ExtendsClose(ops, orig, open[|open| - 1]);
        newPtr, newOpen, unmatched := stackPtr - 1, open[..|open| - 1], false;
      }
    }

    /**
     * One pass of parser_parse_file's read loop, for the character at src[i]
     * (and, for a folded command, the rest of its run and the byte that
     * ends it). `unmatched` is the early return on a `]` with an empty stack.
     */
    method ReadCommand(src: seq<char>, i: nat, ghost orig: seq<Opcode>, ghost open: seq<nat>,
                       stack: array<nat>, stackPtr: int)
      returns (next: nat, newPtr: int, ghost newOpen: seq<nat>, unmatched: bool)
      requires i < StopFrom(src, 0) && Extends(opcodes.data, orig)
      requires Inv(ReadText(src), i, opcodes.data, |orig|, open) == true
      requires stack.Length == MAX_DEPTH && StackHolds(stack, stackPtr, open)
      modifies opcodes, stack
      ensures unmatched <==> src[i] == ']' && stackPtr < 0
      ensures unmatched ==> Check(Lex(ReadText(src)), 0) == UnmatchedClosing
      ensures Extends(opcodes.data, orig)
      ensures !unmatched ==> i < next && AtLoopHead(src, next) && StackHolds(stack, newPtr, newOpen)
      ensures !unmatched ==> (Inv(ReadText(src), next, opcodes.data, |orig|, newOpen) == true)
    {
      ghost var t := ReadText(src);
      var c := src[i];
      assert t[i] == c;
      ghost var ops := opcodes.data;
      next, newPtr, newOpen, unmatched := i + 1, stackPtr, open, false;
      if c == '>' || c == '<' || c == '+' || c == '-' || c == '.' || c == ',' {
        var op;
        if c == '.' || c == ',' {
          LexSingle(t, i);
          op := Opcode(KindOf(c), 1);
          HeadAfter(src, i);
        } else {
          var e;
          e, next := ScanRun(src, i);
          op := Opcode(KindOf(c), e - i);
        }
        EmitOther(t, i, next, orig, open, op);
      } else if c == '[' || c == ']' {
        newPtr, newOpen, unmatched := ReadBracket(src, i, orig, open, stack, stackPtr);
        HeadAfter(src, i);
      } else {
        StepSkip(t, i, ops, |orig|, open);
        HeadAfter(src, i);
      }
    }

    /**
     * parser_parse_file over the file's bytes `src`. The loop reads up to
     * the first 0xFF byte it meets at its head (ReadText); the result is 0
     * with the opcodes of that text appended and linked, or EPARSE_ERROR
     * with the diagnosis the source prints. The bracket stack has MAX_DEPTH
     * slots and the source does not check for overflow, so the nesting must
     * fit.
     */
    method ParseFile(src: seq<char>) returns (ret: int, diag: Diagnostic)
      requires FitsStack(Lex(ReadText(src)), 0)
      modifies opcodes
      ensures diag == Check(Lex(ReadText(src)), 0)
      ensures ret == (if diag == Clean then 0 else EPARSE_ERROR)
      ensures |opcodes.data| >= |old(opcodes.data)|
      ensures opcodes.data[..|old(opcodes.data)|] == old(opcodes.data)
      ensures ret == 0 ==>
        var ops := opcodes.data;
        var base := |old(opcodes.data)|;
        Unlinked(ops[base..]) == Lex(ReadText(src)) && Expand(ops[base..]) == Commands(ReadText(src)) &&
        Linked(ops, base) && Nested(ops, base)
    {
      ghost var t := ReadText(src);
      ghost var orig := opcodes.data;
      ghost var base := |orig|;
      var stack := new nat[MAX_DEPTH];
      var stackPtr: int := -1;
      ghost var open: seq<nat> := [];
      var i := 0;
      assert t[0..] == t;
      assert 0 < StopFrom(src, 0) ==> !StopsAt(src, 0);
      while i < |src| && src[i] != EofByte
        invariant AtLoopHead(src, i)
        invariant stack.Length == MAX_DEPTH && StackHolds(stack, stackPtr, open)
        invariant Extends(opcodes.data, orig)
        invariant Inv(t, i, opcodes.data, base, open) == true
      {
        var unmatched;
        i, stackPtr, open, unmatched := ReadCommand(src, i, orig, open, stack, stackPtr);
        if unmatched {
          return EPARSE_ERROR, UnmatchedClosing;
        }
      }
      assert i == |t|;
      StepEnd(t, opcodes.data, base, open);
      if stackPtr >= 0 {
        return EPARSE_ERROR, UnmatchedOpening;
      }
      return 0, Clean;
    }
  }
}
