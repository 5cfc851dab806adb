/**
 * The recursive-descent JSON parser of json/parser.py.
 *
 * A `JsonParser` holds the text and a cursor `pos`; every parse method
 * reads at the cursor and moves it forward. Text and strings are sequences
 * of code points (`int`), since a `\u` escape can produce a lone surrogate.
 * Python's exceptions become the `Err` arm of `Res`: JSONParseError keeps
 * its position and the reason it names, EOFError and ValueError carry
 * nothing. Numbers with a fraction or an exponent keep their lexeme instead
 * of a float; a lexeme `float()` would refuse is a ValueError.
 *
 * The number grammar consults Python's Unicode tables: `str.isdigit` (in
 * parse_value's dispatch and parse_digits' loop) accepts every Unicode
 * digit, and `int()` and `float()` read any decimal digit. Those tables are
 * the parameter `ucd`; `Consistent` says what they give the ASCII range.
 *
 * Each method is proved against a function of the text and the starting
 * position (`ValueAt`, `ObjectAt`, ...), which returns the outcome and the
 * position after it; the properties of the parser are lemmas about those
 * functions.
 */
module Json {
  import opened Wrappers

  /** The values the parser returns: None, bool, int, float, str, list and dict. */
  datatype Value =
    | Null
    | Bool(b: bool)
    | Int(i: int)
    | Float(lexeme: seq<int>)
    | Str(s: seq<int>)
    | Arr(items: seq<Value>)
    | Obj(members: seq<Member>)

  /** A dict entry; a dict is its entries in insertion order. */
  datatype Member = Member(key: seq<int>, value: Value)

  /** The messages of the JSONParseErrors the parser raises. */
  datatype Reason =
    | UnexpectedCharacter
    | ExpectedColon
    | ExpectedCommaOrBrace
    | ExpectedCommaOrBracket
    | ExpectedBackslash
    | InvalidEscape
    | InvalidLiteral
    | ExpectedOneNine
    | ExpectedDigit

  datatype Error = ParseError(at: int, reason: Reason) | EofError | ValueError

  datatype Res<T> = Ok(value: T) | Err(error: Error)

  /** An outcome and the cursor position after it. */
  datatype Parsed<T> = Parsed(result: Res<T>, pos: int)

  /** A string literal of this file as code points. */
  function Text(s: string): (r: seq<int>)
    ensures |r| == |s| && forall i :: 0 <= i < |s| ==> r[i] == s[i] as int
  {
    if s == [] then [] else [s[0] as int] + Text(s[1..])
  }

  /** is_ws: space, line feed, carriage return and tab. */
  predicate IsWs(c: int)
  {
    c == ' ' as int || c == '\n' as int || c == '\r' as int || c == '\t' as int
  }

  /** is_onenine. */
  predicate IsOneNine(c: int)
  {
    '1' as int <= c <= '9' as int
  }

  /** An ASCII digit, `'0'` to `'9'`. */
  predicate IsAsciiDigit(c: int)
  {
    '0' as int <= c <= '9' as int
  }

  /**
   * The two tables of the Unicode database the number grammar consults:
   * `isdigit` is `str.isdigit`, true of every character whose numeric type
   * is Digit or Decimal (such as U+0663 ARABIC-INDIC DIGIT THREE or U+00B2
   * SUPERSCRIPT TWO); `decimal` is the value `int()` and `float()` give a
   * decimal digit, and None for any other character, U+00B2 included.
   */
  datatype Ucd = Ucd(isdigit: int -> bool, decimal: int -> Option<nat>)

  /**
   * What the tables give the ASCII range: `'0'` to `'9'` are its only
   * digits, with their usual values; and every decimal digit is a digit.
   */
  ghost predicate Consistent(ucd: Ucd)
  {
    (forall c :: 0 <= c < 128 ==> (ucd.isdigit(c) <==> IsAsciiDigit(c)))
    && (forall c :: '0' as int <= c <= '9' as int ==> ucd.decimal(c) == Some(c - '0' as int))
    && (forall c :: ucd.decimal(c).Some? ==> ucd.isdigit(c) && ucd.decimal(c).value < 10)
  }

  predicate IsHex(c: int)
  {
    IsAsciiDigit(c) || 'A' as int <= c <= 'F' as int || 'a' as int <= c <= 'f' as int
  }

  function HexDigit(c: int): (d: nat)
    requires IsHex(c)
    ensures d < 16
  {
    if IsAsciiDigit(c) then c - '0' as int
    else if c <= 'F' as int then c - 'A' as int + 10
    else c - 'a' as int + 10
  }

  /** int(s, 16). */
  function HexValue(s: seq<int>): (v: nat)
    requires forall i :: 0 <= i < |s| ==> IsHex(s[i])
  {
    if s == [] then 0 else HexValue(s[..|s| - 1]) * 16 + HexDigit(s[|s| - 1])
  }

  /** int(s) for a string of digits: None, a ValueError, when one of them is not a decimal digit. */
  function DecimalValue(ucd: Ucd, s: seq<int>): Option<int>
  {
    if s == [] then Some(0)
    else
      var init := DecimalValue(ucd, s[..|s| - 1]);
      var last := ucd.decimal(s[|s| - 1]);
      if init.None? || last.None? then None else Some(init.value * 10 + last.value)
  }

  /**
   * sys.int_info.default_max_str_digits: since Python 3.11 int() refuses,
   * with ValueError, a decimal string of more digits than this.
   */
  const MaxStrDigits: nat := 4300

  /**
   * int(lexeme) for the lexemes parse_integer returns: None, a ValueError,
   * when a digit is not decimal or there are more than MaxStrDigits digits.
   */
  function IntValue(ucd: Ucd, lexeme: seq<int>): Option<int>
  {
    var negative := |lexeme| > 0 && lexeme[0] == '-' as int;
    var digits := if negative then lexeme[1..] else lexeme;
    var n := DecimalValue(ucd, digits);
    if |digits| > MaxStrDigits || n.None? then None
    else if negative then Some(-n.value)
    else n
  }

  /** Every digit of the lexeme is a decimal digit, as float() needs. */
  predicate DecimalDigits(ucd: Ucd, lexeme: seq<int>)
  {
    forall i :: 0 <= i < |lexeme| && ucd.isdigit(lexeme[i]) ==> ucd.decimal(lexeme[i]).Some?
  }

  /** `0`, or a 1-9 digit followed by digits. */
  predicate IsNaturalLexeme(ucd: Ucd, d: seq<int>)
  {
    |d| > 0 && (d[0] == '0' as int ==> |d| == 1)
    && (d[0] != '0' as int ==> IsOneNine(d[0]) && forall i :: 1 <= i < |d| ==> ucd.isdigit(d[i]))
  }

  /** The integer grammar: an optional minus before a natural number. */
  predicate IsIntegerLexeme(ucd: Ucd, s: seq<int>)
  {
    if |s| > 0 && s[0] == '-' as int then IsNaturalLexeme(ucd, s[1..]) else IsNaturalLexeme(ucd, s)
  }

  /** The escape table of handle_escape_sequence; `u` maps to itself and announces four hex digits. */
  function EscapeTable(c: int): Option<int>
  {
    if c == '"' as int || c == '\\' as int || c == '/' as int || c == 'u' as int then Some(c)
    else if c == 'b' as int then Some(0x08)
    else if c == 'f' as int then Some(0x0C)
    else if c == 'n' as int then Some(0x0A)
    else if c == 'r' as int then Some(0x0D)
    else if c == 't' as int then Some(0x09)
    else None
  }

  /** A dict entry's key. */
  function Keys(m: seq<Member>): seq<seq<int>>
  {
    if m == [] then [] else [m[0].key] + Keys(m[1..])
  }

  /** dict lookup. */
  function Lookup(m: seq<Member>, k: seq<int>): Option<Value>
  {
    if m == [] then None else if m[0].key == k then Some(m[0].value) else Lookup(m[1..], k)
  }

  /** `obj[key] = value`: an existing key keeps its place and takes the new value; a new key goes last. */
  function Put(m: seq<Member>, k: seq<int>, v: Value): seq<Member>
  {
    if m == [] then [Member(k, v)]
    else if m[0].key == k then [Member(k, v)] + m[1..]
    else [m[0]] + Put(m[1..], k, v)
  }

  // ---------------------------------------------------------------------
  // The parser as functions of the text and the cursor

  /** text[lo:hi] with Python's clamping, for 0 <= lo <= hi. */
  function Slice(t: seq<int>, lo: nat, hi: nat): seq<int>
    requires lo <= hi
  {
    if lo >= |t| then [] else t[lo..if hi <= |t| then hi else |t|]
  }

  /** A slice cut in two, and the element between. */
  lemma SliceSplit(t: seq<int>, p: nat, q: nat, e: nat)
    requires p <= q < e <= |t|
    ensures t[p..e] == t[p..q] + [t[q]] + t[q + 1..e]
  {
    assert t[p..e] == t[p..q] + t[q..e];
  }

  /** A slice is its first element followed by the rest. */
  lemma SliceCons(t: seq<int>, p: nat, e: nat)
    requires p < e <= |t|
    ensures t[p..e] == [t[p]] + t[p + 1..e]
  {
  }

  /** A slice one longer ends with the next element. */
  lemma SliceSnoc(t: seq<int>, p: nat, q: nat)
    requires p <= q < |t|
    ensures t[p..q + 1] == t[p..q] + [t[q]]
  {
  }

  /** The text at `p` starts with `prefix`, character by character. */
  predicate Matches(t: seq<int>, p: nat, prefix: seq<int>)
    decreases |prefix|
  {
    prefix == [] || (p < |t| && t[p] == prefix[0] && Matches(t, p + 1, prefix[1..]))
  }

  /** Matches is the test of compare_and_consume: text[pos:pos+len(prefix)] == prefix. */
  lemma {:induction false} MatchesSlice(t: seq<int>, p: nat, prefix: seq<int>)
    ensures Matches(t, p, prefix) <==> Slice(t, p, p + |prefix|) == prefix
    decreases |prefix|
  {
    if prefix != [] && p < |t| {
      MatchesSlice(t, p + 1, prefix[1..]);
      var rest := Slice(t, p + 1, p + |prefix|);
      assert Slice(t, p, p + |prefix|) == [t[p]] + rest;
      if Slice(t, p, p + |prefix|) == prefix {
        assert rest == prefix[1..];
      }
    }
  }

  /** The character at `p` is `c`: compare_and_consume's test for a one-character string. */
  predicate At(t: seq<int>, p: nat, c: char)
  {
    p < |t| && t[p] == c as int
  }

  /** peek. */
  function PeekAt(t: seq<int>, p: nat): Res<int>
  {
    if p < |t| then Ok(t[p]) else Err(EofError)
  }

  /** Where skip_whitespace stops. */
  function WsEnd(t: seq<int>, p: nat): (q: nat)
    ensures p <= q && (p <= |t| ==> q <= |t|) && (q == p || q <= |t|)
    ensures forall i :: p <= i < q ==> IsWs(t[i])
    ensures q >= |t| || !IsWs(t[q])
    decreases |t| - p
  {
    if p < |t| && IsWs(t[p]) then WsEnd(t, p + 1) else p
  }

  /** Where parse_digits stops. */
  function DigitsEnd(ucd: Ucd, t: seq<int>, p: nat): (q: nat)
    ensures p <= q && (p <= |t| ==> q <= |t|) && (q == p || q <= |t|)
    ensures forall i :: p <= i < q ==> ucd.isdigit(t[i])
    ensures q >= |t| || !ucd.isdigit(t[q])
    decreases |t| - p
  {
    if p < |t| && ucd.isdigit(t[p]) then DigitsEnd(ucd, t, p + 1) else p
  }

  /** parse_element: whitespace, a value, whitespace. */
  function ElementAt(ucd: Ucd, t: seq<int>, p: nat): (r: Parsed<Value>)
    requires p <= |t|
    ensures r.result.Ok? ==> p < r.pos <= |t|
    decreases |t| - p, 4
  {
    var v := ValueAt(ucd, t, WsEnd(t, p));
    if v.result.Err? then v else Parsed(v.result, WsEnd(t, v.pos))
  }

  /** parse_value: dispatch on the character at the cursor. */
  function ValueAt(ucd: Ucd, t: seq<int>, p: nat): (r: Parsed<Value>)
    requires p <= |t|
    ensures r.result.Ok? ==> p < r.pos <= |t|
    decreases |t| - p, 3
  {
    if p == |t| then Parsed(Err(EofError), p)
    else
      var c := t[p];
      if c == '{' as int then ObjectAt(ucd, t, p)
      else if c == '[' as int then ArrayAt(ucd, t, p)
      else if c == '"' as int then
        var s := StringAt(t, p);
        Parsed(if s.result.Ok? then Ok(Str(s.result.value)) else Err(s.result.error), s.pos)
      else if c == '-' as int || ucd.isdigit(c) then NumberAt(ucd, t, p)
      else if c == 't' as int then LiteralAt(t, p, Text("true"), Bool(true))
      else if c == 'f' as int then LiteralAt(t, p, Text("false"), Bool(false))
      else if c == 'n' as int then LiteralAt(t, p, Text("null"), Null)
      else Parsed(Err(ParseError(p, UnexpectedCharacter)), p)
  }

  /** parse_object: `{`, whitespace, then `}` or the members. */
  function ObjectAt(ucd: Ucd, t: seq<int>, p: nat): (r: Parsed<Value>)
    requires p < |t| && t[p] == '{' as int
    ensures r.result.Ok? ==> p < r.pos <= |t|
    decreases |t| - p, 2
  {
    var q := WsEnd(t, p + 1);
    if At(t, q, '}') then Parsed(Ok(Obj([])), q + 1) else MembersAt(ucd, t, q, [])
  }

  /**
   * parse_object's loop from `p` on, with the entries `acc` read so far: a
   * key, `:`, an element, then `}` or `,` and the next turn.
   */
  function MembersAt(ucd: Ucd, t: seq<int>, p: nat, acc: seq<Member>): (r: Parsed<Value>)
    requires p <= |t|
    ensures r.result.Ok? ==> p < r.pos <= |t|
    decreases |t| - p, 0
  {
    var k := KeyAt(t, p);
    if k.result.Err? then Parsed(Err(k.result.error), k.pos)
    else
      var v := ElementAt(ucd, t, WsEnd(t, k.pos));
      if v.result.Err? then v
      else
        var acc' := Put(acc, k.result.value, v.result.value);
        var s := SeparatorAt(t, v.pos, '}');
        match s.kind
        case Closed => Parsed(Ok(Obj(acc')), s.pos)
        case Comma => MembersAt(ucd, t, s.pos, acc')
        case Missing => Parsed(Err(ParseError(s.pos, ExpectedCommaOrBrace)), s.pos)
  }

  /** The start of a turn of parse_object's loop: whitespace, the key, whitespace and `:`. */
  function KeyAt(t: seq<int>, p: nat): (r: Parsed<seq<int>>)
    requires p <= |t|
    ensures r.result.Ok? ==> p < r.pos <= |t|
  {
    var k := StringAt(t, WsEnd(t, p));
    if k.result.Err? then k
    else
      var q := WsEnd(t, k.pos);
      if At(t, q, ':') then Parsed(k.result, q + 1)
      else Parsed(Err(ParseError(q, ExpectedColon)), q)
  }

  /** parse_array: `[`, whitespace, then `]` or the items. */
  function ArrayAt(ucd: Ucd, t: seq<int>, p: nat): (r: Parsed<Value>)
    requires p < |t| && t[p] == '[' as int
    ensures r.result.Ok? ==> p < r.pos <= |t|
    decreases |t| - p, 2
  {
    var q := WsEnd(t, p + 1);
    if At(t, q, ']') then Parsed(Ok(Arr([])), q + 1) else ItemsAt(ucd, t, q, [])
  }

  /**
   * parse_array's loop from `p` on, with the items `acc` read so far: a
   * value, then `]` or `,` and the next turn.
   */
  function ItemsAt(ucd: Ucd, t: seq<int>, p: nat, acc: seq<Value>): (r: Parsed<Value>)
    requires p <= |t|
    ensures r.result.Ok? ==> p < r.pos <= |t|
    decreases |t| - p, 4
  {
    var v := ValueAt(ucd, t, WsEnd(t, p));
    if v.result.Err? then v
    else
      var acc' := acc + [v.result.value];
      var s := SeparatorAt(t, v.pos, ']');
      match s.kind
      case Closed => Parsed(Ok(Arr(acc')), s.pos)
      case Comma => ItemsAt(ucd, t, s.pos, acc')
      case Missing => Parsed(Err(ParseError(s.pos, ExpectedCommaOrBracket)), s.pos)
  }

  datatype SeparatorKind = Closed | Comma | Missing
  datatype Separator = Separator(kind: SeparatorKind, pos: nat)

  /**
   * The end of a turn of parse_object's or parse_array's loop: whitespace,
   * then the closing bracket `close` or a `,`, each consumed; anything else
   * is left where it is.
   */
  function SeparatorAt(t: seq<int>, p: nat, close: char): (s: Separator)
    requires p <= |t|
    ensures s.kind != Missing ==> p < s.pos <= |t|
    ensures s.kind == Missing ==> s.pos <= |t|
  {
    var q := WsEnd(t, p);
    if At(t, q, close) then Separator(Closed, q + 1)
    else if At(t, q, ',') then Separator(Comma, q + 1)
    else Separator(Missing, q)
  }

  /** An object that is not closed at once starts parse_object's loop after the whitespace. */
  lemma ObjectLoop(ucd: Ucd, t: seq<int>, p: nat)
    requires p < |t| && t[p] == '{' as int && !At(t, WsEnd(t, p + 1), '}')
    ensures ObjectAt(ucd, t, p) == MembersAt(ucd, t, WsEnd(t, p + 1), [])
  {
  }

  /** An array that is not closed at once starts parse_array's loop after the whitespace. */
  lemma ArrayLoop(ucd: Ucd, t: seq<int>, p: nat)
    requires p < |t| && t[p] == '[' as int && !At(t, WsEnd(t, p + 1), ']')
    ensures ArrayAt(ucd, t, p) == ItemsAt(ucd, t, WsEnd(t, p + 1), [])
  {
  }

  /**
   * A turn of parse_object's loop from `p` either finishes with the outcome
   * of the whole loop or moves forward to where the rest of the loop gives
   * that same outcome.
   */
  predicate MemberStep(ucd: Ucd, t: seq<int>, p: nat, acc: seq<Member>, r: Res<Value>, done: bool, p': nat, acc': seq<Member>)
    requires p <= |t|
  {
    if done then Parsed(r, p') == MembersAt(ucd, t, p, acc)
    else p < p' <= |t| && MembersAt(ucd, t, p', acc') == MembersAt(ucd, t, p, acc)
  }

  /** The same for a turn of parse_array's loop. */
  predicate ItemStep(ucd: Ucd, t: seq<int>, p: nat, acc: seq<Value>, r: Res<Value>, done: bool, p': nat, acc': seq<Value>)
    requires p <= |t|
  {
    if done then Parsed(r, p') == ItemsAt(ucd, t, p, acc)
    else p < p' <= |t| && ItemsAt(ucd, t, p', acc') == ItemsAt(ucd, t, p, acc)
  }

  /** parse_string: skip the character at the cursor, then read up to the closing quote. */
  function StringAt(t: seq<int>, p: nat): (r: Parsed<seq<int>>)
    requires p <= |t|
    ensures r.result.Ok? ==> p < r.pos <= |t|
  {
    CharsAt(t, p + 1, [])
  }

  /** One turn of parse_string's loop onwards, with the characters `buf` read so far. */
  function CharsAt(t: seq<int>, p: nat, buf: seq<int>): (r: Parsed<seq<int>>)
    requires p <= |t| + 1
    ensures r.result.Ok? ==> p < r.pos <= |t|
    decreases |t| + 1 - p
  {
    if p >= |t| then Parsed(Err(EofError), p)
    else if t[p] == '"' as int then Parsed(Ok(buf), p + 1)
    else if t[p] == '\\' as int then
      var e := EscapeAt(t, p);
      if e.result.Err? then e else CharsAt(t, e.pos, buf + e.result.value)
    else CharsAt(t, p + 1, buf + [t[p]])
  }

  /** handle_escape_sequence: a backslash, an escape character, and for `u` four hex digits. */
  function EscapeAt(t: seq<int>, p: nat): (r: Parsed<seq<int>>)
    ensures r.result.Ok? ==> p < r.pos <= |t|
  {
    if !At(t, p, '\\') then Parsed(Err(ParseError(p, ExpectedBackslash)), p)
    else if p + 1 >= |t| then Parsed(Err(EofError), p + 1)
    else
      var c := EscapeTable(t[p + 1]);
      if c.None? then Parsed(Err(ParseError(p + 1, InvalidEscape)), p + 1)
      else if c.value != 'u' as int then Parsed(Ok([c.value]), p + 2)
      else HexAt(t, p + 2, [])
  }

  /** The hex-digit loop of handle_escape_sequence, with the digits read so far. */
  function HexAt(t: seq<int>, p: nat, digits: seq<int>): (r: Parsed<seq<int>>)
    requires |digits| <= 4 && forall i :: 0 <= i < |digits| ==> IsHex(digits[i])
    requires p <= |t|
    ensures r.result.Ok? ==> r.pos == p + 4 - |digits| <= |t|
    decreases 4 - |digits|
  {
    if |digits| == 4 then Parsed(Ok([HexValue(digits)]), p)
    else if p >= |t| then Parsed(Err(EofError), p)
    else if !IsHex(t[p]) then Parsed(Err(ValueError), p)
    else HexAt(t, p + 1, digits + [t[p]])
  }

  /** parse_true, parse_false and parse_null: the exact word, else a JSONParseError. */
  function LiteralAt(t: seq<int>, p: nat, word: seq<int>, v: Value): Parsed<Value>
  {
    if Matches(t, p, word) then Parsed(Ok(v), p + |word|) else Parsed(Err(ParseError(p, InvalidLiteral)), p)
  }

  /** parse_onenine. */
  function OneNineAt(t: seq<int>, p: nat): Parsed<seq<int>>
  {
    if p >= |t| then Parsed(Err(EofError), p)
    else if IsOneNine(t[p]) then Parsed(Ok([t[p]]), p + 1)
    else Parsed(Err(ParseError(p, ExpectedOneNine)), p)
  }

  /** parse_digit. */
  function DigitAt(t: seq<int>, p: nat): Parsed<seq<int>>
  {
    if p >= |t| then Parsed(Err(EofError), p)
    else if IsOneNine(t[p]) then Parsed(Ok([t[p]]), p + 1)
    else if t[p] == '0' as int then Parsed(Ok(Text("0")), p + 1)
    else Parsed(Err(ParseError(p, ExpectedDigit)), p)
  }

  /**
   * parse_integer: an optional `-`, then a 1-9 digit and digits, or a single
   * digit (parse_digit, which refuses anything else). What it returns is
   * the text it read.
   */
  function IntegerAt(ucd: Ucd, t: seq<int>, p: nat): (r: Parsed<seq<int>>)
    requires p <= |t|
    ensures r.result.Ok? ==> p < r.pos <= |t| && r.result.value == t[p..r.pos]
  {
    var q := if At(t, p, '-') then p + 1 else p;
    if q >= |t| then Parsed(Err(EofError), q)
    else if IsOneNine(t[q]) then
      var e := DigitsEnd(ucd, t, q + 1);
      Parsed(Ok(t[p..e]), e)
    else if t[q] == '0' as int then Parsed(Ok(t[p..q + 1]), q + 1)
    else Parsed(Err(ParseError(q, ExpectedDigit)), q)
  }

  /** What parse_integer returns follows the integer grammar. */
  lemma IntegerLexeme(ucd: Ucd, t: seq<int>, p: nat)
    requires p <= |t| && IntegerAt(ucd, t, p).result.Ok?
    ensures IsIntegerLexeme(ucd, IntegerAt(ucd, t, p).result.value)
  {
    var q := if At(t, p, '-') then p + 1 else p;
    var r := IntegerAt(ucd, t, p);
    var d := r.result.value[q - p..];
    assert d == t[q..r.pos];
    if IsOneNine(t[q]) {
      assert d[0] == t[q];
      forall i | 1 <= i < |d|
        ensures ucd.isdigit(d[i])
      {
        assert d[i] == t[q + i];
      }
    }
    assert IsNaturalLexeme(ucd, d);
  }

  /** parse_fraction: `.` and digits (possibly none), or nothing. */
  function FractionAt(ucd: Ucd, t: seq<int>, p: nat): (r: Parsed<seq<int>>)
    requires p <= |t|
    ensures r.result.Ok? && p <= r.pos <= |t| && r.result.value == t[p..r.pos]
  {
    if p >= |t| || !At(t, p, '.') then Parsed(Ok([]), p)
    else
      var e := DigitsEnd(ucd, t, p + 1);
      Parsed(Ok(t[p..e]), e)
  }

  /** parse_sign. */
  function SignAt(t: seq<int>, p: nat): Parsed<seq<int>>
  {
    if p >= |t| then Parsed(Err(EofError), p)
    else if t[p] == '+' as int || t[p] == '-' as int then Parsed(Ok([t[p]]), p + 1)
    else Parsed(Ok([]), p)
  }

  /** parse_exponent: `e` or `E`, a sign and digits (possibly none), spelt with `E`; or nothing. */
  function ExponentAt(ucd: Ucd, t: seq<int>, p: nat): (r: Parsed<seq<int>>)
    requires p <= |t|
    ensures r.result.Ok? ==> p <= r.pos <= |t|
  {
    if p >= |t| || (t[p] != 'E' as int && t[p] != 'e' as int) then Parsed(Ok([]), p)
    else
      var s := SignAt(t, p + 1);
      if s.result.Err? then s
      else
        var e := DigitsEnd(ucd, t, s.pos);
        Parsed(Ok(Text("E") + s.result.value + t[s.pos..e]), e)
  }

  /** Whether float() accepts an exponent part: it needs a digit after the `E` and the sign. */
  predicate ExponentHasDigits(e: seq<int>)
  {
    e == [] || (e[|e| - 1] != 'E' as int && e[|e| - 1] != '+' as int && e[|e| - 1] != '-' as int)
  }

  /**
   * parse_number: an int when there is neither fraction nor exponent, else
   * the float's lexeme; a ValueError when int() or float() refuses the text.
   */
  function NumberAt(ucd: Ucd, t: seq<int>, p: nat): (r: Parsed<Value>)
    requires p <= |t|
    ensures r.result.Ok? ==> p < r.pos <= |t|
  {
    var i := IntegerAt(ucd, t, p);
    if i.result.Err? then Parsed(Err(i.result.error), i.pos)
    else
      var f := FractionAt(ucd, t, i.pos);
      var e := ExponentAt(ucd, t, f.pos);
      if e.result.Err? then Parsed(Err(e.result.error), e.pos)
      else if f.result.value == [] && e.result.value == [] then
        var n := IntValue(ucd, i.result.value);
        Parsed(if n.Some? then Ok(Int(n.value)) else Err(ValueError), e.pos)
      else
        var lexeme := i.result.value + f.result.value + e.result.value;
        if !ExponentHasDigits(e.result.value) || !DecimalDigits(ucd, lexeme) then Parsed(Err(ValueError), e.pos)
        else Parsed(Ok(Float(lexeme)), e.pos)
  }

  /** parse: one element from the start of the text; whatever follows it is ignored. */
  function ParseText(ucd: Ucd, t: seq<int>): Res<Value>
  {
    ElementAt(ucd, t, 0).result
  }

  // ---------------------------------------------------------------------
  // The parser object

  class JsonParser {
    var pos: nat
    var text: seq<int>
    /** The Unicode tables str.isdigit, int() and float() consult. */
    const ucd: Ucd

    constructor (ucd: Ucd)
      ensures pos == 0 && text == [] && this.ucd == ucd
    {
      this.ucd := ucd;
      pos := 0;
      text := [];
    }

    method HasMore() returns (b: bool)
      ensures b <==> pos < |text|
    {
      b := pos < |text|;
    }

    method Remaining() returns (s: seq<int>)
      ensures pos <= |text| ==> s == text[pos..]
      ensures pos >= |text| ==> s == []
    {
      s := if pos >= |text| then [] else text[pos..];
    }

    method Reset()
      modifies this
      ensures pos == 0 && text == []
    {
      pos := 0;
      text := [];
    }

    method Consume(n: nat) returns (m: nat)
      modifies this`pos
      ensures pos == old(pos) + n && m == n
    {
      pos := pos + n;
      m := n;
    }

    method CompareAndConsume(prefix: seq<int>) returns (b: bool)
      modifies this`pos
      ensures b == Matches(text, old(pos), prefix)
      ensures pos == old(pos) + (if b then |prefix| else 0)
    {
      var hi := pos + |prefix|;
      var window := if pos >= |text| then [] else text[pos..if hi <= |text| then hi else |text|];
      b := window == prefix;
      MatchesSlice(text, pos, prefix);
      if b {
        var _ := Consume(|prefix|);
      }
    }

    method Peek() returns (r: Res<int>)
      ensures r == PeekAt(text, pos)
    {
      var more := HasMore();
      if more {
        return Ok(text[pos]);
      }
      return Err(EofError);
    }

    method SkipWhitespace() returns (n: nat)
      modifies this`pos
      ensures pos == WsEnd(text, old(pos)) && n == pos - old(pos)
    {
      n := 0;
      while pos < |text|
        invariant old(pos) <= pos && n == pos - old(pos)
        invariant WsEnd(text, pos) == WsEnd(text, old(pos))
        decreases |text| - pos
      {
        var c := Peek();
        if !IsWs(c.value) {
          break;
        }
        var m := Consume(1);
        n := n + m;
      }
    }

    method Parse(t: seq<int>) returns (r: Res<Value>)
      modifies this
      ensures text == t && r == ParseText(ucd, t)
    {
      Reset();
      text := t;
      r := ParseElement();
    }

    method ParseElement() returns (r: Res<Value>)
      requires pos <= |text|
      modifies this`pos
      ensures Parsed(r, pos) == ElementAt(ucd, text, old(pos))
      decreases |text| - pos, 4
    {
      var _ := SkipWhitespace();
      r := ParseValue();
      if r.Ok? {
        var _ := SkipWhitespace();
      }
    }

    method ParseValue() returns (r: Res<Value>)
      requires pos <= |text|
      modifies this`pos
      ensures Parsed(r, pos) == ValueAt(ucd, text, old(pos))
      decreases |text| - pos, 3
    {
      var c := Peek();
      if c.Err? {
        return Err(c.error);
      }
      var ch := c.value;
      if ch == '{' as int {
        r := ParseObject();
      } else if ch == '[' as int {
        r := ParseArray();
      } else if ch == '"' as int {
        var s := ParseString();
        r := if s.Ok? then Ok(Str(s.value)) else Err(s.error);
      } else if ch == '-' as int || ucd.isdigit(ch) {
        r := ParseNumber();
      } else if ch == 't' as int {
        r := ParseTrue();
      } else if ch == 'f' as int {
        r := ParseFalse();
      } else if ch == 'n' as int {
        r := ParseNull();
      } else {
        r := Err(ParseError(pos, UnexpectedCharacter));
      }
    }

    method ParseObject() returns (r: Res<Value>)
      requires pos < |text| && text[pos] == '{' as int
      modifies this`pos
      ensures Parsed(r, pos) == ObjectAt(ucd, text, old(pos))
      decreases |text| - pos, 2
    {
      var _ := CompareAndConsume(['{' as int]);
      var _ := SkipWhitespace();
      var closed := CompareAndConsume(['}' as int]);
      if closed {
        return Ok(Obj([]));
      }
      r := ParseMembers(old(pos));
    }

    /** parse_object's loop, from the first key of the object at `start` to the closing `}`. */
    method ParseMembers(ghost start: nat) returns (r: Res<Value>)
      requires start < |text| && text[start] == '{' as int
      requires pos == WsEnd(text, start + 1) && !At(text, pos, '}')
      modifies this`pos
      ensures Parsed(r, pos) == ObjectAt(ucd, text, start)
      decreases |text| - pos, 2
    {
      ObjectLoop(ucd, text, start);
      var obj: seq<Member> := [];
      ghost var target := MembersAt(ucd, text, pos, []);
      while true
        invariant old(pos) <= pos <= |text|
        invariant MembersAt(ucd, text, pos, obj) == target
        decreases |text| - pos
      {
        var done;
        r, done, obj := MemberTurn(obj);
        if done {
          return;
        }
      }
    }

    /** One turn of parse_object's loop: a key, `:` and an element, then the separator. */
    method MemberTurn(obj: seq<Member>) returns (r: Res<Value>, done: bool, obj': seq<Member>)
      requires pos <= |text|
      modifies this`pos
      ensures MemberStep(ucd, text, old(pos), obj, r, done, pos, obj') == true
      decreases |text| - pos, 1
    {
      done, obj' := true, obj;
      var key := ParseKey();
      if key.Err? {
        return Err(key.error), done, obj';
      }
      var _ := SkipWhitespace();
      var value := ParseElement();
      if value.Err? {
        return value, done, obj';
      }
      obj' := Put(obj, key.value, value.value);
      var separator := ParseSeparator('}');
      match separator
      case Closed => r := Ok(Obj(obj'));
      case Comma => r, done := Ok(Obj(obj')), false;
      case Missing => r := Err(ParseError(pos, ExpectedCommaOrBrace));
    }

    /** Whitespace, a key, whitespace and `:`. */
    method ParseKey() returns (r: Res<seq<int>>)
      requires pos <= |text|
      modifies this`pos
      ensures Parsed(r, pos) == KeyAt(text, old(pos))
    {
      var _ := SkipWhitespace();
      r := ParseString();
      if r.Err? {
        return;
      }
      var _ := SkipWhitespace();
      var colon := CompareAndConsume([':' as int]);
      if !colon {
        return Err(ParseError(pos, ExpectedColon));
      }
    }

    method ParseString() returns (r: Res<seq<int>>)
      requires pos <= |text|
      modifies this`pos
      ensures Parsed(r, pos) == StringAt(text, old(pos))
    {
      var _ := Consume(1);
      var buf: seq<int> := [];
      while true
        invariant pos <= |text| + 1
        invariant CharsAt(text, pos, buf) == StringAt(text, old(pos))
        decreases |text| + 1 - pos
      {
        var c := Peek();
        if c.Err? {
          return Err(c.error);
        }
        if c.value == '"' as int {
          var _ := Consume(1);
          return Ok(buf);
        }
        if c.value == '\\' as int {
          var e := HandleEscapeSequence();
          if e.Err? {
            return Err(e.error);
          }
          buf := buf + e.value;
          continue;
        }
        buf := buf + [c.value];
        var _ := Consume(1);
      }
    }

    method HandleEscapeSequence() returns (r: Res<seq<int>>)
      modifies this`pos
      ensures Parsed(r, pos) == EscapeAt(text, old(pos))
    {
      var backslash := CompareAndConsume(Text("\\"));
      if !backslash {
        return Err(ParseError(pos, ExpectedBackslash));
      }
      var e := Peek();
      if e.Err? {
        return Err(e.error);
      }
      var c := EscapeTable(e.value);
      if c.None? {
        return Err(ParseError(pos, InvalidEscape));
      }
      var _ := Consume(1);
      if c.value != 'u' as int {
        return Ok([c.value]);
      }
      var digits: seq<int> := [];
      for i := 0 to 4
        invariant |digits| == i && pos <= |text|
        invariant forall j :: 0 <= j < i ==> IsHex(digits[j])
        invariant HexAt(text, pos, digits) == EscapeAt(text, old(pos))
      {
        var d := Peek();
        if d.Err? {
          return Err(d.error);
        }
        if !IsHex(d.value) {
          return Err(ValueError);
        }
        digits := digits + [d.value];
        var _ := Consume(1);
      }
      return Ok([HexValue(digits)]);
    }

    method ParseArray() returns (r: Res<Value>)
      requires pos < |text| && text[pos] == '[' as int
      modifies this`pos
      ensures Parsed(r, pos) == ArrayAt(ucd, text, old(pos))
      decreases |text| - pos, 2
    {
      var _ := Consume(1);
      var _ := SkipWhitespace();
      var closed := CompareAndConsume([']' as int]);
      if closed {
        return Ok(Arr([]));
      }
      r := ParseItems(old(pos));
    }

    /** parse_array's loop, from the first value of the array at `start` to the closing `]`. */
    method ParseItems(ghost start: nat) returns (r: Res<Value>)
      requires start < |text| && text[start] == '[' as int
      requires pos == WsEnd(text, start + 1) && !At(text, pos, ']')
      modifies this`pos
      ensures Parsed(r, pos) == ArrayAt(ucd, text, start)
      decreases |text| - pos, 5
    {
      ArrayLoop(ucd, text, start);
      var items: seq<Value> := [];
      ghost var target := ItemsAt(ucd, text, pos, []);
      while true
        invariant old(pos) <= pos <= |text|
        invariant ItemsAt(ucd, text, pos, items) == target
        decreases |text| - pos
      {
        var done;
        r, done, items := ItemTurn(items);
        if done {
          return;
        }
      }
    }

    /** One turn of parse_array's loop: a value, then the separator. */
    method ItemTurn(items: seq<Value>) returns (r: Res<Value>, done: bool, items': seq<Value>)
      requires pos <= |text|
      modifies this`pos
      ensures ItemStep(ucd, text, old(pos), items, r, done, pos, items') == true
      decreases |text| - pos, 4
    {
      done, items' := true, items;
      var _ := SkipWhitespace();
      var value := ParseValue();
      if value.Err? {
        return value, done, items';
      }
      items' := items + [value.value];
      var separator := ParseSeparator(']');
      match separator
      case Closed => r := Ok(Arr(items'));
      case Comma => r, done := Ok(Arr(items')), false;
      case Missing => r := Err(ParseError(pos, ExpectedCommaOrBracket));
    }

    /**
     * The end of a turn of parse_object's and parse_array's loops:
     * whitespace, then the closing bracket `close` or `,`.
     */
    method ParseSeparator(close: char) returns (s: SeparatorKind)
      requires pos <= |text|
      modifies this`pos
      ensures Separator(s, pos) == SeparatorAt(text, old(pos), close)
    {
      var _ := SkipWhitespace();
      var closed := CompareAndConsume([close as int]);
      if closed {
        return Closed;
      }
      var comma := CompareAndConsume([',' as int]);
      if comma {
        return Comma;
      }
      return Missing;
    }

    method ParseLiteral(word: seq<int>, v: Value) returns (r: Res<Value>)
      modifies this`pos
      ensures Parsed(r, pos) == LiteralAt(text, old(pos), word, v)
    {
      var matched := CompareAndConsume(word);
      if matched {
        return Ok(v);
      }
      return Err(ParseError(pos, InvalidLiteral));
    }

    method ParseTrue() returns (r: Res<Value>)
      modifies this`pos
      ensures Parsed(r, pos) == LiteralAt(text, old(pos), Text("true"), Bool(true))
    {
      r := ParseLiteral(Text("true"), Bool(true));
    }

    method ParseFalse() returns (r: Res<Value>)
      modifies this`pos
      ensures Parsed(r, pos) == LiteralAt(text, old(pos), Text("false"), Bool(false))
    {
      r := ParseLiteral(Text("false"), Bool(false));
    }

    method ParseNull() returns (r: Res<Value>)
      modifies this`pos
      ensures Parsed(r, pos) == LiteralAt(text, old(pos), Text("null"), Null)
    {
      r := ParseLiteral(Text("null"), Null);
    }

    method ParseNumber() returns (r: Res<Value>)
      requires pos <= |text|
      modifies this`pos
      ensures Parsed(r, pos) == NumberAt(ucd, text, old(pos))
    {
      var integer := ParseInteger();
      if integer.Err? {
        return Err(integer.error);
      }
      var fraction := ParseFraction();
      var exponent := ParseExponent();
      if exponent.Err? {
        return Err(exponent.error);
      }
      if fraction == [] && exponent.value == [] {
        var n := IntValue(ucd, integer.value);
        return if n.Some? then Ok(Int(n.value)) else Err(ValueError);
      }
      var lexeme := integer.value + fraction + exponent.value;
      if !ExponentHasDigits(exponent.value) || !DecimalDigits(ucd, lexeme) {
        return Err(ValueError);
      }
      return Ok(Float(lexeme));
    }

    method ParseInteger() returns (r: Res<seq<int>>)
      requires pos <= |text|
      modifies this`pos
      ensures Parsed(r, pos) == IntegerAt(ucd, text, old(pos))
    {
      var sign: seq<int> := [];
      var minus := CompareAndConsume(['-' as int]);
      if minus {
        sign := Text("-");
      }
      assert sign == text[old(pos)..pos];
      ghost var q := pos;
      assert q == if At(text, old(pos), '-') then old(pos) + 1 else old(pos);
      var c := Peek();
      if c.Err? {
        return Err(c.error);
      }
      if IsOneNine(c.value) {
        var first := ParseOnenine();
        var rest := ParseDigits();
        SliceSplit(text, old(pos), q, pos);
        assert IntegerAt(ucd, text, old(pos)) == Parsed(Ok(text[old(pos)..pos]), pos);
        return Ok(sign + first.value + rest);
      }
      var d := ParseDigit();
      if d.Err? {
        return d;
      }
      assert d.value == [text[q]];
      SliceSnoc(text, old(pos), q);
      return Ok(sign + d.value);
    }

    method ParseOnenine() returns (r: Res<seq<int>>)
      modifies this`pos
      ensures Parsed(r, pos) == OneNineAt(text, old(pos))
    {
      var c := Peek();
      if c.Err? {
        return Err(c.error);
      }
      if IsOneNine(c.value) {
        var _ := Consume(1);
        return Ok([c.value]);
      }
      return Err(ParseError(pos, ExpectedOneNine));
    }

    method ParseDigits() returns (s: seq<int>)
      requires pos <= |text|
      modifies this`pos
      ensures pos == DigitsEnd(ucd, text, old(pos)) && s == text[old(pos)..pos]
    {
      s := [];
      while pos < |text| && ucd.isdigit(text[pos])
        invariant old(pos) <= pos <= |text| && s == text[old(pos)..pos]
        invariant DigitsEnd(ucd, text, pos) == DigitsEnd(ucd, text, old(pos))
        decreases |text| - pos
      {
        var c := Peek();
        s := s + [c.value];
        var _ := Consume(1);
      }
    }

    method ParseDigit() returns (r: Res<seq<int>>)
      modifies this`pos
      ensures Parsed(r, pos) == DigitAt(text, old(pos))
    {
      var c := Peek();
      if c.Err? {
        return Err(c.error);
      }
      if IsOneNine(c.value) {
        var _ := Consume(1);
        return Ok([c.value]);
      } else if c.value == '0' as int {
        var _ := Consume(1);
        return Ok(Text("0"));
      }
      return Err(ParseError(pos, ExpectedDigit));
    }

    method ParseFraction() returns (s: seq<int>)
      requires pos <= |text|
      modifies this`pos
      ensures Parsed(Ok(s), pos) == FractionAt(ucd, text, old(pos))
    {
      var more := HasMore();
      if !more {
        return [];
      }
      var dot := CompareAndConsume(['.' as int]);
      if dot {
        var digits := ParseDigits();
        SliceCons(text, old(pos), pos);
        assert Text(".") == [text[old(pos)]];
        return Text(".") + digits;
      }
      return [];
    }

    method ParseExponent() returns (r: Res<seq<int>>)
      requires pos <= |text|
      modifies this`pos
      ensures Parsed(r, pos) == ExponentAt(ucd, text, old(pos))
    {
      var more := HasMore();
      if !more {
        return Ok([]);
      }
      var c := Peek();
      if c.value != 'E' as int && c.value != 'e' as int {
        return Ok([]);
      }
      var _ := Consume(1);
      var sign := ParseSign();
      if sign.Err? {
        return sign;
      }
      var digits := ParseDigits();
      return Ok(Text("E") + sign.value + digits);
    }

    method ParseSign() returns (r: Res<seq<int>>)
      modifies this`pos
      ensures Parsed(r, pos) == SignAt(text, old(pos))
    {
      var c := Peek();
      if c.Err? {
        return Err(c.error);
      }
      if c.value != '+' as int && c.value != '-' as int {
        return Ok([]);
      }
      var _ := Consume(1);
      return Ok([c.value]);
    }
  }
}
