/**
 * Properties of the JSON parser of json/parser.py, stated about the
 * functions `JsonParser`'s methods are proved against.
 */
module JsonProperties {
  import opened Wrappers
  import opened Json

  // ---------------------------------------------------------------------
  // dict semantics: `obj[key] = value`

  /** After `obj[k] = v`, `obj[k]` is `v`. */
  lemma {:induction false} LookupPut(m: seq<Member>, k: seq<int>, v: Value)
    ensures Lookup(Put(m, k, v), k) == Some(v)
  {
    if m != [] && m[0].key != k {
      LookupPut(m[1..], k, v);
    }
  }

  /** `obj[k] = v` leaves every other key's value as it was. */
  lemma {:induction false} LookupPutOther(m: seq<Member>, k: seq<int>, k': seq<int>, v: Value)
    requires k' != k
    ensures Lookup(Put(m, k, v), k') == Lookup(m, k')
  {
    if m != [] && m[0].key != k {
      LookupPutOther(m[1..], k, k', v);
    }
  }

  /** A key already present keeps its place; a new key goes last. */
  lemma {:induction false} KeysPut(m: seq<Member>, k: seq<int>, v: Value)
    ensures Keys(Put(m, k, v)) == if k in Keys(m) then Keys(m) else Keys(m) + [k]
  {
    if m != [] && m[0].key != k {
      KeysPut(m[1..], k, v);
    }
  }

  /** No key occurs twice. */
  predicate Distinct(keys: seq<seq<int>>)
  {
    forall i, j :: 0 <= i < j < |keys| ==> keys[i] != keys[j]
  }

  /** `obj[k] = v` keeps the keys distinct. */
  lemma PutDistinct(m: seq<Member>, k: seq<int>, v: Value)
    requires Distinct(Keys(m))
    ensures Distinct(Keys(Put(m, k, v)))
  {
    KeysPut(m, k, v);
  }

  // ---------------------------------------------------------------------
  // Whitespace and digit runs

  /** skip_whitespace stops exactly at the end of a run of whitespace. */
  lemma WsEndRun(t: seq<int>, p: nat, q: nat)
    requires p <= q <= |t| && forall i :: p <= i < q ==> IsWs(t[i])
    requires q == |t| || !IsWs(t[q])
    ensures WsEnd(t, p) == q
  {
  }

  /** parse_digits stops exactly at the end of a run of digits. */
  lemma DigitsEndRun(ucd: Ucd, t: seq<int>, p: nat, q: nat)
    requires p <= q <= |t| && forall i :: p <= i < q ==> ucd.isdigit(t[i])
    requires q == |t| || !ucd.isdigit(t[q])
    ensures DigitsEnd(ucd, t, p) == q
  {
  }

  // ---------------------------------------------------------------------
  // Strings

  /** Characters parse_string copies as they are: neither `"` nor `\`. */
  predicate Plain(s: seq<int>)
  {
    forall i :: 0 <= i < |s| ==> s[i] != '"' as int && s[i] != '\\' as int
  }

  /** parse_string's loop copies plain characters up to the closing quote. */
  lemma {:induction false} CharsPlain(t: seq<int>, p: nat, buf: seq<int>, s: seq<int>)
    requires p + |s| < |t| && t[p..p + |s|] == s && t[p + |s|] == '"' as int && Plain(s)
    ensures CharsAt(t, p, buf) == Parsed(Ok(buf + s), p + |s| + 1)
    decreases |s|
  {
    if s == [] {
      assert buf + s == buf;
    } else {
      assert t[p] == s[0];
      assert t[p + 1..p + |s|] == s[1..];
      CharsPlain(t, p + 1, buf + [s[0]], s[1..]);
      assert buf + [s[0]] + s[1..] == buf + s;
    }
  }

  /**
   * A quoted plain string reads back as itself, whatever follows it, and
   * whatever the opening character is: parse_string consumes it unchecked.
   */
  lemma StringRoundTrip(open: int, s: seq<int>, rest: seq<int>)
    requires Plain(s)
    ensures StringAt([open] + s + ['"' as int] + rest, 0) == Parsed(Ok(s), |s| + 2)
  {
    var t := [open] + s + ['"' as int] + rest;
    assert t[1..1 + |s|] == s;
    CharsPlain(t, 1, [], s);
    assert [] + s == s;
  }

  // ---------------------------------------------------------------------
  // Escapes

  /** 16^n. */
  function Pow16(n: nat): nat
  {
    if n == 0 then 1 else 16 * Pow16(n - 1)
  }

  /** int(s, 16) of n hex digits is below 16^n. */
  lemma {:induction false} HexValueBound(s: seq<int>)
    requires forall i :: 0 <= i < |s| ==> IsHex(s[i])
    ensures HexValue(s) < Pow16(|s|)
  {
    if s != [] {
      HexValueBound(s[..|s| - 1]);
    }
  }

  predicate AllHex(s: seq<int>)
  {
    forall i :: 0 <= i < |s| ==> IsHex(s[i])
  }

  /** The hex-digit loop raises EOFError or ValueError, never JSONParseError. */
  lemma {:induction false} HexAtErrors(t: seq<int>, p: nat, digits: seq<int>)
    requires |digits| <= 4 && forall i :: 0 <= i < |digits| ==> IsHex(digits[i])
    requires p <= |t|
    ensures HexAt(t, p, digits).result.Err? ==> HexAt(t, p, digits).result.error in {EofError, ValueError}
    decreases 4 - |digits|
  {
    if |digits| < 4 && p < |t| && IsHex(t[p]) {
      HexAtErrors(t, p + 1, digits + [t[p]]);
    }
  }

  /** Hex digits in the text complete the digits read so far. */
  lemma {:induction false} HexAtRun(t: seq<int>, p: nat, digits: seq<int>)
    requires |digits| <= 4 && forall i :: 0 <= i < |digits| ==> IsHex(digits[i])
    requires p + 4 - |digits| <= |t| && forall i :: p <= i < p + 4 - |digits| ==> IsHex(t[i])
    ensures AllHex(digits + t[p..p + 4 - |digits|])
    ensures HexAt(t, p, digits) == Parsed(Ok([HexValue(digits + t[p..p + 4 - |digits|])]), p + 4 - |digits|)
    decreases 4 - |digits|
  {
    if |digits| == 4 {
      assert digits + t[p..p] == digits;
    } else {
      var e := p + 4 - |digits|;
      SliceCons(t, p, e);
      assert digits + [t[p]] + t[p + 1..e] == digits + ([t[p]] + t[p + 1..e]);
      HexAtRun(t, p + 1, digits + [t[p]]);
    }
  }

  /** The hex-digit loop succeeds only on hex digits. */
  lemma {:induction false} HexAtOk(t: seq<int>, p: nat, digits: seq<int>)
    requires |digits| <= 4 && forall i :: 0 <= i < |digits| ==> IsHex(digits[i])
    requires p <= |t| && HexAt(t, p, digits).result.Ok?
    ensures p + 4 - |digits| <= |t| && forall i :: p <= i < p + 4 - |digits| ==> IsHex(t[i])
    decreases 4 - |digits|
  {
    if |digits| < 4 {
      HexAtOk(t, p + 1, digits + [t[p]]);
    }
  }

  /** The first non-hex character among the four raises ValueError. */
  lemma {:induction false} HexAtBad(t: seq<int>, p: nat, digits: seq<int>, j: nat)
    requires |digits| <= 4 && forall i :: 0 <= i < |digits| ==> IsHex(digits[i])
    requires p <= j < p + 4 - |digits| && j < |t| && !IsHex(t[j])
    requires forall i :: p <= i < j ==> IsHex(t[i])
    ensures HexAt(t, p, digits) == Parsed(Err(ValueError), j)
    decreases 4 - |digits|
  {
    if j > p {
      HexAtBad(t, p + 1, digits + [t[p]], j);
    }
  }

  /** An escape handle_escape_sequence accepts: a table entry, and for `u` four hex digits. */
  predicate WellFormedEscape(t: seq<int>, p: nat)
  {
    p + 1 < |t| && t[p] == '\\' as int && EscapeTable(t[p + 1]).Some?
    && (t[p + 1] == 'u' as int ==> p + 6 <= |t| && forall i :: p + 2 <= i < p + 6 ==> IsHex(t[i]))
  }

  /** handle_escape_sequence succeeds exactly on well-formed escapes. */
  lemma EscapeOk(t: seq<int>, p: nat)
    ensures EscapeAt(t, p).result.Ok? <==> WellFormedEscape(t, p)
  {
    if p + 1 < |t| && t[p] == '\\' as int && t[p + 1] == 'u' as int {
      if EscapeAt(t, p).result.Ok? {
        HexAtOk(t, p + 2, []);
      } else if p + 6 <= |t| && forall i :: p + 2 <= i < p + 6 ==> IsHex(t[i]) {
        HexAtRun(t, p + 2, []);
      }
    }
  }

  /** The one-character escapes decode to the characters they name. */
  lemma SimpleEscapes(t: seq<int>, p: nat)
    requires p + 1 < |t| && t[p] == '\\' as int
    ensures t[p + 1] == '"' as int ==> EscapeAt(t, p) == Parsed(Ok(['"' as int]), p + 2)
    ensures t[p + 1] == '\\' as int ==> EscapeAt(t, p) == Parsed(Ok(['\\' as int]), p + 2)
    ensures t[p + 1] == '/' as int ==> EscapeAt(t, p) == Parsed(Ok(['/' as int]), p + 2)
    ensures t[p + 1] == 'b' as int ==> EscapeAt(t, p) == Parsed(Ok([0x08]), p + 2)
    ensures t[p + 1] == 'f' as int ==> EscapeAt(t, p) == Parsed(Ok([0x0C]), p + 2)
    ensures t[p + 1] == 'n' as int ==> EscapeAt(t, p) == Parsed(Ok([0x0A]), p + 2)
    ensures t[p + 1] == 'r' as int ==> EscapeAt(t, p) == Parsed(Ok([0x0D]), p + 2)
    ensures t[p + 1] == 't' as int ==> EscapeAt(t, p) == Parsed(Ok([0x09]), p + 2)
    ensures EscapeTable(t[p + 1]).None? ==> EscapeAt(t, p) == Parsed(Err(ParseError(p + 1, InvalidEscape)), p + 1)
  {
  }

  /** `\uXXXX` decodes to the code point XXXX, which is below 0x10000. */
  lemma UnicodeEscape(t: seq<int>, p: nat)
    requires p + 6 <= |t| && t[p] == '\\' as int && t[p + 1] == 'u' as int
    requires forall i :: p + 2 <= i < p + 6 ==> IsHex(t[i])
    ensures EscapeAt(t, p) == Parsed(Ok([HexValue(t[p + 2..p + 6])]), p + 6)
    ensures HexValue(t[p + 2..p + 6]) < 0x10000
  {
    HexAtRun(t, p + 2, []);
    assert [] + t[p + 2..p + 6] == t[p + 2..p + 6];
    HexValueBound(t[p + 2..p + 6]);
  }

  /** A `\u` followed by a non-hex character raises ValueError, not JSONParseError. */
  lemma BadUnicodeEscape(t: seq<int>, p: nat, j: nat)
    requires p + 1 < |t| && t[p] == '\\' as int && t[p + 1] == 'u' as int
    requires p + 2 <= j < p + 6 && j < |t| && !IsHex(t[j])
    requires forall i :: p + 2 <= i < j ==> IsHex(t[i])
    ensures EscapeAt(t, p) == Parsed(Err(ValueError), j)
  {
    HexAtBad(t, p + 2, [], j);
  }

  // ---------------------------------------------------------------------
  // Literals

  /** true, false and null parse exactly when the word is in the text, otherwise JSONParseError at the cursor. */
  lemma LiteralExact(t: seq<int>, p: nat, word: seq<int>, v: Value)
    requires p <= |t|
    ensures LiteralAt(t, p, word, v) ==
      if p + |word| <= |t| && t[p..p + |word|] == word then Parsed(Ok(v), p + |word|)
      else Parsed(Err(ParseError(p, InvalidLiteral)), p)
  {
    MatchesSlice(t, p, word);
    if p + |word| > |t| {
      assert |Slice(t, p, p + |word|)| < |word|;
    }
  }

  // ---------------------------------------------------------------------
  // Integers

  /** parse_integer reads exactly an integer lexeme that is not followed by another digit. */
  lemma IntegerAtLexeme(ucd: Ucd, t: seq<int>, p: nat, s: seq<int>)
    requires IsIntegerLexeme(ucd, s) && p + |s| <= |t| && t[p..p + |s|] == s
    requires p + |s| == |t| || !ucd.isdigit(t[p + |s|])
    ensures IntegerAt(ucd, t, p) == Parsed(Ok(s), p + |s|)
  {
    var e := p + |s|;
    var q := if At(t, p, '-') then p + 1 else p;
    assert t[p] == s[0];
    assert t[q] == s[q - p];
    if IsOneNine(t[q]) {
      assert forall i :: q + 1 <= i < e ==> t[i] == s[i - p];
      DigitsEndRun(ucd, t, q + 1, e);
    }
  }

  /** The decimal digits of n, as str(n) writes them within its digit limit. */
  function ShowNat(n: nat): (r: seq<int>)
    ensures |r| > 0
  {
    if n < 10 then ['0' as int + n] else ShowNat(n / 10) + ['0' as int + n % 10]
  }

  /** The absolute value of n. */
  function Abs(n: int): nat
  {
    if n < 0 then -n else n
  }

  /** The numeral of an int: `-` for a negative one, then the digits of its absolute value. */
  function ShowInt(n: int): seq<int>
  {
    if n < 0 then ['-' as int] + ShowNat(-n) else ShowNat(n)
  }

  /** The digits of n are a natural lexeme whose decimal value is n. */
  lemma {:induction false} ShowNatRoundTrip(ucd: Ucd, n: nat)
    requires Consistent(ucd)
    ensures IsNaturalLexeme(ucd, ShowNat(n)) && DecimalValue(ucd, ShowNat(n)) == Some(n)
    ensures n > 0 ==> IsOneNine(ShowNat(n)[0])
  {
    if n >= 10 {
      var s := ShowNat(n / 10);
      ShowNatRoundTrip(ucd, n / 10);
      assert (s + ['0' as int + n % 10])[..|s|] == s;
    }
  }

  /**
   * The numeral of n follows the integer grammar, and int() reads it back
   * as n exactly when it has at most MaxStrDigits digits.
   */
  lemma ShowIntRoundTrip(ucd: Ucd, n: int)
    requires Consistent(ucd)
    ensures IsIntegerLexeme(ucd, ShowInt(n))
    ensures IntValue(ucd, ShowInt(n)) == if |ShowNat(Abs(n))| <= MaxStrDigits then Some(n) else None
  {
    if n < 0 {
      ShowNatRoundTrip(ucd, -n);
      assert ShowInt(n)[1..] == ShowNat(-n);
    } else {
      ShowNatRoundTrip(ucd, n);
    }
  }

  /**
   * A document that is an integer written out reads back as that int, or
   * is a ValueError when it has more than MaxStrDigits digits; the text
   * after the number is ignored unless it would continue the number.
   */
  lemma IntegerDocument(ucd: Ucd, n: int, rest: seq<int>)
    requires Consistent(ucd)
    requires rest == [] || !(ucd.isdigit(rest[0]) || rest[0] == '.' as int || rest[0] == 'e' as int || rest[0] == 'E' as int)
    ensures ParseText(ucd, ShowInt(n) + rest) == if |ShowNat(Abs(n))| <= MaxStrDigits then Ok(Int(n)) else Err(ValueError)
  {
    var s := ShowInt(n);
    var t := s + rest;
    ShowIntRoundTrip(ucd, n);
    assert t[0..|s|] == s;
    assert t[0] == s[0];
    assert WsEnd(t, 0) == 0;
    IntegerAtLexeme(ucd, t, 0, s);
    assert ValueAt(ucd, t, 0) == NumberAt(ucd, t, 0);
  }

  // ---------------------------------------------------------------------
  // Objects and arrays

  /** `{`, whitespace and `}` give an empty dict. */
  lemma EmptyObject(ucd: Ucd, ws: seq<int>, rest: seq<int>)
    requires forall i :: 0 <= i < |ws| ==> IsWs(ws[i])
    ensures ObjectAt(ucd, ['{' as int] + ws + ['}' as int] + rest, 0) == Parsed(Ok(Obj([])), |ws| + 2)
  {
    var t := ['{' as int] + ws + ['}' as int] + rest;
    assert forall i :: 1 <= i < |ws| + 1 ==> t[i] == ws[i - 1];
    WsEndRun(t, 1, |ws| + 1);
  }

  /** `[`, whitespace and `]` give an empty list. */
  lemma EmptyArray(ucd: Ucd, ws: seq<int>, rest: seq<int>)
    requires forall i :: 0 <= i < |ws| ==> IsWs(ws[i])
    ensures ArrayAt(ucd, ['[' as int] + ws + [']' as int] + rest, 0) == Parsed(Ok(Arr([])), |ws| + 2)
  {
    var t := ['[' as int] + ws + [']' as int] + rest;
    assert forall i :: 1 <= i < |ws| + 1 ==> t[i] == ws[i - 1];
    WsEndRun(t, 1, |ws| + 1);
  }

  /** The dict parse_object's loop builds never holds a key twice. */
  lemma {:induction false} MembersDistinct(ucd: Ucd, t: seq<int>, p: nat, acc: seq<Member>)
    requires p <= |t| && Distinct(Keys(acc)) && MembersAt(ucd, t, p, acc).result.Ok?
    ensures MembersAt(ucd, t, p, acc).result.value.Obj?
    ensures Distinct(Keys(MembersAt(ucd, t, p, acc).result.value.members))
    decreases |t| - p
  {
    var k := KeyAt(t, p);
    var v := ElementAt(ucd, t, WsEnd(t, k.pos));
    var acc' := Put(acc, k.result.value, v.result.value);
    PutDistinct(acc, k.result.value, v.result.value);
    var s := SeparatorAt(t, v.pos, '}');
    if s.kind == Comma {
      MembersDistinct(ucd, t, s.pos, acc');
    }
  }

  /** A dict parse_object returns never holds a key twice. */
  lemma ObjectDistinct(ucd: Ucd, t: seq<int>, p: nat)
    requires p < |t| && t[p] == '{' as int && ObjectAt(ucd, t, p).result.Ok?
    ensures ObjectAt(ucd, t, p).result.value.Obj?
    ensures Distinct(Keys(ObjectAt(ucd, t, p).result.value.members))
  {
    var q := WsEnd(t, p + 1);
    if !At(t, q, '}') {
      MembersDistinct(ucd, t, q, []);
    }
  }

  // ---------------------------------------------------------------------
  // Where JSONParseErrors are raised

  /** A JSONParseError in `r`, if any, is raised at `p` or later. */
  predicate RaisedFrom<T>(r: Parsed<T>, p: int)
  {
    r.result.Err? && r.result.error.ParseError? ==> r.result.error.at >= p
  }

  lemma {:induction false} CharsFrom(t: seq<int>, p: nat, buf: seq<int>)
    requires p <= |t| + 1
    ensures RaisedFrom(CharsAt(t, p, buf), p)
    decreases |t| + 1 - p
  {
    if p < |t| && t[p] != '"' as int {
      if t[p] == '\\' as int {
        var e := EscapeAt(t, p);
        if e.result.Ok? {
          CharsFrom(t, e.pos, buf + e.result.value);
        } else if p + 1 < |t| && t[p + 1] == 'u' as int {
          HexAtErrors(t, p + 2, []);
        }
      } else {
        CharsFrom(t, p + 1, buf + [t[p]]);
      }
    }
  }

  lemma KeyFrom(t: seq<int>, p: nat)
    requires p <= |t|
    ensures RaisedFrom(KeyAt(t, p), p)
  {
    CharsFrom(t, WsEnd(t, p) + 1, []);
  }

  lemma {:induction false} ElementFrom(ucd: Ucd, t: seq<int>, p: nat)
    requires p <= |t|
    ensures RaisedFrom(ElementAt(ucd, t, p), p)
    decreases |t| - p, 4
  {
    ValueFrom(ucd, t, WsEnd(t, p));
  }

  lemma {:induction false} ValueFrom(ucd: Ucd, t: seq<int>, p: nat)
    requires p <= |t|
    ensures RaisedFrom(ValueAt(ucd, t, p), p)
    ensures p < |t| && (t[p] == '{' as int || t[p] == '[' as int || t[p] == '"' as int) ==> RaisedFrom(ValueAt(ucd, t, p), p + 1)
    decreases |t| - p, 3
  {
    if p < |t| {
      if t[p] == '{' as int {
        ObjectFrom(ucd, t, p);
      } else if t[p] == '[' as int {
        ArrayFrom(ucd, t, p);
      } else if t[p] == '"' as int {
        CharsFrom(t, p + 1, []);
      }
    }
  }

  lemma {:induction false} ObjectFrom(ucd: Ucd, t: seq<int>, p: nat)
    requires p < |t| && t[p] == '{' as int
    ensures RaisedFrom(ObjectAt(ucd, t, p), p + 1)
    decreases |t| - p, 2
  {
    var q := WsEnd(t, p + 1);
    if !At(t, q, '}') {
      MembersFrom(ucd, t, q, []);
    }
  }

  lemma {:induction false} MembersFrom(ucd: Ucd, t: seq<int>, p: nat, acc: seq<Member>)
    requires p <= |t|
    ensures RaisedFrom(MembersAt(ucd, t, p, acc), p)
    decreases |t| - p, 0
  {
    var k := KeyAt(t, p);
    KeyFrom(t, p);
    if k.result.Ok? {
      var v := ElementAt(ucd, t, WsEnd(t, k.pos));
      ElementFrom(ucd, t, WsEnd(t, k.pos));
      if v.result.Ok? {
        var s := SeparatorAt(t, v.pos, '}');
        if s.kind == Comma {
          MembersFrom(ucd, t, s.pos, Put(acc, k.result.value, v.result.value));
        }
      }
    }
  }

  lemma {:induction false} ArrayFrom(ucd: Ucd, t: seq<int>, p: nat)
    requires p < |t| && t[p] == '[' as int
    ensures RaisedFrom(ArrayAt(ucd, t, p), p + 1)
    decreases |t| - p, 2
  {
    var q := WsEnd(t, p + 1);
    if !At(t, q, ']') {
      ItemsFrom(ucd, t, q, []);
    }
  }

  lemma {:induction false} ItemsFrom(ucd: Ucd, t: seq<int>, p: nat, acc: seq<Value>)
    requires p <= |t|
    ensures RaisedFrom(ItemsAt(ucd, t, p, acc), p)
    decreases |t| - p, 4
  {
    var v := ValueAt(ucd, t, WsEnd(t, p));
    ValueFrom(ucd, t, WsEnd(t, p));
    if v.result.Ok? {
      var s := SeparatorAt(t, v.pos, ']');
      if s.kind == Comma {
        ItemsFrom(ucd, t, s.pos, acc + [v.result.value]);
      }
    }
  }

  /** The characters parse_value dispatches on. */
  predicate StartsValue(ucd: Ucd, c: int)
  {
    c == '{' as int || c == '[' as int || c == '"' as int || c == '-' as int || ucd.isdigit(c)
    || c == 't' as int || c == 'f' as int || c == 'n' as int
  }

  /**
   * parse_value raises "Unexpected character" at the cursor exactly when the
   * character there starts no value.
   */
  lemma UnexpectedCharacterIff(ucd: Ucd, t: seq<int>, p: nat)
    requires p < |t|
    ensures ValueAt(ucd, t, p).result == Err(ParseError(p, UnexpectedCharacter)) <==> !StartsValue(ucd, t[p])
  {
    ValueFrom(ucd, t, p);
  }

  // ---------------------------------------------------------------------
  // Examples

  /** A lone ASCII digit, followed by an ASCII character that cannot continue a number, reads as that digit. */
  lemma OneDigitNumber(ucd: Ucd, t: seq<int>, p: nat)
    requires Consistent(ucd) && p + 1 < |t| && IsAsciiDigit(t[p])
    requires 0 <= t[p + 1] < 128 && !IsAsciiDigit(t[p + 1])
    requires t[p + 1] != '.' as int && t[p + 1] != 'e' as int && t[p + 1] != 'E' as int
    ensures NumberAt(ucd, t, p) == Parsed(Ok(Int(t[p] - '0' as int)), p + 1)
  {
    assert DigitsEnd(ucd, t, p + 1) == p + 1;
    assert t[p..p + 1] == [t[p]];
    assert IntegerAt(ucd, t, p) == Parsed(Ok([t[p]]), p + 1);
    assert ucd.decimal(t[p]) == Some(t[p] - '0' as int);
    assert [t[p]][..0] == [];
    assert DecimalValue(ucd, [t[p]]) == Some(t[p] - '0' as int);
    assert IntValue(ucd, [t[p]]) == Some(t[p] - '0' as int);
  }

  /** `{"a":1,"a":2}` */
  const DUPLICATE: seq<int> := [123, 34, 97, 34, 58, 49, 44, 34, 97, 34, 58, 50, 125]

  lemma DuplicateFirstMember(ucd: Ucd)
    requires Consistent(ucd)
    ensures MembersAt(ucd, DUPLICATE, 1, []) == MembersAt(ucd, DUPLICATE, 7, [Member([97], Int(1))])
  {
    var t := DUPLICATE;
    assert [] + [t[2]] == [97];
    assert CharsAt(t, 2, []) == Parsed(Ok([97]), 4);
    assert KeyAt(t, 1) == Parsed(Ok([97]), 5);
    OneDigitNumber(ucd, t, 5);
    assert ElementAt(ucd, t, 5) == Parsed(Ok(Int(1)), 6);
  }

  lemma DuplicateSecondMember(ucd: Ucd)
    requires Consistent(ucd)
    ensures MembersAt(ucd, DUPLICATE, 7, [Member([97], Int(1))]) == Parsed(Ok(Obj([Member([97], Int(2))])), 13)
  {
    var t := DUPLICATE;
    assert [] + [t[8]] == [97];
    assert CharsAt(t, 8, []) == Parsed(Ok([97]), 10);
    assert KeyAt(t, 7) == Parsed(Ok([97]), 11);
    OneDigitNumber(ucd, t, 11);
    assert ElementAt(ucd, t, 11) == Parsed(Ok(Int(2)), 12);
    assert Put([Member([97], Int(1))], [97], Int(2)) == [Member([97], Int(2))];
  }

  /** A repeated key keeps its first place and its last value. */
  lemma DuplicateKey(ucd: Ucd)
    requires Consistent(ucd)
    ensures ParseText(ucd, DUPLICATE) == Ok(Obj([Member([97], Int(2))]))
  {
    assert DUPLICATE[1] == 34;
    assert WsEnd(DUPLICATE, 1) == 1;
    ObjectLoop(ucd, DUPLICATE, 0);
    DuplicateFirstMember(ucd);
    DuplicateSecondMember(ucd);
  }

  /** `{x":1}`: the opening quote of a key is not checked, so the key is empty. */
  lemma UncheckedQuote(ucd: Ucd)
    requires Consistent(ucd)
    ensures ParseText(ucd, [123, 120, 34, 58, 49, 125]) == Ok(Obj([Member([], Int(1))]))
  {
    var t := [123, 120, 34, 58, 49, 125];
    assert WsEnd(t, 1) == 1;
    ObjectLoop(ucd, t, 0);
    assert KeyAt(t, 1) == Parsed(Ok([]), 4);
    OneDigitNumber(ucd, t, 4);
    assert ElementAt(ucd, t, 4) == Parsed(Ok(Int(1)), 5);
    assert MembersAt(ucd, t, 1, []) == Parsed(Ok(Obj([Member([], Int(1))])), 6);
  }

  /** `{"a" 1}`: a missing `:` raises at the character found instead. */
  lemma MissingColon(ucd: Ucd)
    requires Consistent(ucd)
    ensures ParseText(ucd, [123, 34, 97, 34, 32, 49, 125]) == Err(ParseError(5, ExpectedColon))
  {
    var t := [123, 34, 97, 34, 32, 49, 125];
    assert WsEnd(t, 1) == 1;
    ObjectLoop(ucd, t, 0);
    assert [] + [t[2]] == [97];
    assert CharsAt(t, 2, []) == Parsed(Ok([97]), 4);
    assert KeyAt(t, 1) == Parsed(Err(ParseError(5, ExpectedColon)), 5);
  }

  /** `[1 2]`: a missing `,` raises at the next value. */
  lemma MissingComma(ucd: Ucd)
    requires Consistent(ucd)
    ensures ParseText(ucd, [91, 49, 32, 50, 93]) == Err(ParseError(3, ExpectedCommaOrBracket))
  {
    var t := [91, 49, 32, 50, 93];
    assert WsEnd(t, 1) == 1;
    ArrayLoop(ucd, t, 0);
    OneDigitNumber(ucd, t, 1);
    assert SeparatorAt(t, 2, ']') == Separator(Missing, 3);
  }

  /** `1e}`: an exponent without digits is a lexeme float() refuses. */
  lemma ExponentWithoutDigits(ucd: Ucd)
    requires Consistent(ucd)
    ensures ParseText(ucd, [49, 101, 125]) == Err(ValueError)
  {
    assert NumberAt(ucd, [49, 101, 125], 0) == Parsed(Err(ValueError), 2);
  }

  /** `1e` at the end of the text: parse_sign peeks past the end. */
  lemma ExponentAtEnd(ucd: Ucd)
    requires Consistent(ucd)
    ensures ParseText(ucd, [49, 101]) == Err(EofError)
  {
    assert NumberAt(ucd, [49, 101], 0) == Parsed(Err(EofError), 2);
  }

  /** `1` and a decimal digit from any script, such as `1٣`: int() reads it as ten plus its value. */
  lemma UnicodeDecimalDigit(ucd: Ucd, c: int, v: nat)
    requires Consistent(ucd) && ucd.decimal(c) == Some(v)
    ensures ParseText(ucd, ['1' as int, c]) == Ok(Int(10 + v))
  {
    var t := ['1' as int, c];
    assert ucd.isdigit(c);
    assert DigitsEnd(ucd, t, 1) == 2;
    assert t[0..2] == t;
    assert IntegerAt(ucd, t, 0) == Parsed(Ok(t), 2);
    assert t[..1] == [49] && [49][..0] == [];
    assert DecimalValue(ucd, t[..1]) == Some(1);
    assert IntValue(ucd, t) == Some(10 + v);
    assert WsEnd(t, 0) == 0;
    assert NumberAt(ucd, t, 0) == Parsed(Ok(Int(10 + v)), 2);
    assert ValueAt(ucd, t, 0) == NumberAt(ucd, t, 0);
  }

  /** `1` and a digit that is not decimal, such as `1²`: str.isdigit takes it, int() refuses it. */
  lemma UnicodeNonDecimalDigit(ucd: Ucd, c: int)
    requires Consistent(ucd) && ucd.isdigit(c) && ucd.decimal(c).None?
    ensures ParseText(ucd, ['1' as int, c]) == Err(ValueError)
  {
    var t := ['1' as int, c];
    assert DigitsEnd(ucd, t, 1) == 2;
    assert t[0..2] == t;
    assert IntegerAt(ucd, t, 0) == Parsed(Ok(t), 2);
    assert IntValue(ucd, t) == None;
    assert WsEnd(t, 0) == 0;
    assert NumberAt(ucd, t, 0) == Parsed(Err(ValueError), 2);
    assert ValueAt(ucd, t, 0) == NumberAt(ucd, t, 0);
  }

  /**
   * A document that starts with a digit outside ASCII, such as `٣`:
   * parse_value dispatches it to parse_number, and parse_integer then
   * wants an ASCII digit.
   */
  lemma UnicodeLeadingDigit(ucd: Ucd, c: int)
    requires Consistent(ucd) && ucd.isdigit(c) && !IsAsciiDigit(c)
    ensures ParseText(ucd, [c]) == Err(ParseError(0, ExpectedDigit))
  {
    var t := [c];
    assert !IsWs(c) && c != '-' as int && !IsOneNine(c);
    assert WsEnd(t, 0) == 0;
    assert IntegerAt(ucd, t, 0) == Parsed(Err(ParseError(0, ExpectedDigit)), 0);
    assert NumberAt(ucd, t, 0) == Parsed(Err(ParseError(0, ExpectedDigit)), 0);
    assert ValueAt(ucd, t, 0) == NumberAt(ucd, t, 0);
  }

  /** `1.` and a decimal digit from any script, such as `1.٣`: the fraction takes it and float() reads it. */
  lemma UnicodeFractionDigit(ucd: Ucd, c: int)
    requires Consistent(ucd) && ucd.decimal(c).Some?
    ensures ParseText(ucd, ['1' as int, '.' as int, c]) == Ok(Float(['1' as int, '.' as int, c]))
  {
    var t := ['1' as int, '.' as int, c];
    assert ucd.isdigit(c) && !ucd.isdigit('.' as int);
    assert DigitsEnd(ucd, t, 1) == 1;
    assert t[0..1] == [49];
    assert IntegerAt(ucd, t, 0) == Parsed(Ok([49]), 1);
    assert DigitsEnd(ucd, t, 2) == 3;
    assert t[1..3] == t[1..];
    assert FractionAt(ucd, t, 1) == Parsed(Ok(t[1..]), 3);
    assert [49] + t[1..] + [] == t;
    assert DecimalDigits(ucd, t);
    assert WsEnd(t, 0) == 0;
    assert NumberAt(ucd, t, 0) == Parsed(Ok(Float(t)), 3);
    assert ValueAt(ucd, t, 0) == NumberAt(ucd, t, 0);
  }
}
