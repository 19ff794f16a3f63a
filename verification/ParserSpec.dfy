/**
 The recursive-descent parser of kjson/kjson.c as functions of the current character and of the
 bytes not read yet. The stream's end is one byte past the text, so that last byte (the C string's
 NUL) can be read but nothing behind it.
 */
module ParserSpec {
  import opened Basics
  import opened Table
  import opened ObjectMap
  import opened RawMap
  import opened Hash
  import opened Utf8
  import opened Json
  import opened Grammar

  datatype ParseError =
    | InvalidToken | MissingQuote | TabInString | LineFeedInString | UnexpectedInString | IllegalEscape
    | InvalidHexDigit | MissingExponent | MissingColon | MissingCommaInObject | ExtraComma | UnendedObject
    | MissingCommaInArray | NotABoolean | NotNull | UnparsedRest | TopLevelNotContainer

  /**
   A throw ends in an error value. Undefined covers what C leaves undefined: a read past the stream, integer
   overflow, a power beyond the table of powers, a byte of an empty key, a table that grows past 32 bits.
   */
  datatype Fault = Thrown(error: ParseError) | Undefined

  datatype Outcome<+T> = Ok(value: T, rest: bytes) | Fail(fault: Fault) {
    predicate IsFailure() {
      Fail?
    }

    function PropagateFailure<U>(): Outcome<U>
      requires Fail?
    {
      Fail(fault)
    }

    function Extract(): (T, bytes)
      requires Ok?
    {
      (value, rest)
    }
  }

  // ---------------------------------------------------------------- the stream

  /** string_input_stream_next. */
  function Next(rest: bytes): Outcome<byte> {
    if rest == [] then Fail(Undefined) else Ok(rest[0], rest[1..])
  }

  /** skip_space; 0 at the end of the stream. */
  function SkipSpace(c: byte, rest: bytes): (r: (byte, bytes))
    ensures |r.1| <= |rest|
    decreases |rest|
  {
    if rest == [] then (0, [])
    else if !IsSpace(c) then (c, rest)
    else SkipSpace(rest[0], rest[1..])
  }

  function SkipNext(rest: bytes): (r: Outcome<byte>)
    ensures r.Ok? ==> |r.rest| < |rest|
  {
    var (c, q) :- Next(rest);
    var (d, more) := SkipSpace(c, q);
    Ok(d, more)
  }

  // ---------------------------------------------------------------- strings

  /** The bytes that stop the fast scan of a string. */
  predicate Stops(c: byte) {
    c == QUOTE || c == BACKSLASH || c == TAB || c == LF
  }

  /** skip_unescaped after its first read: the bytes passed over, then the stopping byte. */
  function ScanRaw(c: byte, rest: bytes): (r: (bytes, byte, bytes))
    ensures |r.2| <= |rest|
    decreases |rest|
  {
    if rest == [] || Stops(c) then ([], c, rest)
    else
      var r := ScanRaw(rest[0], rest[1..]);
      ([c] + r.0, r.1, r.2)
  }

  /** One digit of parseUnicode; at the end of the stream the next read goes past it. */
  function PHex(rest: bytes): (r: Outcome<nat>)
    ensures r.Ok? ==> r.value < 16 && 0 < |r.rest| < |rest|
  {
    var (c, q) :- Next(rest);
    if !IsHex(c) then Fail(Thrown(InvalidHexDigit))
    else if q == [] then Fail(Undefined)
    else Ok(HexValue(c), q)
  }

  function PUnicode(rest: bytes): (r: Outcome<bytes>)
    ensures r.Ok? ==> |r.rest| < |rest|
  {
    var (h0, r0) :- PHex(rest);
    var (h1, r1) :- PHex(r0);
    var (h2, r2) :- PHex(r1);
    var (h3, r3) :- PHex(r2);
    Ok(WriteUnicode(h0 * 4096 + h1 * 256 + h2 * 16 + h3), r3)
  }

  /** parseEscape: the bytes one escape adds to the string. */
  function PEscape(c: byte, rest: bytes): (r: Outcome<bytes>)
    ensures r.Ok? ==> |r.rest| <= |rest|
  {
    if c == 117 then PUnicode(rest)
    else
      match Unescape(c)
      case None => Fail(Thrown(IllegalEscape))
      case Some(b) => Ok([b], rest)
  }

  /** The loop of parseString after the first escape. */
  function PTail(c: byte, rest: bytes): (r: Outcome<bytes>)
    ensures r.Ok? ==> |r.rest| <= |rest|
    decreases |rest|
  {
    if rest == [] || c == QUOTE then Ok([], rest)
    else if c == BACKSLASH then
      var e, q0 := rest[0], rest[1..];
      var (escaped, q1) :- PEscape(e, q0);
      var (d, q2) :- Next(q1);
      var (more, q) :- PTail(d, q2);
      Ok(escaped + more, q)
    else
      var d, q0 := rest[0], rest[1..];
      var (more, q) :- PTail(d, q0);
      Ok([c] + more, q)
  }

  function PString(c: byte, rest: bytes): (r: Outcome<Json>)
    ensures r.Ok? ==> |r.rest| < |rest| && (r.value.Str? || r.value.UStr?)
  {
    if c != QUOTE then Fail(Thrown(MissingQuote))
    else
      var (d, q) :- Next(rest);
      var (raw, stop, q0) := ScanRaw(d, q);
      if stop == QUOTE then Ok(Str(raw), q0)
      else if stop == TAB then Fail(Thrown(TabInString))
      else if stop == LF then Fail(Thrown(LineFeedInString))
      else if stop != BACKSLASH then Fail(Thrown(UnexpectedInString))
      else
        var (e, q1) :- Next(q0);
        var (escaped, q2) :- PEscape(e, q1);
        var (f, q3) :- Next(q2);
        var (more, q4) :- PTail(f, q3);
        Ok(UStr(raw + escaped + more), q4)
  }

  // ---------------------------------------------------------------- numbers

  const INT32_MAX := 0x7fff_ffff
  const INT32_MIN := -0x8000_0000
  const INT64_MAX := 0x7fff_ffff_ffff_ffff

  /** A digit loop with an accumulator of bounded width: the value, how many digits, and the byte after them. */
  datatype Digits = Digits(value: nat, count: nat, after: byte)

  function PDigits(c: byte, rest: bytes, val: nat, limit: nat): (r: Outcome<Digits>)
    ensures r.Ok? ==> |r.rest| <= |rest|
    decreases |rest|
  {
    if !IsDigit(c) || rest == [] then Ok(Digits(val, 0, c), rest)
    else
      var v := val * 10 + (c - ZERO);
      if v > limit then Fail(Undefined)
      else
        var (d, q) :- PDigits(rest[0], rest[1..], v, limit);
        Ok(d.(count := d.count + 1), q)
  }

  /** The integer part; a leading zero is not followed by more digits. */
  function PWhole(c: byte, rest: bytes): (r: Outcome<Digits>)
    ensures r.Ok? ==> |r.rest| <= |rest|
  {
    if c == ZERO then
      var (d, q) :- Next(rest);
      Ok(Digits(0, 1, d), q)
    else PDigits(c, rest, 0, INT64_MAX)
  }

  function PFraction(c: byte, rest: bytes, val: nat): (r: Outcome<Digits>)
    ensures r.Ok? ==> |r.rest| <= |rest|
  {
    if c != DOT then Ok(Digits(val, 0, c), rest)
    else
      var (d, q) :- Next(rest);
      PDigits(d, q, val, INT64_MAX)
  }

  /** The exponent. The sign is looked for in the character after it, where a digit stands, and so never seen. */
  function PExponent(c: byte, rest: bytes): (r: Outcome<(int, byte)>)
    ensures r.Ok? ==> |r.rest| <= |rest|
  {
    if c != 101 && c != 69 then Ok((0, c), rest)
    else
      var (d, q) :- Next(rest);
      var signed := d == PLUS || d == MINUS;
      var (e, q1) :- if signed then Next(q) else Ok(d, q);
      var negative := signed && e == MINUS;
      if !IsDigit(e) then Fail(Thrown(MissingExponent))
      else
        var (x, q2) :- PDigits(e, q1, 0, INT32_MAX);
        Ok((if negative then -(x.value as int) else x.value, x.after), q2)
  }

  /** JSONInt_new. */
  function NewInt(n: int): Json {
    if n > INT32_MAX || n < INT32_MIN then Int64(n) else Int32(n)
  }

  /** The conversion to double; the table of powers ends at 10^307. */
  function NewDouble(negative: bool, mantissa: nat, exponent: int): Option<Json> {
    if exponent < -308 then Some(Infinity(!negative))
    else if -308 < exponent < 308 then Some(Double(negative, mantissa, exponent))
    else None
  }

  function PNumber(c: byte, rest: bytes): (r: Outcome<Json>)
    ensures r.Ok? ==> |r.rest| <= |rest| + 1
  {
    var (c0, q0) :- if c == MINUS then Next(rest) else Ok(c, rest);
    var (whole, q1) :- PWhole(c0, q0);
    var (digits, q2) :- PFraction(whole.after, q1, whole.value);
    var (exponent, q3) :- PExponent(digits.after, q2);
    var isDouble := whole.after == DOT || digits.after == 101 || digits.after == 69;
    var unread := [exponent.1] + q3;
    if !isDouble then
      Ok(NewInt(if c == MINUS then -(digits.value as int) else digits.value), unread)
    else if digits.count > INT32_MAX then Fail(Undefined)
    else
      match NewDouble(c == MINUS, digits.value, exponent.0 - digits.count)
      case None => Fail(Undefined)
      case Some(j) => Ok(j, unread)
  }

  // ---------------------------------------------------------------- literals

  /**
   parseBoolean looks only at what follows the first letter. The test for three letters loads four bytes,
   so with exactly three left it reads past the stream.
   */
  function PBool(rest: bytes): (r: Outcome<Json>)
    ensures r.Ok? ==> |r.rest| <= |rest|
  {
    if |rest| == 3 then Fail(Undefined)
    else if |rest| >= 4 && rest[..3] == TRUE[1..] then Ok(Bool(true), rest[3..])
    else if |rest| >= 4 && rest[..4] == FALSE[1..] then Ok(Bool(false), rest[4..])
    else Fail(Thrown(NotABoolean))
  }

  function PNull(rest: bytes): (r: Outcome<Json>)
    ensures r.Ok? ==> |r.rest| <= |rest|
  {
    if |rest| == 3 then Fail(Undefined)
    else if |rest| >= 4 && rest[..3] == NULL[1..] then Ok(Null, rest[3..])
    else Fail(Thrown(NotNull))
  }

  // ---------------------------------------------------------------- containers

  /**
   The comparison of a new key with the stored ones reads a byte that is not there: the first one of an empty
   key, which happens when an empty key is stored already.
   */
  predicate EmptyAgain(slots: seq<Slot<Member>>, text: bytes) {
    text == [] && exists p :: 0 <= p < |slots| && slots[p].Used? && slots[p].key == MakeKey([])
  }

  /** _JSONObject_set, if it has a well-defined end. */
  function SetMember(r: Raw<Member>, pair: (bytes, Json)): (o: Option<Raw<Member>>)
    requires Shape(r)
    ensures o.Some? ==> Shape(o.value)
  {
    var (text, val) := pair;
    if EmptyAgain(r.slots, text) then None
    else
      var (u, st) := RawSet(r, MakeKey(text), Member(text, val));
      if st == Exhausted || st == Crashed then None else Some(u)
  }

  /** Key and value pairs are popped in reverse and set one after the other. */
  function Make(r: Raw<Member>, pairs: seq<(bytes, Json)>): (o: Option<Raw<Member>>)
    requires Shape(r)
    ensures o.Some? ==> Shape(o.value)
    decreases |pairs|
  {
    if pairs == [] then Some(r)
    else
      match SetMember(r, pairs[|pairs| - 1])
      case None => None
      case Some(u) => Make(u, pairs[..|pairs| - 1])
  }

  /** The map that JSONObject_new starts with. */
  function NewMap(size: nat): (r: Raw<Member>)
    ensures Shape(r)
  {
    Lift(InitMap(size))
  }

  function NewObject(pairs: seq<(bytes, Json)>, rest: bytes): (r: Outcome<Json>)
    ensures r.Ok? ==> r.rest == rest
  {
    match Make(NewMap(|pairs|), pairs)
    case None => Fail(Undefined)
    case Some(m) => Ok(Obj(m), rest)
  }

  /** What parseChild dispatches on: the low three bits of the character's table entry. */
  datatype Kind = KNothing | KObject | KString | KArray | KNumber | KBoolean | KNull

  function KindOf(c: byte): Kind {
    if c == LBRACE then KObject
    else if c == QUOTE then KString
    else if c == LBRACKET then KArray
    else if c == MINUS || IsDigit(c) then KNumber
    else if c == 102 || c == 116 then KBoolean
    else if c == 110 then KNull
    else KNothing
  }

  function PChild(c: byte, rest: bytes): (r: Outcome<Json>)
    ensures r.Ok? ==> |r.rest| <= |rest| + 1
    decreases |rest|, 3
  {
    var (d, q) := SkipSpace(c, rest);
    match KindOf(d)
    case KNothing => Fail(Thrown(InvalidToken))
    case KObject => PObject(q)
    case KString => PString(d, q)
    case KArray => PArray(q)
    case KNumber => PNumber(d, q)
    case KBoolean => PBool(q)
    case KNull => PNull(q)
  }

  function PObject(rest: bytes): (r: Outcome<Json>)
    ensures r.Ok? ==> |r.rest| <= |rest|
    decreases |rest|, 2
  {
    var (c, q) :- SkipNext(rest);
    var (pairs, q1) :- PMembers(c, q, []);
    NewObject(pairs, q1)
  }

  /** The loop of parseObject; acc holds the pairs pushed so far. */
  function PMembers(c: byte, rest: bytes, acc: seq<(bytes, Json)>): (r: Outcome<seq<(bytes, Json)>>)
    ensures r.Ok? ==> |r.rest| <= |rest|
    decreases |rest|, 1
  {
    if rest == [] || c == RBRACE then Ok(acc, rest)
    else if c != QUOTE then Fail(Thrown(MissingQuote))
    else
      var (key, q0) :- PString(c, rest);
      var (colon, q1) :- SkipNext(q0);
      if colon != COLON then Fail(Thrown(MissingColon))
      else
        var (d, q2) :- Next(q1);
        var (val, q3) :- PChild(d, q2);
        var (sep, q4) :- SkipNext(q3);
        var pairs := acc + [(key.text, val)];
        if sep == RBRACE then Ok(pairs, q4)
        else if sep != COMMA then Fail(Thrown(MissingCommaInObject))
        else
          var (e, q5) :- Next(q4);
          if e == RBRACE then Fail(Thrown(ExtraComma))
          else if q5 == [] then Fail(Thrown(UnendedObject))
          else
            var (f, q6) := SkipSpace(e, q5);
            PMembers(f, q6, pairs)
  }

  function PArray(rest: bytes): (r: Outcome<Json>)
    ensures r.Ok? ==> |r.rest| <= |rest|
    decreases |rest|, 2
  {
    var (c, q) :- SkipNext(rest);
    if c == RBRACKET then Ok(Arr([]), q)
    else
      var (items, q1) :- PElems(c, q, []);
      Ok(Arr(items), q1)
  }

  /** The loop of parseArray. */
  function PElems(c: byte, rest: bytes, acc: seq<Json>): (r: Outcome<seq<Json>>)
    ensures r.Ok? ==> |r.rest| <= |rest|
    decreases |rest|, 4
  {
    if rest == [] then Ok(acc, rest)
    else
      var (val, q0) :- PChild(c, rest);
      var (sep, q1) :- SkipNext(q0);
      if sep == RBRACKET then Ok(acc + [val], q1)
      else if sep != COMMA then Fail(Thrown(MissingCommaInArray))
      else
        var (d, q2) :- SkipNext(q1);
        PElems(d, q2, acc + [val])
  }

  /** parse, followed by the check on the type of the top value that the RFC 4627 mode makes. */
  function ParseText(buffer: bytes): Outcome<Json> {
    var (c, q) :- Next(buffer);
    var (d, q0) := SkipSpace(c, q);
    if d == 0 then Fail(Thrown(TopLevelNotContainer))
    else
      var (json, q1) :- PChild(d, q0);
      var (e, q2) :- if q1 == [] then Ok(0, q1) else SkipNext(q1);
      if e != 0 then Fail(Thrown(UnparsedRest))
      else if !json.Obj? && !json.Arr? then Fail(Thrown(TopLevelNotContainer))
      else Ok(json, q2)
  }
}
