/** The parser over an input stream whose position and value stack are updated in place, proved against ParserSpec. */
module Parser {
  import opened Basics
  import opened Table
  import opened RawMap
  import KMap
  import opened Hash
  import opened Utf8
  import opened Json
  import opened Grammar
  import opened Builder
  import Printer
  import Spec = ParserSpec
  import opened ParserSpec
  import opened StringProofs
  import opened Objects

  /** What a parse function returns, a throw being a failure. */
  datatype Result<+T> = Good(value: T) | Bad(fault: Fault) {
    predicate IsFailure() {
      Bad?
    }

    function PropagateFailure<U>(): Result<U>
      requires Bad?
    {
      Bad(fault)
    }

    function Extract(): T
      requires Good?
    {
      value
    }
  }

  /** The result and the bytes left unread are what the specification says. */
  ghost predicate Agrees<T>(r: Result<T>, rest: bytes, o: Outcome<T>) {
    match o
    case Ok(v, q) => r == Good(v) && rest == q
    case Fail(f) => r == Bad(f)
  }

  lemma {:induction false} Split(s: bytes, i: nat)
    requires i < |s|
    ensures s[i..] != [] && s[i..][0] == s[i] && s[i..][1..] == s[i + 1..]
  {}

  lemma {:induction false} Slices(s: bytes, i: nat)
    requires i + 3 <= |s|
    ensures s[i..][..3] == s[i..i + 3] && s[i..][3..] == s[i + 3..]
    ensures i + 4 <= |s| ==> s[i..][..4] == s[i..i + 4] && s[i..][4..] == s[i + 4..] && s[i..i + 4][..3] == s[i..i + 3]
  {}

  lemma {:induction false} Longer(s: bytes, i: nat, j: nat)
    requires i < j <= |s|
    ensures s[i..j] == s[i..j - 1] + [s[j - 1]]
  {}

  // ---------------------------------------------------------------- one turn of each loop

  function PElem(c: byte, rest: bytes): Outcome<(Json, Option<byte>)> {
    var (val, q0) :- PChild(c, rest);
    var (sep, q1) :- Spec.SkipNext(q0);
    if sep == RBRACKET then Ok((val, None), q1)
    else if sep != COMMA then Fail(Thrown(MissingCommaInArray))
    else
      var (d, q2) :- Spec.SkipNext(q1);
      Ok((val, Some(d)), q2)
  }

  lemma {:induction false} ElemTurnIs(c: byte, rest: bytes, acc: seq<Json>)
    requires rest != []
    ensures PElems(c, rest, acc) ==
      match PElem(c, rest)
      case Fail(f) => Fail(f)
      case Ok(e, q) => if e.1 == None then Ok(acc + [e.0], q) else PElems(e.1.value, q, acc + [e.0])
  {}

  function PMemberEnd(rest: bytes): Outcome<Option<byte>> {
    var (sep, q4) :- Spec.SkipNext(rest);
    if sep == RBRACE then Ok(None, q4)
    else if sep != COMMA then Fail(Thrown(MissingCommaInObject))
    else
      var (e, q5) :- Spec.Next(q4);
      if e == RBRACE then Fail(Thrown(ExtraComma))
      else if q5 == [] then Fail(Thrown(UnendedObject))
      else
        var (f, q6) := Spec.SkipSpace(e, q5);
        Ok(Some(f), q6)
  }

  function PMember(c: byte, rest: bytes): Outcome<((bytes, Json), Option<byte>)> {
    if c != QUOTE then Fail(Thrown(MissingQuote))
    else
      var (key, q0) :- PString(c, rest);
      var (colon, q1) :- Spec.SkipNext(q0);
      if colon != COLON then Fail(Thrown(MissingColon))
      else
        var (d, q2) :- Spec.Next(q1);
        var (val, q3) :- PChild(d, q2);
        var (end, q4) :- PMemberEnd(q3);
        Ok(((key.text, val), end), q4)
  }

  lemma {:induction false} MemberTurnIs(c: byte, rest: bytes, acc: seq<(bytes, Json)>)
    requires rest != [] && c != RBRACE
    ensures PMembers(c, rest, acc) ==
      match PMember(c, rest)
      case Fail(f) => Fail(f)
      case Ok(e, q) => if e.1 == None then Ok(acc + [e.0], q) else PMembers(e.1.value, q, acc + [e.0])
  {}

  // ---------------------------------------------------------------- pairs on the stack

  ghost predicate IsKey(key: Json, text: bytes) {
    (key.Str? || key.UStr?) && key.text == text
  }

  /** The values pushed are the keys and values of these pairs, in turn. */
  ghost predicate Holds(pushed: seq<Json>, pairs: seq<(bytes, Json)>) {
    && |pushed| == 2 * |pairs|
    && forall i :: 0 <= i < |pairs| ==> IsKey(pushed[2 * i], pairs[i].0) && pushed[2 * i + 1] == pairs[i].1
  }

  lemma {:induction false} HoldsLast(pushed: seq<Json>, pairs: seq<(bytes, Json)>)
    requires Holds(pushed, pairs) && pairs != []
    ensures var n := |pairs| - 1;
      |pushed| == 2 * n + 2 && IsKey(pushed[2 * n], pairs[n].0) && pushed[2 * n + 1] == pairs[n].1
    ensures Holds(pushed[..|pushed| - 2], pairs[..|pairs| - 1])
  {}

  lemma {:induction false} HoldsMore(pushed: seq<Json>, pairs: seq<(bytes, Json)>, key: Json, pair: (bytes, Json))
    requires Holds(pushed, pairs) && IsKey(key, pair.0)
    ensures Holds(pushed + [key, pair.1], pairs + [pair])
  {}

  // ---------------------------------------------------------------- parts of the specification

  /** The digit loop with outcome o has counted n digits and goes on with c and rest. */
  ghost predicate DigitsFrom(o: Outcome<Digits>, n: nat, c: byte, rest: bytes, val: nat, limit: nat) {
    o ==
      match PDigits(c, rest, val, limit)
      case Ok(d, q) => Ok(d.(count := d.count + n), q)
      case Fail(f) => Fail(f)
  }

  lemma {:induction false} DigitsStart(o: Outcome<Digits>, c: byte, rest: bytes, val: nat, limit: nat)
    requires o == PDigits(c, rest, val, limit)
    ensures DigitsFrom(o, 0, c, rest, val, limit)
  {}

  lemma {:induction false} DigitsGoOn(o: Outcome<Digits>, n: nat, c: byte, rest: bytes, val: nat, limit: nat)
    requires DigitsFrom(o, n, c, rest, val, limit) && IsDigit(c) && rest != []
    ensures
      var v := val * 10 + (c - ZERO);
      if v > limit then o == Fail(Undefined) else DigitsFrom(o, n + 1, rest[0], rest[1..], v, limit)
  {}

  /** The integer and fraction parts together. */
  function PMantissa(c: byte, rest: bytes): Outcome<(Digits, bool)> {
    var (whole, q1) :- PWhole(c, rest);
    var (digits, q2) :- PFraction(whole.after, q1, whole.value);
    Ok((digits, whole.after == DOT), q2)
  }

  /** The value made of the digits and the exponent. */
  function NumberJson(negative: bool, m: Digits, point: bool, exponent: int): Option<Json> {
    if !(point || m.after == 101 || m.after == 69) then Some(NewInt(if negative then -(m.value as int) else m.value))
    else if m.count > INT32_MAX then None
    else NewDouble(negative, m.value, exponent - m.count)
  }

  function PUnsigned(negative: bool, c: byte, rest: bytes): Outcome<Json> {
    var (m, q1) :- PMantissa(c, rest);
    var (x, q2) :- PExponent(m.0.after, q1);
    match NumberJson(negative, m.0, m.1, x.0)
    case None => Fail(Undefined)
    case Some(j) => Ok(j, [x.1] + q2)
  }

  lemma {:induction false} NumberInParts(c: byte, rest: bytes)
    ensures PNumber(c, rest) ==
      match (if c == MINUS then Spec.Next(rest) else Ok(c, rest))
      case Fail(f) => Fail(f)
      case Ok(d, q) => PUnsigned(c == MINUS, d, q)
  {}

  function PCode(rest: bytes): Outcome<nat> {
    var (h0, r0) :- PHex(rest);
    var (h1, r1) :- PHex(r0);
    var (h2, r2) :- PHex(r1);
    var (h3, r3) :- PHex(r2);
    Ok(h0 * 4096 + h1 * 256 + h2 * 16 + h3, r3)
  }

  lemma {:induction false} CodeIsUnicode(rest: bytes)
    ensures PEscape(117, rest) ==
      match PCode(rest)
      case Fail(f) => Fail(f)
      case Ok(code, q) => Ok(WriteUnicode(code), q)
  {}

  /** What the escapes of a string and the bytes after the first one add. */
  function PEscapes(rest: bytes): Outcome<bytes> {
    var (e, q1) :- Spec.Next(rest);
    var (escaped, q2) :- PEscape(e, q1);
    var (f, q3) :- Spec.Next(q2);
    var (more, q4) :- PTail(f, q3);
    Ok(escaped + more, q4)
  }

  /** parseString from the first escape on. */
  function PSlow(raw: bytes, rest: bytes): Outcome<Json> {
    var (more, q) :- PEscapes(rest);
    Ok(UStr(raw + more), q)
  }

  lemma {:induction false} StringInParts(c: byte, rest: bytes)
    requires c == QUOTE && rest != []
    ensures PString(c, rest) ==
      var (raw, stop, q) := ScanRaw(rest[0], rest[1..]);
      if stop == QUOTE then Ok(Str(raw), q)
      else if stop == TAB then Fail(Thrown(TabInString))
      else if stop == LF then Fail(Thrown(LineFeedInString))
      else if stop != BACKSLASH then Fail(Thrown(UnexpectedInString))
      else PSlow(raw, q)
  {
    var (raw, _, q) := ScanRaw(rest[0], rest[1..]);
    if q != [] && PEscape(q[0], q[1..]).Ok? && PEscape(q[0], q[1..]).rest != [] {
      var escape := PEscape(q[0], q[1..]);
      var o := PTail(escape.rest[0], escape.rest[1..]);
      if o.Ok? { Prepend(raw, escape.value, o); }
    }
  }

  /** One turn of the loop appends piece and goes on with d and q. */
  ghost predicate Turn(c: byte, rest: bytes, piece: bytes, d: byte, q: bytes) {
    && rest != []
    && if c == BACKSLASH then
         PEscape(rest[0], rest[1..]).Ok? && piece == PEscape(rest[0], rest[1..]).value
         && Spec.Next(PEscape(rest[0], rest[1..]).rest) == Ok(d, q)
       else piece == [c] && Spec.Next(rest) == Ok(d, q)
  }

  /** After done has been passed over, the rest of the scan runs from c and rest. */
  ghost predicate ScanFrom(first: byte, all: bytes, done: bytes, c: byte, rest: bytes) {
    var s := ScanRaw(c, rest);
    ScanRaw(first, all) == (done + s.0, s.1, s.2)
  }

  lemma {:induction false} ScanStarts(first: byte, all: bytes)
    ensures ScanFrom(first, all, [], first, all)
  {
    assert [] + ScanRaw(first, all).0 == ScanRaw(first, all).0;
  }

  lemma {:induction false} ScanGoesOn(first: byte, all: bytes, done: bytes, c: byte, rest: bytes)
    requires ScanFrom(first, all, done, c, rest) && rest != [] && !Stops(c)
    ensures ScanFrom(first, all, done + [c], rest[0], rest[1..])
  {
    var s := ScanRaw(rest[0], rest[1..]);
    assert done + ([c] + s.0) == (done + [c]) + s.0;
  }

  lemma {:induction false} ScanEnds(first: byte, all: bytes, done: bytes, c: byte, rest: bytes)
    requires ScanFrom(first, all, done, c, rest) && (rest == [] || Stops(c))
    ensures ScanRaw(first, all) == (done, c, rest)
  {
    assert done + [] == done;
  }

  /** After done has been appended, the rest of the loop runs from c and rest. */
  ghost predicate TailFrom(first: byte, all: bytes, done: bytes, c: byte, rest: bytes) {
    PTail(first, all) ==
      match PTail(c, rest)
      case Ok(more, q) => Ok(done + more, q)
      case Fail(f) => Fail(f)
  }

  lemma {:induction false} TailEnds(first: byte, all: bytes, done: bytes, c: byte, rest: bytes)
    requires TailFrom(first, all, done, c, rest) && (rest == [] || c == QUOTE)
    ensures PTail(first, all) == Ok(done, rest)
  {
    assert done + [] == done;
  }

  lemma {:induction false} TailStarts(first: byte, all: bytes)
    ensures TailFrom(first, all, [], first, all)
  {
    match PTail(first, all) {
      case Ok(more, _) => assert [] + more == more;
      case Fail(_) =>
    }
  }

  lemma {:induction false} PlainStep(c: byte, rest: bytes)
    requires rest != [] && c != QUOTE && c != BACKSLASH
    ensures PTail(c, rest) ==
      match PTail(rest[0], rest[1..])
      case Fail(f) => Fail(f)
      case Ok(more, q) => Ok([c] + more, q)
  {}

  lemma {:induction false} Prepend(was: bytes, step: bytes, o: Outcome<bytes>)
    requires o.Ok?
    ensures was + (step + o.value) == (was + step) + o.value
  {}

  lemma {:induction false} TailGoesOn(first: byte, all: bytes, done: bytes, c: byte, rest: bytes,
                                      piece: bytes, next: Result<byte>, q: bytes)
    requires TailFrom(first, all, done, c, rest) && c != QUOTE
    requires if next.Good? then Turn(c, rest, piece, next.value, q) else PTail(c, rest) == Fail(next.fault)
    ensures if next.Good? then TailFrom(first, all, done + piece, next.value, q)
            else PTail(first, all) == Fail(next.fault)
  {
    if next.Good? {
      if c == BACKSLASH { TailStep(rest); } else { PlainStep(c, rest); }
      var o := PTail(next.value, q);
      if o.Ok? { Prepend(done, piece, o); }
    }
  }

  // ---------------------------------------------------------------- the stream

  class InputStream {
    const buffer: bytes
    var pos: nat
    var stack: seq<Json>

    ghost predicate Valid()
      reads this
    {
      pos <= |buffer|
    }

    /** The bytes not read yet. */
    ghost function Rest(): bytes
      reads this
      requires Valid()
    {
      buffer[pos..]
    }

    /** The stream over a text and the byte behind it. */
    constructor (text: bytes, last: byte)
      ensures Valid() && Rest() == text + [last] && stack == []
    {
      buffer := text + [last];
      pos := 0;
      stack := [];
    }

    /** c is the character read last, or the 0 that stands for the end. */
    ghost predicate Current(c: byte)
      reads this
      requires Valid()
    {
      c == 0 || (0 < pos && c == buffer[pos - 1])
    }

    // -------------------------------------------------------------- characters

    /** string_input_stream_next. */
    method Next() returns (r: Result<byte>)
      requires Valid()
      modifies `pos
      ensures Valid() && Agrees(r, Rest(), Spec.Next(old(Rest())))
      ensures r.Good? ==> pos == old(pos) + 1 && Current(r.value)
    {
      if pos == |buffer| {
        return Bad(Undefined);
      }
      r := Good(buffer[pos]);
      pos := pos + 1;
    }

    /** skip_space. */
    method SkipSpace(c: byte) returns (d: byte)
      requires Valid() && Current(c)
      modifies `pos
      ensures Valid() && Current(d) && (d, Rest()) == Spec.SkipSpace(c, old(Rest())) && pos >= old(pos)
    {
      d := c;
      while pos != |buffer|
        invariant Valid() && Current(d) && pos >= old(pos)
        invariant Spec.SkipSpace(c, old(Rest())) == Spec.SkipSpace(d, Rest())
        decreases |buffer| - pos
      {
        if !IsSpace(d) {
          return;
        }
        d := buffer[pos];
        pos := pos + 1;
      }
      d := 0;
    }

    method SkipNext() returns (r: Result<byte>)
      requires Valid()
      modifies `pos
      ensures Valid() && Agrees(r, Rest(), Spec.SkipNext(old(Rest())))
      ensures r.Good? ==> pos > old(pos) && Current(r.value)
    {
      var c :- Next();
      var d := SkipSpace(c);
      r := Good(d);
    }

    // -------------------------------------------------------------- strings

    /** skip_unescaped: the byte that stops the scan; the bytes before it are those from the old position on. */
    method SkipUnescaped() returns (r: Result<byte>)
      requires Valid()
      modifies `pos
      ensures Valid()
      ensures match Spec.Next(old(Rest()))
        case Fail(f) => r == Bad(f)
        case Ok(d, q) => r.Good? && pos > old(pos) && (buffer[old(pos)..pos - 1], r.value, Rest()) == ScanRaw(d, q)
    {
      var start := pos;
      var c :- Next();
      ghost var first, q := c, Rest();
      assert buffer[start..pos - 1] == [];
      ScanStarts(first, q);
      while pos != |buffer|
        invariant start < pos <= |buffer| && c == buffer[pos - 1]
        invariant ScanFrom(first, q, buffer[start..pos - 1], c, Rest())
        decreases |buffer| - pos
      {
        if Stops(c) {
          break;
        }
        ScanGoesOn(first, q, buffer[start..pos - 1], c, Rest());
        Split(buffer, pos);
        Longer(buffer, start, pos);
        c := buffer[pos];
        pos := pos + 1;
      }
      ScanEnds(first, q, buffer[start..pos - 1], c, Rest());
      r := Good(c);
    }

    /** toHex on the next character; at the end of the stream the read after it goes past it. */
    method ParseHex() returns (r: Result<nat>)
      requires Valid()
      modifies `pos
      ensures Valid() && Agrees(r, Rest(), PHex(old(Rest())))
      ensures r.Good? ==> pos > old(pos) && r.value < 16
    {
      var c :- Next();
      if !IsHex(c) {
        return Bad(Thrown(InvalidHexDigit));
      }
      if pos == |buffer| {
        return Bad(Undefined);
      }
      r := Good(HexValue(c));
    }

    /** The four digits of parseUnicode. */
    method ParseCode() returns (r: Result<nat>)
      requires Valid()
      modifies `pos
      ensures Valid() && Agrees(r, Rest(), PCode(old(Rest())))
      ensures r.Good? ==> pos > old(pos) && r.value < 0x1_0000
    {
      var h0 :- ParseHex();
      var h1 :- ParseHex();
      var h2 :- ParseHex();
      var h3 :- ParseHex();
      r := Good(h0 * 4096 + h1 * 256 + h2 * 16 + h3);
    }

    /** parseEscape and parseUnicode: the escape's bytes are appended to the builder. */
    method ParseEscape(sb: StringBuilder, c: byte) returns (r: Result<()>)
      requires Valid() && sb.Valid()
      modifies `pos, sb, sb.list
      ensures Valid() && sb.Valid() && (sb.list == old(sb.list) || fresh(sb.list))
      ensures match PEscape(c, old(Rest()))
        case Fail(f) => r == Bad(f)
        case Ok(e, q) => r.Good? && Rest() == q && sb.Contents() == old(sb.Contents()) + e && pos >= old(pos)
    {
      if c == 117 {
        CodeIsUnicode(Rest());
        var code :- ParseCode();
        Printer.AddUnicode(sb, code);
        return Good(());
      }
      match Unescape(c) {
        case None => return Bad(Thrown(IllegalEscape));
        case Some(b) =>
          sb.Add(b);
          return Good(());
      }
    }

    /** One turn of that loop: what it appends, and the next character. */
    method TailTurn(sb: StringBuilder, c: byte) returns (r: Result<byte>, ghost piece: bytes)
      requires Valid() && sb.Valid() && pos < |buffer| && c != QUOTE
      modifies `pos, sb, sb.list
      ensures Valid() && sb.Valid() && (sb.list == old(sb.list) || fresh(sb.list))
      ensures r.Bad? ==> PTail(c, old(Rest())) == Fail(r.fault)
      ensures r.Good? ==> pos > old(pos) && Turn(c, old(Rest()), piece, r.value, Rest())
      ensures r.Good? ==> sb.Contents() == old(sb.Contents()) + piece
    {
      piece := [];
      if c == BACKSLASH {
        TailStep(Rest());
        var e := buffer[pos];
        pos := pos + 1;
        piece := if PEscape(e, Rest()).Ok? then PEscape(e, Rest()).value else [];
        var u :- ParseEscape(sb, e);
      } else {
        PlainStep(c, Rest());
        sb.Add(c);
        piece := [c];
      }
      r := Next();
    }

    /** The loop of parseString after the first escape. */
    method ParseTail(sb: StringBuilder, first: byte) returns (r: Result<()>)
      requires Valid() && sb.Valid()
      modifies `pos, sb, sb.list
      ensures Valid() && sb.Valid() && (sb.list == old(sb.list) || fresh(sb.list))
      ensures match PTail(first, old(Rest()))
        case Fail(f) => r == Bad(f)
        case Ok(e, q) => r.Good? && Rest() == q && sb.Contents() == old(sb.Contents()) + e && pos >= old(pos)
    {
      var c := first;
      ghost var all, done, base := Rest(), [], sb.Contents();
      TailStarts(first, all);
      while pos != |buffer| && c != QUOTE
        invariant Valid() && sb.Valid() && (sb.list == old(sb.list) || fresh(sb.list)) && pos >= old(pos)
        invariant sb.Contents() == base + done && TailFrom(first, all, done, c, Rest())
        decreases |buffer| - pos
      {
        ghost var c0, rest, piece := c, Rest(), [];
        var next;
        next, piece := TailTurn(sb, c);
        TailGoesOn(first, all, done, c0, rest, piece, next, Rest());
        if next.Bad? {
          return Bad(next.fault);
        }
        Assoc(base, done, piece);
        c, done := next.value, done + piece;
      }
      TailEnds(first, all, done, c, Rest());
      r := Good(());
    }

    /** The first escape and the loop after it. */
    method ParseEscapes(sb: StringBuilder) returns (r: Result<()>, ghost added: bytes)
      requires Valid() && sb.Valid()
      modifies `pos, sb, sb.list
      ensures Valid() && sb.Valid() && (sb.list == old(sb.list) || fresh(sb.list))
      ensures Agrees(if r.Good? then Good(added) else Bad(r.fault), Rest(), PEscapes(old(Rest())))
      ensures r.Good? ==> sb.Contents() == old(sb.Contents()) + added && pos > old(pos)
    {
      ghost var base := sb.Contents();
      added := [];
      var e := Next();
      if e.Bad? {
        return Bad(e.fault), [];
      }
      ghost var escape := PEscape(e.value, Rest());
      r := ParseEscape(sb, e.value);
      if r.Bad? {
        return;
      }
      var d := Next();
      if d.Bad? {
        return Bad(d.fault), [];
      }
      ghost var tail := PTail(d.value, Rest());
      r := ParseTail(sb, d.value);
      if r.Good? {
        added := escape.value + tail.value;
        Prepend(base, escape.value, tail);
      }
    }

    /** JSONUString_new: the builder's bytes without the NUL that ends them. */
    static method NewUString(sb: StringBuilder) returns (j: Json)
      requires sb.Valid()
      modifies sb, sb.list
      ensures j == UStr(old(sb.Contents()))
    {
      var s, len := sb.ToString();
      var all := s[..len];
      j := UStr(all[..len - 1]);
    }

    /** parseString from the first escape on; raw is what stands before it. */
    method ParseEscaped(raw: bytes) returns (r: Result<Json>)
      requires Valid()
      modifies `pos
      ensures Valid() && Agrees(r, Rest(), PSlow(raw, old(Rest())))
      ensures r.Good? ==> pos > old(pos) && r.value.UStr?
    {
      var sb := new StringBuilder();
      sb.AddString(raw);
      assert sb.Contents() == raw;
      ghost var added;
      var u;
      u, added := ParseEscapes(sb);
      if u.Bad? {
        return Bad(u.fault);
      }
      var j := NewUString(sb);
      r := Good(j);
    }

    /** parseString. */
    method ParseString(c: byte) returns (r: Result<Json>)
      requires Valid()
      modifies `pos
      ensures Valid() && Agrees(r, Rest(), PString(c, old(Rest())))
      ensures r.Good? ==> pos > old(pos) && (r.value.Str? || r.value.UStr?)
    {
      if c != QUOTE {
        return Bad(Thrown(MissingQuote));
      }
      if pos < |buffer| {
        StringInParts(c, Rest());
      }
      var start := pos;
      var stop :- SkipUnescaped();
      var raw := buffer[start..pos - 1];
      if stop == QUOTE {
        return Good(Str(raw));
      }
      if stop == TAB {
        return Bad(Thrown(TabInString));
      }
      if stop == LF {
        return Bad(Thrown(LineFeedInString));
      }
      if stop != BACKSLASH {
        return Bad(Thrown(UnexpectedInString));
      }
      r := ParseEscaped(raw);
    }

    // -------------------------------------------------------------- numbers

    /** A digit loop: c is the character read last, and so is the one returned. */
    method ParseDigits(c: byte, val: nat, limit: nat) returns (r: Result<Digits>)
      requires Valid() && 0 < pos && c == buffer[pos - 1]
      modifies `pos
      ensures Valid() && Agrees(r, Rest(), PDigits(c, old(Rest()), val, limit))
      ensures r.Good? ==> pos >= old(pos) && r.value.after == buffer[pos - 1]
    {
      ghost var start, o := pos, PDigits(c, Rest(), val, limit);
      var d, v: nat, n: nat := c, val, 0;
      DigitsStart(o, d, Rest(), v, limit);
      while IsDigit(d) && pos != |buffer|
        invariant start <= pos <= |buffer| && d == buffer[pos - 1] && DigitsFrom(o, n, d, Rest(), v, limit)
        decreases |buffer| - pos
      {
        DigitsGoOn(o, n, d, Rest(), v, limit);
        Split(buffer, pos);
        v := v * 10 + (d - ZERO);
        if v > limit {
          return Bad(Undefined);
        }
        d := buffer[pos];
        pos := pos + 1;
        n := n + 1;
      }
      r := Good(Digits(v, n, d));
    }

    /** The exponent part of parseNumber: the exponent and the character after it. */
    method ParseExponent(c: byte) returns (r: Result<(int, byte)>)
      requires Valid() && 0 < pos && c == buffer[pos - 1]
      modifies `pos
      ensures Valid() && Agrees(r, Rest(), PExponent(c, old(Rest())))
      ensures r.Good? ==> pos >= old(pos) && r.value.1 == buffer[pos - 1]
    {
      if c != 101 && c != 69 {
        return Good((0, c));
      }
      var negative := false;
      var d :- Next();
      if d == PLUS || d == MINUS {
        d :- Next();
        negative := d == MINUS;
      }
      if !IsDigit(d) {
        return Bad(Thrown(MissingExponent));
      }
      var x :- ParseDigits(d, 0, INT32_MAX);
      r := Good((if negative then -(x.value as int) else x.value, x.after));
    }

    /** The integer and fraction parts of parseNumber: mantissa, number of fraction digits, whether there is a point. */
    method ParseMantissa(c: byte) returns (r: Result<(Digits, bool)>)
      requires Valid() && 0 < pos && c == buffer[pos - 1]
      modifies `pos
      ensures Valid() && Agrees(r, Rest(), PMantissa(c, old(Rest())))
      ensures r.Good? ==> pos >= old(pos) && r.value.0.after == buffer[pos - 1]
    {
      var d, v := c, 0;
      if c == ZERO {
        d :- Next();
      } else {
        var whole :- ParseDigits(c, 0, INT64_MAX);
        d, v := whole.after, whole.value;
      }
      if d != DOT {
        return Good((Digits(v, 0, d), false));
      }
      d :- Next();
      var digits :- ParseDigits(d, v, INT64_MAX);
      r := Good((digits, true));
    }

    /** parseNumber after the sign. The character after the number is put back by stepping the position back. */
    method ParseUnsigned(negative: bool, c: byte) returns (r: Result<Json>)
      requires Valid() && 0 < pos && c == buffer[pos - 1]
      modifies `pos
      ensures Valid() && Agrees(r, Rest(), PUnsigned(negative, c, old(Rest())))
      ensures r.Good? ==> pos + 1 >= old(pos)
    {
      var m :- ParseMantissa(c);
      var x :- ParseExponent(m.0.after);
      ghost var rest := Rest();
      pos := pos - 1;
      assert Rest() == [x.1] + rest;
      match NumberJson(negative, m.0, m.1, x.0) {
        case None => return Bad(Undefined);
        case Some(j) => return Good(j);
      }
    }

    /** parseNumber. */
    method ParseNumber(c: byte) returns (r: Result<Json>)
      requires Valid() && 0 < pos && c == buffer[pos - 1]
      modifies `pos
      ensures Valid() && Agrees(r, Rest(), PNumber(c, old(Rest())))
      ensures r.Good? ==> pos + 1 >= old(pos)
    {
      NumberInParts(c, Rest());
      var d := c;
      if c == MINUS {
        d :- Next();
      }
      r := ParseUnsigned(c == MINUS, d);
    }

    // -------------------------------------------------------------- literals

    /** The load of four bytes that the tests for three letters begin with. */
    method Load4() returns (r: Result<bytes>)
      requires Valid() && |buffer| - pos >= 3
      ensures r == if |buffer| - pos == 3 then Bad(Undefined) else Good(buffer[pos..pos + 4])
    {
      if pos + 4 > |buffer| {
        return Bad(Undefined);
      }
      return Good(buffer[pos..pos + 4]);
    }

    /** parseBoolean. */
    method ParseBool() returns (r: Result<Json>)
      requires Valid()
      modifies `pos
      ensures Valid() && Agrees(r, Rest(), PBool(old(Rest())))
      ensures r.Good? ==> pos >= old(pos)
    {
      if |buffer| - pos >= 3 {
        Slices(buffer, pos);
        var four :- Load4();
        if four[..3] == TRUE[1..] {
          pos := pos + 3;
          return Good(Bool(true));
        }
        if four == FALSE[1..] {
          pos := pos + 4;
          return Good(Bool(false));
        }
      }
      r := Bad(Thrown(NotABoolean));
    }

    /** parseNull. */
    method ParseNull() returns (r: Result<Json>)
      requires Valid()
      modifies `pos
      ensures Valid() && Agrees(r, Rest(), PNull(old(Rest())))
      ensures r.Good? ==> pos >= old(pos)
    {
      if |buffer| - pos >= 3 {
        Slices(buffer, pos);
        var four :- Load4();
        if four[..3] == NULL[1..] {
          pos := pos + 3;
          return Good(Null);
        }
      }
      r := Bad(Thrown(NotNull));
    }

    // -------------------------------------------------------------- containers

    /** kstack_move: the values above top leave the stack for a list of their own. */
    method Move(top: nat) returns (list: array<Json>)
      requires Valid() && top <= |stack|
      modifies `stack
      ensures Valid() && stack == old(stack)[..top] && list[..] == old(stack)[top..]
    {
      list := new Json[|stack| - top](_ => Null);
      var i: nat := 0;
      while i < list.Length
        invariant i <= list.Length && stack == old(stack) && list[..i] == stack[top..top + i]
      {
        list[i] := stack[top + i];
        i := i + 1;
      }
      stack := stack[..top];
    }

    /**
     _JSONObject_set. It has no well-defined end when the comparison reads a byte of an empty key, when it
     meets a record without a key, or when the table outgrows 32 bits.
     */
    method SetPair(m: KMap.KMap<Member>, text: bytes, val: Json) returns (ok: bool)
      requires m.Valid()
      modifies m, m.records
      ensures m.Valid() && (m.records == old(m.records) || fresh(m.records))
      ensures SetMember(old(m.State()), (text, val)) == if ok then Some(m.State()) else None
    {
      if EmptyAgain(m.records[..], text) {
        return false;
      }
      var st := m.Set(MakeKey(text), Member(text, val));
      ok := st != Exhausted && st != Crashed;
    }

    /** kstack_pop. */
    method Pop() returns (j: Json)
      requires |stack| > 0
      modifies `stack
      ensures stack == old(stack)[..|old(stack)| - 1] && j == old(stack)[|old(stack)| - 1]
    {
      j := stack[|stack| - 1];
      stack := stack[..|stack| - 1];
    }

    /** The last of the pairs on the stack is popped, its value first. */
    method PopPair(ghost base: seq<Json>, ghost pushed: seq<Json>, ghost pairs: seq<(bytes, Json)>)
      returns (text: bytes, val: Json)
      requires pairs != [] && Holds(pushed, pairs) && stack == base + pushed
      modifies `stack
      ensures (text, val) == pairs[|pairs| - 1]
      ensures Holds(pushed[..|pushed| - 2], pairs[..|pairs| - 1]) && stack == base + pushed[..|pushed| - 2]
    {
      HoldsLast(pushed, pairs);
      ghost var all := base + pushed;
      val := Pop();
      assert stack == all[..|all| - 1];
      var key := Pop();
      assert stack == all[..|all| - 2] == base + pushed[..|pushed| - 2];
      text := key.text;
    }

    /** The end of parseObject: key and value pairs are popped, the last one first, and set in a new map. */
    method PopObject(top: nat, ghost pairs: seq<(bytes, Json)>) returns (r: Result<Json>)
      requires Valid() && top <= |stack| && Holds(stack[top..], pairs)
      modifies `stack
      ensures Valid()
      ensures match Make(NewMap(|pairs|), pairs)
        case None => r == Bad(Undefined)
        case Some(m) => r == Good(Obj(m)) && stack == old(stack)[..top]
    {
      var n: nat := (|stack| - top) / 2;
      var m := new KMap.KMap<Member>(n);
      ghost var base, pushed, left := stack[..top], stack[top..], pairs;
      while n > 0
        invariant Valid() && n == |left| && Holds(pushed, left) && stack == base + pushed
        invariant m.Valid() && fresh(m) && fresh(m.records)
        invariant Make(NewMap(|pairs|), pairs) == Make(m.State(), left)
      {
        MakeStep(m.State(), left);
        var text, val := PopPair(base, pushed, left);
        var ok := SetPair(m, text, val);
        if !ok {
          return Bad(Undefined);
        }
        n, left, pushed := n - 1, left[..n - 1], pushed[..|pushed| - 2];
      }
      r := Good(Obj(if m.hashed then RawHash(m.records[..], m.used) else RawDict(m.word, m.records[..], m.used)));
    }

    /** parseChild. Whatever is nested in the value, the stack comes out as it went in. */
    method ParseChild(c: byte) returns (r: Result<Json>)
      requires Valid() && Current(c)
      modifies `pos, `stack
      ensures Valid() && Agrees(r, Rest(), PChild(c, old(Rest())))
      ensures r.Good? ==> stack == old(stack) && pos + 1 >= old(pos)
      decreases |buffer| - pos, 3
    {
      var d := SkipSpace(c);
      match KindOf(d) {
        case KNothing => r := Bad(Thrown(InvalidToken));
        case KObject => r := ParseObject();
        case KString => r := ParseString(d);
        case KArray => r := ParseArray();
        case KNumber => r := ParseNumber(d);
        case KBoolean => r := ParseBool();
        case KNull => r := ParseNull();
      }
    }

    /** One turn of the loop of parseArray: a value is pushed; None at the closing bracket, else the next character. */
    method ElemTurn(c: byte) returns (r: Result<Option<byte>>)
      requires Valid() && Current(c) && pos < |buffer|
      modifies `pos, `stack
      ensures Valid()
      ensures match PElem(c, old(Rest()))
        case Fail(f) => r == Bad(f)
        case Ok(e, q) => r == Good(e.1) && Rest() == q && stack == old(stack) + [e.0]
      ensures r.Good? ==> pos > old(pos) && (r.value.Some? ==> Current(r.value.value))
      decreases |buffer| - pos, 4
    {
      var val :- ParseChild(c);
      stack := stack + [val];
      var sep :- SkipNext();
      if sep == RBRACKET {
        return Good(None);
      }
      if sep != COMMA {
        return Bad(Thrown(MissingCommaInArray));
      }
      var d :- SkipNext();
      r := Good(Some(d));
    }

    /** The loop of parseArray. */
    method ParseElems(first: byte, ghost base: seq<Json>) returns (r: Result<()>, ghost items: seq<Json>)
      requires Valid() && Current(first) && stack == base
      modifies `pos, `stack
      ensures Valid() && Agrees(if r.Good? then Good(items) else Bad(r.fault), Rest(), PElems(first, old(Rest()), []))
      ensures r.Good? ==> stack == base + items && pos >= old(pos)
      decreases |buffer| - pos, 5
    {
      var c := first;
      items := [];
      while pos < |buffer|
        invariant Valid() && Current(c) && pos >= old(pos) && stack == base + items
        invariant PElems(first, old(Rest()), []) == PElems(c, Rest(), items)
        decreases |buffer| - pos
      {
        ElemTurnIs(c, Rest(), items);
        ghost var item := PElem(c, Rest());
        var next :- ElemTurn(c);
        items := items + [item.value.0];
        if next == None {
          break;
        }
        c := next.value;
      }
      r := Good(());
    }

    /** parseArray. */
    method ParseArray() returns (r: Result<Json>)
      requires Valid()
      modifies `pos, `stack
      ensures Valid() && Agrees(r, Rest(), PArray(old(Rest())))
      ensures r.Good? ==> stack == old(stack) && pos >= old(pos)
      decreases |buffer| - pos, 2
    {
      var top := |stack|;
      var c :- SkipNext();
      if c == RBRACKET {
        return Good(Arr([]));
      }
      ghost var items;
      var u;
      u, items := ParseElems(c, stack);
      if u.Bad? {
        return Bad(u.fault);
      }
      var list := Move(top);
      r := Good(Arr(list[..]));
    }

    /** One turn of the loop of parseObject: a key and a value are pushed. */
    method MemberTurn(c: byte) returns (r: Result<Option<byte>>)
      requires Valid() && Current(c) && pos < |buffer| && c != RBRACE
      modifies `pos, `stack
      ensures Valid()
      ensures match PMember(c, old(Rest()))
        case Fail(f) => r == Bad(f)
        case Ok(e, q) =>
          && r == Good(e.1) && Rest() == q
          && exists key :: IsKey(key, e.0.0) && stack == old(stack) + [key, e.0.1]
      ensures r.Good? ==> pos > old(pos) && (r.value.Some? ==> Current(r.value.value))
      decreases |buffer| - pos, 4
    {
      if c != QUOTE {
        return Bad(Thrown(MissingQuote));
      }
      var key :- ParseString(c);
      stack := stack + [key];
      var colon :- SkipNext();
      if colon != COLON {
        return Bad(Thrown(MissingColon));
      }
      var d :- Next();
      var val :- ParseChild(d);
      stack := stack + [val];
      assert IsKey(key, key.text) && stack == old(stack) + [key, val];
      r := MemberEnd();
    }

    /** What follows a member: the closing brace, or a comma and the first character of the next member. */
    method MemberEnd() returns (r: Result<Option<byte>>)
      requires Valid()
      modifies `pos
      ensures Valid() && Agrees(r, Rest(), PMemberEnd(old(Rest())))
      ensures r.Good? ==> pos > old(pos) && (r.value.Some? ==> Current(r.value.value))
    {
      var sep :- SkipNext();
      if sep == RBRACE {
        return Good(None);
      }
      if sep != COMMA {
        return Bad(Thrown(MissingCommaInObject));
      }
      var e :- Next();
      if e == RBRACE {
        return Bad(Thrown(ExtraComma));
      }
      if pos == |buffer| {
        return Bad(Thrown(UnendedObject));
      }
      var d := SkipSpace(e);
      r := Good(Some(d));
    }

    /** The loop of parseObject. */
    method ParseMembers(first: byte) returns (r: Result<()>, ghost pairs: seq<(bytes, Json)>)
      requires Valid() && Current(first)
      modifies `pos, `stack
      ensures Valid() && Agrees(if r.Good? then Good(pairs) else Bad(r.fault), Rest(), PMembers(first, old(Rest()), []))
      ensures r.Good? ==> |stack| >= |old(stack)| && stack[..|old(stack)|] == old(stack)
      ensures r.Good? ==> Holds(stack[|old(stack)|..], pairs)
      ensures r.Good? ==> pos >= old(pos)
      decreases |buffer| - pos, 5
    {
      var c := first;
      pairs := [];
      ghost var pushed: seq<Json> := [];
      while pos < |buffer| && c != RBRACE
        invariant Valid() && Current(c) && pos >= old(pos)
        invariant stack == old(stack) + pushed && Holds(pushed, pairs)
        invariant PMembers(first, old(Rest()), []) == PMembers(c, Rest(), pairs)
        decreases |buffer| - pos
      {
        MemberTurnIs(c, Rest(), pairs);
        ghost var member := PMember(c, Rest());
        ghost var before := stack;
        var next :- MemberTurn(c);
        ghost var key :| IsKey(key, member.value.0.0) && stack == before + [key, member.value.0.1];
        HoldsMore(pushed, pairs, key, member.value.0);
        assert (old(stack) + pushed) + [key, member.value.0.1] == old(stack) + (pushed + [key, member.value.0.1]);
        pushed := pushed + [key, member.value.0.1];
        pairs := pairs + [member.value.0];
        if next == None {
          break;
        }
        c := next.value;
      }
      r := Good(());
    }

    /** parseObject. */
    method ParseObject() returns (r: Result<Json>)
      requires Valid()
      modifies `pos, `stack
      ensures Valid() && Agrees(r, Rest(), PObject(old(Rest())))
      ensures r.Good? ==> stack == old(stack) && pos >= old(pos)
      decreases |buffer| - pos, 2
    {
      var top := |stack|;
      var c :- SkipNext();
      ghost var pairs;
      var u;
      u, pairs := ParseMembers(c);
      if u.Bad? {
        return Bad(u.fault);
      }
      r := PopObject(top, pairs);
    }

    /** parse and the check on the top value. */
    method Parse() returns (r: Result<Json>)
      requires Valid()
      modifies `pos, `stack
      ensures Valid() && Agrees(r, Rest(), ParseText(old(Rest())))
      ensures r.Good? ==> stack == old(stack)
    {
      var c :- Next();
      c := SkipSpace(c);
      if c == 0 {
        return Bad(Thrown(TopLevelNotContainer));
      }
      var json :- ParseChild(c);
      var e: byte := 0;
      if pos != |buffer| {
        var next := SkipNext();
        e := next.value;
      }
      if e != 0 {
        return Bad(Thrown(UnparsedRest));
      }
      if !json.Obj? && !json.Arr? {
        return Bad(Thrown(TopLevelNotContainer));
      }
      r := Good(json);
    }
  }
}
