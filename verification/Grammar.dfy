/**
 JSON texts as syntax trees after section 2 of RFC 4627, written out as bytes and read as values.
 Text functions take the bytes that follow, so that concatenations nest to the right.
 */
module Grammar {
  import opened Basics
  import opened Utf8
  import opened Json

  const TAB: byte := 9
  const LF: byte := 10
  const CR: byte := 13
  const SPACE: byte := 32
  const QUOTE: byte := 34
  const PLUS: byte := 43
  const COMMA: byte := 44
  const MINUS: byte := 45
  const DOT: byte := 46
  const SLASH: byte := 47
  const ZERO: byte := 48
  const COLON: byte := 58
  const LBRACKET: byte := 91
  const BACKSLASH: byte := 92
  const RBRACKET: byte := 93
  const LBRACE: byte := 123
  const RBRACE: byte := 125

  predicate IsSpace(c: byte) {
    c == TAB || c == LF || c == CR || c == SPACE
  }

  predicate IsDigit(c: byte) {
    ZERO <= c <= 57
  }

  predicate AllSpace(s: bytes) {
    forall i :: 0 <= i < |s| ==> IsSpace(s[i])
  }

  predicate AllDigits(s: bytes) {
    forall i :: 0 <= i < |s| ==> IsDigit(s[i])
  }

  // ---------------------------------------------------------------- strings

  /** A plain byte, a one-letter escape, or an escape of four hex digits. */
  datatype Char = Plain(b: byte) | Escaped(letter: byte) | Unicode(h0: byte, h1: byte, h2: byte, h3: byte)

  /** The value of a hex digit; 16 for any other byte. */
  function HexValue(c: byte): (v: nat)
    ensures v <= 16
  {
    if IsDigit(c) then c - ZERO
    else if 97 <= c <= 102 then c - 97 + 10
    else if 65 <= c <= 70 then c - 65 + 10
    else 16
  }

  predicate IsHex(c: byte) {
    HexValue(c) < 16
  }

  /** The byte an escape letter stands for. */
  function Unescape(letter: byte): Option<byte> {
    if letter == QUOTE || letter == BACKSLASH || letter == SLASH then Some(letter)
    else if letter == 98 then Some(8)
    else if letter == 102 then Some(12)
    else if letter == 110 then Some(LF)
    else if letter == 114 then Some(CR)
    else if letter == 116 then Some(TAB)
    else None
  }

  /** Section 2.5 of RFC 4627, and besides the control characters other than tab and line feed. */
  predicate CharOk(c: Char) {
    match c
    case Plain(b) => b != QUOTE && b != BACKSLASH && b != TAB && b != LF
    case Escaped(letter) => Unescape(letter).Some?
    case Unicode(h0, h1, h2, h3) => IsHex(h0) && IsHex(h1) && IsHex(h2) && IsHex(h3)
  }

  predicate CharsOk(cs: seq<Char>) {
    forall i :: 0 <= i < |cs| ==> CharOk(cs[i])
  }

  function CharText(c: Char, k: bytes): bytes {
    match c
    case Plain(b) => [b] + k
    case Escaped(letter) => [BACKSLASH] + ([letter] + k)
    case Unicode(h0, h1, h2, h3) => [BACKSLASH] + ([117] + ([h0] + ([h1] + ([h2] + ([h3] + k)))))
  }

  /** The characters, the closing quote, then k. */
  function CharsText(cs: seq<Char>, k: bytes): bytes {
    if cs == [] then [QUOTE] + k else CharText(cs[0], CharsText(cs[1..], k))
  }

  function StringText(cs: seq<Char>, k: bytes): bytes {
    [QUOTE] + CharsText(cs, k)
  }

  function CodeUnit(c: Char): nat
    requires c.Unicode?
  {
    HexValue(c.h0) * 4096 + HexValue(c.h1) * 256 + HexValue(c.h2) * 16 + HexValue(c.h3)
  }

  function CharValue(c: Char): bytes
    requires CharOk(c)
  {
    match c
    case Plain(b) => [b]
    case Escaped(letter) => [Unescape(letter).value]
    case Unicode(_, _, _, _) => WriteUnicode(CodeUnit(c))
  }

  /** The string the library makes: each escaped code unit is encoded by itself. */
  function CharsValue(cs: seq<Char>): bytes
    requires CharsOk(cs)
  {
    if cs == [] then [] else CharValue(cs[0]) + CharsValue(cs[1..])
  }

  predicate IsHigh(c: Char) {
    c.Unicode? && 0xD800 <= CodeUnit(c) <= 0xDBFF
  }

  predicate IsLow(c: Char) {
    c.Unicode? && 0xDC00 <= CodeUnit(c) <= 0xDFFF
  }

  predicate StartsPair(cs: seq<Char>) {
    |cs| > 1 && IsHigh(cs[0]) && IsLow(cs[1])
  }

  /** The string RFC 4627 gives: a pair of escaped surrogates stands for one character. */
  function RfcValue(cs: seq<Char>): bytes
    requires CharsOk(cs)
  {
    if cs == [] then []
    else if StartsPair(cs) then
      WriteUnicode(0x10000 + (CodeUnit(cs[0]) - 0xD800) * 0x400 + (CodeUnit(cs[1]) - 0xDC00)) + RfcValue(cs[2..])
    else CharValue(cs[0]) + RfcValue(cs[1..])
  }

  function SurrogatePairs(cs: seq<Char>): nat {
    if cs == [] then 0 else if StartsPair(cs) then 1 + SurrogatePairs(cs[2..]) else SurrogatePairs(cs[1..])
  }

  // ---------------------------------------------------------------- numbers

  datatype Sign = Unsigned | Positive | Negative

  datatype Exponent = NoExponent | Exponent(upper: bool, sign: Sign, digits: bytes)

  /** A number: sign, integer digits, fraction digits (none without a decimal point), exponent. */
  datatype Number = Number(negative: bool, whole: bytes, fraction: bytes, exponent: Exponent)

  predicate NumberOk(n: Number) {
    && n.whole != [] && AllDigits(n.whole) && (n.whole[0] == ZERO ==> |n.whole| == 1)
    && AllDigits(n.fraction)
    && (n.exponent.Exponent? ==> n.exponent.digits != [] && AllDigits(n.exponent.digits))
  }

  predicate IsInteger(n: Number) {
    n.fraction == [] && n.exponent.NoExponent?
  }

  function SignText(s: Sign, k: bytes): bytes {
    match s
    case Unsigned => k
    case Positive => [PLUS] + k
    case Negative => [MINUS] + k
  }

  function ExponentText(e: Exponent, k: bytes): bytes {
    if e.NoExponent? then k
    else [if e.upper then 69 else 101] + SignText(e.sign, e.digits + k)
  }

  function FractionText(fraction: bytes, k: bytes): bytes {
    if fraction == [] then k else [DOT] + (fraction + k)
  }

  function NumberText(n: Number, k: bytes): bytes {
    (if n.negative then [MINUS] else []) + (n.whole + FractionText(n.fraction, ExponentText(n.exponent, k)))
  }

  /** The number written by decimal digits after a number v. */
  function DigitsValue(s: bytes, v: nat): nat
    requires AllDigits(s)
  {
    if s == [] then v else DigitsValue(s[1..], v * 10 + (s[0] - ZERO))
  }

  /** All digits of the number, without the decimal point. */
  function Mantissa(n: Number): nat
    requires NumberOk(n)
  {
    DigitsValue(n.fraction, DigitsValue(n.whole, 0))
  }

  /** The exponent's digits, without its sign. */
  function ExponentSize(n: Number): nat
    requires NumberOk(n)
  {
    if n.exponent.NoExponent? then 0 else DigitsValue(n.exponent.digits, 0)
  }

  /** The exponent section 2.4 of RFC 4627 gives the mantissa. */
  function Scale(n: Number): int
    requires NumberOk(n)
  {
    var e: int := ExponentSize(n);
    (if n.exponent.Exponent? && n.exponent.sign.Negative? then -e else e) - |n.fraction|
  }

  function NumberDenotes(n: Number): Abs
    requires NumberOk(n)
  {
    if IsInteger(n) then AInt(if n.negative then -(Mantissa(n) as int) else Mantissa(n))
    else AReal(Signed(n.negative, Decimal(Mantissa(n), Scale(n))))
  }

  // ---------------------------------------------------------------- values

  datatype Node =
    | NNull
    | NTrue
    | NFalse
    | NNumber(number: Number)
    | NString(chars: seq<Char>)
    | NEmptyArray(gap: bytes)
    | NArray(elems: Elems)
    | NEmptyObject(gap: bytes)
    | NObject(members: Members)

  /** The elements of an array, each with the white space before and after it. */
  datatype Elems =
    | LastElem(pre: bytes, node: Node, post: bytes)
    | MoreElems(pre: bytes, node: Node, post: bytes, rest: Elems)

  /** The members of an object, with the white space before the key, around the colon and after the value. */
  datatype Members =
    | LastMember(pre: bytes, key: seq<Char>, mid: bytes, mid2: bytes, node: Node, post: bytes)
    | MoreMembers(pre: bytes, key: seq<Char>, mid: bytes, mid2: bytes, node: Node, post: bytes, rest: Members)

  /** A whole text; the top value is an object or an array. */
  datatype Doc = Doc(pre: bytes, top: Node, post: bytes)

  const NULL: bytes := [110, 117, 108, 108]
  const TRUE: bytes := [116, 114, 117, 101]
  const FALSE: bytes := [102, 97, 108, 115, 101]

  function Text(n: Node, k: bytes): bytes {
    match n
    case NNull => NULL + k
    case NTrue => TRUE + k
    case NFalse => FALSE + k
    case NNumber(number) => NumberText(number, k)
    case NString(chars) => StringText(chars, k)
    case NEmptyArray(gap) => [LBRACKET] + (gap + ([RBRACKET] + k))
    case NArray(elems) => [LBRACKET] + ElemsText(elems, k)
    case NEmptyObject(gap) => [LBRACE] + (gap + ([RBRACE] + k))
    case NObject(members) => [LBRACE] + MembersText(members, k)
  }

  /** The elements, the closing bracket, then k. */
  function ElemsText(es: Elems, k: bytes): bytes
    decreases es, 1
  {
    match es
    case LastElem(_, _, _) => ElemText(es, RBRACKET, k)
    case MoreElems(_, _, _, rest) => ElemText(es, COMMA, ElemsText(rest, k))
  }

  /** One element, the separator, then what comes after it. */
  function ElemText(es: Elems, sep: byte, after: bytes): bytes
    decreases es, 0
  {
    es.pre + Text(es.node, es.post + ([sep] + after))
  }

  /** The members, the closing brace, then k. */
  function MembersText(ms: Members, k: bytes): bytes
    decreases ms, 1
  {
    match ms
    case LastMember(_, _, _, _, _, _) => MemberText(ms, RBRACE, k)
    case MoreMembers(_, _, _, _, _, _, rest) => MemberText(ms, COMMA, MembersText(rest, k))
  }

  /** One member, the separator, then what comes after it. */
  function MemberText(ms: Members, sep: byte, after: bytes): bytes
    decreases ms, 0
  {
    ms.pre + StringText(ms.key, ms.mid + ([COLON] + (ms.mid2 + Text(ms.node, ms.post + ([sep] + after)))))
  }

  function DocText(d: Doc): bytes {
    d.pre + Text(d.top, d.post)
  }

  predicate NodeOk(n: Node) {
    match n
    case NNumber(number) => NumberOk(number)
    case NString(chars) => CharsOk(chars)
    case NEmptyArray(gap) => AllSpace(gap)
    case NArray(elems) => ElemsOk(elems)
    case NEmptyObject(gap) => AllSpace(gap)
    case NObject(members) => MembersOk(members)
    case _ => true
  }

  predicate ElemsOk(es: Elems) {
    && AllSpace(es.pre) && NodeOk(es.node) && AllSpace(es.post)
    && match es { case LastElem(_, _, _) => true case MoreElems(_, _, _, rest) => ElemsOk(rest) }
  }

  predicate MembersOk(ms: Members) {
    && AllSpace(ms.pre) && CharsOk(ms.key) && AllSpace(ms.mid)
    && AllSpace(ms.mid2) && NodeOk(ms.node) && AllSpace(ms.post)
    && match ms {
      case LastMember(_, _, _, _, _, _) => true
      case MoreMembers(_, _, _, _, _, _, rest) => MembersOk(rest)
    }
  }

  predicate DocOk(d: Doc) {
    && AllSpace(d.pre) && NodeOk(d.top) && AllSpace(d.post)
    && (d.top.NArray? || d.top.NEmptyArray? || d.top.NObject? || d.top.NEmptyObject?)
  }

  /** The value a text denotes. Of several members with the same name the first counts. */
  function Denotes(n: Node): Abs
    requires NodeOk(n)
  {
    match n
    case NNull => ANull
    case NTrue => ABool(true)
    case NFalse => ABool(false)
    case NNumber(number) => NumberDenotes(number)
    case NString(chars) => AString(RfcValue(chars))
    case NEmptyArray(_) => AArray([])
    case NArray(elems) => AArray(ElemsDenote(elems))
    case NEmptyObject(_) => AObject(map[])
    case NObject(members) => AObject(MembersDenote(members))
  }

  function ElemsDenote(es: Elems): seq<Abs>
    requires ElemsOk(es)
  {
    [Denotes(es.node)] + match es { case LastElem(_, _, _) => [] case MoreElems(_, _, _, rest) => ElemsDenote(rest) }
  }

  function MembersDenote(ms: Members): map<bytes, Abs>
    requires MembersOk(ms)
  {
    var rest := match ms {
      case LastMember(_, _, _, _, _, _) => map[]
      case MoreMembers(_, _, _, _, _, _, rest) => MembersDenote(rest)
    };
    rest[RfcValue(ms.key) := Denotes(ms.node)]
  }
}
