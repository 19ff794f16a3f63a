/** Printing and parsing again gives back the same meaning: what is printed is a text of the grammar. */
module RoundTrip {
  import opened Basics
  import opened Table
  import opened RawMap
  import opened Utf8
  import opened Json
  import opened Grammar
  import opened Surrogates
  import opened Numerals
  import opened Printer
  import opened ParserSpec
  import opened StringProofs
  import opened NumberProofs
  import opened ParserProofs
  import opened Objects
  import opened ValueProofs

  // ---------------------------------------------------------------- strings

  /** Bytes that stand for themselves between quotes. */
  predicate Verbatim(s: bytes) {
    forall i :: 0 <= i < |s| ==> !Stops(s[i])
  }

  predicate Ascii(s: bytes) {
    forall i :: 0 <= i < |s| ==> s[i] < 0x80
  }

  function PlainChars(s: bytes): seq<Char> {
    if s == [] then [] else [Plain(s[0])] + PlainChars(s[1..])
  }

  lemma {:induction false} PlainCharsText(s: bytes, k: bytes)
    requires Verbatim(s)
    ensures CharsOk(PlainChars(s)) && CharsValue(PlainChars(s)) == s && SurrogatePairs(PlainChars(s)) == 0
    ensures CharsText(PlainChars(s), k) == s + ([QUOTE] + k)
  {
    if s != [] {
      PlainCharsText(s[1..], k);
      assert PlainChars(s)[1..] == PlainChars(s[1..]);
      assert s == [s[0]] + s[1..];
    }
  }

  function EscapedChar(c: byte): Char {
    if |EscapeByte(c)| == 1 then Plain(c) else Escaped(EscapeByte(c)[1])
  }

  lemma {:induction false} EscapedCharIs(c: byte, k: bytes)
    ensures CharOk(EscapedChar(c)) && CharValue(EscapedChar(c)) == [c]
    ensures CharText(EscapedChar(c), k) == EscapeByte(c) + k
  {}

  function EscapedChars(s: bytes): seq<Char> {
    if s == [] then [] else [EscapedChar(s[0])] + EscapedChars(s[1..])
  }

  lemma {:induction false} EscapedCharsText(s: bytes, k: bytes)
    requires Ascii(s)
    ensures Scannable(s)
    ensures CharsOk(EscapedChars(s)) && CharsValue(EscapedChars(s)) == s && SurrogatePairs(EscapedChars(s)) == 0
    ensures CharsText(EscapedChars(s), k) == Escape(s) + ([QUOTE] + k)
  {
    AsciiScannable(s);
    if s != [] {
      EscapedCharsText(s[1..], k);
      EscapedCharIs(s[0], CharsText(EscapedChars(s[1..]), k));
      EscapeAscii(s);
      assert EscapedChars(s)[1..] == EscapedChars(s[1..]);
      assert s == [s[0]] + s[1..];
      Assoc(EscapeByte(s[0]), Escape(s[1..]), [QUOTE] + k);
    }
  }

  /** Escaping then parsing returns any ASCII bytes and stops just after the closing quote. */
  lemma {:induction false} EscapeParses(s: bytes, k: bytes)
    requires Ascii(s)
    ensures Scannable(s) && PString(QUOTE, Escape(s) + ([QUOTE] + k)).Ok?
    ensures var r := PString(QUOTE, Escape(s) + ([QUOTE] + k)); r.value.text == s && r.rest == k
  {
    EscapedCharsText(s, k);
    StringParses(EscapedChars(s), k);
  }

  // ---------------------------------------------------------------- values as trees

  /** The texts of the keys in the order of iteration. */
  function KeyTexts(slots: seq<Slot<Member>>, hashed: bool): seq<bytes> {
    if slots == [] then []
    else (if Shown(slots[0], hashed) then [slots[0].val.name] else []) + KeyTexts(slots[1..], hashed)
  }

  /**
   Values that survive a round trip: no doubles or 64-bit integers, plain strings and keys of bytes
   that print as themselves, escaped strings of ASCII, and objects whose keys a new map keeps.
   */
  ghost predicate Survives(j: Json) {
    match j
    case Int32(n) => -0x8000_0000 <= n <= 0x7fff_ffff
    case Int64(_) => false
    case Double(_, _, _) => false
    case Infinity(_) => false
    case Str(s) => Verbatim(s)
    case UStr(s) => Ascii(s)
    case Arr(items) => SurviveAll(items)
    case Obj(r) => Iterable(r) && SurviveSlots(r.slots, r.RawHash?) && NamesFaithful(KeyTexts(r.slots, r.RawHash?))
    case _ => true
  }

  ghost predicate SurviveAll(items: seq<Json>) {
    items == [] || (Survives(items[0]) && SurviveAll(items[1..]))
  }

  ghost predicate SurviveSlots(slots: seq<Slot<Member>>, hashed: bool) {
    slots == [] || (SurvivesSlot(slots[0], hashed) && SurviveSlots(slots[1..], hashed))
  }

  ghost predicate SurvivesSlot(s: Slot<Member>, hashed: bool)
    decreases s
  {
    match s
    case Free => true
    case Used(key, m) => (hashed && key.hash == 0) || (Verbatim(m.name) && Survives(m.value))
  }

  /** The tree whose text is printed. */
  function NodeOf(j: Json): Node {
    match j
    case Null => NNull
    case Bool(b) => if b then NTrue else NFalse
    case Int32(n) => NNumber(Number(n < 0, DigitsOf(if n < 0 then -n else n), [], NoExponent))
    case Str(s) => NString(PlainChars(s))
    case UStr(s) => NString(EscapedChars(s))
    case Arr(items) => if items == [] then NEmptyArray([]) else NArray(ElemsOf(items))
    case Obj(r) => (match MembersOf(r.slots, r.RawHash?) case None => NEmptyObject([]) case Some(ms) => NObject(ms))
    case _ => NNull
  }

  function ElemsOf(items: seq<Json>): Elems
    requires items != []
  {
    if |items| == 1 then LastElem([], NodeOf(items[0]), [])
    else MoreElems([], NodeOf(items[0]), [], ElemsOf(items[1..]))
  }

  function MembersOf(slots: seq<Slot<Member>>, hashed: bool): Option<Members> {
    if slots == [] then None else WithMember(slots[0], hashed, MembersOf(slots[1..], hashed))
  }

  function WithMember(s: Slot<Member>, hashed: bool, rest: Option<Members>): Option<Members>
    decreases s
  {
    match s
    case Free => rest
    case Used(key, m) =>
      if hashed && key.hash == 0 then rest
      else
        var chars, node := PlainChars(m.name), NodeOf(m.value);
        match rest
        case None => Some(LastMember([], chars, [], [], node, []))
        case Some(ms) => Some(MoreMembers([], chars, [], [], node, [], ms))
  }

  // ---------------------------------------------------------------- what is printed is that tree's text

  lemma {:induction false} JoinHead(parts: seq<bytes>)
    requires |parts| > 1
    ensures Join(parts) == parts[0] + ([COMMA] + Join(parts[1..]))
  {
    var n := |parts| - 1;
    var front, last := parts[..n], parts[n];
    assert parts[1..][..n - 1] == front[1..] && parts[1..][n - 1] == last;
    if n > 1 {
      JoinHead(front);
      assert Join(parts[1..]) == Join(front[1..]) + [COMMA] + last;
      assert parts[0] + ([COMMA] + Join(front[1..])) + [COMMA] + last
        == parts[0] + ([COMMA] + (Join(front[1..]) + [COMMA] + last));
    } else {
      assert front == [parts[0]] && parts[1..] == [last];
      Assoc(parts[0], [COMMA], last);
    }
  }

  lemma {:induction false} IntPrints(n: int, k: bytes)
    ensures var num := Number(n < 0, DigitsOf(if n < 0 then -n else n), [], NoExponent);
      && NumberOk(num) && IsInteger(num) && NumberDenotes(num) == AInt(n) && IntText(n) + k == NumberText(num, k)
      && (-0x8000_0000 <= n <= 0x7fff_ffff ==> NumberFits(num))
  {
    var a := if n < 0 then -n else n;
    DigitsOfValue(a);
    if n < 0 {
      Assoc([MINUS], DigitsOf(a), k);
    } else {
      assert [] + (DigitsOf(a) + k) == DigitsOf(a) + k;
    }
  }

  lemma {:induction false} StringPrints(quoted: bytes, cs: seq<Char>, k: bytes)
    requires CharsText(cs, k) == quoted + ([QUOTE] + k)
    ensures ([QUOTE] + quoted + [QUOTE]) + k == StringText(cs, k)
  {}

  lemma {:induction false} Bracketed(open: byte, inner: bytes, close: byte, k: bytes)
    ensures ([open] + inner + [close]) + k == [open] + (inner + ([close] + k))
  {}

  lemma {:induction false} PrintIsText(j: Json, k: bytes)
    requires Survives(j)
    ensures Printable(j) && NodeOk(NodeOf(j)) && Print(j) + k == Text(NodeOf(j), k)
    decreases j, 1
  {
    match j {
      case Int32(n) => IntPrints(n, k);
      case Str(s) => PlainCharsText(s, k); StringPrints(s, PlainChars(s), k);
      case UStr(s) => EscapedCharsText(s, k); StringPrints(Escape(s), EscapedChars(s), k);
      case Arr(items) =>
        if items == [] {
          assert ([LBRACKET] + [] + [RBRACKET]) + k == [LBRACKET] + ([] + ([RBRACKET] + k));
        } else {
          ItemsPrint(items, k);
          Bracketed(LBRACKET, Join(PrintAll(items)), RBRACKET, k);
        }
      case Obj(r) =>
        SlotsPrint(r.slots, r.RawHash?, k);
        Bracketed(LBRACE, Join(PrintSlots(r.slots, r.RawHash?)), RBRACE, k);
      case _ =>
    }
  }

  lemma {:induction false} PartThenRest(p: bytes, q: bytes, close: byte, k: bytes)
    ensures (p + ([COMMA] + q)) + ([close] + k) == p + ([COMMA] + (q + ([close] + k)))
  {}

  lemma {:induction false} EmptyGap(s: bytes)
    ensures [] + s == s
  {}

  lemma {:induction false} ItemsPrint(items: seq<Json>, k: bytes)
    requires items != [] && SurviveAll(items)
    ensures PrintableAll(items) && ElemsOk(ElemsOf(items))
    ensures Join(PrintAll(items)) + ([RBRACKET] + k) == ElemsText(ElemsOf(items), k)
    decreases items, 0
  {
    if |items| == 1 {
      var end := [RBRACKET] + k;
      PrintIsText(items[0], end);
      EmptyGap(end);
      EmptyGap(Text(NodeOf(items[0]), end));
      assert items[1..] == [];
      assert PrintAll(items) == [Print(items[0])];
    } else {
      ItemsPrint(items[1..], k);
      var end := [COMMA] + ElemsText(ElemsOf(items[1..]), k);
      PrintIsText(items[0], end);
      EmptyGap(end);
      EmptyGap(Text(NodeOf(items[0]), end));
      JoinHead(PrintAll(items));
      PartThenRest(Print(items[0]), Join(PrintAll(items[1..])), RBRACKET, k);
      assert PrintAll(items)[1..] == PrintAll(items[1..]);
    }
  }

  lemma {:induction false} MemberAssoc(quoted: bytes, value: bytes, end: bytes)
    ensures (quoted + [COLON] + value) + end == quoted + ([COLON] + (value + end))
  {}

  /** One printed member followed by a separator. */
  lemma {:induction false} MemberPrints(s: Slot<Member>, hashed: bool, sep: byte, after: bytes)
    requires Shown(s, hashed) && SurvivesSlot(s, hashed)
    ensures PrintableSlot(s, hashed) && CharsOk(PlainChars(s.val.name)) && NodeOk(NodeOf(s.val.value))
    ensures MemberPart(s, hashed) + ([sep] + after) == StringText(PlainChars(s.val.name),
      [] + ([COLON] + ([] + Text(NodeOf(s.val.value), [] + ([sep] + after)))))
    decreases s, 2
  {
    match s {
      case Used(key, m) =>
        var end := [sep] + after;
        PrintIsText(m.value, end);
        var text := Text(NodeOf(m.value), end);
        var colon := [COLON] + text;
        EmptyGap(end);
        EmptyGap(text);
        EmptyGap(colon);
        PlainCharsText(m.name, colon);
        StringPrints(m.name, PlainChars(m.name), colon);
        MemberAssoc([QUOTE] + m.name + [QUOTE], Print(m.value), end);
        assert MemberPart(s, hashed) == [QUOTE] + m.name + [QUOTE] + [COLON] + Print(m.value);
    }
  }

  lemma {:induction false} SlotsPrint(slots: seq<Slot<Member>>, hashed: bool, k: bytes)
    requires SurviveSlots(slots, hashed)
    ensures PrintableSlots(slots, hashed)
    ensures MembersOf(slots, hashed).None? <==> PrintSlots(slots, hashed) == []
    ensures MembersOf(slots, hashed).Some? ==> (
      MembersOk(MembersOf(slots, hashed).value)
      && Join(PrintSlots(slots, hashed)) + ([RBRACE] + k) == MembersText(MembersOf(slots, hashed).value, k))
    decreases slots, 0
  {
    if slots != [] {
      SlotsPrint(slots[1..], hashed, k);
      var s, rest := slots[0], MembersOf(slots[1..], hashed);
      var parts := PrintSlots(slots[1..], hashed);
      if !Shown(s, hashed) {
        assert PrintSlots(slots, hashed) == [] + parts == parts;
      } else if rest.None? {
        MemberPrints(s, hashed, RBRACE, k);
        assert PrintSlots(slots, hashed) == [MemberPart(s, hashed)];
      } else {
        var after := MembersText(rest.value, k);
        MemberPrints(s, hashed, COMMA, after);
        var all := [MemberPart(s, hashed)] + parts;
        assert PrintSlots(slots, hashed) == all && all[1..] == parts;
        JoinHead(all);
        var p, q := MemberPart(s, hashed), Join(parts);
        PartThenRest(p, q, RBRACE, k);
      }
    }
  }

  // ---------------------------------------------------------------- and it denotes the value

  lemma {:induction false} NodeMeans(j: Json)
    requires Survives(j)
    ensures NodeOk(NodeOf(j)) && Faithful(NodeOf(j)) && Denotes(NodeOf(j)) == Meaning(j)
    decreases j, 1
  {
    PrintIsText(j, []);
    match j {
      case Int32(n) => IntPrints(n, []);
      case Str(s) => PlainCharsText(s, []); StringMeaningIff(PlainChars(s));
      case UStr(s) => EscapedCharsText(s, []); StringMeaningIff(EscapedChars(s));
      case Arr(items) => if items != [] { ItemsMeanBack(items); }
      case Obj(r) => SlotsMeanBack(r.slots, r.RawHash?);
      case _ =>
    }
  }

  lemma {:induction false} ItemsMeanBack(items: seq<Json>)
    requires items != [] && SurviveAll(items)
    ensures ElemsOk(ElemsOf(items)) && ElemsFaithful(ElemsOf(items))
    ensures ElemsDenote(ElemsOf(items)) == MeaningAll(items)
    decreases items, 0
  {
    NodeMeans(items[0]);
    if |items| > 1 {
      ItemsMeanBack(items[1..]);
    } else {
      assert items[1..] == [];
    }
  }

  /** The members, if any, are faithful, have these names and denote this map. */
  ghost predicate MembersMeanBack(o: Option<Members>, texts: seq<bytes>, meaning: map<bytes, Abs>) {
    match o
    case None => texts == [] && meaning == map[]
    case Some(ms) => MembersOk(ms) && MembersFaithful(ms) && Texts(Pairs(ms)) == texts && MembersDenote(ms) == meaning
  }

  lemma {:induction false} SlotsMeanBack(slots: seq<Slot<Member>>, hashed: bool)
    requires SurviveSlots(slots, hashed)
    ensures MembersMeanBack(MembersOf(slots, hashed), KeyTexts(slots, hashed), MeaningSlots(slots, hashed))
    decreases slots, 0
  {
    if slots != [] {
      var rest := slots[1..];
      SlotsMeanBack(rest, hashed);
      SlotMeansBack(slots[0], hashed, MembersOf(rest, hashed), KeyTexts(rest, hashed), MeaningSlots(rest, hashed));
    }
  }

  lemma {:induction false} SlotMeansBack(s: Slot<Member>, hashed: bool, rest: Option<Members>, texts: seq<bytes>,
                                         meaning: map<bytes, Abs>)
    requires SurvivesSlot(s, hashed) && MembersMeanBack(rest, texts, meaning)
    ensures MembersMeanBack(WithMember(s, hashed, rest),
      (if Shown(s, hashed) then [s.val.name] else []) + texts, Entered(s, hashed, meaning))
    decreases s, 2
  {
    match s {
      case Free => assert [] + texts == texts;
      case Used(key, m) =>
        if Shown(s, hashed) {
          NodeMeans(m.value);
          PlainCharsText(m.name, []);
          StringMeaningIff(PlainChars(m.name));
          MemberMeansBack(m.name, m.value, rest, texts, meaning);
        } else {
          assert [] + texts == texts;
        }
    }
  }

  lemma {:induction false} MemberMeansBack(text: bytes, val: Json, rest: Option<Members>, texts: seq<bytes>,
                                           meaning: map<bytes, Abs>)
    requires CharsOk(PlainChars(text)) && CharsValue(PlainChars(text)) == RfcValue(PlainChars(text)) == text
    requires SurrogatePairs(PlainChars(text)) == 0
    requires NodeOk(NodeOf(val)) && Faithful(NodeOf(val)) && Denotes(NodeOf(val)) == Meaning(val)
    requires MembersMeanBack(rest, texts, meaning)
    ensures var chars, node := PlainChars(text), NodeOf(val);
      MembersMeanBack(match rest {
          case None => Some(LastMember([], chars, [], [], node, []))
          case Some(ms) => Some(MoreMembers([], chars, [], [], node, [], ms)) },
        [text] + texts, meaning[text := Meaning(val)])
  {
    var chars, node := PlainChars(text), NodeOf(val);
    var ms := if rest.None? then LastMember([], chars, [], [], node, [])
              else MoreMembers([], chars, [], [], node, [], rest.value);
    var more := if rest.None? then [] else Pairs(rest.value);
    assert Pairs(ms) == [(text, Value(node))] + more;
    assert Texts(Pairs(ms)) == [text] + Texts(more);
  }

  /**
   Printing a container and parsing the result gives back the same meaning, with the NUL that
   ends the C string behind the text, or with the NUL counted as part of it.
   */
  lemma {:induction false} PrintThenParse(j: Json, more: bytes)
    requires Survives(j) && (j.Arr? || j.Obj?)
    ensures Printable(j)
    ensures var r := ParseText(Print(j) + ([0] + more));
      r.Ok? && r.rest == more && Meaning(r.value) == Meaning(j)
  {
    var d := Doc([], NodeOf(j), []);
    NodeMeans(j);
    ValueMeans(d.top);
    PrintIsText(j, []);
    EmptyGap(Text(d.top, []));
    assert Print(j) + [] == Print(j);
    if more == [] {
      assert [0] + more == [0];
      DocParses(d, 0);
    } else {
      DocParsesToNul(d, more);
    }
  }
}
