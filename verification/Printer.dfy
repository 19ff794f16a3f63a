/** The printer of kjson/kjson.c: what it appends, and the methods that append it with unchecked writes. */
module Printer {
  import opened Basics
  import opened Bits
  import opened Table
  import opened RawMap
  import opened Utf8
  import opened Json
  import opened Grammar
  import opened Numerals
  import opened Builder

  // ---------------------------------------------------------------- what is printed

  function EscapeByte(c: byte): bytes {
    if c == QUOTE || c == BACKSLASH || c == SLASH then [BACKSLASH, c]
    else if c == 8 then [BACKSLASH, 98]
    else if c == 12 then [BACKSLASH, 102]
    else if c == LF then [BACKSLASH, 110]
    else if c == CR then [BACKSLASH, 114]
    else if c == TAB then [BACKSLASH, 116]
    else [c]
  }

  /** The scan of JSONUString_toString: escapes for ASCII, a hex escape for anything else. */
  function Escape(s: bytes): bytes
    requires Scannable(s)
    decreases |s|
  {
    if s == [] then []
    else if s[0] < 0x80 then EscapeByte(s[0]) + Escape(s[1..])
    else
      var Some((v, rest)) := ToCode(s);
      [BACKSLASH, 117] + HexOf(v) + Escape(rest)
  }

  /** The parts with commas between them. */
  function Join(parts: seq<bytes>): bytes {
    if parts == [] then []
    else if |parts| == 1 then parts[0]
    else Join(parts[..|parts| - 1]) + [COMMA] + parts[|parts| - 1]
  }

  /** Values whose printing does not depend on the number formatting of doubles and 64-bit integers. */
  ghost predicate Printable(j: Json) {
    match j
    case Int32(n) => -0x8000_0000 <= n <= 0x7fff_ffff
    case Int64(_) => false
    case Double(_, _, _) => false
    case Infinity(_) => false
    case UStr(s) => Scannable(s)
    case Arr(items) => PrintableAll(items)
    case Obj(r) => Iterable(r) && PrintableSlots(r.slots, r.RawHash?)
    case _ => true
  }

  ghost predicate PrintableAll(items: seq<Json>) {
    items == [] || (Printable(items[0]) && PrintableAll(items[1..]))
  }

  ghost predicate PrintableSlots(slots: seq<Slot<Member>>, hashed: bool) {
    slots == [] || (PrintableSlot(slots[0], hashed) && PrintableSlots(slots[1..], hashed))
  }

  ghost predicate PrintableSlot(s: Slot<Member>, hashed: bool)
    decreases s
  {
    match s
    case Free => true
    case Used(key, m) => (hashed && key.hash == 0) || Printable(m.value)
  }

  ghost function Print(j: Json): bytes
    requires Printable(j)
  {
    match j
    case Null => NULL
    case Bool(b) => if b then TRUE else FALSE
    case Int32(n) => IntText(n)
    case Str(s) => [QUOTE] + s + [QUOTE]
    case UStr(s) => [QUOTE] + Escape(s) + [QUOTE]
    case Arr(items) => [LBRACKET] + Join(PrintAll(items)) + [RBRACKET]
    case Obj(r) => [LBRACE] + Join(PrintSlots(r.slots, r.RawHash?)) + [RBRACE]
  }

  ghost function PrintAll(items: seq<Json>): (r: seq<bytes>)
    requires PrintableAll(items)
    ensures |r| == |items|
  {
    if items == [] then [] else [Print(items[0])] + PrintAll(items[1..])
  }

  /** One part for each record, in the order of iteration. */
  ghost function PrintSlots(slots: seq<Slot<Member>>, hashed: bool): (r: seq<bytes>)
    requires PrintableSlots(slots, hashed)
  {
    if slots == [] then [] else PrintSlot(slots[0], hashed) + PrintSlots(slots[1..], hashed)
  }

  ghost function PrintSlot(s: Slot<Member>, hashed: bool): seq<bytes>
    requires PrintableSlot(s, hashed)
    decreases s
  {
    match s
    case Free => []
    case Used(key, m) =>
      if hashed && key.hash == 0 then [] else [[QUOTE] + m.name + [QUOTE] + [COLON] + Print(m.value)]
  }

  // ---------------------------------------------------------------- parts one by one

  lemma {:induction false} PrintableAt(items: seq<Json>, i: nat)
    requires PrintableAll(items) && i < |items|
    ensures Printable(items[i]) && PrintAll(items)[i] == Print(items[i])
  {
    if i > 0 { PrintableAt(items[1..], i - 1); }
  }

  lemma {:induction false} PrintableFront(slots: seq<Slot<Member>>, hashed: bool, i: nat)
    requires PrintableSlots(slots, hashed) && i <= |slots|
    ensures PrintableSlots(slots[..i], hashed) && (i < |slots| ==> PrintableSlot(slots[i], hashed))
  {
    if i > 0 {
      PrintableFront(slots[1..], hashed, i - 1);
      assert slots[..i][1..] == slots[1..][..i - 1];
    }
  }

  lemma {:induction false} PrintSlotsCons(s: Slot<Member>, rest: seq<Slot<Member>>, hashed: bool)
    requires PrintableSlot(s, hashed) && PrintableSlots(rest, hashed)
    ensures PrintableSlots([s] + rest, hashed)
    ensures PrintSlots([s] + rest, hashed) == PrintSlot(s, hashed) + PrintSlots(rest, hashed)
  {
    assert ([s] + rest)[1..] == rest;
  }

  lemma {:induction false} PrintableSlotAt(slots: seq<Slot<Member>>, hashed: bool, i: nat)
    requires PrintableSlots(slots, hashed) && i < |slots|
    ensures PrintableSlot(slots[i], hashed)
    ensures PrintableSlots(slots[..i], hashed) && PrintableSlots(slots[..i + 1], hashed)
    ensures PrintSlots(slots[..i + 1], hashed) == PrintSlots(slots[..i], hashed) + PrintSlot(slots[i], hashed)
  {
    PrintableFront(slots, hashed, i);
    PrintableFront(slots, hashed, i + 1);
    if i == 0 {
      assert slots[..1][1..] == [];
    } else {
      var rest := slots[1..];
      PrintableSlotAt(rest, hashed, i - 1);
      PrintSlotsCons(slots[0], rest[..i], hashed);
      PrintSlotsCons(slots[0], rest[..i - 1], hashed);
      assert slots[..i + 1] == [slots[0]] + rest[..i] && slots[..i] == [slots[0]] + rest[..i - 1];
    }
  }

  /** Iteration returns the slot. */
  predicate Shown(s: Slot<Member>, hashed: bool) {
    s.Used? && !(hashed && s.key.hash == 0)
  }

  /** Other slots print nothing. */
  lemma {:induction false} HiddenPrintNothing(slots: seq<Slot<Member>>, hashed: bool, i: nat, p: nat)
    requires PrintableSlots(slots, hashed) && i <= p <= |slots|
    requires forall q :: i <= q < p ==> !Shown(slots[q], hashed)
    ensures PrintableSlots(slots[..i], hashed) && PrintableSlots(slots[..p], hashed)
    ensures PrintSlots(slots[..p], hashed) == PrintSlots(slots[..i], hashed)
    decreases p - i
  {
    if i < p {
      PrintableSlotAt(slots, hashed, p - 1);
      HiddenPrintNothing(slots, hashed, i, p - 1);
    } else if p < |slots| {
      PrintableSlotAt(slots, hashed, p);
    } else {
      assert slots[..p] == slots;
    }
  }

  /** What kmap_next skips has no record that counts, and what it returns has one. */
  lemma {:induction false} NextIs(r: Raw<Member>, i: nat)
    requires Iterable(r) && i <= |r.slots|
    ensures var p := if RawNext(r, i).None? then |r.slots| else RawNext(r, i).value;
      && p <= |r.slots| && (forall q :: i <= q < p ==> !Shown(r.slots[q], r.RawHash?))
      && (p < |r.slots| ==> Shown(r.slots[p], r.RawHash?))
  {}

  lemma {:induction false} JoinSnoc(parts: seq<bytes>, part: bytes)
    ensures Join(parts + [part]) == if parts == [] then part else Join(parts) + [COMMA] + part
  {
    if parts != [] {
      assert (parts + [part])[..|parts|] == parts;
    }
  }

  // ---------------------------------------------------------------- the methods

  /** A lead byte of writeUnicode: a tag of high bits joined with bits that fit below it. */
  method AddLead(sb: StringBuilder, tag: byte, high: nat, ghost k: nat, ghost a: nat)
    requires sb.Valid() && tag == a * Pow2(k) && high < Pow2(k) && tag + high < 256
    modifies sb, sb.list
    ensures sb.Valid() && (sb.list == old(sb.list) || fresh(sb.list))
    ensures sb.Contents() == old(sb.Contents()) + [tag + high]
  {
    LeadBits(tag, high, k, a);
    sb.Add(Or(tag, high));
  }

  /** A continuation byte of writeUnicode: six bits under the tag 10. */
  method AddTail(sb: StringBuilder, x: nat)
    requires sb.Valid()
    modifies sb, sb.list
    ensures sb.Valid() && (sb.list == old(sb.list) || fresh(sb.list))
    ensures sb.Contents() == old(sb.Contents()) + [0x80 + x % 64]
  {
    TailBits(x);
    sb.Add(Or(0x80, And(x, 0x3f)));
  }

  /** Its last two continuation bytes. */
  method AddTails(sb: StringBuilder, data: nat)
    requires sb.Valid()
    modifies sb, sb.list
    ensures sb.Valid() && (sb.list == old(sb.list) || fresh(sb.list))
    ensures sb.Contents() == old(sb.Contents()) + [0x80 + data / 64 % 64, 0x80 + data % 64]
  {
    AddTail(sb, data / 64);
    AddTail(sb, data);
  }

  lemma {:induction false} SmallPowers()
    ensures Pow2(3) == 8 && Pow2(4) == 16 && Pow2(5) == 32
  {}

  /** writeUnicode. */
  method AddUnicode(sb: StringBuilder, data: nat)
    requires sb.Valid()
    modifies sb, sb.list
    ensures sb.Valid() && (sb.list == old(sb.list) || fresh(sb.list))
    ensures sb.Contents() == old(sb.Contents()) + WriteUnicode(data)
  {
    ghost var base := sb.Contents();
    SmallPowers();
    if data <= 0x7f {
      sb.Add(data);
    } else if data <= 0x7ff {
      AddLead(sb, 0xc0, data / 64, 5, 6);
      AddTail(sb, data);
    } else if data <= 0xffff {
      AddLead(sb, 0xe0, data / 4096, 4, 14);
      AddTails(sb, data);
    } else if data <= MAX_CODE {
      AddLead(sb, 0xf0, data / 262144, 3, 30);
      AddTail(sb, data / 4096);
      AddTails(sb, data);
    }
    assert sb.Contents() == base + WriteUnicode(data);
  }

  /** _JSONString_toString. */
  method AddPlain(sb: StringBuilder, text: bytes)
    requires sb.Valid()
    modifies sb, sb.list
    ensures sb.Valid() && (sb.list == old(sb.list) || fresh(sb.list))
    ensures sb.Contents() == old(sb.Contents()) + ([QUOTE] + text + [QUOTE])
  {
    sb.EnsureSize(|text| + 2);
    sb.AddNoCheck(QUOTE);
    sb.AddStringNoCheck(text);
    sb.AddNoCheck(QUOTE);
  }

  /** The continuation loop of toUTF8 on the bytes from s[i] on. */
  method ReadCode(s: bytes, i: nat) returns (v: nat, next: nat)
    requires i < |s| && ToCode(s[i..]).Some?
    ensures i < next <= |s| && ToCode(s[i..]) == Some((v, s[next..]))
    ensures v < 0x20_0000
  {
    var size := LeadSize(s[i]);
    var lead: nat := if size == 2 then 32 else if size == 3 then 16 else 8;
    v := s[i] % lead;
    next := i + 1;
    var n := 1;
    assert s[i..][1..] == s[next..];
    while n < size && next < |s|
      invariant 1 <= n <= size && i < next <= |s|
      invariant ToCode(s[i..]) == Continue(s[next..], size - n, v)
      invariant v < lead * (if n == 1 then 1 else if n == 2 then 64 else if n == 3 then 4096 else 262144)
    {
      var tmp := s[next];
      assert s[next..][1..] == s[next + 1..];
      v := v * 64 + tmp % 64;
      next := next + 1;
      n := n + 1;
    }
  }

  lemma {:induction false} EscapeAscii(t: bytes)
    requires t != [] && t[0] < 0x80 && Scannable(t)
    ensures Scannable(t[1..]) && Escape(t) == EscapeByte(t[0]) + Escape(t[1..])
  {}

  lemma {:induction false} EscapeCode(t: bytes, v: nat, rest: bytes)
    requires t != [] && t[0] >= 0x80 && Scannable(t) && ToCode(t) == Some((v, rest))
    ensures Scannable(rest) && Escape(t) == [BACKSLASH, 117] + HexOf(v) + Escape(rest)
  {}

  lemma {:induction false} ScannableCode(t: bytes)
    requires t != [] && t[0] >= 0x80 && Scannable(t)
    ensures ToCode(t).Some?
  {}

  /** The branch for a multi-byte group. */
  method AddCode(sb: StringBuilder, s: bytes, i: nat) returns (next: nat)
    requires sb.Valid() && i < |s| && s[i] >= 0x80 && ToCode(s[i..]).Some? && sb.Free() >= 8
    modifies sb, sb.list
    ensures sb.Valid() && (sb.list == old(sb.list) || fresh(sb.list)) && sb.Free() >= 1
    ensures i < next <= |s| && exists v :: (
      ToCode(s[i..]) == Some((v, s[next..])) && sb.Contents() == old(sb.Contents()) + ([BACKSLASH, 117] + HexOf(v)))
  {
    sb.AddStringNoCheck([BACKSLASH, 117]);
    var v;
    v, next := ReadCode(s, i);
    sb.AddHexNoCheck(v);
    assert sb.Contents() == old(sb.Contents()) + ([BACKSLASH, 117] + HexOf(v));
  }

  /** One turn of the loop of JSONUString_toString; it leaves room for the closing quote. */
  method AddEscape(sb: StringBuilder, s: bytes, i: nat) returns (next: nat, ghost chunk: bytes)
    requires sb.Valid() && i < |s| && Scannable(s[i..])
    modifies sb, sb.list
    ensures sb.Valid() && (sb.list == old(sb.list) || fresh(sb.list))
    ensures i < next <= |s| && Scannable(s[next..]) && Escape(s[i..]) == chunk + Escape(s[next..])
    ensures sb.Contents() == old(sb.Contents()) + chunk && sb.Free() >= 1
  {
    sb.EnsureSize(8);
    if s[i] >= 0x80 {
      ScannableCode(s[i..]);
      next := AddCode(sb, s, i);
      ghost var v :| ToCode(s[i..]) == Some((v, s[next..]))
        && sb.Contents() == old(sb.Contents()) + ([BACKSLASH, 117] + HexOf(v));
      chunk := [BACKSLASH, 117] + HexOf(v);
      EscapeCode(s[i..], v, s[next..]);
    } else {
      next := i + 1;
      assert s[i..][1..] == s[next..];
      EscapeAscii(s[i..]);
      chunk := EscapeByte(s[i]);
      sb.AddStringNoCheck(EscapeByte(s[i]));
    }
  }

  lemma {:induction false} Regroup(a: bytes, b: bytes, c: bytes, d: bytes)
    ensures a + b + c + d == a + (b + c + d)
    ensures a + b + c == a + (b + c)
  {}

  /** What has been written for the bytes before s[i]. */
  ghost predicate EscapedUpTo(s: bytes, i: nat, escaped: bytes) {
    i <= |s| && Scannable(s) && Scannable(s[i..]) && Escape(s) == escaped + Escape(s[i..])
  }

  lemma {:induction false} EscapedEnds(s: bytes, escaped: bytes)
    requires Scannable(s)
    ensures EscapedUpTo(s, 0, [])
    ensures EscapedUpTo(s, |s|, escaped) ==> Escape(s) == escaped
  {
    assert s[0..] == s && [] + Escape(s) == Escape(s);
    assert s[|s|..] == [] && escaped + [] == escaped;
  }

  lemma {:induction false} EscapedMore(s: bytes, i: nat, escaped: bytes, next: nat, chunk: bytes)
    requires EscapedUpTo(s, i, escaped) && next <= |s| && Scannable(s[next..])
    requires Escape(s[i..]) == chunk + Escape(s[next..])
    ensures EscapedUpTo(s, next, escaped + chunk)
  {
    assert escaped + (chunk + Escape(s[next..])) == (escaped + chunk) + Escape(s[next..]);
  }

  /** JSONUString_toString: every write fits the room reserved before it, the closing quote included. */
  method AddEscaped(sb: StringBuilder, s: bytes)
    requires sb.Valid() && Scannable(s)
    modifies sb, sb.list
    ensures sb.Valid() && (sb.list == old(sb.list) || fresh(sb.list))
    ensures sb.Contents() == old(sb.Contents()) + ([QUOTE] + Escape(s) + [QUOTE])
  {
    sb.EnsureSize(|s| + 2);
    sb.AddNoCheck(QUOTE);
    ghost var base := sb.Contents();
    ghost var escaped: bytes := [];
    var i := 0;
    EscapedEnds(s, escaped);
    while i < |s|
      invariant sb.Valid() && (sb.list == old(sb.list) || fresh(sb.list))
      invariant EscapedUpTo(s, i, escaped) && sb.Contents() == base + escaped && sb.Free() >= 1
      decreases |s| - i
    {
      ghost var before, chunk := i, [];
      i, chunk := AddEscape(sb, s, i);
      EscapedMore(s, before, escaped, i, chunk);
      Regroup(base, escaped, chunk, []);
      escaped := escaped + chunk;
    }
    EscapedEnds(s, escaped);
    sb.AddNoCheck(QUOTE);
    Regroup(old(sb.Contents()), [QUOTE], escaped, [QUOTE]);
  }

  /** _JSON_toString. */
  method AddJson(sb: StringBuilder, j: Json)
    requires sb.Valid() && Printable(j)
    modifies sb, sb.list
    ensures sb.Valid() && (sb.list == old(sb.list) || fresh(sb.list))
    ensures sb.Contents() == old(sb.Contents()) + Print(j)
    decreases j, 1
  {
    match j {
      case Null => sb.AddString(NULL);
      case Bool(b) =>
        sb.EnsureSize(5);
        sb.AddStringNoCheck(if b then TRUE else FALSE);
      case Int32(n) => sb.AddInt(n);
      case Str(s) => AddPlain(sb, s);
      case UStr(s) => AddEscaped(sb, s);
      case Arr(items) => AddArray(sb, j);
      case Obj(m) => AddObject(sb, j);
    }
  }

  /** The comma before every part but the first. */
  function Separator(i: nat): bytes {
    if i > 0 then [COMMA] else []
  }

  lemma {:induction false} JoinNext(base: bytes, parts: seq<bytes>, part: bytes)
    ensures base + Join(parts) + Separator(|parts|) + part == base + Join(parts + [part])
  {
    JoinSnoc(parts, part);
    if parts == [] {
      assert base + Join(parts) + Separator(|parts|) == base;
    } else {
      Regroup(base, Join(parts), [COMMA], part);
    }
  }

  method AddSeparator(sb: StringBuilder, i: nat)
    requires sb.Valid()
    modifies sb, sb.list
    ensures sb.Valid() && (sb.list == old(sb.list) || fresh(sb.list))
    ensures sb.Contents() == old(sb.Contents()) + Separator(i)
  {
    if i > 0 {
      sb.Add(COMMA);
    }
  }

  /** JSONArray_toString. */
  method AddArray(sb: StringBuilder, j: Json)
    requires sb.Valid() && j.Arr? && Printable(j)
    modifies sb, sb.list
    ensures sb.Valid() && (sb.list == old(sb.list) || fresh(sb.list))
    ensures sb.Contents() == old(sb.Contents()) + Print(j)
    decreases j, 0
  {
    var items := j.items;
    ghost var parts := PrintAll(items);
    sb.Add(LBRACKET);
    ghost var base := sb.Contents();
    var i := 0;
    while i < |items|
      invariant i <= |items| && sb.Valid() && (sb.list == old(sb.list) || fresh(sb.list))
      invariant sb.Contents() == base + Join(parts[..i])
    {
      PrintableAt(items, i);
      JoinNext(base, parts[..i], parts[i]);
      assert parts[..i + 1] == parts[..i] + [parts[i]];
      AddSeparator(sb, i);
      AddJson(sb, items[i]);
      i := i + 1;
    }
    assert parts[..i] == parts;
    sb.Add(RBRACKET);
    Regroup(old(sb.Contents()), [LBRACKET], Join(parts), [RBRACKET]);
  }

  ghost function MemberPart(s: Slot<Member>, hashed: bool): bytes
    requires Shown(s, hashed) && PrintableSlot(s, hashed)
  {
    PrintSlot(s, hashed)[0]
  }

  /** JSONObjectElement_toString on a used slot. */
  method AddMember(sb: StringBuilder, s: Slot<Member>, ghost hashed: bool)
    requires sb.Valid() && Shown(s, hashed) && PrintableSlot(s, hashed)
    modifies sb, sb.list
    ensures sb.Valid() && (sb.list == old(sb.list) || fresh(sb.list))
    ensures sb.Contents() == old(sb.Contents()) + MemberPart(s, hashed)
    decreases s, 2
  {
    match s {
      case Used(_, m) =>
        AddPlain(sb, m.name);
        sb.Add(COLON);
        AddJson(sb, m.value);
        Regroup(old(sb.Contents()), [QUOTE] + m.name + [QUOTE], [COLON], Print(m.value));
        assert MemberPart(s, hashed) == [QUOTE] + m.name + [QUOTE] + [COLON] + Print(m.value);
    }
  }

  /** What the members printed so far amount to when the next record is the one in slot p. */
  lemma {:induction false} NextPart(slots: seq<Slot<Member>>, hashed: bool, i: nat, p: nat)
    requires PrintableSlots(slots, hashed) && i <= p < |slots| && Shown(slots[p], hashed)
    requires forall q :: i <= q < p ==> !Shown(slots[q], hashed)
    ensures PrintableSlots(slots[..i], hashed) && PrintableSlots(slots[..p + 1], hashed)
    ensures PrintableSlot(slots[p], hashed)
    ensures PrintSlots(slots[..p + 1], hashed) == PrintSlots(slots[..i], hashed) + [MemberPart(slots[p], hashed)]
  {
    HiddenPrintNothing(slots, hashed, i, p);
    PrintableSlotAt(slots, hashed, p);
  }

  /** The parts printed before iterator index i. */
  ghost predicate PartsBefore(slots: seq<Slot<Member>>, hashed: bool, i: nat, parts: seq<bytes>) {
    i <= |slots| && PrintableSlots(slots[..i], hashed) && parts == PrintSlots(slots[..i], hashed)
  }

  /** One turn of the loop of JSONObject_toString. */
  method AddNext(sb: StringBuilder, slots: seq<Slot<Member>>, ghost hashed: bool, p: nat, ghost i: nat, n: nat,
                 ghost base: bytes, ghost parts: seq<bytes>)
    returns (ghost more: seq<bytes>)
    requires sb.Valid() && PrintableSlots(slots, hashed) && i <= p < |slots| && Shown(slots[p], hashed)
    requires forall q :: i <= q < p ==> !Shown(slots[q], hashed)
    requires PartsBefore(slots, hashed, i, parts) && n == |parts| && sb.Contents() == base + Join(parts)
    modifies sb, sb.list
    ensures sb.Valid() && (sb.list == old(sb.list) || fresh(sb.list))
    ensures PartsBefore(slots, hashed, p + 1, more) && |more| == n + 1 && sb.Contents() == base + Join(more)
    decreases slots, 3
  {
    NextPart(slots, hashed, i, p);
    var s := slots[p];
    JoinNext(base, parts, MemberPart(s, hashed));
    more := parts + [MemberPart(s, hashed)];
    AddSeparator(sb, n);
    AddMember(sb, s, hashed);
  }

  /** JSONObject_toString: one member for each record kmap_next returns. */
  method AddObject(sb: StringBuilder, j: Json)
    requires sb.Valid() && j.Obj? && Printable(j)
    modifies sb, sb.list
    ensures sb.Valid() && (sb.list == old(sb.list) || fresh(sb.list))
    ensures sb.Contents() == old(sb.Contents()) + Print(j)
    decreases j, 0
  {
    var m, i, n := j.members, 0, 0;
    ghost var hashed := m.RawHash?;
    sb.Add(LBRACE);
    ghost var base := sb.Contents();
    ghost var parts: seq<bytes> := [];
    HiddenPrintNothing(m.slots, hashed, 0, 0);
    var r := RawNext(m, 0);
    while r.Some?
      invariant i <= |m.slots| && r == RawNext(m, i) && n == |parts|
      invariant sb.Valid() && (sb.list == old(sb.list) || fresh(sb.list))
      invariant PartsBefore(m.slots, hashed, i, parts) && sb.Contents() == base + Join(parts)
      decreases |m.slots| - i
    {
      NextIs(m, i);
      parts := AddNext(sb, m.slots, hashed, r.value, i, n, base, parts);
      i, n := r.value + 1, n + 1;
      r := RawNext(m, i);
    }
    NextIs(m, i);
    HiddenPrintNothing(m.slots, hashed, i, |m.slots|);
    assert m.slots[..|m.slots|] == m.slots;
    sb.Add(RBRACE);
    Regroup(old(sb.Contents()), [LBRACE], Join(parts), [RBRACE]);
  }

  /** JSON_toStringWithLength: the printed text and a NUL, which the length counts. */
  method ToStringWithLength(j: Json) returns (s: array<byte>, len: nat)
    requires Printable(j)
    ensures len == |Print(j)| + 1 && len <= s.Length && s[..len] == Print(j) + [0]
  {
    var sb := new StringBuilder();
    AddJson(sb, j);
    s, len := sb.ToString();
  }
}
