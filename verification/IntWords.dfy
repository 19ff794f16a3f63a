/** Integers as value words: how JSONInt_new stores an int64_t and how JSON_getInt reads it from an object. */
module IntWords {
  import opened Basics
  import opened Table
  import opened ObjectMap
  import opened RawMap
  import opened KeysOnly
  import opened Hash
  import opened NumBox
  import opened Signs
  import opened Json
  import opened Grammar
  import opened NumberProofs
  import opened ParserProofs
  import opened Objects
  import opened ValueProofs
  import opened ParserSpec

  /** JSONInt_new; address is where the new JSONInt64 would lie. */
  function NewIntWord(v: Word, address: Word): Word {
    if FitsInt32(v) then Box(Small(Truncate(v))) else Box(Pointer(TInt64, address))
  }

  /** The val fields of the JSONInt64 objects in memory. */
  type Memory = map<Word, Word>

  predicate IsInt(w: Word, memory: Memory) {
    TypeCode(w) == 2 || (TypeCode(w) == 11 && Val(w) in memory)
  }

  /** What JSON_getInt reads from a word: the low half with its sign extended, or the field the word points to. */
  function ReadInt(w: Word, memory: Memory): Word
    requires IsInt(w, memory)
  {
    if TypeCode(w) == 2 then Widen(Truncate(Val(w))) else memory[Val(w)]
  }

  lemma {:induction false} TruncateWidens(v: Word)
    requires FitsInt32(v)
    ensures Truncate(v) < 0x1_0000_0000 && Widen(Truncate(v)) == v
  {
    Signs.LowHalf(v);
    FitsAsBits(v);
    if v <= 0x7fff_ffff { SmallHalf(v); } else { LargeHalf(v); }
  }

  lemma {:induction false} SmallReads(n: Word)
    requires n < 0x1_0000_0000
    ensures var w := Box(Small(n)); TypeCode(w) == 2 && Truncate(Val(w)) == n
  {
    WidenTruncates(n);
    Tagged(n, TInt32);
  }

  lemma {:induction false} PointerReads(address: Word)
    requires address < POINTER_LIMIT
    ensures var w := Box(Pointer(TInt64, address)); TypeCode(w) == 11 && Val(w) == address
  {
    Tagged(address, TInt64);
  }

  lemma {:induction false} NopIsDouble()
    ensures TypeCode(NOP) == 0
  {}

  /** An int64_t is read back as it was stored; it takes memory exactly when 32 bits do not hold it. */
  lemma {:induction false} ReadsBack(v: Word, address: Word, memory: Memory)
    requires address < POINTER_LIMIT && (FitsInt32(v) || (address in memory && memory[address] == v))
    ensures var w := NewIntWord(v, address);
      IsInt(w, memory) && ReadInt(w, memory) == v && w != NOP && (TypeCode(w) == 2 <==> FitsInt32(v))
  {
    NopIsDouble();
    if FitsInt32(v) {
      TruncateWidens(v);
      SmallReads(Truncate(v));
    } else {
      PointerReads(address);
    }
  }

  // ---------------------------------------------------------------- parsed integers

  /** The word holds the integer value j. */
  ghost predicate HoldsInt(w: Word, memory: Memory, j: Json) {
    && IsInt(w, memory) && w != NOP
    && j == ParserSpec.NewInt(Signed64(ReadInt(w, memory)))
    && (TypeCode(w) == 2 <==> j.Int32?)
  }

  /** The word that JSONInt_new makes holds the integer it was called with. */
  lemma {:induction false} NewIntHolds(v: Word, address: Word, memory: Memory)
    requires address < POINTER_LIMIT && (FitsInt32(v) || (address in memory && memory[address] == v))
    ensures HoldsInt(NewIntWord(v, address), memory, ParserSpec.NewInt(Signed64(v)))
  {
    ReadsBack(v, address, memory);
  }

  lemma {:induction false} HeldIsRead(w: Word, memory: Memory, j: Json)
    requires HoldsInt(w, memory, j)
    ensures IsInt(w, memory) && w != NOP && (j.Int32? || j.Int64?) && Signed64(ReadInt(w, memory)) == j.n
  {}

  /** The number an integer literal stands for. */
  function LiteralOf(n: Number): int
    requires NumberOk(n)
  {
    if n.negative then -(Mantissa(n) as int) else Mantissa(n)
  }

  lemma {:induction false} LiteralValue(n: Number, i: int)
    requires NumberOk(n) && NumberFits(n) && IsInteger(n) && i == LiteralOf(n)
    ensures NumberValue(n) == ParserSpec.NewInt(i) && NumberDenotes(n) == AInt(i)
  {}

  /** The word that is made for an integer literal in range reads as the value the literal denotes. */
  lemma {:induction false} LiteralIsRead(n: Number, v: Word, address: Word, memory: Memory)
    requires NumberOk(n) && NumberFits(n) && IsInteger(n) && Signed64(v) == LiteralOf(n)
    requires address < POINTER_LIMIT && (FitsInt32(v) || (address in memory && memory[address] == v))
    ensures var w := NewIntWord(v, address);
      HoldsInt(w, memory, NumberValue(n)) && AInt(Signed64(ReadInt(w, memory))) == NumberDenotes(n)
  {
    var i := Signed64(v);
    LiteralValue(n, i);
    NewIntHolds(v, address, memory);
    HeldIsRead(NewIntWord(v, address), memory, ParserSpec.NewInt(i));
    NewIntIs(i);
  }

  lemma {:induction false} NewIntIs(i: int)
    ensures ParserSpec.NewInt(i).n == i
  {}

  // ---------------------------------------------------------------- tables of words

  /** JSONInt_new made the word for the integer j, and what it stored in memory is still there. */
  ghost predicate MadeFor(w: Word, memory: Memory, j: Json) {
    exists v: Word, address: Word :: w == NewIntWord(v, address) && address < POINTER_LIMIT
      && j == ParserSpec.NewInt(Signed64(v)) && (FitsInt32(v) || (address in memory && memory[address] == v))
  }

  /** The table of the words of a table's values. */
  function WordsOfValues(m: MapState<Member>, word: Member -> Word): (words: MapState<Word>)
    ensures words.hashed == m.hashed && |words.slots| == |m.slots|
  {
    MapState(m.hashed, seq(|m.slots|, p requires 0 <= p < |m.slots| =>
      match m.slots[p] case Free => Free case Used(key, val) => Used(key, word(val))))
  }

  predicate IsIntValue(j: Json) {
    j.Int32? || j.Int64?
  }

  /** The words of one table hold the integers among the values of another with the same keys in the same slots. */
  ghost predicate WordsFor(m: MapState<Member>, words: MapState<Word>, memory: Memory) {
    && m.hashed == words.hashed && |m.slots| == |words.slots|
    && forall p :: 0 <= p < |m.slots| ==>
         match m.slots[p]
         case Free => words.slots[p].Free?
         case Used(key, val) =>
           && words.slots[p].Used? && words.slots[p].key == key
           && (IsIntValue(val.value) ==> HoldsInt(words.slots[p].val, memory, val.value))
  }

  lemma {:induction false} MadeHolds(w: Word, memory: Memory, j: Json)
    requires MadeFor(w, memory, j)
    ensures HoldsInt(w, memory, j)
  {
    var v: Word, address: Word :| w == NewIntWord(v, address) && address < POINTER_LIMIT
      && j == ParserSpec.NewInt(Signed64(v)) && (FitsInt32(v) || (address in memory && memory[address] == v));
    NewIntHolds(v, address, memory);
  }

  /** A table whose integers were made by JSONInt_new holds them. */
  lemma {:induction false} WordsAreHeld(m: MapState<Member>, word: Member -> Word, memory: Memory)
    requires forall p :: 0 <= p < |m.slots| && m.slots[p].Used? && IsIntValue(m.slots[p].val.value) ==>
      MadeFor(word(m.slots[p].val), memory, m.slots[p].val.value)
    ensures WordsFor(m, WordsOfValues(m, word), memory)
  {
    forall p | 0 <= p < |m.slots| && m.slots[p].Used? && IsIntValue(m.slots[p].val.value)
      ensures HoldsInt(word(m.slots[p].val), memory, m.slots[p].val.value)
    {
      MadeHolds(word(m.slots[p].val), memory, m.slots[p].val.value);
    }
  }

  lemma {:induction false} WordsSound(m: MapState<Member>, words: MapState<Word>, memory: Memory)
    requires WfMap(m) && Clean(m) && WordsFor(m, words, memory)
    ensures WfMap(words) && Clean(words) && MapView(words).Keys == MapView(m).Keys
  {
    SameWfMap(m, words);
    assert Keys(m.slots) == Keys(words.slots);
    assert MapView(words).Keys == Keys(words.slots) && MapView(m).Keys == Keys(m.slots);
  }

  lemma {:induction false} WordAt(m: MapState<Member>, words: MapState<Word>, memory: Memory, key: JString)
    requires WfMap(m) && Clean(m) && WordsFor(m, words, memory)
    requires key in MapView(m) && IsIntValue(MapView(m)[key].value)
    ensures key in MapView(words) && HoldsInt(MapView(words)[key], memory, MapView(m)[key].value)
  {
    WordsSound(m, words, memory);
    var p :| 0 <= p < |m.slots| && m.slots[p].Used? && m.slots[p].key == key;
    ViewAt(m.slots, p);
    ViewAt(words.slots, p);
  }

  // ---------------------------------------------------------------- JSON_getInt

  /** JSON_getInt on an object's table of words: 0 for a missing key and for the word that says there is no value. */
  function GetInt(r: Raw<Word>, key: JString, memory: Memory): Word
    requires Shape(r) && RawFind(r, key) != BadPointer
    requires var a := RawFind(r, key);
      a.Found? && r.slots[a.slot].val != NOP ==> IsInt(r.slots[a.slot].val, memory)
  {
    match RawFind(r, key)
    case Missing => 0
    case Found(p) =>
      var w := r.slots[p].val;
      if w == NOP then 0 else ReadInt(w, memory)
  }

  lemma {:induction false} ZeroIsZero()
    ensures Signed64(0) == 0
  {}

  lemma {:induction false} FindsWord(words: MapState<Word>, key: JString)
    requires WfMap(words) && Clean(words) && key.hash != 0
    ensures var a := RawFind(Lift(words), key);
      if key in MapView(words) then a.Found? && words.slots[a.slot].val == MapView(words)[key] else a == Missing
  {
    FindLifts(words, key);
    GetMapFinds(words, key);
  }

  /** JSON_getInt follows no bad pointer, reads no word that is not an integer's, and answers n. */
  ghost predicate Answers(words: MapState<Word>, key: JString, memory: Memory, n: int) {
    && Shape(Lift(words)) && RawFind(Lift(words), key) != BadPointer
    && (var a := RawFind(Lift(words), key);
        a.Found? && words.slots[a.slot].val != NOP ==> IsInt(words.slots[a.slot].val, memory))
    && Signed64(GetInt(Lift(words), key, memory)) == n
  }

  /** JSON_getInt answers the integer stored for the key, and 0 when there is none. */
  lemma {:induction false} GetIntAnswers(m: MapState<Member>, words: MapState<Word>, memory: Memory, key: JString)
    requires WfMap(m) && Clean(m) && WordsFor(m, words, memory) && key.hash != 0
    requires key in MapView(m) ==> IsIntValue(MapView(m)[key].value)
    ensures Answers(words, key, memory, if key in MapView(m) then MapView(m)[key].value.n else 0)
  {
    WordsSound(m, words, memory);
    FindsWord(words, key);
    if key in MapView(m) {
      WordAt(m, words, memory, key);
      HeldIsRead(MapView(words)[key], memory, MapView(m)[key].value);
    } else {
      ZeroIsZero();
    }
  }

  /** The value +0.0 is taken for a missing one. */
  lemma {:induction false} ZeroRealIsMissing(words: MapState<Word>, memory: Memory, key: JString)
    requires WfMap(words) && Clean(words) && key.hash != 0
    requires key in MapView(words) && MapView(words)[key] == Box(Real(0))
    ensures var a := RawFind(Lift(words), key); a.Found? && words.slots[a.slot].val == NOP
    ensures GetInt(Lift(words), key, memory) == 0
  {
    FindsWord(words, key);
  }

  // ---------------------------------------------------------------- parsed objects

  /** Asked for a name that is not confused with another one of the object's. */
  ghost predicate AskedFor(ms: Members, text: bytes)
    requires MembersOk(ms)
  {
    Fnv1a(text) != 0 && forall i :: 0 <= i < |Pairs(ms)| ==> !Confusable(Pairs(ms)[i].0, text)
  }

  lemma {:induction false} AskedName(ms: Members, text: bytes)
    requires MembersOk(ms) && MembersFaithful(ms) && NamesFaithful(Texts(Pairs(ms))) && AskedFor(ms, text)
    ensures text in MembersDenote(ms) <==> MakeKey(text) in Firsts(Pairs(ms))
    ensures text in MembersDenote(ms) ==> MembersDenote(ms)[text] == Meaning(Firsts(Pairs(ms))[MakeKey(text)].value)
  {
    MembersMean(ms);
    FirstsMean(ms, text);
    if MakeKey(text) in Firsts(Pairs(ms)) {
      var i := FirstsAreMembers(Pairs(ms), MakeKey(text));
      ConfusableIff(Pairs(ms)[i].0, text);
    }
  }

  /** JSONInt_new has made the words of the object's integers. */
  ghost predicate WordsMade(pairs: seq<(bytes, Json)>, word: Member -> Word, memory: Memory) {
    forall i :: 0 <= i < |pairs| && IsIntValue(pairs[i].1) ==>
      MadeFor(word(Member(pairs[i].0, pairs[i].1)), memory, pairs[i].1)
  }

  lemma {:induction false} ParsedWords(pairs: seq<(bytes, Json)>, m: MapState<Member>, word: Member -> Word,
                                       memory: Memory)
    requires WfMap(m) && MapView(m) == Firsts(pairs) && WordsMade(pairs, word, memory)
    ensures WordsFor(m, WordsOfValues(m, word), memory)
  {
    forall p | 0 <= p < |m.slots| && m.slots[p].Used? && IsIntValue(m.slots[p].val.value)
      ensures MadeFor(word(m.slots[p].val), memory, m.slots[p].val.value)
    {
      ViewAt(m.slots, p);
      var i := FirstsAreMembers(pairs, m.slots[p].key);
    }
    WordsAreHeld(m, word, memory);
  }

  lemma {:induction false} IntIsInt(j: Json)
    requires Meaning(j).AInt?
    ensures IsIntValue(j) && Meaning(j) == AInt(j.n)
  {}

  /**
   JSON_getInt on a parsed object, whose integers JSONInt_new has put into words, answers the integer that the text
   denotes for the name, and 0 if it has no such member.
   */
  lemma {:induction false} ParsedIntIsRead(ms: Members, word: Member -> Word, memory: Memory, text: bytes)
      returns (m: MapState<Member>, words: MapState<Word>)
    requires MembersOk(ms) && MembersFaithful(ms) && NamesFaithful(Texts(Pairs(ms))) && NoZero(Texts(Pairs(ms)))
    requires AskedFor(ms, text) && WordsMade(Pairs(ms), word, memory)
    requires text in MembersDenote(ms) ==> MembersDenote(ms)[text].AInt?
    ensures Make(NewMap(|Pairs(ms)|), Pairs(ms)) == Some(Lift(m)) && words == WordsOfValues(m, word)
    ensures Answers(words, MakeKey(text), memory, if text in MembersDenote(ms) then MembersDenote(ms)[text].n else 0)
  {
    var key := MakeKey(text);
    m := PlainMap(Pairs(ms));
    words := WordsOfValues(m, word);
    ParsedWords(Pairs(ms), m, word, memory);
    AskedName(ms, text);
    if key in MapView(m) { IntIsInt(MapView(m)[key].value); }
    GetIntAnswers(m, words, memory, key);
  }
}
