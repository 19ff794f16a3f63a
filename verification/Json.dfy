/** JSON values as the library holds them, and what they mean. */
module Json {
  import opened Basics
  import opened Table
  import opened RawMap

  /**
   The constructors follow the type tags. A double is kept as the exact decimal the parser hands to
   its floating-point conversion. Strings with escapes are told from plain ones by their tag only.
   */
  datatype Json =
    | Null
    | Bool(flag: bool)
    | Int32(n: int)
    | Int64(n: int)
    | Double(negative: bool, mantissa: nat, exponent: int)
    | Infinity(negative: bool)
    | Str(text: bytes)
    | UStr(text: bytes)
    | Arr(items: seq<Json>)
    | Obj(members: Raw<Member>)

  /** A record of an object: the key it was set with last, and the value. */
  datatype Member = Member(name: bytes, value: Json)

  /**
   What a value means: integers of either size are integers, strings of either kind are strings, objects are the
   maps that iteration yields. A dictionary whose count is wrong is iterated into records that are not there.
   */
  datatype Abs =
    | ANull
    | ABool(flag: bool)
    | AInt(n: int)
    | AReal(r: real)
    | AInfinity(negative: bool)
    | AString(text: bytes)
    | AArray(items: seq<Abs>)
    | AObject(members: map<bytes, Abs>)
    | AUnreadable

  function Pow10(e: int): (r: real)
    ensures r > 0.0
    decreases if e < 0 then -e else e
  {
    if e == 0 then 1.0 else if e > 0 then 10.0 * Pow10(e - 1) else Pow10(e + 1) / 10.0
  }

  function Times(a: real, b: real): real {
    a * b
  }

  /** m * 10^e */
  function Decimal(m: nat, e: int): real {
    Times(m as real, Pow10(e))
  }

  function Signed(negative: bool, r: real): real {
    if negative then -r else r
  }

  function Meaning(j: Json): Abs {
    match j
    case Null => ANull
    case Bool(b) => ABool(b)
    case Int32(n) => AInt(n)
    case Int64(n) => AInt(n)
    case Double(neg, m, e) => AReal(Signed(neg, Decimal(m, e)))
    case Infinity(neg) => AInfinity(neg)
    case Str(s) => AString(s)
    case UStr(s) => AString(s)
    case Arr(items) => AArray(MeaningAll(items))
    case Obj(r) => if Iterable(r) then AObject(MeaningSlots(r.slots, r.RawHash?)) else AUnreadable
  }

  function MeaningAll(items: seq<Json>): (r: seq<Abs>) {
    if items == [] then [] else [Meaning(items[0])] + MeaningAll(items[1..])
  }

  /** The map from names to the meanings of the values, read off the slots in iteration order. */
  function MeaningSlots(slots: seq<Slot<Member>>, hashed: bool): map<bytes, Abs> {
    if slots == [] then map[] else Entered(slots[0], hashed, MeaningSlots(slots[1..], hashed))
  }

  /** Iteration of a table passes over records whose hash is 0. */
  function Entered(s: Slot<Member>, hashed: bool, rest: map<bytes, Abs>): map<bytes, Abs>
    decreases s
  {
    match s
    case Free => rest
    case Used(key, m) => if hashed && key.hash == 0 then rest else rest[m.name := Meaning(m.value)]
  }

  lemma {:induction false} CleanMeaning(slots: seq<Slot<Member>>)
    requires NonZero(slots)
    ensures MeaningSlots(slots, true) == MeaningSlots(slots, false)
  {
    if slots != [] {
      var rest := slots[1..];
      assert forall p :: 0 <= p < |rest| ==> rest[p] == slots[p + 1];
      CleanMeaning(rest);
    }
  }
}
