/** The NaN-boxed value word of kjson/knumbox.h, bit for bit, and the type codes of kjson/kjson.h. */
module NumBox {
  import opened Basics

  type Word = bv64

  const TAG_MASK: Word := 0xffff_8000_0000_0000
  const TAG_BASE_MASK: Word := 0x1fff0

  /** Every pointer is below this: 47 bits of address. */
  const POINTER_LIMIT: Word := 0x8000_0000_0000

  datatype Type = TDouble | TInt32 | TInt64 | TBool | TNull | TString | TUString | TObject | TArray | TError

  /** The Flag constants, which are also the numbers of kjson_type. */
  function Flag(t: Type): Word {
    match t
    case TDouble => 0x0
    case TInt32 => 0x2
    case TBool => 0x4
    case TNull => 0x6
    case TObject => 0x3
    case TString => 0x1
    case TUString => 0x9
    case TArray => 0x5
    case TInt64 => 0xb
    case TError => 0xf
  }

  function TypeTag(t: Type): Word {
    (TAG_BASE_MASK | Flag(t)) << 47
  }

  function Tag(w: Word): Word {
    w & TAG_MASK
  }

  function Val(w: Word): Word {
    w & !TAG_MASK
  }

  predicate IsDouble(w: Word) {
    Tag(w) <= TypeTag(TDouble)
  }

  /** JSON_type as the number it returns. */
  function TypeCode(w: Word): Word {
    if IsDouble(w) then 0 else (Tag(w) >> 47) & 15
  }

  /** What a word stands for: a double's bit pattern, an int32_t in two's complement, or a pointer of some type. */
  datatype Boxed =
    | Real(bits: Word)
    | Small(n: Word)
    | Truth(flag: bool)
    | Nothing
    | Pointer(kind: Type, address: Word)

  predicate IsPointerType(t: Type) {
    t == TInt64 || t == TString || t == TUString || t == TObject || t == TArray || t == TError
  }

  /** What the value constructors are called with. */
  predicate Argument(b: Boxed) {
    match b
    case Small(n) => n < 0x1_0000_0000
    case Pointer(kind, _) => IsPointerType(kind)
    case _ => true
  }

  /** Conversion of an int32_t to uint64_t, which copies the sign into the upper half. */
  function Widen(n: Word): Word {
    if n < 0x8000_0000 then n else n | 0xffff_ffff_0000_0000
  }

  /** Truncation of a word to int32_t. */
  function Truncate(w: Word): Word {
    w & 0xffff_ffff
  }

  /** ValueF, ValueI, ValueB, ValueN and the constructors for pointers. */
  function Box(b: Boxed): Word
    requires Argument(b)
  {
    match b
    case Real(bits) => bits
    case Small(n) => Truncate(Widen(n)) | TypeTag(TInt32)
    case Truth(flag) => (if flag then 1 else 0) | TypeTag(TBool)
    case Nothing => TypeTag(TNull)
    case Pointer(kind, address) => address | TypeTag(kind)
  }

  /** Reading a word back by its type: None for the codes that no constructor uses. */
  function Unbox(w: Word): Option<Boxed> {
    var code := TypeCode(w);
    if code == 0 then Some(Real(w))
    else if code == 2 then Some(Small(Truncate(Val(w))))
    else if code == 4 then Some(Truth(Val(w) != 0))
    else if code == 6 then Some(Nothing)
    else if code == 11 then Some(Pointer(TInt64, Val(w)))
    else if code == 1 then Some(Pointer(TString, Val(w)))
    else if code == 9 then Some(Pointer(TUString, Val(w)))
    else if code == 3 then Some(Pointer(TObject, Val(w)))
    else if code == 5 then Some(Pointer(TArray, Val(w)))
    else if code == 15 then Some(Pointer(TError, Val(w)))
    else None
  }

  /** Pointers fit their 47 bits and doubles do not look like tagged words. */
  predicate Fits(b: Boxed) {
    match b
    case Real(bits) => bits < 0xfff8_8000_0000_0000
    case Pointer(_, address) => address < POINTER_LIMIT
    case _ => true
  }

  // ---------------------------------------------------------------- bit patterns

  lemma {:induction false} LowBits(w: Word)
    ensures w < POINTER_LIMIT <==> w & TAG_MASK == 0
  {}

  lemma {:induction false} Parts(payload: Word, tag: Word)
    requires payload & TAG_MASK == 0 && tag & TAG_MASK == tag
    ensures (payload | tag) & TAG_MASK == tag && (payload | tag) & !TAG_MASK == payload
  {}

  lemma {:induction false} Tags(t: Type)
    ensures TypeTag(t) & TAG_MASK == TypeTag(t)
    ensures t != TDouble ==> TypeTag(t) > TypeTag(TDouble) && (TypeTag(t) >> 47) & 15 == Flag(t)
  {}

  lemma {:induction false} Tagged(payload: Word, t: Type)
    requires payload < POINTER_LIMIT && t != TDouble
    ensures var w := payload | TypeTag(t); Tag(w) == TypeTag(t) && Val(w) == payload && TypeCode(w) == Flag(t)
  {
    LowBits(payload);
    Tags(t);
    Parts(payload, TypeTag(t));
  }

  lemma {:induction false} DoubleIff(bits: Word)
    ensures IsDouble(bits) <==> bits < 0xfff8_8000_0000_0000
    ensures IsDouble(bits) <==> TypeCode(bits) == 0
  {}

  lemma {:induction false} LowHalf(n: Word)
    requires n < 0x1_0000_0000
    ensures Truncate(n) == n
  {}

  lemma {:induction false} HighHalfCut(n: Word)
    ensures Truncate(n | 0xffff_ffff_0000_0000) == Truncate(n)
  {}

  lemma {:induction false} WidenTruncates(n: Word)
    requires n < 0x1_0000_0000
    ensures Truncate(Widen(n)) == Truncate(n) == n
  {
    LowHalf(n);
    if n < 0x8000_0000 {
      assert Widen(n) == n;
    } else {
      assert Widen(n) == n | 0xffff_ffff_0000_0000;
      HighHalfCut(n);
    }
  }

  // ---------------------------------------------------------------- a faithful sum

  lemma {:induction false} RealBack(bits: Word)
    ensures Unbox(bits) == Some(Real(bits)) <==> bits < 0xfff8_8000_0000_0000
  {
    DoubleIff(bits);
  }

  lemma {:induction false} SmallBack(n: Word)
    requires n < 0x1_0000_0000
    ensures Unbox(Box(Small(n))) == Some(Small(n))
  {
    WidenTruncates(n);
    Tagged(n, TInt32);
  }

  lemma {:induction false} TruthBack(flag: bool)
    ensures Unbox(Box(Truth(flag))) == Some(Truth(flag))
  {
    Tagged(if flag then 1 else 0, TBool);
  }

  lemma {:induction false} NothingBack()
    ensures Unbox(TypeTag(TNull)) == Some(Nothing)
  {
    Tagged(0, TNull);
  }

  lemma {:induction false} ValIsLow(w: Word)
    ensures Val(w) < POINTER_LIMIT
  {}

  lemma {:induction false} AddressIsLow(w: Word)
    ensures var r := Unbox(w); r.Some? && r.value.Pointer? ==> r.value.address < POINTER_LIMIT
  {
    ValIsLow(w);
  }

  lemma {:induction false} LowPointerBack(kind: Type, address: Word)
    requires IsPointerType(kind) && address < POINTER_LIMIT
    ensures Unbox(Box(Pointer(kind, address))) == Some(Pointer(kind, address))
  {
    Tagged(address, kind);
  }

  lemma {:induction false} PointerBack(kind: Type, address: Word)
    requires IsPointerType(kind)
    ensures Unbox(Box(Pointer(kind, address))) == Some(Pointer(kind, address)) <==> address < POINTER_LIMIT
  {
    AddressIsLow(Box(Pointer(kind, address)));
    if address < POINTER_LIMIT {
      LowPointerBack(kind, address);
    }
  }

  /** A value is read back as it was put in exactly when it fits; nothing else is mistaken for it. */
  lemma {:induction false} UnboxBox(b: Boxed)
    requires Argument(b)
    ensures Unbox(Box(b)) == Some(b) <==> Fits(b)
  {
    match b {
      case Real(bits) => RealBack(bits);
      case Small(n) => SmallBack(n);
      case Truth(flag) => TruthBack(flag);
      case Nothing => NothingBack();
      case Pointer(kind, address) => PointerBack(kind, address);
    }
  }

  /** No two values share a word. */
  lemma {:induction false} BoxInjective(a: Boxed, b: Boxed)
    requires Argument(a) && Argument(b) && Fits(a) && Fits(b) && Box(a) == Box(b)
    ensures a == b
  {
    UnboxBox(a);
    UnboxBox(b);
  }

  // ---------------------------------------------------------------- NaN and zero

  /** An IEEE 754 double that is not a number: all exponent bits set and a fraction other than 0. */
  predicate IsNaN(bits: Word) {
    bits & 0x7ff0_0000_0000_0000 == 0x7ff0_0000_0000_0000 && bits & 0x000f_ffff_ffff_ffff != 0
  }

  /** Every double that is a number fits, and so do the NaNs without a sign or with a small payload. */
  lemma {:induction false} NumbersFit(bits: Word)
    ensures !IsNaN(bits) ==> Fits(Real(bits))
    ensures !Fits(Real(bits)) ==> bits & 0xfff8_0000_0000_0000 == 0xfff8_0000_0000_0000
  {}

  /** JSON_NOP, the word that says there is no value. */
  const NOP: Word := 0

  /** The only value whose word is JSON_NOP is the double +0.0, so a stored 0.0 is taken for a missing value. */
  lemma {:induction false} NopIsZero(b: Boxed)
    requires Argument(b) && Fits(b)
    ensures Box(b) == NOP <==> b == Real(0)
  {
    if Box(b) == NOP {
      BoxInjective(b, Real(0));
    }
  }

  /** The test on the lowest bit of the type in JSONObject_Retain picks out the values held by a pointer. */
  lemma {:induction false} OddIsPointer(b: Boxed)
    requires Argument(b) && Fits(b)
    ensures TypeCode(Box(b)) & 1 == 1 <==> b.Pointer?
  {
    match b {
      case Real(bits) => DoubleIff(bits);
      case Small(n) => WidenTruncates(n); Tagged(n, TInt32);
      case Truth(flag) => Tagged(if flag then 1 else 0, TBool);
      case Nothing => Tagged(0, TNull);
      case Pointer(kind, address) => Tagged(address, kind);
    }
  }

  // ---------------------------------------------------------------- the numbers themselves

  /** The seventeen bits above a payload. */
  lemma {:induction false} TagWords()
    ensures TypeTag(TString) == 0xfff8_8000_0000_0000 && TypeTag(TInt32) == 0xfff9_0000_0000_0000
    ensures TypeTag(TObject) == 0xfff9_8000_0000_0000 && TypeTag(TBool) == 0xfffa_0000_0000_0000
    ensures TypeTag(TArray) == 0xfffa_8000_0000_0000 && TypeTag(TNull) == 0xfffb_0000_0000_0000
    ensures TypeTag(TUString) == 0xfffc_8000_0000_0000 && TypeTag(TInt64) == 0xfffd_8000_0000_0000
    ensures TypeTag(TError) == 0xffff_8000_0000_0000
  {}

  /** The word of a pointer: the address, which fits under them, and above it the bits that say what it points to. */
  lemma {:induction false} PointerWord(kind: Type, address: Word)
    requires IsPointerType(kind) && address < 0x8000_0000_0000
    ensures Box(Pointer(kind, address)) & 0x7fff_ffff_ffff == address
    ensures Box(Pointer(kind, address)) & 0xffff_8000_0000_0000 == TypeTag(kind)
  {
    Tagged(address, kind);
  }

  /** The constructors for pointers are there for every type but these four. */
  lemma {:induction false} PointerTypes(t: Type, address: Word)
    ensures Argument(Pointer(t, address)) <==> t != TDouble && t != TInt32 && t != TBool && t != TNull
  {}

  /** The words of the other values. */
  lemma {:induction false} ScalarWords(bits: Word, n: Word)
    requires n < 0x1_0000_0000
    ensures Box(Real(bits)) == bits && Box(Small(n)) == n | 0xfff9_0000_0000_0000
    ensures Box(Truth(false)) == 0xfffa_0000_0000_0000 && Box(Truth(true)) == 0xfffa_0000_0000_0001
    ensures Box(Nothing) == 0xfffb_0000_0000_0000
  {
    TagWords();
    WidenTruncates(n);
  }

  /** The number of kjson_type that JSON_type gives for each value. */
  lemma {:induction false} TypeNumbers(b: Boxed)
    requires Argument(b) && Fits(b)
    ensures TypeCode(Box(b)) == match b {
      case Real(_) => 0
      case Small(_) => 2
      case Truth(_) => 4
      case Nothing => 6
      case Pointer(kind, _) =>
        if kind == TString then 1 else if kind == TObject then 3 else if kind == TArray then 5
        else if kind == TUString then 9 else if kind == TInt64 then 11 else 15 }
  {
    match b {
      case Real(bits) => DoubleIff(bits);
      case Small(n) => WidenTruncates(n); Tagged(n, TInt32);
      case Truth(flag) => Tagged(if flag then 1 else 0, TBool);
      case Nothing => Tagged(0, TNull);
      case Pointer(kind, address) => Tagged(address, kind);
    }
  }

  /** And for any word at all: 0 up to the first tagged one, then the four bits above the payload. */
  lemma {:induction false} AnyTypeNumber(w: Word)
    ensures TypeCode(w) == if w < 0xfff8_8000_0000_0000 then 0 else (w >> 47) & 15
  {}

  /** A double is not a number when its magnitude lies above that of an infinity. */
  lemma {:induction false} NaNIff(bits: Word)
    ensures IsNaN(bits) <==> bits & 0x7fff_ffff_ffff_ffff > 0x7ff0_0000_0000_0000
  {}
}
