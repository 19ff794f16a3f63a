/**
 JSONArray of kjson/kjson.h and kjson/kjson.c: up to two items inline, more in a list on the heap
 whose pointer lies in the same memory as the first inline item.
 */
module JsonArray {
  import opened Basics
  import opened Bits
  import opened NumBox

  const SMALL_ARRAY_LIMIT := 2

  /** The eight bytes that ary[0] and list share. */
  datatype Cell = Inline(word: Word) | Heap(list: array<Word>)

  datatype Op = Append(word: Word) | Get(index: nat) | Put(index: nat, word: Word)

  /** What the operations do to a sequence, and what they answer; JSONArray_set answers true even out of range. */
  function Step(items: seq<Word>, op: Op): (seq<Word>, Option<Word>) {
    match op
    case Append(w) => (items + [w], None)
    case Get(i) => (items, Some(if i < |items| then items[i] else NOP))
    case Put(i, w) => (if i < |items| then items[i := w] else items, None)
  }

  function Run(items: seq<Word>, ops: seq<Op>): (seq<Word>, seq<Option<Word>>) {
    if ops == [] then (items, [])
    else
      var (more, answers) := Run(items, ops[..|ops| - 1]);
      var (last, answer) := Step(more, ops[|ops| - 1]);
      (last, answers + [answer])
  }

  class JsonArray {
    var size: nat          // first in both members of the union
    var capacity: nat      // of the list; padding in the inline form
    var first: Cell        // ary[0] or list
    var second: Word       // ary[1]

    ghost function Memory(): set<object>
      reads this
    {
      if first.Heap? then {first.list} else {}
    }

    /** The list member of the union is the one in use, and has room for its items. */
    ghost predicate Listed()
      reads this
    {
      first.Heap? && first.list.Length == capacity && size <= capacity && capacity > SMALL_ARRAY_LIMIT
    }

    ghost predicate Valid()
      reads this
    {
      && (size > SMALL_ARRAY_LIMIT ==> Listed())
      && (0 < size <= SMALL_ARRAY_LIMIT ==> first.Inline?)
    }

    ghost function Items(): (r: seq<Word>)
      reads this, Memory()
      requires Valid()
      ensures |r| == size
    {
      if size > SMALL_ARRAY_LIMIT then first.list[..size]
      else if size == 2 then [first.word, second]
      else if size == 1 then [first.word]
      else []
    }

    /** JSONArray_new. ARRAY_init sets the size back to 0, so that only a small array has the size asked for. */
    constructor (n: nat)
      ensures Valid() && fresh(Memory())
      ensures size == (if n > SMALL_ARRAY_LIMIT then 0 else n)
      ensures n > SMALL_ARRAY_LIMIT ==> Listed() && capacity == n
    {
      size, capacity, first, second := n, 0, Inline(NOP), NOP;
      new;
      if n > SMALL_ARRAY_LIMIT {
        InitList(n);
      }
    }

    /** ARRAY_init. */
    method InitList(n: nat)
      requires n > SMALL_ARRAY_LIMIT
      modifies this
      ensures Listed() && fresh(Memory()) && size == 0 && capacity == n
    {
      var list := new Word[n](_ => NOP);
      first := Heap(list);
      capacity := n;
      size := 0;
    }

    /** realloc: the items move to a longer list. */
    method Realloc(n: nat)
      requires Listed() && n >= capacity
      modifies this
      ensures Listed() && fresh(Memory()) && size == old(size) && capacity == n
      ensures first.list[..size] == old(first.list[..size])
    {
      var list, longer := first.list, new Word[n](_ => NOP);
      forall i | 0 <= i < size {
        longer[i] := list[i];
      }
      first, capacity := Heap(longer), n;
    }

    /** ARRAY_add. */
    method AddToList(w: Word)
      requires Listed()
      modifies this, Memory()
      ensures Listed() && (Memory() == old(Memory()) || fresh(Memory()))
      ensures first.list[..size] == old(first.list[..size]) + [w]
      ensures old(size) + 1 < old(capacity) ==> first == old(first) && capacity == old(capacity)
      ensures old(size) + 1 >= old(capacity) ==> 2 * old(capacity) < capacity <= 4 * old(capacity)
    {
      if size + 1 >= capacity {
        Log2RoundsUp(capacity * 2 + 1);
        Realloc(Pow2(Log2(capacity * 2 + 1)));
      }
      first.list[size] := w;
      size := size + 1;
    }

    /** The two inline items move to a list: what JSONArray_append does at length 2 before it adds the third. */
    method Spill()
      requires Valid() && size == 2
      modifies this
      ensures Listed() && fresh(Memory()) && first.list[..size] == old(Items())
    {
      var e0, e1 := first.word, second;
      InitList(3);
      AddToList(e0);
      AddToList(e1);
    }

    /** JSONArray_append. */
    method Append(w: Word)
      requires Valid()
      modifies this, Memory()
      ensures Valid() && (Memory() <= old(Memory()) || fresh(Memory()))
      ensures Items() == old(Items()) + [w]
    {
      if size > SMALL_ARRAY_LIMIT {
        AddToList(w);
      } else if size == 2 {
        Spill();
        AddToList(w);
      } else if size == 1 {
        size := size + 1;
        second := w;
      } else {
        size := size + 1;
        first := Inline(w);
      }
    }

    /** JSONArray_get. */
    method Get(i: nat) returns (w: Word)
      requires Valid()
      ensures w == if i < |Items()| then Items()[i] else NOP
    {
      if i < size {
        if size > SMALL_ARRAY_LIMIT {
          return first.list[i];
        }
        return if i == 0 then first.word else second;
      }
      return NOP;
    }

    /** JSONArray_set on an array: true whether the index is in range or not. */
    method Put(i: nat, w: Word) returns (ok: bool)
      requires Valid()
      modifies this, Memory()
      ensures Valid() && Memory() == old(Memory()) && ok
      ensures Items() == if i < |old(Items())| then old(Items())[i := w] else old(Items())
    {
      if i < size {
        if size > SMALL_ARRAY_LIMIT {
          first.list[i] := w;
        } else if i == 0 {
          first := Inline(w);
        } else {
          second := w;
        }
      }
      ok := true;
    }

    /** The end of parseArray: the items are moved in and the size is set again. */
    constructor FromStack(items: seq<Word>)
      ensures Valid() && fresh(Memory()) && Items() == items
    {
      size, capacity, first, second := |items|, 0, Inline(NOP), NOP;
      new;
      if |items| > SMALL_ARRAY_LIMIT {
        InitList(|items|);
        forall i | 0 <= i < |items| {
          first.list[i] := items[i];
        }
      } else {
        first := if |items| > 0 then Inline(items[0]) else first;
        second := if |items| > 1 then items[1] else second;
      }
      size := |items|;
      assert first.Heap? ==> first.list[..size] == items;
    }

    method Perform(op: Op) returns (answer: Option<Word>)
      requires Valid()
      modifies this, Memory()
      ensures Valid() && (Memory() <= old(Memory()) || fresh(Memory()))
      ensures (Items(), answer) == Step(old(Items()), op)
    {
      answer := None;
      match op {
        case Append(w) => this.Append(w);
        case Get(i) => var w := this.Get(i); answer := Some(w);
        case Put(i, w) => var ok := this.Put(i, w);
      }
    }

    /** Any run of operations, across the switch from inline to list, agrees with the run on a sequence. */
    method PerformAll(ops: seq<Op>) returns (answers: seq<Option<Word>>)
      requires Valid()
      modifies this, Memory()
      ensures Valid() && (Memory() <= old(Memory()) || fresh(Memory()))
      ensures (Items(), answers) == Run(old(Items()), ops)
    {
      answers := [];
      var i := 0;
      assert ops[..0] == [];
      while i < |ops|
        invariant 0 <= i <= |ops| && Valid() && (Memory() <= old(Memory()) || fresh(Memory()))
        invariant (Items(), answers) == Run(old(Items()), ops[..i])
      {
        var answer := Perform(ops[i]);
        answers := answers + [answer];
        assert ops[..i + 1][..i] == ops[..i];
        i := i + 1;
      }
      assert ops[..i] == ops;
    }
  }

  /** What was appended last is read at its index until something is put there. */
  lemma {:induction false} AppendsKeep(items: seq<Word>, ops: seq<Op>, i: nat)
    requires i < |items| && forall k :: 0 <= k < |ops| && ops[k].Put? ==> ops[k].index != i
    ensures var r := Run(items, ops).0; |r| >= |items| && r[i] == items[i]
  {
    if ops != [] {
      AppendsKeep(items, ops[..|ops| - 1], i);
    }
  }
}
