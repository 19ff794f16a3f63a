/** The growing byte buffer of kjson/karray.h and kjson/kstring_builder.h. */
module Builder {
  import opened Basics
  import opened Bits
  import opened Numerals

  class StringBuilder {
    var list: array<byte>
    var size: nat
    var capacity: nat

    ghost predicate Valid()
      reads this
    {
      list.Length == capacity && size <= capacity && capacity > 0
    }

    /** Everything appended so far. */
    ghost function Contents(): bytes
      reads this, list
      requires Valid()
    {
      list[..size]
    }

    ghost function Free(): nat
      reads this
      requires Valid()
    {
      capacity - size
    }

    constructor ()
      ensures Valid() && fresh(list) && Contents() == []
    {
      capacity := 4;
      size := 0;
      list := new byte[4](_ => 0);
    }

    /** realloc: a larger block with the old bytes at its front. */
    method Realloc(n: nat)
      requires Valid() && n >= capacity
      modifies this
      ensures Valid() && fresh(list) && capacity == n && size == old(size)
      ensures Contents() == old(Contents())
    {
      var bigger := new byte[n](_ => 0);
      forall i | 0 <= i < size {
        bigger[i] := list[i];
      }
      list := bigger;
      capacity := n;
    }

    /** ARRAY_ensureSize: doubling until len more bytes fit. */
    method EnsureSize(len: nat)
      requires Valid()
      modifies this
      ensures Valid() && (list == old(list) || fresh(list))
      ensures Free() >= len && capacity >= old(capacity)
      ensures size + len <= old(capacity) ==> capacity == old(capacity)
      ensures size + len > old(capacity) ==> capacity < 2 * (size + len)
      ensures Contents() == old(Contents())
    {
      if size + len <= capacity {
        return;
      }
      var n := capacity;
      while size + len > n
        invariant capacity <= n < 2 * (size + len)
        decreases size + len - n
      {
        n := n * 2;
      }
      Realloc(n);
    }

    /** An append without a capacity check. */
    method AddNoCheck(c: byte)
      requires Valid() && size < capacity
      modifies `size, list
      ensures Valid() && Contents() == old(Contents()) + [c] && Free() == old(Free()) - 1
    {
      list[size] := c;
      size := size + 1;
    }

    /** ARRAY_add: it keeps one byte spare, growing to the next power of two above twice the capacity. */
    method Add(c: byte)
      requires Valid()
      modifies this, list
      ensures Valid() && (list == old(list) || fresh(list))
      ensures Contents() == old(Contents()) + [c]
      ensures old(size) + 1 < old(capacity) ==> list == old(list) && capacity == old(capacity)
      ensures old(size) + 1 >= old(capacity) ==> 2 * old(capacity) < capacity <= 4 * old(capacity)
    {
      if size + 1 >= capacity {
        Log2RoundsUp(capacity * 2 + 1);
        Realloc(Pow2(Log2(capacity * 2 + 1)));
      }
      AddNoCheck(c);
    }

    method AddStringNoCheck(s: bytes)
      requires Valid() && size + |s| <= capacity
      modifies `size, list
      ensures Valid() && Contents() == old(Contents()) + s && Free() == old(Free()) - |s|
    {
      forall i | 0 <= i < |s| {
        list[size + i] := s[i];
      }
      size := size + |s|;
    }

    method AddString(s: bytes)
      requires Valid()
      modifies this, list
      ensures Valid() && (list == old(list) || fresh(list))
      ensures Contents() == old(Contents()) + s
    {
      EnsureSize(|s|);
      AddStringNoCheck(s);
    }

    /** string_builder_add_hex_no_check; after a code of at most six hex digits two bytes stay spare. */
    method AddHexNoCheck(v: nat)
      requires Valid() && v < 0x1_0000_0000
      modifies this, list
      ensures Valid() && (list == old(list) || fresh(list))
      ensures Contents() == old(Contents()) + HexOf(v) && (v < 0x100_0000 ==> Free() >= 2)
    {
      EnsureSize(8);
      assert Power(16, 6) == 0x100_0000 && Power(16, 8) == 0x1_0000_0000 by { assert Power(16, 3) == 4096; }
      HexOfLength(v, 8);
      if v < 0x100_0000 { HexOfLength(v, 6); }
      AddStringNoCheck(HexOf(v));
    }

    /** string_builder_add_int for a 32-bit integer. */
    method AddInt(i: int)
      requires Valid() && -0x8000_0000 <= i <= 0x7fff_ffff
      modifies this, list
      ensures Valid() && (list == old(list) || fresh(list))
      ensures Contents() == old(Contents()) + IntText(i)
    {
      EnsureSize(12);
      var n := if i < 0 then -i else i;
      assert n < Power(10, 10) by { assert Power(10, 3) == 1000; assert Power(10, 6) == 1000000; }
      DigitsOfLength(n, 10);
      AddStringNoCheck(IntText(i));
    }

    /** string_builder_tostring with the closing NUL; the builder is left without a buffer. */
    method ToString() returns (s: array<byte>, len: nat)
      requires Valid()
      modifies this, list
      ensures len <= s.Length && s[..len] == old(Contents()) + [0]
      ensures size == 0 && capacity == 0
    {
      Add(0);
      s, len := list, size;
      list := new byte[0];
      size := 0;
      capacity := 0;
    }
  }
}
