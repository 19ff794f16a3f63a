/** What stands at the top of a text: the RFC 4627 mode accepts arrays and objects and nothing else. */
module TopLevel {
  import opened Basics
  import opened Grammar
  import opened ParserSpec
  import opened StringProofs
  import opened ParserProofs
  import opened Refusals

  /** Whatever the bytes are, a value that the parser returns is an array or an object. */
  lemma {:induction false} TopIsContainer(buffer: bytes)
    ensures ParseText(buffer).Ok? ==> ParseText(buffer).value.Arr? || ParseText(buffer).value.Obj?
  {}

  predicate IsContainer(n: Node) {
    n.NArray? || n.NEmptyArray? || n.NObject? || n.NEmptyObject?
  }

  lemma {:induction false} ContainerValue(n: Node)
    requires NodeOk(n) && NodeFits(n)
    ensures (Value(n).Arr? || Value(n).Obj?) <==> IsContainer(n)
  {}

  /** The parser on a value that fits, alone in the text but for white space, with a NUL behind it. */
  lemma {:induction false} TopParses(n: Node, pre: bytes, post: bytes, more: bytes)
    requires NodeOk(n) && AllSpace(pre) && AllSpace(post)
    ensures ParseText(pre + Text(n, post + ([0] + more))) ==
      if !NodeFits(n) then Fail(Undefined)
      else if IsContainer(n) then Ok(Value(n), more)
      else Fail(Thrown(TopLevelNotContainer))
  {
    var k := post + ([0] + more);
    var t := Text(n, k);
    var buffer := pre + t;
    SpaceFollows(n, post, 0, more);
    TextStarts(n, k);
    StartIsNotNul(n, k);
    assert t == [t[0]] + t[1..];
    SkipSpaces(pre, t[0], t[1..]);
    assert SkipSpace(buffer[0], buffer[1..]) == (t[0], t[1..]);
    if NodeFits(n) {
      NodeParses(n, k);
      SpacesToNul(post, more);
      ContainerValue(n);
    } else {
      NodeFails(n, k);
    }
  }

  lemma {:induction false} SpacesToNul(s: bytes, more: bytes)
    requires AllSpace(s)
    ensures SkipNext(s + ([0] + more)) == Ok(0, more)
  {
    if more == [] {
      OnlySpaces(s, 0);
      assert [0] + more == [0];
    } else {
      SkipSpaces(s, 0, more);
    }
  }

  lemma {:induction false} StartIsNotNul(n: Node, k: bytes)
    requires NodeOk(n) && Follows(n, k)
    ensures Text(n, k) != [] && Text(n, k)[0] != 0
  {
    TextStarts(n, k);
    assert KindOf(0) == KNothing;
  }

  /** With the NUL behind it the text is a string, a number or a literal between white space. */
  ghost predicate ScalarText(n: Node, pre: bytes, post: bytes, text: bytes) {
    && NodeOk(n) && NodeFits(n) && !n.NArray? && !n.NEmptyArray? && !n.NObject? && !n.NEmptyObject?
    && AllSpace(pre) && AllSpace(post) && text + [0] == pre + Text(n, post + [0])
  }

  /** A string, a number or a literal alone is not accepted, although it is well formed. */
  lemma {:induction false} ScalarIsRefused(n: Node, pre: bytes, post: bytes, more: bytes)
    requires NodeOk(n) && NodeFits(n) && !n.NArray? && !n.NEmptyArray? && !n.NObject? && !n.NEmptyObject?
    requires AllSpace(pre) && AllSpace(post)
    ensures ParseText(pre + Text(n, post + ([0] + more))) == Fail(Thrown(TopLevelNotContainer))
  {
    TopParses(n, pre, post, more);
  }

  /** Nor is a text of white space, or an empty one. */
  lemma {:induction false} BlankIsRefused(s: bytes, more: bytes)
    requires AllSpace(s)
    ensures ParseText(s + ([0] + more)) == Fail(Thrown(TopLevelNotContainer))
  {
    var buffer := s + ([0] + more);
    SpacesToNul(s, more);
    assert SkipNext(buffer) == Ok(0, more);
  }

  /** The texts of the grammar are those whose value is an array or an object. */
  lemma {:induction false} DocIff(d: Doc)
    requires NodeOk(d.top) && NodeFits(d.top)
    ensures DocOk(d) <==> AllSpace(d.pre) && AllSpace(d.post) && (Value(d.top).Arr? || Value(d.top).Obj?)
  {
    ContainerValue(d.top);
  }
}
