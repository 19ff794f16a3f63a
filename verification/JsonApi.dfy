/** The library's two entry points, parse and print, and what the proofs about their specifications say of them. */
module JsonApi {
  import opened Basics
  import opened Json
  import opened Grammar
  import opened ParserSpec
  import opened Parser
  import opened ParserProofs
  import opened TopLevel
  import opened Malformed
  import opened ValueProofs
  import opened Acceptance
  import opened Meanings
  import opened Printer
  import RoundTrip

  /** JSON_parse_ on a text with the byte behind it. */
  method JsonParse(text: bytes, last: byte) returns (r: Result<Json>)
    ensures forall d: Doc :: DocOk(d) && DocText(d) == text ==>
      r == if Acceptable(d.top) then Good(Value(d.top)) else Bad(Undefined)
    ensures forall d: Doc :: DocOk(d) && DocText(d) == text && Faithful(d.top) ==>
      r.Good? && Meaning(r.value) == Denotes(d.top)
    ensures forall d: Doc :: DocOk(d) && DocText(d) == text && DifferentNames(d.top) ==>
      (r.Good? && Meaning(r.value) == Denotes(d.top) <==> Faithful(d.top))
    ensures r.Good? ==> r.value.Arr? || r.value.Obj?
    ensures last == 0 ==> forall n, pre, post :: ScalarText(n, pre, post, text) ==>
      r == Bad(Thrown(TopLevelNotContainer))
    ensures last == 0 && AllSpace(text) ==> r == Bad(Thrown(TopLevelNotContainer))
    ensures forall front, m :: FaultyText(front, m, text + [last]) ==> r == Bad(Thrown(ErrorOf(m)))
    ensures match ParseText(text + [last]) case Ok(j, _) => r == Good(j) case Fail(f) => r == Bad(f)
  {
    var ins := new InputStream(text, last);
    r := ins.Parse();
    forall d: Doc | DocOk(d) && DocText(d) == text
      ensures r == if Acceptable(d.top) then Good(Value(d.top)) else Bad(Undefined)
      ensures Faithful(d.top) ==> r.Good? && Meaning(r.value) == Denotes(d.top)
      ensures DifferentNames(d.top) ==> (r.Good? && Meaning(r.value) == Denotes(d.top) <==> Faithful(d.top))
    {
      TextAcceptedIff(d, last);
      if Faithful(d.top) { ParserIsComplete(d, last); }
      if DifferentNames(d.top) { TextReadIff(d, last); }
    }
    TopIsContainer(text + [last]);
    assert [0] + [] == [0];
    forall n, pre, post | ScalarText(n, pre, post, text)
      ensures ParseText(text + [0]) == Fail(Thrown(TopLevelNotContainer))
    {
      TopParses(n, pre, post, []);
    }
    forall front, m | FaultyText(front, m, text + [last])
      ensures ParseText(text + [last]) == Fail(Thrown(ErrorOf(m)))
    {
      MalformedIsRefused(front, m);
    }
    if AllSpace(text) { BlankIsRefused(text, []); }
  }

  /** JSON_toString and JSON_parse_ on what it returns. */
  method PrintAndParse(j: Json) returns (r: Result<Json>)
    requires RoundTrip.Survives(j) && (j.Arr? || j.Obj?)
    ensures r.Good? && Meaning(r.value) == Meaning(j)
  {
    RoundTrip.PrintThenParse(j, []);
    assert [0] + [] == [0];
    var s, len := ToStringWithLength(j);
    assert s[..len - 1] == s[..len][..len - 1] == Print(j);
    r := JsonParse(s[..len - 1], s[len - 1]);
  }
}
