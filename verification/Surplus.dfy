/** Bytes behind a complete stream: when the decoder still accepts, and when it does not. */
module Surplus {
  import opened Bytes
  import opened Format
  import opened Stream
  import Varint

  /** Nothing but literals whose length wraps to zero. */
  predicate OnlyWraps(t: seq<byte>)
    decreases |t|
  {
    t == [] || (WrapHeader(t) && OnlyWraps(t[5..]))
  }

  /** Every element adds to the output, except for the literal whose length wraps. */
  lemma ElementAdds(s: seq<byte>, out: seq<byte>)
    requires |s| > 0 && ParseElement(s).Some? && Apply(out, ParseElement(s).value.0).Some?
    ensures WrapHeader(s) ==>
              ParseElement(s).value.1 == 5 && Apply(out, ParseElement(s).value.0) == Some(out)
    ensures !WrapHeader(s) ==> |Apply(out, ParseElement(s).value.0).value| > |out|
  {
    HeadersCompared(s);
    HeaderNotEmpty(s);
    hide ParseHeader, PlainHeader, CopyOut;
    if WrapHeader(s) {
      assert out + s[5..5] == out;
    }
  }

  lemma HeaderNotEmpty(s: seq<byte>)
    requires |s| > 0 && |s| >= TagLength(s[0])
    ensures PlainHeader(s).len > 0
  {
  }

  /** A stream adds nothing to the output exactly when it consists of such literals. */
  lemma {:induction false} DecodesToNothing(t: seq<byte>, out: seq<byte>)
    ensures OnlyWraps(t) ==> Decode(t, out) == Some(out)
    ensures Decode(t, out).Some? && |Decode(t, out).value| == |out| ==> OnlyWraps(t)
    decreases |t|
  {
    hide ParseElement, Apply, WrapHeader;
    if |t| > 0 {
      if OnlyWraps(t) { WrapIsElement(t, out); }
      if ParseElement(t).Some? && Apply(out, ParseElement(t).value.0).Some? {
        var (e, n) := ParseElement(t).value;
        ElementAdds(t, out);
        DecodeGrows(t[n..], Apply(out, e).value);
        DecodesToNothing(t[n..], Apply(out, e).value);
      }
    }
  }

  lemma WrapIsElement(t: seq<byte>, out: seq<byte>)
    requires WrapHeader(t)
    ensures |t| >= 5 && ParseElement(t).Some? && Apply(out, ParseElement(t).value.0).Some?
  {
    HeadersCompared(t);
  }

  /**
   * Behind an acceptable stream any bytes make the decoder fail, except for literals whose length
   * wraps to zero, which change nothing.
   */
  lemma SurplusBytes(s: seq<byte>, t: seq<byte>)
    requires ReferenceDecode(s).Some?
    ensures ReferenceDecode(s + t) == if OnlyWraps(t) then ReferenceDecode(s) else None
    ensures Varint.Lenient(s + t) == Varint.Lenient(s)
  {
    hide Decode, Varint.Raw, OnlyWraps;
    Varint.RawOfPrefix(s, t, 5);
    LenientPrefix(s);
    var (declared, n) := Varint.Lenient(s).value;
    assert (s + t)[n..] == s[n..] + t;
    DecodeOfPrefix(s[n..], t, []);
    var out := Decode(s[n..], []).value;
    DecodesToNothing(t, out);
    DecodeGrows(t, out);
  }

  /** The smallest case: the empty stream, and one byte too many. */
  lemma OneByteTooMany()
    ensures ReferenceDecode([0]) == Some([])
    ensures ReferenceDecode([0, 0]) == None
  {
    Varint.RoundTrip(0, []);
    Varint.Digits1(0);
    assert Varint.Encode(0) + [] == [0];
    assert [0][1..] == [];
    assert ReferenceDecode([0]) == Some([]);
    SurplusBytes([0], [0]);
    assert [0] + [0] == [0, 0];
  }
}
