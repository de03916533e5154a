/**
 * The reference meaning of a Snappy tag stream (sections 2.1 and 2.2 of the Snappy
 * compressed format description), one element and one byte at a time.
 */
module Format {
  import opened Bytes

  datatype Element = Literal(data: seq<byte>) | Copy(offset: nat, len: nat)

  /** An overlapping back reference: every copied byte may itself be copied again. */
  function CopyOut(out: seq<byte>, offset: nat, len: nat): (r: seq<byte>)
    requires 1 <= offset <= |out|
    ensures |r| == |out| + len
    decreases len
  {
    if len == 0 then out else CopyOut(out + [out[|out| - offset]], offset, len - 1)
  }

  function Apply(out: seq<byte>, e: Element): Option<seq<byte>> {
    match e
    case Literal(data) => Some(out + data)
    case Copy(offset, len) => if 1 <= offset <= |out| then Some(CopyOut(out, offset, len)) else None
  }

  function ApplyAll(out: seq<byte>, es: seq<Element>): Option<seq<byte>>
    decreases |es|
  {
    if |es| == 0 then Some(out)
    else
      match Apply(out, es[0])
      case None => None
      case Some(next) => ApplyAll(next, es[1..])
  }

  datatype Header = LiteralOf(len: nat) | CopyOf(offset: nat, len: nat)

  /** Bytes taken by the tag and its trailing length or offset bytes. */
  function TagLength(c: byte): (n: nat)
    ensures 1 <= n <= 5
  {
    if c % 4 == 0 then (if c / 4 < 60 then 1 else c / 4 - 58)
    else if c % 4 == 1 then 2
    else if c % 4 == 2 then 3
    else 5
  }

  /** The header as the format describes it. */
  function PlainHeader(s: seq<byte>): Header
    requires |s| > 0 && |s| >= TagLength(s[0])
  {
    var c := s[0];
    if c % 4 == 0 then
      LiteralOf(if c / 4 < 60 then c / 4 + 1 else LE(s[1..TagLength(c)]) + 1)
    else if c % 4 == 1 then
      CopyOf(c / 32 * 256 + s[1], 4 + c / 4 % 8)
    else
      CopyOf(LE(s[1..TagLength(c)]), c / 4 + 1)
  }

  /** The header as the decoder reads it: literal lengths are computed in 32 bits. */
  function ParseHeader(s: seq<byte>): Header
    requires |s| > 0 && |s| >= TagLength(s[0])
  {
    match PlainHeader(s)
    case LiteralOf(len) => LiteralOf(len % U32)
    case CopyOf(offset, len) => CopyOf(offset, len)
  }

  /** The element behind a header and the number of bytes both take, or None when s is too short. */
  function ElementOf(s: seq<byte>, h: Header): (r: Option<(Element, nat)>)
    requires |s| > 0 && |s| >= TagLength(s[0])
    ensures r.Some? ==> 1 <= r.value.1 <= |s|
  {
    var n := TagLength(s[0]);
    match h
    case LiteralOf(len) => if |s| < n + len then None else Some((Literal(s[n..n + len]), n + len))
    case CopyOf(offset, len) => Some((Copy(offset, len), n))
  }

  /** The first element and the number of bytes it takes, or None when the input ends too early. */
  function ParseElement(s: seq<byte>): (r: Option<(Element, nat)>)
    requires |s| > 0
    ensures r.Some? ==> 1 <= r.value.1 <= |s|
  {
    if |s| < TagLength(s[0]) then None else ElementOf(s, ParseHeader(s))
  }

  /** Runs a whole tag stream on top of the output produced so far. */
  function Decode(s: seq<byte>, out: seq<byte>): Option<seq<byte>>
    decreases |s|
  {
    if |s| == 0 then Some(out)
    else
      match ParseElement(s)
      case None => None
      case Some((e, n)) =>
        match Apply(out, e)
        case None => None
        case Some(next) => Decode(s[n..], next)
  }

  lemma {:induction false} CopyOutAdd(out: seq<byte>, offset: nat, a: nat, b: nat)
    requires 1 <= offset <= |out|
    ensures CopyOut(CopyOut(out, offset, a), offset, b) == CopyOut(out, offset, a + b)
    decreases a
  {
    if a > 0 { CopyOutAdd(out + [out[|out| - offset]], offset, a - 1, b); }
  }

  lemma {:induction false} CopyOutKeeps(out: seq<byte>, offset: nat, len: nat)
    requires 1 <= offset <= |out|
    ensures out <= CopyOut(out, offset, len)
    decreases len
  {
    if len > 0 { CopyOutKeeps(out + [out[|out| - offset]], offset, len - 1); }
  }

  /** Any buffer that keeps the old output and repeats itself at distance offset is the copy. */
  lemma {:induction false} CopyOutUnique(out: seq<byte>, offset: nat, len: nat, r: seq<byte>)
    requires 1 <= offset <= |out| && |r| == |out| + len && out <= r
    requires forall i :: |out| <= i < |r| ==> r[i] == r[i - offset]
    ensures r == CopyOut(out, offset, len)
    decreases len
  {
    if len > 0 {
      var next := out + [out[|out| - offset]];
      assert r[|out|] == out[|out| - offset];
      assert next <= r;
      CopyOutUnique(next, offset, len - 1, r);
    }
  }

  /** The bytes of a copy are the bytes found offset positions earlier. */
  lemma {:induction false} CopyOutRepeats(out: seq<byte>, offset: nat, len: nat, i: nat)
    requires 1 <= offset <= |out| && |out| <= i < |out| + len
    ensures CopyOut(out, offset, len)[i] == CopyOut(out, offset, len)[i - offset]
    decreases len
  {
    var next := out + [out[|out| - offset]];
    if i > |out| {
      CopyOutRepeats(next, offset, len - 1, i);
    } else {
      CopyOutKeeps(next, offset, len - 1);
    }
  }

  /** Decoding only ever appends to the output. */
  lemma {:induction false} DecodeGrows(s: seq<byte>, out: seq<byte>)
    ensures Decode(s, out).Some? ==> out <= Decode(s, out).value
    decreases |s|
  {
    if |s| > 0 && ParseElement(s).Some? {
      var (e, n) := ParseElement(s).value;
      if Apply(out, e).Some? {
        if e.Copy? { CopyOutKeeps(out, e.offset, e.len); }
        DecodeGrows(s[n..], Apply(out, e).value);
      }
    }
  }

  // ---------- parts of a stream ----------

  lemma HeaderOfPrefix(a: seq<byte>, t: seq<byte>)
    requires |a| > 0 && |a| >= TagLength(a[0])
    ensures ParseHeader(a + t) == ParseHeader(a)
  {
    hide LE;
    var n := TagLength(a[0]);
    assert (a + t)[1..n] == a[1..n];
  }

  lemma ElementOfPrefix(a: seq<byte>, t: seq<byte>)
    requires |a| > 0 && ParseElement(a).Some?
    ensures ParseElement(a + t) == ParseElement(a)
  {
    hide ParseHeader;
    HeaderOfPrefix(a, t);
    var n := TagLength(a[0]);
    if ParseHeader(a).LiteralOf? {
      assert (a + t)[n..n + ParseHeader(a).len] == a[n..n + ParseHeader(a).len];
    }
  }

  /** A decoded part of the stream can be taken off. */
  lemma {:induction false} DecodeOfPrefix(a: seq<byte>, t: seq<byte>, out: seq<byte>)
    requires Decode(a, out).Some?
    ensures Decode(a + t, out) == Decode(t, Decode(a, out).value)
    decreases |a|
  {
    hide ParseElement, Apply;
    if |a| == 0 {
      assert a + t == t;
    } else {
      ElementOfPrefix(a, t);
      var (e, n) := ParseElement(a).value;
      assert (a + t)[n..] == a[n..] + t;
      DecodeOfPrefix(a[n..], t, Apply(out, e).value);
    }
  }

  // ---------- where the decoder leaves the format ----------

  /** Decode without the 32-bit wrap of literal lengths. */
  function PlainDecode(s: seq<byte>, out: seq<byte>): Option<seq<byte>>
    decreases |s|
  {
    if |s| == 0 then Some(out)
    else if |s| < TagLength(s[0]) then None
    else
      match ElementOf(s, PlainHeader(s))
      case None => None
      case Some((e, n)) =>
        match Apply(out, e)
        case None => None
        case Some(next) => PlainDecode(s[n..], next)
  }

  /** The tag of a literal with a four-byte length, followed by the largest length. */
  predicate WrapHeader(s: seq<byte>) {
    |s| >= 5 && s[..5] == [0xfc, 0xff, 0xff, 0xff, 0xff]
  }

  /** Such a header stands at one of the element boundaries of s. */
  predicate MeetsWrap(s: seq<byte>)
    decreases |s|
  {
    && |s| > 0
    && (WrapHeader(s) || (ParseElement(s).Some? && MeetsWrap(s[ParseElement(s).value.1..])))
  }

  lemma {:induction false} LargestLE(s: seq<byte>)
    ensures LE(s) == Pow256(|s|) - 1 <==> forall i :: 0 <= i < |s| ==> s[i] == 0xff
  {
    if |s| > 0 {
      LEBound(s[1..]);
      LargestLE(s[1..]);
      assert forall i :: 1 <= i < |s| ==> s[i] == s[1..][i - 1];
    }
  }

  /** The wrap changes a header exactly when the length bytes are all ones. */
  lemma HeadersCompared(s: seq<byte>)
    requires |s| > 0 && |s| >= TagLength(s[0])
    ensures PlainHeader(s) != ParseHeader(s) <==> WrapHeader(s)
    ensures WrapHeader(s) ==> PlainHeader(s) == LiteralOf(U32) && ParseHeader(s) == LiteralOf(0)
  {
    var c := s[0];
    if c % 4 == 0 && c / 4 >= 60 {
      var bytes := s[1..TagLength(c)];
      LEBound(bytes);
      LargestLE(bytes);
      Pow256Values();
      assert forall i :: 0 <= i < |bytes| ==> bytes[i] == s[i + 1];
    }
  }

  lemma Pow256Values()
    ensures Pow256(1) == 0x100 && Pow256(2) == 0x1_0000 && Pow256(3) == 0x100_0000 && Pow256(4) == U32
  {
    assert Pow256(2) == 0x1_0000;
  }

  /**
   * On streams shorter than 2^32 bytes the decoder leaves the format exactly when it accepts a stream
   * with such a header, which the format then rejects.
   */
  lemma {:induction false} DecodersCompared(s: seq<byte>, out: seq<byte>)
    requires |s| < U32
    ensures Decode(s, out) != PlainDecode(s, out) <==> Decode(s, out).Some? && MeetsWrap(s)
    ensures Decode(s, out) != PlainDecode(s, out) ==> PlainDecode(s, out).None?
    decreases |s|
  {
    if |s| > 0 && |s| >= TagLength(s[0]) {
      HeadersCompared(s);
      if WrapHeader(s) {
        assert PlainDecode(s, out).None?;
      } else if ParseElement(s).Some? {
        var (e, n) := ParseElement(s).value;
        if Apply(out, e).Some? {
          DecodersCompared(s[n..], Apply(out, e).value);
        }
      }
    }
  }

  /** The shortest such stream: accepted with no output, although it announces 2^32 bytes. */
  lemma WrapExample()
    ensures Decode([0xfc, 0xff, 0xff, 0xff, 0xff], []) == Some([])
    ensures PlainDecode([0xfc, 0xff, 0xff, 0xff, 0xff], []) == None
  {
    var s: seq<byte> := [0xfc, 0xff, 0xff, 0xff, 0xff];
    HeadersCompared(s);
    var nothing: seq<byte> := [];
    assert ParseElement(s) == Some((Literal(nothing), 5));
    assert nothing + nothing == nothing && s[5..] == nothing;
    DecodersCompared(s, []);
  }
}
