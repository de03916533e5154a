/** Encoding of elements as bytes, its size, and what the reference decoder reads back. */
module Encoder {
  import opened Bytes
  import opened Format

  /** Literal encoding: one tag byte, 0..4 length bytes, then the bytes themselves. */
  function LiteralHeader(len: nat): seq<byte>
    requires 1 <= len <= I32
  {
    var n := len - 1;
    if n < 60 then [4 * n]
    else
      LengthBytes(n);
      [4 * (59 + |LEBytes(n)|)] + LEBytes(n)
  }

  lemma LengthBytes(n: nat)
    requires 0 < n < I32
    ensures 1 <= |LEBytes(n)| <= 4
    ensures n < 256 ==> |LEBytes(n)| == 1
    ensures 256 <= n < 65536 ==> |LEBytes(n)| == 2
  {
    assert Pow256(2) == 65536;
    assert Pow256(4) == U32;
    LEBytesLength(n, 4);
    if n < 256 {
      assert LEBytes(n / 256) == [];
    } else if n < 65536 {
      assert LEBytes(n / 256 / 256) == [];
    }
  }

  function EncodeLiteral(data: seq<byte>): seq<byte>
    requires 1 <= |data| <= I32
  {
    LiteralHeader(|data|) + data
  }

  /** One copy tag of length 4..64. */
  function EncodeShortCopy(offset: nat, len: nat): seq<byte>
    requires 4 <= len <= 64 && offset < 65536
  {
    if len < 12 && offset < 2048 then
      [1 + 4 * (len - 4) + 32 * (offset / 256), offset % 256]
    else
      [2 + 4 * (len - 1), offset % 256, offset / 256]
  }

  /** A long copy is split so that every piece has length 4..64. */
  function EncodeCopy(offset: nat, len: nat): seq<byte>
    requires len >= 4 && offset < 65536
    decreases len
  {
    if len >= 68 then EncodeShortCopy(offset, 64) + EncodeCopy(offset, len - 64)
    else if len > 64 then EncodeShortCopy(offset, 60) + EncodeShortCopy(offset, len - 60)
    else EncodeShortCopy(offset, len)
  }

  /** The elements that compress_fragment may emit. */
  predicate Encodable(e: Element) {
    match e
    case Literal(data) => 1 <= |data| <= 65536
    case Copy(offset, len) => 1 <= offset < 65536 && len >= 4
  }

  predicate AllEncodable(es: seq<Element>) {
    forall i :: 0 <= i < |es| ==> Encodable(es[i])
  }

  /** The bytes of an encodable element; the compressor never emits any other. */
  function Encode(e: Element): seq<byte> {
    if !Encodable(e) then []
    else
      match e
      case Literal(data) => EncodeLiteral(data)
      case Copy(offset, len) => EncodeCopy(offset, len)
  }

  function EncodeAll(es: seq<Element>): seq<byte>
    decreases |es|
  {
    if |es| == 0 then [] else Encode(es[0]) + EncodeAll(es[1..])
  }

  // ---------- reading back ----------

  lemma HeaderReadBack(len: nat, rest: seq<byte>)
    requires 1 <= len <= I32
    ensures var s := LiteralHeader(len) + rest;
            TagLength(s[0]) == |LiteralHeader(len)| && ParseHeader(s) == LiteralOf(len)
  {
    var n := len - 1;
    if n >= 60 {
      LengthBytes(n);
      LEBytesValue(n);
      var s := LiteralHeader(len) + rest;
      assert s[1..1 + |LEBytes(n)|] == LEBytes(n);
    }
  }

  /** For every literal length the header and payload are read back exactly. */
  lemma LiteralRoundTrip(data: seq<byte>, rest: seq<byte>)
    requires 1 <= |data| <= I32
    ensures ParseElement(EncodeLiteral(data) + rest) == Some((Literal(data), |EncodeLiteral(data)|))
  {
    var header := LiteralHeader(|data|);
    var s := EncodeLiteral(data) + rest;
    HeaderReadBack(|data|, data + rest);
    assert s == header + (data + rest);
    assert s[|header|..|header| + |data|] == data;
  }

  lemma TwoByteTag(s: seq<byte>, offset: nat, len: nat)
    requires 4 <= len < 12 && offset < 2048 && |s| >= 2
    requires s[0] == 1 + 4 * (len - 4) + 32 * (offset / 256) && s[1] == offset % 256
    ensures TagLength(s[0]) == 2 && ParseHeader(s) == CopyOf(offset, len)
  {
    hide LE;
    var c := s[0];
    assert c / 32 == offset / 256 && c / 4 % 8 == len - 4;
  }

  lemma ThreeByteTag(s: seq<byte>, offset: nat, len: nat)
    requires 1 <= len <= 64 && offset < 65536 && |s| >= 3
    requires s[0] == 2 + 4 * (len - 1) && s[1] == offset % 256 && s[2] == offset / 256
    ensures TagLength(s[0]) == 3 && ParseHeader(s) == CopyOf(offset, len)
  {
    LETwo(s[1..3]);
    hide LE;
  }

  lemma LETwo(s: seq<byte>)
    requires |s| == 2
    ensures LE(s) == s[0] as int + 256 * s[1] as int
  {
    assert LE(s[1..]) == s[1] as int;
  }

  lemma ShortCopyRoundTrip(offset: nat, len: nat, rest: seq<byte>)
    requires 4 <= len <= 64 && offset < 65536
    ensures ParseElement(EncodeShortCopy(offset, len) + rest)
         == Some((Copy(offset, len), |EncodeShortCopy(offset, len)|))
    ensures |EncodeShortCopy(offset, len)| <= len - 1
  {
    hide ParseHeader;
    var s := EncodeShortCopy(offset, len) + rest;
    if len < 12 && offset < 2048 {
      TwoByteTag(s, offset, len);
    } else {
      ThreeByteTag(s, offset, len);
    }
  }

  /** No other tag for the same copy is shorter. */
  lemma {:induction false} ShortestCopyTag(offset: nat, len: nat, s: seq<byte>)
    requires 4 <= len <= 64 && offset < 65536
    requires |s| > 0 && ParseElement(s).Some? && ParseElement(s).value.0 == Copy(offset, len)
    ensures ParseElement(s).value.1 >= |EncodeShortCopy(offset, len)|
  {
    hide LE;
  }

  /** No other encoding of the same literal is shorter. */
  lemma {:induction false} ShortestLiteral(data: seq<byte>, s: seq<byte>)
    requires 1 <= |data| <= 65536
    requires |s| > 0 && ParseElement(s).Some? && ParseElement(s).value.0 == Literal(data)
    ensures ParseElement(s).value.1 >= |EncodeLiteral(data)|
  {
    var n, k := |data| - 1, TagLength(s[0]) - 1;
    if n >= 60 {
      LEBound(s[1..k + 1]);
      Pow256Values();
      hide LE, Pow256;
      assert s[0] / 4 >= 60 && LE(s[1..k + 1]) == n;
      LEBytesLength(n, k);
    }
  }

  /** Whatever follows, decoding s takes the output from `out` to `next`. */
  ghost predicate Yields(s: seq<byte>, out: seq<byte>, next: seq<byte>) {
    forall rest: seq<byte> {:trigger Decode(s + rest, out)} :: Decode(s + rest, out) == Decode(rest, next)
  }

  lemma YieldsConcat(s: seq<byte>, t: seq<byte>, out: seq<byte>, mid: seq<byte>, end: seq<byte>)
    requires Yields(s, out, mid) && Yields(t, mid, end)
    ensures Yields(s + t, out, end)
  {
    forall rest: seq<byte> ensures Decode(s + t + rest, out) == Decode(rest, end) {
      assert s + t + rest == s + (t + rest);
      assert Decode(s + (t + rest), out) == Decode(t + rest, mid);
    }
  }

  lemma YieldsNothing(out: seq<byte>)
    ensures Yields([], out, out)
  {
    forall rest: seq<byte> ensures Decode([] + rest, out) == Decode(rest, out) {
      assert [] + rest == rest;
    }
  }

  lemma ShortCopyYields(offset: nat, len: nat, out: seq<byte>)
    requires 4 <= len <= 64 && 1 <= offset < 65536 && offset <= |out|
    ensures Yields(EncodeShortCopy(offset, len), out, CopyOut(out, offset, len))
  {
    var first := EncodeShortCopy(offset, len);
    forall rest: seq<byte> ensures Decode(first + rest, out) == Decode(rest, CopyOut(out, offset, len)) {
      ShortCopyRoundTrip(offset, len, rest);
      assert (first + rest)[|first|..] == rest;
    }
  }

  lemma LiteralYields(data: seq<byte>, out: seq<byte>)
    requires 1 <= |data| <= I32
    ensures Yields(EncodeLiteral(data), out, out + data)
  {
    var first := EncodeLiteral(data);
    forall rest: seq<byte> ensures Decode(first + rest, out) == Decode(rest, out + data) {
      LiteralRoundTrip(data, rest);
      assert (first + rest)[|first|..] == rest;
    }
  }

  lemma TwoCopiesYield(s: seq<byte>, t: seq<byte>, offset: nat, a: nat, b: nat, out: seq<byte>)
    requires 1 <= offset <= |out|
    requires Yields(s, out, CopyOut(out, offset, a))
    requires Yields(t, CopyOut(out, offset, a), CopyOut(CopyOut(out, offset, a), offset, b))
    ensures Yields(s + t, out, CopyOut(out, offset, a + b))
  {
    CopyOutAdd(out, offset, a, b);
    YieldsConcat(s, t, out, CopyOut(out, offset, a), CopyOut(out, offset, a + b));
  }

  /** The pieces of a split copy act together as one overlapping copy of the whole length. */
  lemma {:induction false} CopyYields(offset: nat, len: nat, out: seq<byte>)
    requires 1 <= offset < 65536 && offset <= |out| && len >= 4
    ensures Yields(EncodeCopy(offset, len), out, CopyOut(out, offset, len))
    decreases len
  {
    var first := if len >= 68 then 64 else if len > 64 then 60 else len;
    ShortCopyYields(offset, first, out);
    if len > 64 {
      CopyYields(offset, len - first, CopyOut(out, offset, first));
      TwoCopiesYield(EncodeShortCopy(offset, first), EncodeCopy(offset, len - first), offset, first, len - first, out);
    }
  }

  /** A copy always takes fewer bytes than it produces. */
  lemma {:induction false} CopySize(offset: nat, len: nat)
    requires offset < 65536 && len >= 4
    ensures |EncodeCopy(offset, len)| <= len - 1
    decreases len
  {
    if len >= 68 { CopySize(offset, len - 64); }
  }

  lemma ElementYields(e: Element, out: seq<byte>)
    requires Encodable(e) && Apply(out, e).Some?
    ensures Yields(Encode(e), out, Apply(out, e).value)
  {
    match e {
      case Literal(data) => LiteralYields(data, out);
      case Copy(offset, len) => CopyYields(offset, len, out);
    }
  }

  /** Decoding an encoded element list is applying the elements. */
  lemma {:induction false} EncodeAllYields(es: seq<Element>, out: seq<byte>)
    requires AllEncodable(es) && ApplyAll(out, es).Some?
    ensures Yields(EncodeAll(es), out, ApplyAll(out, es).value)
    decreases |es|
  {
    if |es| == 0 {
      YieldsNothing(out);
    } else {
      var mid := Apply(out, es[0]).value;
      ElementYields(es[0], out);
      EncodeAllYields(es[1..], mid);
      YieldsConcat(Encode(es[0]), EncodeAll(es[1..]), out, mid, ApplyAll(out, es).value);
    }
  }

  // ---------- sizes ----------

  /** An upper bound for the bytes of an element: 1..3 bytes of overhead, or one byte saved. */
  ghost function Cost(e: Element): int {
    match e
    case Literal(data) => |data| + (if |data| <= 60 then 1 else if |data| <= 256 then 2 else 3)
    case Copy(offset, len) => len - 1
  }

  ghost function TotalCost(es: seq<Element>): int
    decreases |es|
  {
    if |es| == 0 then 0 else Cost(es[0]) + TotalCost(es[1..])
  }

  lemma ElementSize(e: Element)
    requires Encodable(e)
    ensures |Encode(e)| <= Cost(e)
  {
    match e {
      case Literal(data) =>
        if |data| > 60 { LengthBytes(|data| - 1); }
      case Copy(offset, len) =>
        CopySize(offset, len);
    }
  }

  lemma {:induction false} EncodeAllSize(es: seq<Element>)
    requires AllEncodable(es)
    ensures |EncodeAll(es)| <= TotalCost(es)
    decreases |es|
  {
    if |es| > 0 {
      ElementSize(es[0]);
      EncodeAllSize(es[1..]);
    }
  }

  lemma {:induction false} EncodeAllAppend(es: seq<Element>, fs: seq<Element>)
    ensures EncodeAll(es + fs) == EncodeAll(es) + EncodeAll(fs)
    decreases |es|
  {
    if |es| == 0 {
      assert es + fs == fs;
    } else {
      assert (es + fs)[1..] == es[1..] + fs;
      EncodeAllAppend(es[1..], fs);
    }
  }
}
