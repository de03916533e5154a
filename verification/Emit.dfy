/** The emitting half of the compressor: literals and copies written in place. */
module Emit {
  import opened Bytes
  import opened Encoder

  /** The bytes w stand in the buffer from position p on. */
  ghost predicate Holds(buf: seq<byte>, p: nat, w: seq<byte>) {
    p + |w| <= |buf| && forall i :: 0 <= i < |w| ==> buf[p + i] == w[i]
  }

  /** Nothing outside [lo, hi) has changed. */
  ghost predicate SameOutside(before: seq<byte>, after: seq<byte>, lo: nat, hi: nat) {
    |after| == |before| && forall j :: 0 <= j < |after| && !(lo <= j < hi) ==> after[j] == before[j]
  }

  lemma SameOutsideRefl(a: seq<byte>, lo: nat, hi: nat)
    ensures SameOutside(a, a, lo, hi)
  {
  }

  lemma SameOutsideTrans(a: seq<byte>, b: seq<byte>, c: seq<byte>, lo: nat, hi: nat)
    requires SameOutside(a, b, lo, hi) && SameOutside(b, c, lo, hi)
    ensures SameOutside(a, c, lo, hi)
  {
  }

  /** Two changes in a row stay inside any range that covers both. */
  lemma SameOutsideJoin(a: seq<byte>, b: seq<byte>, c: seq<byte>, lo: nat, hi: nat, from: nat, to: nat)
    requires SameOutside(a, b, lo, hi) && SameOutside(b, c, from, to) && lo <= from && to <= hi
    ensures SameOutside(a, c, lo, hi)
  {
  }

  /** memcpy from read-only input into the output buffer (also the 8-byte unaligned copy). */
  method CopyIn(dst: array<byte>, at: nat, f: seq<byte>, from: nat, n: nat)
    requires at + n <= dst.Length && from + n <= |f|
    modifies dst
    ensures Holds(dst[..], at, f[from..from + n])
    ensures SameOutside(old(dst[..]), dst[..], at, at + n)
  {
    forall i | 0 <= i < n {
      dst[at + i] := f[from + i];
    }
  }

  lemma HoldsPrefix(buf: seq<byte>, p: nat, w: seq<byte>, n: nat)
    requires Holds(buf, p, w) && n <= |w|
    ensures Holds(buf, p, w[..n])
  {
  }

  lemma HoldsConcat(buf: seq<byte>, p: nat, v: seq<byte>, w: seq<byte>)
    requires Holds(buf, p, v) && Holds(buf, p + |v|, w)
    ensures Holds(buf, p, v + w)
  {
    forall i | 0 <= i < |v + w| ensures buf[p + i] == (v + w)[i] {
      if i >= |v| { assert buf[p + |v| + (i - |v|)] == w[i - |v|]; }
    }
  }

  lemma HoldsKept(before: seq<byte>, after: seq<byte>, p: nat, w: seq<byte>, lo: nat, hi: nat)
    requires Holds(before, p, w) && SameOutside(before, after, lo, hi)
    requires p + |w| <= lo
    ensures Holds(after, p, w)
  {
  }

  /** The two unconditional 8-byte copies of the fast path. */
  method CopySixteen(dst: array<byte>, at: nat, f: seq<byte>, from: nat)
    requires at + 16 <= dst.Length && from + 16 <= |f|
    modifies dst
    ensures Holds(dst[..], at, f[from..from + 16])
    ensures SameOutside(old(dst[..]), dst[..], at, at + 16)
  {
    CopyIn(dst, at, f, from, 8);
    ghost var first := dst[..];
    CopyIn(dst, at + 8, f, from + 8, 8);
    HoldsKept(first, dst[..], at, f[from..from + 8], at + 8, at + 16);
    HoldsConcat(dst[..], at, f[from..from + 8], f[from + 8..from + 16]);
    assert f[from..from + 8] + f[from + 8..from + 16] == f[from..from + 16];
  }

  /**
   * Writes one literal. The fast path copies sixteen bytes whatever the length, so it may read past
   * the literal and leave scribbles after the result, but never beyond op + 17.
   */
  method EmitLiteral(dst: array<byte>, op: nat, f: seq<byte>, lit: nat, len: nat, allowFastPath: bool)
    returns (end: nat)
    requires 1 <= len <= I32 && lit + len <= |f|
    requires op + |LiteralHeader(len)| + len <= dst.Length
    requires allowFastPath && len <= 16 ==> lit + 16 <= |f| && op + 17 <= dst.Length
    modifies dst
    ensures end == op + |LiteralHeader(len)| + len
    ensures Holds(dst[..], op, EncodeLiteral(f[lit..lit + len]))
    ensures SameOutside(old(dst[..]), dst[..], op, if allowFastPath && len <= 16 then op + 17 else end)
  {
    ghost var header, data := LiteralHeader(len), f[lit..lit + len];
    var n := len - 1;
    var p := op;
    if n < 60 {
      dst[p] := 4 * n;
      p := p + 1;
    } else {
      p := EmitLongHeader(dst, op, n);
    }
    assert Holds(dst[..], op, header);
    ghost var tagged := dst[..];
    if allowFastPath && len <= 16 {
      CopySixteen(dst, p, f, lit);
      HoldsPrefix(dst[..], p, f[lit..lit + 16], len);
      assert f[lit..lit + 16][..len] == data;
      HoldsKept(tagged, dst[..], op, header, p, p + 16);
    } else {
      CopyIn(dst, p, f, lit, len);
      HoldsKept(tagged, dst[..], op, header, p, p + len);
    }
    HoldsConcat(dst[..], op, header, data);
    end := p + len;
  }

  /** The length bytes first, then the tag byte that counts them. */
  method EmitLongHeader(dst: array<byte>, op: nat, len: nat) returns (p: nat)
    requires 60 <= len < I32
    requires op + |LiteralHeader(len + 1)| <= dst.Length
    modifies dst
    ensures p == op + |LiteralHeader(len + 1)|
    ensures Holds(dst[..], op, LiteralHeader(len + 1))
    ensures SameOutside(old(dst[..]), dst[..], op, p)
  {
    LengthBytes(len);
    var count := EmitLengthBytes(dst, op + 1, len);
    assert 1 <= count <= 4;
    dst[op] := 4 * (59 + count);
    p := op + 1 + count;
  }

  /** The length, low byte first, in as many bytes as it takes. */
  method EmitLengthBytes(dst: array<byte>, op: nat, len: nat) returns (count: nat)
    requires op + |LEBytes(len)| <= dst.Length
    modifies dst
    ensures count == |LEBytes(len)|
    ensures Holds(dst[..], op, LEBytes(len))
    ensures SameOutside(old(dst[..]), dst[..], op, op + count)
  {
    ghost var w := LEBytes(len);
    var n := len;
    count := 0;
    while n > 0
      invariant count <= |w| && w[count..] == LEBytes(n)
      invariant forall i :: 0 <= i < count ==> dst[op + i] == w[i]
      invariant SameOutside(old(dst[..]), dst[..], op, op + count)
      decreases n
    {
      assert w[count..][0] == w[count] && w[count..][1..] == w[count + 1..];
      dst[op + count] := n % 256;
      n := n / 256;
      count := count + 1;
    }
  }

  method EmitShortCopy(dst: array<byte>, op: nat, offset: nat, len: nat) returns (end: nat)
    requires 4 <= len <= 64 && offset < 65536
    requires op + |EncodeShortCopy(offset, len)| <= dst.Length
    modifies dst
    ensures end == op + |EncodeShortCopy(offset, len)|
    ensures Holds(dst[..], op, EncodeShortCopy(offset, len))
    ensures SameOutside(old(dst[..]), dst[..], op, end)
  {
    if len < 12 && offset < 2048 {
      var lenMinus4 := len - 4;
      assert lenMinus4 < 8;
      dst[op] := 1 + lenMinus4 * 4 + offset / 256 * 32;
      dst[op + 1] := offset % 256;
      end := op + 2;
    } else {
      dst[op] := 2 + (len - 1) * 4;
      dst[op + 1] := offset % 256;
      dst[op + 2] := offset / 256;
      end := op + 3;
    }
  }

  /** One step of a split copy: the first piece joins what is already there. */
  method EmitPiece(dst: array<byte>, op: nat, end: nat, offset: nat, len: nat, ghost w: seq<byte>)
    returns (next: nat)
    requires 4 <= len <= 64 && offset < 65536
    requires op + |w| <= dst.Length && op <= end <= op + |w|
    requires Holds(dst[..], op, w[..end - op])
    requires EncodeShortCopy(offset, len) <= w[end - op..]
    modifies dst
    ensures next == end + |EncodeShortCopy(offset, len)| <= op + |w|
    ensures Holds(dst[..], op, w[..next - op])
    ensures SameOutside(old(dst[..]), dst[..], end, next)
  {
    ghost var before := dst[..];
    next := EmitShortCopy(dst, end, offset, len);
    ghost var piece := EncodeShortCopy(offset, len);
    HoldsKept(before, dst[..], op, w[..end - op], end, next);
    HoldsConcat(dst[..], op, w[..end - op], piece);
    assert w[..next - op] == w[..end - op] + piece;
  }

  /** Emits 64-byte pieces while at least four bytes stay reserved, then a 60 if needed, then the rest. */
  method EmitCopy(dst: array<byte>, op: nat, offset: nat, len: nat) returns (end: nat)
    requires len >= 4 && offset < 65536
    requires op + |EncodeCopy(offset, len)| <= dst.Length
    modifies dst
    ensures end == op + |EncodeCopy(offset, len)|
    ensures Holds(dst[..], op, EncodeCopy(offset, len))
    ensures SameOutside(old(dst[..]), dst[..], op, end)
  {
    var left := len;
    end := op;
    ghost var w := EncodeCopy(offset, len);
    while left >= 68
      invariant 4 <= left <= len && op <= end <= op + |w|
      invariant w[end - op..] == EncodeCopy(offset, left)
      invariant Holds(dst[..], op, w[..end - op])
      invariant SameOutside(old(dst[..]), dst[..], op, end)
    {
      SplitStep(w, end - op, offset, left, 64);
      end := EmitPiece(dst, op, end, offset, 64, w);
      left := left - 64;
    }
    end := EmitLastPieces(dst, op, end, offset, left, w);
    assert w[..end - op] == w;
  }

  /** Fewer than 68 bytes are left: a 60-byte piece if they do not fit one tag, then the remainder. */
  method EmitLastPieces(dst: array<byte>, op: nat, from: nat, offset: nat, len: nat, ghost w: seq<byte>)
    returns (end: nat)
    requires 4 <= len < 68 && offset < 65536
    requires op + |w| <= dst.Length && op <= from <= op + |w|
    requires Holds(dst[..], op, w[..from - op])
    requires w[from - op..] == EncodeCopy(offset, len)
    modifies dst
    ensures end == op + |w|
    ensures Holds(dst[..], op, w[..end - op])
    ensures SameOutside(old(dst[..]), dst[..], from, end)
  {
    var left := len;
    end := from;
    if left > 64 {
      SplitStep(w, end - op, offset, left, 60);
      end := EmitPiece(dst, op, end, offset, 60, w);
      left := left - 60;
    }
    end := EmitPiece(dst, op, end, offset, left, w);
  }

  lemma SplitStep(w: seq<byte>, from: nat, offset: nat, len: nat, first: nat)
    requires offset < 65536
    requires (first == 64 && len >= 68) || (first == 60 && 64 < len < 68)
    requires from <= |w| && w[from..] == EncodeCopy(offset, len)
    ensures EncodeShortCopy(offset, first) <= w[from..]
    ensures w[from + |EncodeShortCopy(offset, first)|..] == EncodeCopy(offset, len - first)
  {
    var a := EncodeShortCopy(offset, first);
    assert w[from..] == a + EncodeCopy(offset, len - first);
    assert w[from + |a|..] == w[from..][|a|..];
  }
}
