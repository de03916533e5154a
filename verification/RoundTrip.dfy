/** The whole codec, as the repository's own verification programs exercise it. */
module RoundTrip {
  import opened Bytes
  import opened Stream
  import opened BlockStarts
  import opened Surplus
  import opened Compressor
  import opened Decompressor
  import opened Uncompressor
  import Source
  import Sink
  import Varint

  lemma DeclaredOfCompressed(x: seq<byte>)
    requires |x| < U32
    ensures Declared(Compressed(x)) == |x|
  {
    Varint.RoundTrip(|x|, Blocks(x));
  }

  /** Compress into a buffer of the documented size, uncompress into a buffer of the original size. */
  method VerifyFlat(env: Env, input: seq<byte>) returns (err: int, restored: array<byte>)
    requires env.Valid() && |input| < I32
    modifies env.table, env.scratch, env.scratchOutput
    ensures err == 0 && restored[..] == input
  {
    hide Compressed, StreamFor, ReferenceDecode, Declared;
    var out := new byte[MaxCompressedLength(|input|)];
    restored := new byte[|input|];
    var length: nat;
    err, length := SnappyCompress(env, input, out);
    CompressedRoundTrip(input);
    DeclaredOfCompressed(input);
    err := SnappyUncompress(out[..length], restored);
    assert restored[..|input|] == restored[..];
  }

  /** However the input is split for compression and the stream for decompression, nothing changes. */
  method VerifySplit(env: Env, iovIn: seq<seq<byte>>, iovOut: seq<array<byte>>, split: seq<seq<byte>>)
    returns (outcome: Outcome, err: int, aborted: bool, writer: Sink.Writer, restored: array<byte>)
    requires env.Valid() && env.ScatterGather() && Usable(env, iovOut)
    requires |Source.Flatten(iovIn)| < I32 && Unblocked(iovIn, 0, |Source.Flatten(iovIn)|)
    requires MaxCompressedLength(|Source.Flatten(iovIn)|) <= TotalLength(iovOut)
    requires Source.EmptyAtEnd(split) && Source.Fits(split, false)
    requires Source.Flatten(split) == Compressed(Source.Flatten(iovIn))
    modifies env.table, env.scratch, env.scratchOutput, iovOut
    ensures outcome == Returns(0) && err == 0 && !aborted
    ensures writer.Valid() && writer.Contents() == Source.Flatten(split)
    ensures restored[..] == Source.Flatten(iovIn)
  {
    hide Compressed, ReferenceDecode, Declared, MaxCompressedLength, TotalLength, Usable, Unblocked;
    hide Source.Flatten, Source.UpToEmpty, Sink.Writer.Contents, Sink.Writer.Valid;
    ghost var x := Source.Flatten(iovIn);
    var n: nat;
    outcome, n, writer := CompressAll(env, iovIn, iovOut);
    restored := new byte[n];
    CompressedRoundTrip(x);
    DeclaredOfCompressed(x);
    ghost var hidden;
    err, aborted, hidden := SnappyUncompressIov(split, writer.written, restored);
    assert Cut(Source.Flatten(split), 0) == Source.Flatten(split);
    assert restored[..n] == restored[..];
  }

  /** Compression of everything that the pieces hold. */
  method CompressAll(env: Env, iovIn: seq<seq<byte>>, iovOut: seq<array<byte>>)
    returns (outcome: Outcome, n: nat, writer: Sink.Writer)
    requires env.Valid() && env.ScatterGather() && Usable(env, iovOut)
    requires |Source.Flatten(iovIn)| < I32 && Unblocked(iovIn, 0, |Source.Flatten(iovIn)|)
    requires MaxCompressedLength(|Source.Flatten(iovIn)|) <= TotalLength(iovOut)
    modifies env.table, env.scratch, env.scratchOutput, iovOut
    ensures outcome == Returns(0) && n == |Source.Flatten(iovIn)|
    ensures fresh(writer) && writer.Valid() && writer.iov == iovOut
    ensures writer.Contents() == Compressed(Source.Flatten(iovIn)) && writer.written == |writer.Contents()|
  {
    hide Compressed, StreamFor, EndingFor, ReferenceDecode, MaxCompressedLength, TotalLength, Usable, Unblocked;
    hide Source.Flatten, Sink.Writer.Contents;
    ghost var x := Source.Flatten(iovIn);
    n := TotalBytes(iovIn);
    assert x[..n] == x;
    StreamForIff(iovIn, n);
    outcome, writer := SnappyCompressIov(env, iovIn, n, iovOut);
  }

  /**
   * The scatter-gather test: the output buffers that were used go to the decoder at their full
   * lengths, together with the length of the stream. The bytes behind the stream in the last buffer
   * are decoded as well, so that the test can succeed only if they mean nothing.
   */
  method VerifyPieces(env: Env, iovIn: seq<seq<byte>>, iovOut: seq<array<byte>>)
    returns (outcome: Outcome, err: int, aborted: bool, writer: Sink.Writer, restored: array<byte>)
    requires env.Valid() && env.ScatterGather() && Usable(env, iovOut)
    requires |Source.Flatten(iovIn)| < I32 && Unblocked(iovIn, 0, |Source.Flatten(iovIn)|)
    requires MaxCompressedLength(|Source.Flatten(iovIn)|) <= TotalLength(iovOut)
    requires forall k :: 0 <= k < |iovOut| ==> iovOut[k].Length < I32
    requires forall i, j :: 0 <= i < j < |iovOut| && iovOut[i].Length == 0 ==> iovOut[j].Length == 0
    modifies env.table, env.scratch, env.scratchOutput, iovOut
    ensures outcome == Returns(0) && !aborted && (err == 0 || err == -EIO)
    ensures writer.Valid() && writer.iov == iovOut && writer.Contents() == Compressed(Source.Flatten(iovIn))
    ensures err == 0 <==> OnlyWraps(iovOut[writer.curvec][writer.curoff..])
    ensures err == 0 ==> restored[..] == Source.Flatten(iovIn)
  {
    hide Compressed, ReferenceDecode, Declared, MaxCompressedLength, TotalLength, Usable, Unblocked, OnlyWraps;
    hide Source.Flatten, Source.UpToEmpty, Sink.Writer.Contents;
    ghost var x := Source.Flatten(iovIn);
    var n: nat;
    outcome, n, writer := CompressAll(env, iovIn, iovOut);
    var used := UsedPieces(writer);
    ghost var whole, outlen := Source.Flatten(used), writer.written;
    assert whole[..outlen] == Compressed(x) && whole[outlen..] == iovOut[writer.curvec][writer.curoff..];
    restored := new byte[n];
    CompressedRoundTrip(x);
    DeclaredOfCompressed(x);
    AcceptedWithin(whole, outlen, 0);
    assert Cut(whole, 0) == whole && Cut(whole[outlen..], 0) == whole[outlen..];
    ghost var hidden;
    err, aborted, hidden := SnappyUncompressIov(used, writer.written, restored);
    assert restored[..n] == restored[..];
  }

  /** The output buffers up to the current one: what was appended, and what lies behind it. */
  method UsedPieces(writer: Sink.Writer) returns (used: seq<seq<byte>>)
    requires writer.Valid()
    ensures |used| == writer.curvec + 1 && forall k :: 0 <= k < |used| ==> used[k] == writer.iov[k][..]
    ensures Source.Flatten(used) == writer.Contents() + writer.iov[writer.curvec][writer.curoff..]
  {
    hide Source.Flatten;
    used := [];
    Source.EmptyVector(used);
    for k := 0 to writer.curvec + 1
      invariant |used| == k && forall j :: 0 <= j < k ==> used[j] == writer.iov[j][..]
      invariant Source.Flatten(used) == writer.Filled(k)
    {
      Source.FlattenSnoc(used, writer.iov[k][..]);
      used := used + [writer.iov[k][..]];
    }
    ghost var last, off := writer.iov[writer.curvec][..], writer.curoff;
    assert last == last[..off] + last[off..];
  }

  method TotalBytes(pieces: seq<seq<byte>>) returns (n: nat)
    ensures n == |Source.Flatten(pieces)|
  {
    n := 0;
    var i: nat := |pieces|;
    assert pieces[i..] == [];
    while i > 0
      invariant i <= |pieces| && n == |Source.Flatten(pieces[i..])|
    {
      assert pieces[i - 1..][1..] == pieces[i..];
      i := i - 1;
      n := n + |pieces[i]|;
    }
    assert pieces[0..] == pieces;
  }
}
