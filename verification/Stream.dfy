/** Whole streams: the reference decoder with its length preamble, and what compress must produce. */
module Stream {
  import opened Bytes
  import opened Format
  import opened Encoder
  import opened Fragment
  import opened FragmentCompressor
  import opened Bits
  import Varint

  /**
   * A stream is accepted when its preamble is readable, all of its tags can be carried out, and the
   * output has exactly the declared length.
   */
  function ReferenceDecode(s: seq<byte>): Option<seq<byte>> {
    match Varint.Lenient(s)
    case None => None
    case Some((declared, n)) =>
      LenientPrefix(s);
      match Decode(s[n..], [])
      case None => None
      case Some(out) => if |out| == declared then Some(out) else None
  }

  lemma LenientPrefix(s: seq<byte>)
    ensures Varint.Lenient(s).Some? ==> 1 <= Varint.Lenient(s).value.1 <= 5 && Varint.Lenient(s).value.1 <= |s|
  {
    Varint.RawIsFlat(s);
  }

  /** The hash table doubles from 2^8 entries until it covers the block or has 2^14 entries. */
  function TableBits(n: nat, k: nat): (r: nat)
    requires 8 <= k <= 14
    ensures k <= r <= 14
    decreases 14 - k
  {
    if k < 14 && Pow2(k) < n then TableBits(n, k + 1) else k
  }

  function TableSizeFor(n: nat): nat {
    Pow2(TableBits(n, 8))
  }

  /** The size is legal, covers the block whenever 2^14 entries can, and is not larger than it takes. */
  lemma TableSizeLegal(n: nat)
    ensures TableSize(TableSizeFor(n)) && TableSizeFor(n) <= Pow2(14)
    ensures 256 <= TableSizeFor(n) && (TableSizeFor(n) > 256 ==> TableSizeFor(n) < 2 * n)
    ensures HashInto(HashFor(TableSizeFor(n)), TableSizeFor(n))
    ensures n <= Pow2(14) ==> n <= TableSizeFor(n)
  {
    Log2Pow2(TableBits(n, 8));
    HashInRange(TableSizeFor(n));
    TableBitsCover(n, 8);
    TableBitsTight(n, 8);
    ByteShift(0);
    Pow2Monotone(8, TableBits(n, 8));
  }

  lemma {:induction false} TableBitsTight(n: nat, k: nat)
    requires 8 <= k <= 14
    ensures TableBits(n, k) > k ==> Pow2(TableBits(n, k)) < 2 * n
    decreases 14 - k
  {
    if k < 14 && Pow2(k) < n { TableBitsTight(n, k + 1); }
  }

  lemma {:induction false} TableBitsCover(n: nat, k: nat)
    requires 8 <= k <= 14
    ensures n <= Pow2(14) ==> n <= Pow2(TableBits(n, k))
    ensures Pow2(TableBits(n, k)) <= Pow2(14)
    decreases 14 - k
  {
    if k < 14 {
      TableBitsCover(n, k + 1);
      Pow2Monotone(k, 14);
    }
  }

  lemma {:induction false} Pow2Monotone(a: nat, b: nat)
    requires a <= b
    ensures Pow2(a) <= Pow2(b)
    decreases b - a
  {
    if a < b { Pow2Monotone(a + 1, b); }
  }

  /** The bytes of one block. */
  function BlockBytes(b: seq<byte>): seq<byte>
    requires |b| <= BLOCK_SIZE
  {
    TableSizeLegal(|b|);
    EncodeAll(Elements(b, HashFor(TableSizeFor(|b|)), TableSizeFor(|b|)))
  }

  /** Blocks of 64 KiB, each compressed on its own. */
  function Blocks(x: seq<byte>): seq<byte>
    decreases |x|
  {
    if |x| == 0 then []
    else
      var n := if |x| < BLOCK_SIZE then |x| else BLOCK_SIZE;
      BlockBytes(x[..n]) + Blocks(x[n..])
  }

  /** The compressed form of an input. */
  function Compressed(x: seq<byte>): seq<byte> {
    Varint.Encode(|x|) + Blocks(x)
  }

  function MaxCompressedLength(n: nat): (r: nat)
    ensures r >= 32 + n
  {
    32 + n + n / 6
  }

  // ---------- round trip ----------

  lemma BlockYields(b: seq<byte>, out: seq<byte>)
    requires |b| <= BLOCK_SIZE
    ensures Yields(BlockBytes(b), out, out + b)
  {
    var size := TableSizeFor(|b|);
    TableSizeLegal(|b|);
    ElementsMeanBlock(out, b, HashFor(size), size);
    ElementsSize(b, HashFor(size), size);
    EncodeAllYields(Elements(b, HashFor(size), size), out);
  }

  lemma {:induction false} BlocksYield(x: seq<byte>, out: seq<byte>)
    ensures Yields(Blocks(x), out, out + x)
    decreases |x|
  {
    hide BlockBytes, Yields;
    if |x| == 0 {
      assert out + x == out;
      YieldsNothing(out);
    } else {
      var n := if |x| < BLOCK_SIZE then |x| else BLOCK_SIZE;
      BlockYields(x[..n], out);
      BlocksYield(x[n..], out + x[..n]);
      assert out + x[..n] + x[n..] == out + x;
      YieldsConcat(BlockBytes(x[..n]), Blocks(x[n..]), out, out + x[..n], out + x);
    }
  }

  /** A preamble in front of blocks is accepted exactly when it states their length. */
  lemma PreambleAndBlocks(w: nat, x: seq<byte>)
    requires w < U32
    ensures ReferenceDecode(Varint.Encode(w) + Blocks(x)) == if |x| == w then Some(x) else None
  {
    var preamble, blocks := Varint.Encode(w), Blocks(x);
    Varint.RoundTrip(w, blocks);
    assert (preamble + blocks)[|preamble|..] == blocks;
    BlocksYield(x, []);
    assert [] + x == x && blocks + [] == blocks;
    assert Decode(blocks + [], []) == Decode([], x);
  }

  /** Decoding undoes compression for every input whose length fits the preamble. */
  lemma CompressedRoundTrip(x: seq<byte>)
    requires |x| < U32
    ensures ReferenceDecode(Compressed(x)) == Some(x)
  {
    hide ReferenceDecode;
    PreambleAndBlocks(|x|, x);
  }

  // ---------- size ----------

  lemma BlockSize(b: seq<byte>)
    requires |b| <= BLOCK_SIZE
    ensures 60 * |BlockBytes(b)| <= 61 * |b| + 60
  {
    TableSizeLegal(|b|);
    ElementsSize(b, HashFor(TableSizeFor(|b|)), TableSizeFor(|b|));
  }

  lemma {:induction false} BlocksSize(x: seq<byte>)
    ensures 6 * |Blocks(x)| <= 7 * |x| + 6
    decreases |x|
  {
    if |x| > 0 {
      var n := if |x| < BLOCK_SIZE then |x| else BLOCK_SIZE;
      BlockSize(x[..n]);
      BlocksSize(x[n..]);
    }
  }

  /** The documented output bound covers every input. */
  lemma CompressedSize(x: seq<byte>)
    requires |x| < U32
    ensures |Compressed(x)| <= MaxCompressedLength(|x|)
  {
    Varint.RoundTrip(|x|, []);
    BlocksSize(x);
  }

  // ---------- blocks one after the other ----------

  lemma OneBlock(x: seq<byte>)
    requires |x| <= BLOCK_SIZE
    ensures Blocks(x) == if |x| == 0 then [] else BlockBytes(x)
  {
    hide BlockBytes;
    if |x| > 0 {
      assert x[..|x|] == x && x[|x|..] == [];
      assert BlockBytes(x) + [] == BlockBytes(x);
    }
  }

  lemma FirstBlock(x: seq<byte>)
    requires |x| >= BLOCK_SIZE
    ensures Blocks(x) == BlockBytes(x[..BLOCK_SIZE]) + Blocks(x[BLOCK_SIZE..])
  {
  }

  /** Full blocks can be compressed before what follows them. */
  lemma {:induction false} BlocksAppend(a: seq<byte>, b: seq<byte>)
    requires |a| % BLOCK_SIZE == 0
    ensures Blocks(a + b) == Blocks(a) + Blocks(b)
    decreases |a|
  {
    hide BlockBytes, Blocks;
    if |a| == 0 {
      assert a + b == b;
      OneBlock(a);
    } else {
      BlocksAppend(a[BLOCK_SIZE..], b);
      FirstBlock(a);
      FirstBlock(a + b);
      assert (a + b)[..BLOCK_SIZE] == a[..BLOCK_SIZE] && (a + b)[BLOCK_SIZE..] == a[BLOCK_SIZE..] + b;
    }
  }

  /** One more block behind full ones. */
  lemma NextBlock(x: seq<byte>, pos: nat, num: nat)
    requires pos % BLOCK_SIZE == 0 && 0 < num <= BLOCK_SIZE && pos + num <= |x|
    ensures Blocks(x[..pos + num]) == Blocks(x[..pos]) + BlockBytes(x[pos..][..num])
  {
    hide BlockBytes, Blocks;
    TakeMore([], x, pos, num);
    BlocksAppend(x[..pos], x[pos..][..num]);
    OneBlock(x[pos..][..num]);
  }

  /** What k full blocks take at most. */
  lemma {:induction false} FullBlocksSize(a: seq<byte>, k: nat)
    requires |a| == k * BLOCK_SIZE
    ensures 60 * |Blocks(a)| <= k * (61 * BLOCK_SIZE + 60)
    decreases k
  {
    hide BlockBytes;
    if k > 0 {
      BlockSize(a[..BLOCK_SIZE]);
      FullBlocksSize(a[BLOCK_SIZE..], k - 1);
    }
  }

  /** The room left for block k behind the preamble and the blocks before it, in a buffer of the documented size. */
  function RoomLeft(x: seq<byte>, k: nat): int
    requires k * BLOCK_SIZE <= |x|
  {
    MaxCompressedLength(|x|) - |Varint.Encode(|x|)| - |Blocks(x[..k * BLOCK_SIZE])|
  }

  /** compress_fragment asks for the maximum compressed length of its block. */
  ghost predicate DocumentedRoom(x: seq<byte>, k: nat)
    requires k * BLOCK_SIZE < |x|
  {
    RoomLeft(x, k) >= MaxCompressedLength(Min(|x| - k * BLOCK_SIZE, BLOCK_SIZE))
  }

  /** Only the first block can lack that room: exactly when the input is shorter than 65538 bytes. */
  lemma DocumentedRoomIff(x: seq<byte>, k: nat)
    requires k * BLOCK_SIZE < |x| < I32
    ensures DocumentedRoom(x, k) <==> k > 0 || |x| >= 65538
    ensures RoomLeft(x, k) + 3 >= MaxCompressedLength(Min(|x| - k * BLOCK_SIZE, BLOCK_SIZE))
  {
    hide Blocks, Varint.Encode;
    Varint.EncodeLength(|x|);
    FullBlocksSize(x[..k * BLOCK_SIZE], k);
    if k == 0 {
      OneBlock(x[..0]);
    } else {
      LaterBlock(|x|, k, Min(|x| - k * BLOCK_SIZE, BLOCK_SIZE), |Blocks(x[..k * BLOCK_SIZE])|);
    }
  }

  lemma LaterBlock(n: nat, k: nat, num: nat, done: nat)
    requires k > 0 && num <= BLOCK_SIZE && k * BLOCK_SIZE + num <= n
    requires 60 * done <= k * (61 * BLOCK_SIZE + 60)
    ensures MaxCompressedLength(n) - 5 - done >= MaxCompressedLength(num)
  {
  }

  /** The smallest case: one byte in a buffer of 33 leaves 32 behind the preamble where 33 are asked for. */
  lemma OneByteInput(b: byte)
    ensures RoomLeft([b], 0) == 32 && MaxCompressedLength(1) == 33 && !DocumentedRoom([b], 0)
  {
    DocumentedRoomIff([b], 0);
    OneBlock([b][..0]);
    Varint.EncodeLength(1);
  }

  /** What the code needs is always there, also behind a preamble of five bytes. */
  lemma RoomForBlock(x: seq<byte>, pos: nat, num: nat, n: nat)
    requires pos % BLOCK_SIZE == 0 && pos <= |x| && pos + num <= n
    ensures Space(num) + 5 + |Blocks(x[..pos])| <= MaxCompressedLength(n)
  {
    hide Blocks;
    var k := pos / BLOCK_SIZE;
    FullBlocksSize(x[..pos], k);
  }
}
