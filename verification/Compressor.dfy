/** compress: blocks of 64 KiB from a source to a sink, and the public entry points around it. */
module Compressor {
  import opened Bytes
  import opened Bits
  import opened Encoder
  import opened Fragment
  import opened FragmentCompressor
  import opened Emit
  import opened Stream
  import opened BlockStarts
  import Source
  import Sink
  import Varint

  /** Preallocated buffers; the two scratch buffers exist only in a scatter-gather environment. */
  class Env {
    const table: array<u16>
    const scratch: array<byte>
    const scratchOutput: array<byte>

    ghost predicate Valid() {
      && table.Length == Pow2(14)
      && table as object != scratch as object && table as object != scratchOutput as object
      && scratch != scratchOutput
    }

    /** snappy_init_env_sg was called with sg set. */
    ghost predicate ScatterGather() {
      scratch.Length == BLOCK_SIZE && scratchOutput.Length == MaxCompressedLength(BLOCK_SIZE)
    }

    constructor (sg: bool)
      ensures Valid() && (sg ==> ScatterGather())
      ensures fresh(table) && fresh(scratch) && fresh(scratchOutput)
    {
      table := new u16[Pow2(14)];
      scratch := new byte[if sg then BLOCK_SIZE else 0];
      scratchOutput := new byte[if sg then MaxCompressedLength(BLOCK_SIZE) else 0];
    }
  }

  /** Picks the table size and clears that part of the table. */
  method GetHashTable(table: array<u16>, inputSize: nat) returns (htsize: nat)
    requires table.Length == Pow2(14)
    modifies table
    ensures htsize == TableSizeFor(inputSize) <= table.Length
    ensures forall i :: 0 <= i < htsize ==> table[i] == 0
    ensures forall i :: htsize <= i < table.Length ==> table[i] == old(table[i])
  {
    hide Pow2, TableSize, HashFor;
    ByteShift(0);
    htsize := 256;
    ghost var k := 8;
    while htsize < Pow2(14) && htsize < inputSize
      invariant 8 <= k <= 14 && htsize == Pow2(k)
      invariant TableBits(inputSize, k) == TableBits(inputSize, 8)
      invariant table[..] == old(table[..])
      decreases 14 - k
    {
      Pow2Doubles(k);
      htsize := 2 * htsize;
      k := k + 1;
    }
    if k < 14 {
      Pow2Doubles(k);
      Pow2Monotone(k + 1, 14);
    }
    TableSizeLegal(inputSize);
    forall i | 0 <= i < htsize {
      table[i] := 0;
    }
  }

  lemma Pow2Doubles(k: nat)
    ensures Pow2(k + 1) == 2 * Pow2(k)
  {
  }

  lemma GrownPrefix(buf: seq<byte>, done: seq<byte>, more: seq<byte>)
    requires Holds(buf, |done|, more) && done <= buf
    ensures buf[..|done| + |more|] == done + more
  {
  }

  /** N after `available`: the announced length as an `int`; a negative N ends the block loop at once. */
  function Announced(total: nat): (n: nat)
    ensures n < I32
  {
    var n := ToInt32(total % U32);
    if n < 0 then 0 else n
  }

  /**
   * One turn of the gathering loop. On an empty piece it takes nothing and turns to the next piece; at
   * the end of the vector it leaves everything as it was.
   */
  method GatherTurn(reader: Source.Reader, scratch: array<byte>, bytesRead: nat, num: nat) returns (n: nat)
    requires reader.InBounds() && |reader.iov| > 0 && bytesRead < num <= scratch.Length
    requires reader.Position() + (num - bytesRead) < I32
    modifies reader, scratch
    ensures reader.InBounds() && reader.checkFailed == old(reader.checkFailed)
    ensures n <= num - bytesRead && n <= |old(reader.Rest())|
    ensures n == 0 <==> old(reader.curoff) == |reader.iov[old(reader.curvec)]|
    ensures n <= |reader.iov[old(reader.curvec)]| - old(reader.curoff)
    ensures (reader.curvec, reader.curoff)
         == Source.NextPosition(reader.iov, old(reader.curvec), old(reader.curoff), n)
    ensures reader.Rest() == old(reader.Rest())[n..] && reader.Position() == old(reader.Position()) + n
    ensures scratch[..bytesRead + n] == old(scratch[..bytesRead]) + old(reader.Rest())[..n]
    ensures n == 0 ==> scratch[..] == old(scratch[..])
  {
    hide Source.Reader.Rest, Source.Reader.Visible, Source.Reader.Position;
    var fragmentSize := reader.Peek();
    n := Min(fragmentSize, num - bytesRead);
    ghost var done := scratch[..bytesRead];
    ghost var rest := reader.Rest();
    var m, from := reader.iov[reader.curvec], reader.curoff;
    assert m[from..from + n] == m[from..][..n] == rest[..n];
    CopyIn(scratch, bytesRead, m, from, n);
    GrownPrefix(scratch[..], done, rest[..n]);
    Source.SkipCheck(from, n, |m|);
    reader.Skip(n);
  }

  /** However many turns are taken on an exhausted source, the block stays as incomplete as it was. */
  method StarvedTurns(reader: Source.Reader, scratch: array<byte>, bytesRead: nat, num: nat, turns: nat)
    returns (read: nat)
    requires reader.InBounds() && |reader.iov| > 0 && reader.Rest() == [] && bytesRead < num <= scratch.Length
    requires reader.Position() + (num - bytesRead) < I32
    modifies reader, scratch
    ensures read == bytesRead && reader.InBounds() && reader.Rest() == [] && scratch[..] == old(scratch[..])
  {
    hide Source.Reader.Rest, Source.Reader.Visible, Source.Reader.Position;
    read := bytesRead;
    for i := 0 to turns
      invariant read == bytesRead && reader.InBounds() && reader.Rest() == [] && scratch[..] == old(scratch[..])
      invariant reader.Position() == old(reader.Position())
    {
      var n := GatherTurn(reader, scratch, read, num);
      read := read + n;
    }
  }

  /**
   * Collects a block that does not lie in one piece of the source, over empty pieces if need be;
   * `complete` tells whether the loop ever ends. A turn that takes nothing and moves nowhere is taken
   * for ever: all further turns are those of StarvedTurns.
   */
  method GatherBlock(reader: Source.Reader, scratch: array<byte>, num: nat) returns (complete: bool)
    requires reader.InBounds() && |reader.iov| > 0 && 0 < num <= scratch.Length
    requires reader.Position() + num < I32
    modifies reader, scratch
    ensures reader.InBounds() && reader.checkFailed == old(reader.checkFailed)
    ensures complete <==> num <= |old(reader.Rest())|
    ensures complete ==> reader.Rest() == old(reader.Rest())[num..] && scratch[..num] == old(reader.Rest())[..num]
    ensures complete ==> reader.Position() == old(reader.Position()) + num
    ensures complete ==> JustTaken(reader.iov, reader.curvec, reader.curoff)
    ensures !complete ==> reader.Rest() == []
  {
    hide Source.Reader.Rest, Source.Reader.Visible, Source.Reader.Position, JustTaken;
    ghost var all := reader.Rest();
    var bytesRead: nat := 0;
    while bytesRead < num
      invariant bytesRead <= num && bytesRead <= |all| && reader.InBounds()
      invariant reader.checkFailed == old(reader.checkFailed)
      invariant reader.Rest() == all[bytesRead..] && reader.Position() == old(reader.Position()) + bytesRead
      invariant scratch[..bytesRead] == all[..bytesRead]
      invariant bytesRead == num ==> JustTaken(reader.iov, reader.curvec, reader.curoff)
      decreases num - bytesRead, |reader.iov| - reader.curvec
    {
      var at, off := reader.curvec, reader.curoff;
      var n := GatherTurn(reader, scratch, bytesRead, num);
      TakeMore([], all, bytesRead, n);
      if n == 0 && reader.curvec == at {
        LastPieceDone(reader);
        return false;
      }
      if n > 0 { TakingSettles(reader.iov, at, off, n); }
      bytesRead := bytesRead + n;
    }
    return true;
  }

  lemma LastPieceDone(reader: Source.Reader)
    requires reader.InBounds() && reader.curvec + 1 == |reader.iov| && reader.curoff == |reader.iov[reader.curvec]|
    ensures reader.Rest() == []
  {
  }

  /** The arrays behind the sink and those of the environment do not overlap. */
  ghost predicate Apart(env: Env, writer: Sink.Writer) {
    && (forall a :: a in writer.iov ==> a as object != env.table as object)
    && env.scratch !in writer.iov && env.scratchOutput !in writer.iov
  }

  /** Compresses one block straight into the sink, or through the scratch buffer. */
  method CompressBlock(env: Env, writer: Sink.Writer, fragment: seq<byte>)
    requires env.Valid() && writer.Valid() && Apart(env, writer) && |fragment| <= BLOCK_SIZE
    requires |BlockBytes(fragment)| <= writer.Room()
    requires writer.flat ==> Space(|fragment|) <= writer.Room()
    requires !writer.flat ==> env.ScatterGather()
    modifies writer, writer.iov, env.table, env.scratchOutput
    ensures writer.Valid()
    ensures writer.Contents() == old(writer.Contents()) + BlockBytes(fragment)
    ensures writer.Room() == old(writer.Room()) - |BlockBytes(fragment)|
    ensures writer.written == old(writer.written) + |BlockBytes(fragment)|
    ensures writer.flat ==> SameOutside(old(writer.iov[0][..]), writer.iov[0][..],
                                        old(writer.curoff), old(writer.curoff) + Space(|fragment|))
  {
    hide BlockBytes, SameOutside;
    var direct := writer.Peek(MaxCompressedLength(|fragment|));
    if direct {
      CompressInPlace(env, writer, fragment);
    } else {
      var end := CompressInto(env, fragment, env.scratchOutput, 0);
      assert env.scratchOutput[..end] == BlockBytes(fragment);
      writer.Append(env.scratchOutput[..end]);
    }
  }

  /** One block into any buffer with enough room. */
  method CompressInto(env: Env, fragment: seq<byte>, dst: array<byte>, from: nat) returns (end: nat)
    requires env.Valid() && dst as object != env.table as object
    requires |fragment| <= BLOCK_SIZE && from + Space(|fragment|) <= dst.Length
    modifies dst, env.table
    ensures end == from + |BlockBytes(fragment)| <= dst.Length
    ensures dst[..from] == old(dst[..from]) && dst[from..end] == BlockBytes(fragment)
    ensures SameOutside(old(dst[..]), dst[..], from, from + Space(|fragment|))
  {
    hide EncodeAll, Elements, HashFor, TableSizeFor, TableSize, Pow2;
    var tableSize := GetHashTable(env.table, |fragment|);
    TableSizeLegal(|fragment|);
    end := CompressFragment(fragment, dst, from, env.table, tableSize);
  }

  /** One block behind the bytes already in the current piece of the sink. */
  method CompressInPlace(env: Env, writer: Sink.Writer, fragment: seq<byte>)
    requires env.Valid() && writer.Valid() && Apart(env, writer) && |fragment| <= BLOCK_SIZE
    requires writer.curoff + Space(|fragment|) <= writer.iov[writer.curvec].Length
    modifies writer, writer.iov, env.table
    ensures writer.Valid()
    ensures writer.Contents() == old(writer.Contents()) + BlockBytes(fragment)
    ensures writer.Room() == old(writer.Room()) - |BlockBytes(fragment)|
    ensures writer.written == old(writer.written) + |BlockBytes(fragment)|
    ensures SameOutside(old(writer.iov[writer.curvec][..]), writer.iov[writer.curvec][..],
                        old(writer.curoff), old(writer.curoff) + Space(|fragment|))
    ensures writer.curvec == old(writer.curvec)
  {
    hide BlockBytes, Space, SameOutside;
    var dst, from := writer.iov[writer.curvec], writer.curoff;
    assert dst in writer.iov;
    var end := CompressInto(env, fragment, dst, from);
    writer.Claim(end - from);
  }

  /** What asking the source for a block can lead to. */
  datatype BlockRead = Block(data: seq<byte>) | NoInput | Stuck

  /** A source that shows nothing is reported; one that ends inside the block is not. */
  function BlockFrom(shown: bool, rest: seq<byte>, num: nat): BlockRead {
    if !shown then NoInput else if num <= |rest| then Block(rest[..num]) else Stuck
  }

  /** From where a block was read, and where the reader stands afterwards. */
  ghost predicate BlockTaken(iov: seq<seq<byte>>, k: nat, off: nat, num: nat, k': nat, off': nat) {
    && k < |iov| && off < |iov[k]| && k' < |iov| && off' <= |iov[k']|
    && Source.Start(iov, k') + off' == Source.Start(iov, k) + off + num
    && if off + num <= |iov[k]| then (k', off') == Source.NextPosition(iov, k, off, num) else Settled(iov, k', off')
  }

  /**
   * The next block, in place when one piece holds it, otherwise through the scratch buffer. What was
   * read in place is skipped at the end; behind a gathered block that is a skip of no bytes.
   */
  method ReadBlock(env: Env, reader: Source.Reader, num: nat) returns (r: BlockRead)
    requires reader.InBounds() && 0 < num <= BLOCK_SIZE && reader.Position() + num < I32
    requires |reader.iov| > 1 || num > |reader.Rest()| ==> env.ScatterGather()
    modifies reader, env.scratch
    ensures reader.InBounds() && reader.checkFailed == old(reader.checkFailed)
    ensures r == BlockFrom(old(reader.Visible()) != [], old(reader.Rest()), num)
    ensures r.Block? ==>
              && reader.Rest() == old(reader.Rest())[num..]
              && reader.Position() == old(reader.Position()) + num
              && BlockTaken(reader.iov, old(reader.curvec), old(reader.curoff), num, reader.curvec, reader.curoff)
  {
    hide Source.Reader.Rest, Source.Reader.Visible, Source.Reader.Position, Settled, JustTaken;
    ghost var rest := reader.Rest();
    var fragmentSize := reader.Peek();
    if fragmentSize == 0 {
      return NoInput;
    }
    PositionIsStart(reader);
    var pendingAdvance := 0;
    if fragmentSize >= num {
      var m, from := reader.iov[reader.curvec], reader.curoff;
      assert m[from..from + num] == m[from..][..num] == rest[..num];
      pendingAdvance := num;
      r := Block(m[from..from + num]);
    } else {
      if |reader.iov| == 1 { OnePieceShows(reader); }
      var complete := GatherBlock(reader, env.scratch, num);
      if !complete {
        return Stuck;
      }
      SkipNothingSettles(reader.iov, reader.curvec, reader.curoff);
      r := Block(env.scratch[..num]);
      assert rest[num..][0..] == rest[num..];
    }
    PositionIsStart(reader);
    Source.SkipCheck(reader.curoff, pendingAdvance, |reader.iov[reader.curvec]|);
    reader.Skip(pendingAdvance);
    PositionIsStart(reader);
  }

  lemma PositionIsStart(reader: Source.Reader)
    requires reader.InBounds() && |reader.iov| > 0
    ensures reader.Position() == Source.Start(reader.iov, reader.curvec) + reader.curoff
  {
  }

  /** Reading a block leaves the sink alone. */
  method ReadBeside(env: Env, reader: Source.Reader, writer: Sink.Writer, num: nat) returns (r: BlockRead)
    requires reader.InBounds() && 0 < num <= BLOCK_SIZE && reader.Position() + num < I32
    requires |reader.iov| > 1 || num > |reader.Rest()| ==> env.ScatterGather()
    requires writer.Valid() && Apart(env, writer)
    modifies reader, env.scratch
    ensures reader.InBounds() && reader.checkFailed == old(reader.checkFailed)
    ensures r == BlockFrom(old(reader.Visible()) != [], old(reader.Rest()), num)
    ensures r.Block? ==>
              && reader.Rest() == old(reader.Rest())[num..]
              && reader.Position() == old(reader.Position()) + num
              && BlockTaken(reader.iov, old(reader.curvec), old(reader.curoff), num, reader.curvec, reader.curoff)
    ensures writer.Valid() && writer.Contents() == old(writer.Contents()) && writer.Room() == old(writer.Room())
    ensures writer.iov[0][..] == old(writer.iov[0][..])
  {
    hide BlockTaken, Env.ScatterGather, Sink.Writer.Contents;
    hide Source.Reader.InBounds, Source.Reader.Rest, Source.Reader.Visible, Source.Reader.Position;
    r := ReadBlock(env, reader, num);
  }

  lemma OnePieceShows(reader: Source.Reader)
    requires reader.InBounds() && |reader.iov| == 1
    ensures |reader.Rest()| == |reader.iov[0]| - reader.curoff
  {
  }

  /** One turn of the block loop; None means that the loop goes on. */
  method CompressNext(env: Env, reader: Source.Reader, writer: Sink.Writer, num: nat) returns (r: Option<Outcome>)
    requires env.Valid() && reader.InBounds() && writer.Valid() && Apart(env, writer)
    requires 0 < num <= BLOCK_SIZE && Space(num) <= writer.Room() && reader.Position() + num < I32
    requires |reader.iov| > 1 || !writer.flat || num > |reader.Rest()| ==> env.ScatterGather()
    modifies reader, writer, writer.iov, env.table, env.scratch, env.scratchOutput
    ensures reader.InBounds() && writer.Valid() && reader.checkFailed == old(reader.checkFailed)
    ensures r == match BlockFrom(old(reader.Visible()) != [], old(reader.Rest()), num)
                 case Block(_) => None
                 case NoInput => Some(Returns(-EIO))
                 case Stuck => Some(Spins)
    ensures r.None? ==>
              && num <= |old(reader.Rest())| && reader.Rest() == old(reader.Rest())[num..]
              && reader.Position() == old(reader.Position()) + num
              && BlockTaken(reader.iov, old(reader.curvec), old(reader.curoff), num, reader.curvec, reader.curoff)
    ensures Appended(old(writer.Contents()), old(writer.Room()), old(writer.written),
                     if r.None? then BlockBytes(old(reader.Rest())[..num]) else [],
                     writer.Contents(), writer.Room(), writer.written)
    ensures writer.flat ==> SameOutside(old(writer.iov[0][..]), writer.iov[0][..],
                                        old(writer.curoff), old(writer.curoff) + Space(num))
  {
    hide BlockBytes, BlockTaken, Space, SameOutside, Apart, Sink.Writer.Contents, Sink.Writer.Room;
    hide Source.Reader.InBounds, Source.Reader.Rest, Source.Reader.Visible, Source.Reader.Position;
    hide Env.Valid, Env.ScatterGather;
    if writer.flat { SameOutsideRefl(writer.iov[0][..], writer.curoff, writer.curoff + Space(num)); }
    var block := ReadBeside(env, reader, writer, num);
    match block {
      case NoInput => return Some(Returns(-EIO));
      case Stuck => return Some(Spins);
      case Block(fragment) =>
        BlockFits(fragment);
        CompressBlock(env, writer, fragment);
        return None;
    }
  }

  lemma BlockFits(b: seq<byte>)
    requires |b| <= BLOCK_SIZE
    ensures |BlockBytes(b)| <= Space(|b|)
  {
    BlockSize(b);
  }

  /** Data has been appended, and room and count have changed accordingly. */
  ghost predicate Appended(before: seq<byte>, room: nat, written: nat, data: seq<byte>,
                           after: seq<byte>, room': nat, written': nat) {
    after == before + data && room' == room - |data| && written' == written + |data|
  }

  /** The reader is about to look for the block at position pos of its vector. */
  ghost predicate BeforeBlock(reader: Source.Reader, pos: nat)
    reads reader
  {
    && reader.InBounds() && pos <= |Source.Flatten(reader.iov)| && reader.Position() == pos
    && reader.Rest() == Source.Flatten(reader.iov)[pos..]
    && (reader.Visible() == [] <==> Blocked(reader.iov, pos))
  }

  lemma AtBlockIsBefore(reader: Source.Reader, pos: nat)
    requires reader.InBounds() && |reader.iov| > 0 && AtBlock(reader.iov, reader.curvec, reader.curoff, pos)
    ensures BeforeBlock(reader, pos)
  {
    hide Blocked;
    reader.RestIsPlace();
  }

  lemma AtStart(reader: Source.Reader)
    requires reader.InBounds() && reader.curvec == 0 && reader.curoff == 0
    ensures BeforeBlock(reader, 0)
  {
    if |reader.iov| > 0 {
      FirstBlockStart(reader.iov);
      AtBlockIsBefore(reader, 0);
    }
  }

  /** Behind a full block the reader stands before the next one. */
  lemma NextBlockStart(reader: Source.Reader, k: nat, off: nat, num: nat)
    requires reader.InBounds() && BlockTaken(reader.iov, k, off, num, reader.curvec, reader.curoff)
    requires num == BLOCK_SIZE
    ensures BeforeBlock(reader, reader.Position())
  {
    hide Blocked, Settled, BeforeBlock;
    if off + BLOCK_SIZE <= |reader.iov[k]| {
      AfterDirectBlock(reader.iov, k, off);
    } else {
      AfterGatheredBlock(reader.iov, k, off, reader.curvec, reader.curoff);
    }
    AtBlockIsBefore(reader, reader.Position());
  }

  /**
   * The block loop over n announced bytes of a source at its beginning. Blocks go out in order until
   * the loop ends, or does not end, as EndingFrom says.
   */
  method CompressBlocks(env: Env, reader: Source.Reader, writer: Sink.Writer, n: nat) returns (outcome: Outcome)
    requires env.Valid() && writer.Valid() && Apart(env, writer)
    requires reader.InBounds() && reader.curvec == 0 && reader.curoff == 0
    requires MaxCompressedLength(n) <= writer.Room() + 5 && n < I32
    requires |reader.iov| > 1 || !writer.flat || n > |Source.Flatten(reader.iov)| ==> env.ScatterGather()
    modifies reader, writer, writer.iov, env.table, env.scratch, env.scratchOutput
    ensures writer.Valid() && reader.checkFailed == old(reader.checkFailed)
    ensures outcome == EndingFrom(reader.iov, n, 0).outcome
    ensures Appended(old(writer.Contents()), old(writer.Room()), old(writer.written),
                     Blocks(Source.Flatten(reader.iov)[..EndingFrom(reader.iov, n, 0).covered]),
                     writer.Contents(), writer.Room(), writer.written)
    ensures writer.flat ==> SameOutside(old(writer.iov[0][..]), writer.iov[0][..],
                                        old(writer.curoff), old(writer.curoff) + MaxCompressedLength(n) - 5)
  {
    hide Blocks, BlockBytes, MaxCompressedLength, Space, Apart, SameOutside, Appended, BlockTaken, Blocked, EndingFrom;
    hide Env.Valid, Env.ScatterGather, Sink.Writer.Contents, Sink.Writer.Room, Source.Flatten;
    hide Source.Reader.InBounds, Source.Reader.Visible, Source.Reader.Rest, Source.Reader.Position;
    ghost var iov, all := reader.iov, Source.Flatten(reader.iov);
    ghost var contents, room, count := writer.Contents(), writer.Room(), writer.written;
    ghost var lo: nat, hi: nat := writer.curoff, writer.curoff + MaxCompressedLength(n) - 5;
    var left: nat := n;
    ghost var pos: nat := 0;
    AtStart(reader);
    NothingAppended(contents, room, count, all);
    if writer.flat {
      SameOutsideRefl(writer.iov[0][..], lo, hi);
      writer.OnePiece();
    }
    while left > 0
      invariant left + pos == n && pos <= |all|
      invariant left > 0 ==> pos % BLOCK_SIZE == 0 && BeforeBlock(reader, pos)
      invariant writer.Valid() && reader.checkFailed == old(reader.checkFailed)
      invariant EndingFrom(iov, n, pos) == EndingFrom(iov, n, 0)
      invariant Appended(contents, room, count, Blocks(all[..pos]), writer.Contents(), writer.Room(), writer.written)
      invariant writer.flat ==> SameOutside(old(writer.iov[0][..]), writer.iov[0][..], lo, hi)
    {
      var num := Min(left, BLOCK_SIZE);
      ghost var k, off := reader.curvec, reader.curoff;
      ghost var buf, from := writer.iov[0][..], writer.curoff;
      ghost var c, r, w := writer.Contents(), writer.Room(), writer.written;
      RoomForBlock(all, pos, num, n);
      EndingTurn(iov, n, pos, num);
      AppendedRoom(contents, room, count, Blocks(all[..pos]), c, r, w);
      if writer.flat { writer.OnePiece(); }
      var stop := CompressNext(env, reader, writer, num);
      if writer.flat {
        SameOutsideJoin(old(writer.iov[0][..]), buf, writer.iov[0][..], lo, hi, from, from + Space(num));
      }
      ghost var more := if stop.Some? then [] else BlockBytes(all[pos..][..num]);
      AppendedMore(contents, room, count, Blocks(all[..pos]), c, r, w, more,
                   writer.Contents(), writer.Room(), writer.written);
      if stop.Some? {
        assert Blocks(all[..pos]) + [] == Blocks(all[..pos]);
        return stop.value;
      }
      NextBlock(all, pos, num);
      if left > BLOCK_SIZE {
        NextBlockStart(reader, k, off, num);
      }
      pos := pos + num;
      left := left - num;
    }
    outcome := Returns(0);
  }

  lemma AppendedRoom(contents: seq<byte>, room: nat, written: nat, data: seq<byte>, c: seq<byte>, r: nat, w: nat)
    requires Appended(contents, room, written, data, c, r, w)
    ensures r == room - |data|
  {
  }

  lemma AppendedMore(contents: seq<byte>, room: nat, written: nat, data: seq<byte>, c: seq<byte>, r: nat, w: nat,
                     more: seq<byte>, c': seq<byte>, r': nat, w': nat)
    requires Appended(contents, room, written, data, c, r, w) && Appended(c, r, w, more, c', r', w')
    ensures Appended(contents, room, written, data + more, c', r', w')
  {
  }

  lemma NothingAppended(contents: seq<byte>, room: nat, written: nat, all: seq<byte>)
    ensures Appended(contents, room, written, Blocks(all[..0]), contents, room, written)
  {
  }

  /** How compress ends for an announced length. */
  ghost function EndingFor(iov: seq<seq<byte>>, total: nat): (e: Ending)
    ensures e.covered <= Announced(total) && e.covered <= |Source.Flatten(iov)|
    ensures e.outcome == Returns(0) <==> e.covered == Announced(total)
  {
    EndingFrom(iov, Announced(total), 0)
  }

  /** What compress appends then. */
  ghost function StreamFor(iov: seq<seq<byte>>, total: nat): seq<byte> {
    Varint.Encode(total % U32) + Blocks(Source.Flatten(iov)[..EndingFor(iov, total).covered])
  }

  /**
   * On a source that holds what it announces: the outcome is 0 exactly when no block is blocked, and
   * the result can be decoded to the input exactly if besides the length is below 2^31.
   */
  lemma StreamForIff(iov: seq<seq<byte>>, total: nat)
    requires total <= |Source.Flatten(iov)|
    ensures EndingFor(iov, total).outcome == Returns(0) <==> Unblocked(iov, 0, Announced(total))
    ensures total < I32 && Unblocked(iov, 0, total) ==>
              StreamFor(iov, total) == Compressed(Source.Flatten(iov)[..total])
    ensures ReferenceDecode(StreamFor(iov, total)) == Some(Source.Flatten(iov)[..total])
       <==> total < I32 && Unblocked(iov, 0, total)
  {
    hide ReferenceDecode, Blocks, Unblocked, EndingFrom, Source.Flatten;
    var all, n := Source.Flatten(iov), Announced(total);
    EndingIff(iov, n, 0);
    PreambleAndBlocks(total % U32, all[..EndingFor(iov, total).covered]);
  }

  /** What a failed or endless call leaves behind is never accepted. */
  lemma FailureRefused(iov: seq<seq<byte>>, total: nat)
    requires EndingFor(iov, total).outcome != Returns(0)
    ensures ReferenceDecode(StreamFor(iov, total)) == None
  {
    hide ReferenceDecode, Blocks, EndingFrom, Source.Flatten;
    PreambleAndBlocks(total % U32, Source.Flatten(iov)[..EndingFor(iov, total).covered]);
  }

  lemma StreamForSize(iov: seq<seq<byte>>, total: nat)
    ensures |StreamFor(iov, total)| <= MaxCompressedLength(total)
  {
    hide Blocks, EndingFor, Source.Flatten;
    BlocksSize(Source.Flatten(iov)[..EndingFor(iov, total).covered]);
    Varint.RoundTrip(total % U32, []);
  }

  /** One buffer is never blocked. */
  lemma FlatStream(input: seq<byte>)
    ensures Source.Flatten([input]) == input && EndingFor([input], |input|).outcome == Returns(0)
    ensures |input| < I32 ==> StreamFor([input], |input|) == Compressed(input)
    ensures ReferenceDecode(StreamFor([input], |input|)) == Some(input) <==> |input| < I32
  {
    hide ReferenceDecode, Compressed, StreamFor, EndingFrom, Blocked, Source.Flatten;
    Source.FlattenOne(input);
    assert input[..|input|] == input;
    forall pos: nat | pos < |input| ensures !Blocked([input], pos) { BlockedOnlyAtEnd([input], pos); }
    AnnouncedFits(|input|);
    StreamForIff([input], |input|);
  }

  /**
   * compress, on a source at its beginning. In the flat build blocks are written in place without
   * asking for room: the documented buffer size is enough for every transient write.
   */
  method Compress(env: Env, reader: Source.Reader, writer: Sink.Writer, total: nat) returns (outcome: Outcome)
    requires env.Valid() && writer.Valid() && Apart(env, writer)
    requires reader.InBounds() && reader.curvec == 0 && reader.curoff == 0
    requires MaxCompressedLength(total) <= writer.Room()
    requires |reader.iov| > 1 || !writer.flat || Announced(total) > |Source.Flatten(reader.iov)| ==> env.ScatterGather()
    modifies reader, writer, writer.iov, env.table, env.scratch, env.scratchOutput
    ensures writer.Valid() && reader.checkFailed == old(reader.checkFailed)
    ensures outcome == EndingFor(reader.iov, total).outcome
    ensures Appended(old(writer.Contents()), old(writer.Room()), old(writer.written),
                     StreamFor(reader.iov, total), writer.Contents(), writer.Room(), writer.written)
    ensures writer.flat ==> SameOutside(old(writer.iov[0][..]), writer.iov[0][..],
                                        old(writer.curoff), old(writer.curoff) + MaxCompressedLength(total))
  {
    hide Blocks, Varint.Encode, Apart, SameOutside, Announced, EndingFrom, MaxCompressedLength;
    hide Env.Valid, Env.ScatterGather, Sink.Writer.Contents, Sink.Writer.Room;
    hide Source.Reader.InBounds, Source.Reader.Visible, Source.Reader.Rest, Source.Flatten;
    ghost var x, preamble := Source.Flatten(reader.iov), Varint.Encode(total % U32);
    ghost var contents, room, count := writer.Contents(), writer.Room(), writer.written;
    ghost var buf, lo: nat, hi: nat := writer.iov[0][..], writer.curoff, writer.curoff + MaxCompressedLength(total);
    var ulength := new byte[5];
    Varint.EncodeLength(total % U32);
    AnnouncedFits(total);
    var p := Varint.Encode32(ulength, 0, total % U32);
    assert ulength[..p] == preamble;
    writer.Append(ulength[..p]);
    ghost var c, r, w, from := writer.Contents(), writer.Room(), writer.written, writer.curoff;
    ghost var mid := writer.iov[0][..];
    outcome := CompressBlocks(env, reader, writer, Announced(total));
    AppendedMore(contents, room, count, preamble, c, r, w, Blocks(x[..EndingFor(reader.iov, total).covered]),
                 writer.Contents(), writer.Room(), writer.written);
    if writer.flat {
      SameOutsideRefl(buf, lo, hi);
      SameOutsideJoin(buf, buf, mid, lo, hi, lo, from);
      SameOutsideJoin(buf, mid, writer.iov[0][..], lo, hi, from, from + MaxCompressedLength(Announced(total)) - 5);
    }
  }

  lemma AnnouncedFits(total: nat)
    ensures Announced(total) <= total % U32 <= total
    ensures MaxCompressedLength(Announced(total)) <= MaxCompressedLength(total)
  {
  }

  /**
   * snappy_compress of the flat build. It always reports success; the result is the compressed form,
   * and can be decoded to the input, exactly below 2^31 bytes. Nothing behind the documented size is
   * touched.
   */
  method SnappyCompress(env: Env, input: seq<byte>, compressed: array<byte>) returns (err: int, length: nat)
    requires env.Valid()
    requires compressed as object != env.table as object
    requires compressed != env.scratch && compressed != env.scratchOutput
    requires MaxCompressedLength(|input|) <= compressed.Length
    modifies compressed, env.table, env.scratch, env.scratchOutput
    ensures err == 0 && length <= MaxCompressedLength(|input|) <= compressed.Length
    ensures compressed[..length] == StreamFor([input], |input|)
    ensures |input| < I32 ==> compressed[..length] == Compressed(input)
    ensures ReferenceDecode(compressed[..length]) == Some(input) <==> |input| < I32
    ensures compressed[MaxCompressedLength(|input|)..] == old(compressed[MaxCompressedLength(|input|)..])
  {
    hide StreamFor, EndingFor, Compressed, ReferenceDecode, Sink.Writer.Contents, Sink.Writer.Room, MaxCompressedLength;
    hide Source.Reader.Rest, Source.Reader.Visible, Source.Flatten, Announced;
    var reader := new Source.Reader([input], true);
    var writer := new Sink.Writer([compressed], true);
    FlatStream(input);
    StreamForSize([input], |input|);
    writer.OnePiece();
    AnnouncedFits(|input|);
    var outcome := Compress(env, reader, writer, |input|);
    err := outcome.err;
    length := writer.curoff;
    writer.OnePiece();
  }

  /** Buffers that a call may fill: distinct, and none of the environment's. */
  ghost predicate Usable(env: Env, iov: seq<array<byte>>) {
    && |iov| >= 1 && (forall i, j :: 0 <= i < j < |iov| ==> iov[i] != iov[j])
    && (forall a :: a in iov ==> a as object != env.table as object)
    && env.scratch !in iov && env.scratchOutput !in iov
  }

  /** snappy_compress_iov: any pieces in, pieces out. */
  method SnappyCompressIov(env: Env, iovIn: seq<seq<byte>>, inputLength: nat, iovOut: seq<array<byte>>)
    returns (outcome: Outcome, writer: Sink.Writer)
    requires env.Valid() && env.ScatterGather() && Usable(env, iovOut)
    requires MaxCompressedLength(inputLength) <= TotalLength(iovOut)
    modifies env.table, env.scratch, env.scratchOutput, iovOut
    ensures fresh(writer) && writer.Valid() && writer.iov == iovOut
    ensures outcome == EndingFor(iovIn, inputLength).outcome
    ensures writer.Contents() == StreamFor(iovIn, inputLength)
    ensures writer.written == |writer.Contents()|
  {
    hide StreamFor, EndingFor, Announced, Sink.Writer.Contents, Sink.Writer.Room, MaxCompressedLength;
    hide Source.Reader.Rest, Source.Reader.Visible, Source.Flatten;
    var reader := new Source.Reader(iovIn, false);
    writer := new Sink.Writer(iovOut, false);
    RoomIsTotal(writer, 0);
    assert iovOut[0..] == iovOut;
    outcome := Compress(env, reader, writer, inputLength);
  }

  ghost function TotalLength(pieces: seq<array<byte>>): nat {
    if |pieces| == 0 then 0 else pieces[0].Length + TotalLength(pieces[1..])
  }

  lemma {:induction false} RoomIsTotal(writer: Sink.Writer, k: nat)
    requires k <= |writer.iov|
    ensures writer.RoomFrom(k) == TotalLength(writer.iov[k..])
    decreases |writer.iov| - k
  {
    if k < |writer.iov| {
      RoomIsTotal(writer, k + 1);
      assert writer.iov[k..][1..] == writer.iov[k + 1..];
    }
  }
}
