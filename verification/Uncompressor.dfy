/** internal_uncompress and the public entry points of the decompressor. */
module Uncompressor {
  import opened Bytes
  import opened Format
  import opened Emit
  import opened Decompressor
  import opened Stream
  import opened Surplus
  import Source
  import Output
  import Varint

  /** A varint after i continuation bytes with the value acc so far. */
  ghost function Combine(acc: nat, i: nat, tail: Option<(nat, nat)>): Option<(nat, nat)> {
    match tail
    case None => None
    case Some((v, n)) => Some((acc + Varint.Pow128(i) * v, i + n))
  }

  lemma CombineStep(acc: nat, i: nat, s: seq<byte>, k: nat)
    requires k > 0 && |s| > 0
    ensures s[0] < 128 ==>
              Combine(acc, i, Varint.Raw(s, k)) == Some((acc + Varint.Pow128(i) * (s[0] % 128), i + 1))
    ensures s[0] >= 128 ==>
              Combine(acc, i, Varint.Raw(s, k)) ==
              Combine(acc + Varint.Pow128(i) * (s[0] % 128), i + 1, Varint.Raw(s[1..], k - 1))
  {
    if s[0] >= 128 && Varint.Raw(s[1..], k - 1).Some? {
      var (v, n) := Varint.Raw(s[1..], k - 1).value;
      Distribute(Varint.Pow128(i), 128, s[0] % 128, v);
    }
  }

  lemma ModAdd(a: nat, b: nat)
    ensures (a % U32 + b) % U32 == (a + b) % U32
  {
  }

  /** The u32 result after the seven bits of byte c have been put in at a shift. */
  function WithByte(result: nat, c: byte, shift: nat): (r: nat)
    ensures r < U32
  {
    (result + Varint.Pow128(shift / 7) * (c % 128)) % U32
  }

  /** The first i bytes of a preamble are continuation bytes and have given the result so far. */
  ghost predicate ReadSoFar(all: seq<byte>, i: nat, acc: nat, result: nat) {
    i <= 5 && i <= |all| && result == acc % U32 && Varint.Raw(all, 5) == Combine(acc, i, Varint.Raw(all[i..], 5 - i))
  }

  lemma NothingRead(all: seq<byte>)
    ensures ReadSoFar(all, 0, 0, 0)
  {
    assert all[0..] == all;
  }

  /** What the next byte of a preamble does. */
  lemma PreambleTurn(all: seq<byte>, i: nat, acc: nat, result: nat) returns (next: nat)
    requires ReadSoFar(all, i, acc, result) && i < 5 && i < |all|
    ensures all[i] < 128 ==> Varint.Lenient(all) == Some((WithByte(result, all[i], 7 * i), i + 1))
    ensures all[i] >= 128 ==> ReadSoFar(all, i + 1, next, WithByte(result, all[i], 7 * i))
  {
    hide Varint.Raw, Varint.Pow128, Combine;
    var added := Varint.Pow128(i) * (all[i] % 128);
    next := acc + added;
    CombineStep(acc, i, all[i..], 5 - i);
    ModAdd(acc, added);
    assert all[i..][1..] == all[i + 1..];
  }

  /** No byte left, or no place for one: there is no varint. */
  lemma PreambleStops(all: seq<byte>, i: nat, acc: nat, result: nat)
    requires ReadSoFar(all, i, acc, result) && (i == 5 || i == |all|)
    ensures Varint.Lenient(all).None?
  {
  }

  /** Five continuation bytes are no preamble, whatever follows. */
  lemma NoPreamble(iov: seq<seq<byte>>, all: seq<byte>, rest: seq<byte>)
    requires |all| >= 5 && all <= rest && Varint.Lenient(all).None?
    ensures Varint.Lenient(Cut(rest, 0)).None? && Source.EndBefore(iov, 0)
  {
    assert Cut(rest, 0) == rest == all + rest[|all|..];
    Varint.RawOfPrefix(all, rest[|all|..], 5);
  }

  /** The next byte, unless the source shows none. */
  method TakeByte(reader: Source.Reader) returns (some: bool, c: byte)
    requires reader.InBounds() && (reader.flat || reader.curoff + 1 < I32)
    modifies reader
    ensures reader.InBounds()
    ensures reader.checkFailed == old(reader.checkFailed) && reader.curoff <= old(reader.curoff) + 1
    ensures some <==> old(reader.Visible()) != []
    ensures !some ==> Source.EndBefore(reader.iov, |old(reader.Rest())|)
    ensures some ==>
              && |reader.iov| > 0 && old(reader.Rest()) != [] && c == old(reader.Visible())[0]
              && reader.Visible() == old(reader.Visible())[1..] && reader.Rest() == old(reader.Rest())[1..]
    ensures old(reader.Stretch()) > 1 ==>
              && reader.curvec == old(reader.curvec) && reader.curoff == old(reader.curoff) + 1
              && reader.Stretch() == old(reader.Stretch()) - 1
    ensures !some ==> unchanged(reader)
  {
    hide Source.Reader.Rest, Source.Reader.Position, Source.SkipPasses;
    var n := reader.Peek();
    if n == 0 {
      return false, 0;
    }
    c := reader.iov[reader.curvec][reader.curoff];
    assert c == reader.iov[reader.curvec][reader.curoff..][0] == reader.Visible()[0];
    if !reader.flat { Source.SkipCheck(reader.curoff, 1, |reader.iov[reader.curvec]|); }
    reader.Skip(1);
    some := true;
  }

  /**
   * Reads the preamble byte by byte; anything above 32 bits is shifted out. An empty piece inside the
   * preamble is taken for the end of the input, whatever follows it.
   */
  method ReadUncompressedLength(reader: Source.Reader) returns (ok: bool, result: nat, ghost hidden: nat)
    requires reader.InBounds() && (reader.flat || reader.curoff + 5 < I32)
    modifies reader
    ensures reader.InBounds() && reader.checkFailed == old(reader.checkFailed)
    ensures old(reader.Stretch()) > 5 ==>
              reader.curvec == old(reader.curvec) && reader.curoff <= old(reader.curoff) + 5
    ensures ok <==> Varint.Lenient(old(reader.Visible())).Some?
    ensures !ok ==>
              && Source.EndBefore(reader.iov, hidden) && hidden <= |old(reader.Rest())|
              && Varint.Lenient(Cut(old(reader.Rest()), hidden)).None?
    ensures ok ==>
              var (v, n) := Varint.Lenient(old(reader.Visible())).value;
              && |reader.iov| > 0 && result == v
              && n <= |old(reader.Rest())| && reader.Rest() == old(reader.Rest())[n..]
  {
    hide Source.Reader.InBounds, Source.Reader.Visible, Source.Reader.Rest, Source.Reader.Stretch;
    hide Varint.Lenient, WithByte, ReadSoFar, Source.EndBefore;
    ghost var all, rest := reader.Visible(), reader.Rest();
    ghost var acc: nat := 0;
    ghost var i: nat := 0;
    result, hidden := 0, 0;
    var shift: nat := 0;
    NothingRead(all);
    while true
      invariant reader.InBounds()
      invariant i <= 5 && shift == 7 * i && i <= |all| && all <= rest
      invariant reader.Visible() == all[i..] && reader.Rest() == rest[i..]
      invariant reader.checkFailed == old(reader.checkFailed) && reader.curoff <= old(reader.curoff) + i
      invariant old(reader.Stretch()) > 5 ==>
                  reader.curvec == old(reader.curvec) && reader.Stretch() == old(reader.Stretch()) - i
      invariant ReadSoFar(all, i, acc, result)
      decreases 5 - i
    {
      if shift >= 32 {
        PreambleStops(all, i, acc, result);
        NoPreamble(reader.iov, all, rest);
        return false, result, 0;
      }
      var some, c := TakeByte(reader);
      if !some {
        PreambleStops(all, i, acc, result);
        assert Cut(rest, |rest| - i) == all;
        return false, result, |rest| - i;
      }
      acc := PreambleTurn(all, i, acc, result);
      result := WithByte(result, c, shift);
      assert all[i..][1..] == all[i + 1..] && rest[i..][1..] == rest[i + 1..];
      i := i + 1;
      if c < 128 {
        return true, result, 0;
      }
      shift := shift + 7;
    }
  }

  /** The length that a stream declares; 0 when its preamble cannot be read. */
  ghost function Declared(s: seq<byte>): nat {
    match Varint.Lenient(s)
    case None => 0
    case Some((v, n)) => v
  }

  /** A first piece that the scatter-gather source cannot skip. */
  predicate LongFirst(iov: seq<seq<byte>>) {
    |iov| > 0 && |iov[0]| >= I32
  }

  /** What a stream leads to: 0 exactly if the reference decoder accepts it within the maximum. */
  ghost predicate Result(r: int, s: seq<byte>, maxLen: nat, contents: seq<byte>) {
    var ref := ReferenceDecode(s);
    && (r == 0 <==> ref.Some? && |ref.value| <= maxLen)
    && (r == 0 ==> contents == ref.value)
  }

  /**
   * Runs the whole stream, on any vector of pieces. The input may be taken for ended at an empty piece;
   * `hidden` is the number of bytes behind it. On the bytes before it the result is that of the
   * reference decoder, and no run writes past the declared length. A readable stream with a long first
   * piece fails the check of skip on every run.
   */
  method InternalUncompress(reader: Source.Reader, w: Output.Writer, maxLen: nat) returns (r: int, ghost hidden: nat)
    requires reader.InBounds() && reader.curvec == 0 && reader.curoff == 0 && !reader.checkFailed
    requires Source.Countable(reader.iov) && w.Valid() && w.op == w.base
    requires Declared(reader.Rest()) <= maxLen ==> w.base + Declared(reader.Rest()) <= w.buf.Length
    modifies reader, w, w.buf
    ensures w.Valid() && (r == 0 || r == -EIO)
    ensures Source.EndBefore(reader.iov, hidden) && hidden <= |old(reader.Rest())|
    ensures Result(r, Cut(old(reader.Rest()), hidden), maxLen, w.Contents())
    ensures Varint.Lenient(old(reader.Visible())).None? ==>
              r == -EIO && !reader.checkFailed && w.buf[..] == old(w.buf[..])
    ensures SameOutside(old(w.buf[..]), w.buf[..], w.base, w.base + Declared(old(reader.Rest())))
    ensures Source.Fits(reader.iov, reader.flat) ==> !reader.checkFailed
    ensures !reader.flat && LongFirst(reader.iov) ==>
              (reader.checkFailed <==>
               Varint.Lenient(old(reader.Visible())).Some? && Declared(old(reader.Rest())) <= maxLen)
  {
    hide Decode, SameOutside, Varint.Lenient, State.Pending, State.Valid, State.CanExit, Cut;
    hide Source.Reader.Rest, Source.Reader.Visible, Source.EndBefore, Rejects;
    ghost var all, seen := reader.Rest(), reader.Visible();
    SameOutsideRefl(w.buf[..], w.base, w.base + Declared(all));
    SeenPreamble(seen, all);
    DeclaredFits(all);
    var ok, uncompressedLen;
    ok, uncompressedLen, hidden := ReadUncompressedLength(reader);
    if !ok {
      return -EIO, hidden;
    }
    ghost var n: nat := Varint.Lenient(seen).value.1;
    if uncompressedLen > maxLen {
      TooLong(reader.iov, all, maxLen, w.Contents());
      return -EIO, 0;
    }
    var d := new State(reader);
    w.SetExpectedLength(uncompressedLen);
    NothingYet(w);
    hidden := d.DecompressAllTags(w);
    ExitSnappyDecompressor(d);
    var full := w.CheckLength();
    Verdict(all, n, hidden, maxLen, d.eof, w.Contents());
    if d.eof && full {
      return 0, hidden;
    }
    return -EIO, hidden;
  }

  /** The preamble that is seen is that of the whole. */
  lemma SeenPreamble(seen: seq<byte>, all: seq<byte>)
    requires seen <= all
    ensures Varint.Lenient(seen).Some? ==> Varint.Lenient(all) == Varint.Lenient(seen)
  {
    if Varint.Lenient(seen).Some? {
      Varint.RawOfPrefix(seen, all[|seen|..], 5);
      assert seen + all[|seen|..] == all;
    }
  }

  lemma TooLong(iov: seq<seq<byte>>, s: seq<byte>, maxLen: nat, contents: seq<byte>)
    requires Varint.Lenient(s).Some? && Varint.Lenient(s).value.0 > maxLen
    ensures Source.EndBefore(iov, 0) && Result(-EIO, Cut(s, 0), maxLen, contents)
  {
    assert Cut(s, 0) == s;
  }

  /** Cutting off bytes behind the preamble leaves the preamble, and cuts the tags. */
  lemma BehindPreamble(s: seq<byte>, n: nat, m: nat)
    requires Varint.Lenient(s).Some? && n == Varint.Lenient(s).value.1 && n <= |s| && m <= |s[n..]|
    ensures Varint.Lenient(Cut(s, m)) == Varint.Lenient(s) && Cut(s, m)[n..] == Cut(s[n..], m)
  {
    Varint.RawOfItself(s, 5);
    assert s[..n] + Cut(s, m)[n..] == Cut(s, m);
    Varint.RawOfPrefix(s[..n], Cut(s, m)[n..], 5);
  }

  /** How the run of the tags and the final check decide. */
  lemma Verdict(s: seq<byte>, n: nat, m: nat, maxLen: nat, eof: bool, contents: seq<byte>)
    requires Varint.Lenient(s).Some? && n == Varint.Lenient(s).value.1 && n <= |s| && m <= |s[n..]|
    requires Varint.Lenient(s).value.0 <= maxLen
    requires eof ==> Decode(Cut(s[n..], m), []) == Some(contents)
    requires !eof ==> Rejects(Cut(s[n..], m), [], Varint.Lenient(s).value.0)
    ensures Result(if eof && |contents| == Varint.Lenient(s).value.0 then 0 else -EIO, Cut(s, m), maxLen, contents)
  {
    hide Decode;
    BehindPreamble(s, n, m);
    hide Varint.Lenient, Cut;
  }

  lemma NothingYet(w: Output.Writer)
    requires w.Valid() && w.op == w.base
    ensures w.Contents() == []
  {
  }

  method ExitSnappyDecompressor(d: State)
    requires d.CanExit()
    modifies d.reader
    ensures d.reader.InBounds()
    ensures !d.reader.flat && |d.reader.iov| > 0 && |d.reader.iov[0]| >= I32 ==> d.reader.checkFailed
  {
    hide Source.Reader.Visible, Source.Reader.Rest, Source.Reader.Position;
    Source.SkipCheck(d.reader.curoff, d.peeked, |d.reader.iov[d.reader.curvec]|);
    d.reader.Skip(d.peeked);
  }

  /** snappy_uncompress of the flat build: one buffer in, one buffer out. */
  method SnappyUncompress(compressed: seq<byte>, uncompressed: array<byte>) returns (r: int)
    requires |compressed| < U32 && Declared(compressed) <= uncompressed.Length
    modifies uncompressed
    ensures r == 0 || r == -EIO
    ensures r == 0 <==> ReferenceDecode(compressed).Some?
    ensures r == 0 ==> uncompressed[..Declared(compressed)] == ReferenceDecode(compressed).value
    ensures uncompressed[Declared(compressed)..] == old(uncompressed[Declared(compressed)..])
  {
    hide Decode, Varint.Raw, Source.Flatten, Source.Reader.Rest, Source.Reader.Visible, Source.EndBefore;
    Source.FlattenOne(compressed);
    var reader := new Source.Reader([compressed], true);
    var output := new Output.Writer(uncompressed, 0);
    DeclaredFits(compressed);
    ghost var hidden;
    r, hidden := InternalUncompress(reader, output, U32 - 1);
    Source.NothingMissed([compressed], hidden);
    assert Cut(compressed, 0) == compressed;
  }

  /**
   * snappy_uncompress_iov, on any vector of pieces. The input may be taken for ended at an empty piece,
   * `hidden` bytes before its end, which cannot happen if empty pieces stand at the end of the vector,
   * and happens on every run if one cuts the preamble. The announced length is not looked at: bytes
   * behind it make the call fail unless they are literals whose length wraps to zero. `aborted` tells
   * that skip has ended the process.
   */
  method SnappyUncompressIov(iov: seq<seq<byte>>, inputLen: nat, uncompressed: array<byte>)
    returns (r: int, aborted: bool, ghost hidden: nat)
    requires Source.Countable(iov) && Declared(Source.Flatten(iov)) <= uncompressed.Length
    modifies uncompressed
    ensures Source.Fits(iov, false) ==> !aborted
    ensures LongFirst(iov) ==> (aborted <==> Varint.Lenient(Source.UpToEmpty(iov)).Some?)
    ensures r == 0 || r == -EIO
    ensures Source.EndBefore(iov, hidden) && hidden <= |Source.Flatten(iov)|
    ensures Source.EmptyAtEnd(iov) ==> hidden == 0
    ensures !aborted ==> (r == 0 <==> ReferenceDecode(Cut(Source.Flatten(iov), hidden)).Some?)
    ensures !aborted && r == 0 ==>
              uncompressed[..Declared(Source.Flatten(iov))] == ReferenceDecode(Cut(Source.Flatten(iov), hidden)).value
    ensures !aborted && inputLen + hidden <= |Source.Flatten(iov)| &&
            ReferenceDecode(Source.Flatten(iov)[..inputLen]).Some? ==>
              && (r == 0 <==> OnlyWraps(Cut(Source.Flatten(iov)[inputLen..], hidden)))
              && Declared(Source.Flatten(iov)) == Declared(Source.Flatten(iov)[..inputLen])
              && (r == 0 ==> uncompressed[..Declared(Source.Flatten(iov))]
                             == ReferenceDecode(Source.Flatten(iov)[..inputLen]).value)
    ensures Varint.Lenient(Source.UpToEmpty(iov)).None? ==>
              r == -EIO && !aborted && uncompressed[..] == old(uncompressed[..])
    ensures uncompressed[Declared(Source.Flatten(iov))..] == old(uncompressed[Declared(Source.Flatten(iov))..])
  {
    hide Decode, Varint.Raw, Source.Flatten, Source.UpToEmpty, Source.EmptyAtEnd, OnlyWraps, Cut, Declared;
    hide ReferenceDecode, Source.Reader.Rest, Source.Reader.Visible, Source.EndBefore;
    var reader := new Source.Reader(iov, false);
    var output := new Output.Writer(uncompressed, 0);
    ghost var all := Source.Flatten(iov);
    DeclaredFits(all);
    r, hidden := InternalUncompress(reader, output, U32 - 1);
    aborted := reader.checkFailed;
    if Source.EmptyAtEnd(iov) { Source.NothingMissed(iov, hidden); }
    DeclaredBefore(all, hidden);
    AcceptedWithin(all, inputLen, hidden);
  }

  /** What is accepted has the declared length, and stands behind the preamble of the whole. */
  lemma DeclaredBefore(s: seq<byte>, m: nat)
    requires m <= |s|
    ensures ReferenceDecode(Cut(s, m)).Some? ==>
              |ReferenceDecode(Cut(s, m)).value| == Declared(s) == Declared(Cut(s, m))
  {
    SeenPreamble(Cut(s, m), s);
  }

  lemma DeclaredFits(s: seq<byte>)
    ensures Declared(s) < U32
  {
  }

  /** A stream accepted within its first n bytes is accepted as a whole exactly if nothing counts behind them. */
  lemma AcceptedWithin(s: seq<byte>, n: nat, m: nat)
    ensures n + m <= |s| && ReferenceDecode(s[..n]).Some? ==>
              && Declared(s) == Declared(s[..n])
              && ReferenceDecode(Cut(s, m)) == if OnlyWraps(Cut(s[n..], m)) then ReferenceDecode(s[..n]) else None
  {
    if n + m <= |s| && ReferenceDecode(s[..n]).Some? {
      SurplusBytes(s[..n], Cut(s[n..], m));
      assert s[..n] + Cut(s[n..], m) == Cut(s, m);
      SeenPreamble(s[..n], s);
    }
  }

  /** In front of an acceptable stream an empty piece leaves the bytes the same and hides the preamble. */
  lemma EmptyPieceInFront(iov: seq<seq<byte>>)
    ensures Source.Flatten([[]] + iov) == Source.Flatten(iov)
    ensures Varint.Lenient(Source.UpToEmpty([[]] + iov)).None?
  {
    assert ([[]] + iov)[1..] == iov;
  }

  /** snappy_uncompressed_length: the strict parser decides. */
  method SnappyUncompressedLength(start: seq<byte>) returns (ok: bool, result: nat)
    ensures ok <==> Varint.Strict(start).Some?
    ensures ok ==> result == Varint.Strict(start).value.0 == Declared(start)
  {
    var r := Varint.Parse32WithLimit(start, 0, |start|);
    assert start[0..|start|] == start;
    Varint.ParsersCompared(start);
    match r {
      case None => return false, 0;
      case Some((v, n)) => return true, v;
    }
  }
}
