/** The tag-stream decompressor over a source of pieces, with its five-byte stitching buffer. */
module Decompressor {
  import opened Bytes
  import opened Format
  import opened Emit
  import opened TagTable
  import Source
  import Output

  /** Where the pointers ip and ip_limit point. */
  datatype Region = Nowhere | Piece(k: nat) | Scratch

  /** Decoding p on top of out either fails or overruns the limit. */
  ghost predicate Rejects(p: seq<byte>, out: seq<byte>, limit: nat) {
    Decode(p, out).Some? ==> |Decode(p, out).value| > limit
  }

  /** All but the last m bytes. */
  function Cut(p: seq<byte>, m: nat): seq<byte>
    requires m <= |p|
  {
    p[..|p| - m]
  }

  /** The input may end m bytes before the end of p, and is rejected if it does. */
  ghost predicate RejectsAt(iov: seq<seq<byte>>, p: seq<byte>, out: seq<byte>, limit: nat, m: nat) {
    Source.EndBefore(iov, m) && m <= |p| && Rejects(Cut(p, m), out, limit)
  }

  /** The first n of the unread bytes p have been appended to the output out. */
  ghost predicate Moved(p: seq<byte>, out: seq<byte>, n: nat, p': seq<byte>, out': seq<byte>) {
    n <= |p| && p' == p[n..] && out' == out + p[..n]
  }

  lemma MovedNothing(p: seq<byte>, out: seq<byte>)
    ensures Moved(p, out, 0, p, out)
  {
  }

  lemma MovedLength(p: seq<byte>, out: seq<byte>, n: nat, p': seq<byte>, out': seq<byte>)
    requires Moved(p, out, n, p', out')
    ensures |p| == n + |p'|
  {
  }

  lemma MovedMore(p: seq<byte>, out: seq<byte>, n: nat, p': seq<byte>, out': seq<byte>,
                  m: nat, p'': seq<byte>, out'': seq<byte>)
    requires Moved(p, out, n, p', out') && Moved(p', out', m, p'', out'')
    ensures Moved(p, out, n + m, p'', out'')
  {
    TakeMore(out, p, n, m);
  }

  class State {
    const reader: Source.Reader
    const scratch: array<byte>
    var region: Region
    var ip: nat
    var ipLimit: nat
    var peeked: nat
    var eof: bool

    /** The memory that ip points into. */
    function Mem(): seq<byte>
      reads this`region, scratch
    {
      match region
      case Nowhere => []
      case Piece(k) => if k < |reader.iov| then reader.iov[k] else []
      case Scratch => scratch[..]
    }

    /** The source can be skipped piece by piece. */
    ghost predicate SourceOk()
      reads reader
    {
      reader.InBounds() && |reader.iov| > 0 && Source.Countable(reader.iov)
    }

    /**
     * The first piece is so long that it cannot be skipped: it is not buffered yet, or it is and the
     * skip is still to come, or a check has failed.
     */
    ghost predicate LongPieceOk()
      reads this`region, reader
    {
      LongPiece() && !reader.checkFailed ==>
        reader.curvec == 0 && region != Scratch && (region == Nowhere ==> reader.curoff < I32)
    }

    ghost predicate LongPiece() {
      |reader.iov| > 0 && !reader.flat && |reader.iov[0]| >= I32
    }

    /** A long first piece can only have been left by a skip that failed. */
    ghost predicate ScratchAllowed()
      reads reader
    {
      LongPiece() ==> reader.checkFailed
    }

    ghost predicate Valid()
      reads this, reader, scratch
    {
      && SourceOk() && LongPieceOk() && scratch.Length == 5 && ip <= ipLimit <= |Mem()|
      && (match region
          case Piece(k) =>
            && k == reader.curvec && reader.curoff <= ip && ipLimit == |reader.iov[k]|
            && peeked == ipLimit - reader.curoff
          case _ => peeked == 0)
    }

    /** The unread compressed bytes: those buffered, then those the reader still holds. */
    ghost function Pending(): seq<byte>
      requires Valid()
      reads this, reader, scratch
    {
      Mem()[ip..ipLimit] + reader.Rest()[peeked..]
    }

    /** The next tag is buffered in full, and five bytes can be loaded at ip. */
    ghost predicate TagReady()
      requires Valid()
      reads this, reader, scratch
    {
      ip < ipLimit && ip + 5 <= |Mem()| && TagLength(Mem()[ip]) <= ipLimit - ip
    }

    /** Enough for the final skip of the peeked bytes, which fails its check behind a long first piece. */
    ghost predicate CanExit()
      reads this`peeked, reader
    {
      && SourceOk() && peeked <= |reader.iov[reader.curvec]| - reader.curoff
      && (LongPiece() ==> reader.checkFailed || reader.curoff + peeked >= I32)
    }

    constructor (source: Source.Reader)
      requires source.InBounds() && |source.iov| > 0 && Source.Countable(source.iov)
      requires source.flat || |source.iov[0]| < I32 || (source.curvec == 0 && source.curoff < I32)
      ensures Valid() && reader == source && Pending() == source.Rest() && !eof && fresh(scratch)
      ensures region == Nowhere
    {
      reader := source;
      scratch := new byte[5];
      region, ip, ipLimit, peeked, eof := Nowhere, 0, 0, 0, false;
    }

    /** Skips what was peeked; a long first piece that was buffered fails the check. */
    method SkipPeeked()
      requires Skippable()
      modifies reader
      ensures SourceOk() && (old(region != Nowhere) ==> ScratchAllowed())
      ensures LongPiece() && !reader.checkFailed ==> reader.curvec == 0 && reader.curoff < I32
      ensures old(peeked) <= |old(reader.Rest())| && reader.Rest() == old(reader.Rest())[old(peeked)..]
    {
      hide Valid, Mem, Source.Reader.Rest, Source.Reader.Visible, Source.Reader.Position;
      hide Source.SkipPasses, Source.Fits;
      Source.SkipCheck(reader.curoff, peeked, |reader.iov[reader.curvec]|);
      reader.Skip(peeked);
    }

    /** Skips what was peeked and peeks again; n == 0 is taken for the end of the input. */
    method NextPiece() returns (n: nat)
      requires Valid()
      modifies this`region, this`ip, this`ipLimit, this`peeked, reader
      ensures CanExit()
      ensures old(ipLimit - ip) <= |old(Pending())|
      ensures n == 0 ==> Source.EndBefore(reader.iov, |old(Pending())| - old(ipLimit - ip))
      ensures n > 0 ==> Valid() && region.Piece? && ipLimit == ip + n
      ensures n > 0 ==> Pending() == old(Pending())[old(ipLimit - ip)..]
    {
      hide Pending, Valid, Mem, Source.Reader.Rest, Source.Reader.Visible, Source.Reader.Position;
      PendingSplit();
      CanSkip();
      SkipPeeked();
      n := reader.Peek();
      peeked := n % U32;
      if n > 0 {
        region, ip, ipLimit := Piece(reader.curvec), reader.curoff, reader.curoff + n;
        PieceLoaded();
      }
    }

    /** The two halves of the unread bytes. */
    lemma PendingSplit()
      requires Valid()
      ensures scratch.Length == 5 && ip <= ipLimit <= |Mem()|
      ensures ipLimit - ip <= |Pending()| && peeked <= |reader.Rest()|
      ensures Pending()[..ipLimit - ip] == Mem()[ip..ipLimit]
      ensures Pending()[ipLimit - ip..] == reader.Rest()[peeked..]
    {
    }

    /** The peeked bytes can be skipped, and a long first piece is peeked to its end if at all. */
    ghost predicate Skippable()
      reads this`region, this`peeked, reader
    {
      && SourceOk() && LongPieceOk() && peeked <= |reader.iov[reader.curvec]| - reader.curoff
      && if region.Piece? then reader.curoff + peeked == |reader.iov[reader.curvec]| else peeked == 0
    }

    lemma CanSkip()
      requires Valid()
      ensures Skippable()
    {
    }

    /** A freshly peeked piece: everything unread is what the reader holds. */
    lemma PieceLoaded()
      requires SourceOk() && LongPieceOk() && scratch.Length == 5 && reader.curoff < |reader.iov[reader.curvec]|
      requires region == Piece(reader.curvec) && ip == reader.curoff
      requires ipLimit == |reader.iov[reader.curvec]| && peeked == ipLimit - ip
      ensures Valid() && Pending() == reader.Rest()
    {
      var piece := reader.iov[reader.curvec];
      var tail := Source.Flatten(reader.iov[reader.curvec + 1..]);
      assert piece[ip..ipLimit] == piece[ip..];
      assert (piece[ip..] + tail)[peeked..] == tail;
    }

    /** Moves the few buffered bytes to the front of the scratch buffer. */
    method SaveToScratch()
      requires Valid() && ip < ipLimit < ip + 5
      modifies this`region, this`ip, this`ipLimit, this`peeked, reader, scratch
      ensures Valid() && region == Scratch && ip == 0 && ipLimit == old(ipLimit) - old(ip)
      ensures Pending() == old(Pending())
    {
      hide Valid, Pending, Mem, Source.Reader.Rest, Source.Reader.Visible, Source.Reader.Position;
      PendingSplit();
      BufferedSomewhere();
      CanSkip();
      ghost var all := Pending();
      var m, from, nbuf := Mem(), ip, ipLimit - ip;
      CopyIn(scratch, 0, m, from, nbuf);
      SkipPeeked();
      region, ip, ipLimit, peeked := Scratch, 0, nbuf, 0;
      assert scratch[..nbuf] == all[..nbuf];
      ScratchLoaded();
    }

    lemma BufferedSomewhere()
      requires Valid() && ip < ipLimit
      ensures region != Nowhere
    {
    }

    /** With the scratch buffer in use everything unread is there and in the reader. */
    lemma ScratchLoaded()
      requires SourceOk() && LongPieceOk() && scratch.Length == 5
      requires region == Scratch && ip == 0 && ipLimit <= 5 && peeked == 0
      ensures Valid() && Pending() == scratch[..ipLimit] + reader.Rest()
    {
    }

    /** Adds bytes from the reader until the tag is complete; false when the input ends before that. */
    method Stitch(needed: nat) returns (ok: bool, ghost hidden: nat)
      requires Valid() && region == Scratch && ip == 0 < ipLimit <= needed <= 5
      modifies this`ipLimit, reader, scratch
      ensures Valid() && 0 < ipLimit && Pending() == old(Pending())
      ensures ok ==> ipLimit == needed
      ensures !ok ==> Source.EndBefore(reader.iov, hidden) && hidden < |Pending()| < hidden + needed
    {
      hide Source.Reader.Rest, Source.Flatten, Source.Reader.Visible, Source.EndBefore;
      hidden := 0;
      while ipLimit < needed
        invariant Valid() && 0 < ipLimit <= needed && Pending() == old(Pending())
        decreases needed - ipLimit
      {
        var length := reader.Peek();
        if length == 0 {
          hidden := |reader.Rest()|;
          return false, hidden;
        }
        AddBytes(length, Min(needed - ipLimit, length));
      }
      ok := true;
    }

    /** Copies the first n of the peeked bytes behind those already in the scratch buffer. */
    method AddBytes(length: nat, n: nat)
      requires Valid() && region == Scratch && ip == 0 && ipLimit + n <= 5
      requires n <= length <= |reader.Rest()|
      requires reader.iov[reader.curvec][reader.curoff..] == reader.Rest()[..length]
      modifies this`ipLimit, reader, scratch
      ensures Valid() && ipLimit == old(ipLimit) + n && Pending() == old(Pending())
    {
      hide Valid, Pending, Mem, Source.Reader.Rest, Source.Reader.Visible, Source.Reader.Position;
      PendingSplit();
      CanSkip();
      ScratchLoaded();
      ghost var head, rest := scratch[..ipLimit], reader.Rest();
      var m, from := reader.iov[reader.curvec], reader.curoff;
      assert m[from..from + n] == rest[..length][..n] == rest[..n];
      CopyIn(scratch, ipLimit, m, from, n);
      reader.Skip(n);
      ipLimit := ipLimit + n;
      assert scratch[..ipLimit] == head + rest[..n];
      Regroup(head, rest, n);
      ScratchLoaded();
    }

    static lemma Regroup(head: seq<byte>, rest: seq<byte>, n: nat)
      requires n <= |rest|
      ensures head + rest == head + rest[..n] + rest[n..]
    {
    }

    /**
     * Makes the next tag readable. On failure the input is taken for ended, at the start of a tag (eof)
     * or inside it; `hidden` is the number of bytes behind that place.
     */
    method RefillTag() returns (ok: bool, ghost hidden: nat)
      requires Valid() && !eof && ipLimit - ip < 5
      modifies this, reader, scratch
      ensures CanExit()
      ensures ok ==> Valid() && Pending() == old(Pending()) && TagReady() && !eof
      ensures !ok ==> Source.EndBefore(reader.iov, hidden) && hidden <= |old(Pending())|
      ensures !ok && eof ==> hidden == |old(Pending())|
      ensures !ok && !eof ==> hidden < |old(Pending())| < hidden + TagLength(old(Pending())[0])
    {
      hide *;
      BufferBounds();
      hidden := |Pending()|;
      if ip == ipLimit {
        ok := FetchPiece();
        if !ok {
          eof := true;
          return;
        }
      }
      ok, hidden := CompleteTag();
    }

    /** With nothing buffered, turns to the next piece. */
    method FetchPiece() returns (ok: bool)
      requires Valid() && ip == ipLimit
      modifies this`region, this`ip, this`ipLimit, this`peeked, reader
      ensures CanExit() && (!ok ==> Source.EndBefore(reader.iov, |old(Pending())|))
      ensures ok ==> Valid() && ip < ipLimit && Pending() == old(Pending())
    {
      hide *;
      assert Pending()[0..] == Pending();
      var n := NextPiece();
      ok := n > 0;
    }

    /** Brings a tag whose first byte is buffered together, if need be in the scratch buffer. */
    method CompleteTag() returns (ok: bool, ghost hidden: nat)
      requires Valid() && ip < ipLimit
      modifies this`region, this`ip, this`ipLimit, this`peeked, reader, scratch
      ensures Valid() && CanExit() && Pending() == old(Pending())
      ensures ok ==> TagReady()
      ensures !ok ==> Source.EndBefore(reader.iov, hidden) && hidden < |Pending()| < hidden + TagLength(Pending()[0])
    {
      hide Pending, SourceOk, CanExit, CharTable, Source.EndBefore;
      hidden := 0;
      FirstByte();
      var c := Mem()[ip];
      var needed := CharTable(c) / 2048 + 1;
      ExtraBytes(c);
      var nbuf := ipLimit - ip;
      if nbuf < needed {
        SaveToScratch();
        ok, hidden := Stitch(needed);
        FirstByte();
      } else {
        if nbuf < 5 {
          SaveToScratch();
          FirstByte();
        }
        ok := true;
      }
      ValidCanExit();
    }

    lemma ValidCanExit()
      requires Valid() && region != Nowhere
      ensures CanExit()
    {
    }

    lemma FirstByte()
      requires Valid() && ip < ipLimit
      ensures |Pending()| > 0 && Mem()[ip] == Pending()[0]
    {
    }

    lemma BufferBounds()
      requires Valid()
      ensures ip <= ipLimit && ipLimit - ip <= |Pending()| && ipLimit - ip < U32
    {
    }

    /** Appends n of the buffered bytes. */
    method TakeBuffered(w: Output.Writer, n: nat, ghost start: seq<byte>) returns (ok: bool)
      requires Valid() && region != Nowhere && w.Valid() && w.buf != scratch && n <= ipLimit - ip
      requires SameOutside(start, w.buf[..], w.base, w.opLimit)
      modifies this`ip, w`op, w.buf
      ensures Valid() && w.Valid() && CanExit() && ipLimit - ip == old(ipLimit - ip) - (if ok then n else 0)
      ensures n <= |old(Pending())|
      ensures SameOutside(start, w.buf[..], w.base, w.opLimit)
      ensures ok <==> old(w.op) + n <= w.opLimit
      ensures ok ==> ip == old(ip) + n && w.op == old(w.op) + n
      ensures ok ==> Moved(old(Pending()), old(w.Contents()), n, Pending(), w.Contents())
    {
      hide Valid, Pending, SameOutside, Output.Writer.Valid, Output.Writer.Contents;
      PendingPrefix(n);
      ghost var before := w.buf[..];
      ok := w.Append(Mem(), ip, n);
      SameOutsideTrans(start, before, w.buf[..], w.base, w.opLimit);
      Advance(if ok then n else 0);
    }

    /** Appends everything buffered and turns to the next piece; fails when there is no room or no piece. */
    method TakeStretch(w: Output.Writer, avail: nat, ghost start: seq<byte>)
      returns (ok: bool, more: nat, ghost hidden: nat)
      requires Valid() && region != Nowhere && w.Valid() && w.buf != scratch && avail == ipLimit - ip
      requires SameOutside(start, w.buf[..], w.base, w.opLimit)
      modifies this`region, this`ip, this`ipLimit, this`peeked, reader, w`op, w.buf
      ensures w.Valid() && CanExit() && hidden + avail == |old(Pending())|
      ensures SameOutside(start, w.buf[..], w.base, w.opLimit)
      ensures !ok ==> old(w.op) + avail > w.opLimit || Source.EndBefore(reader.iov, hidden)
      ensures ok ==> Valid() && region != Nowhere && more == ipLimit - ip > 0
      ensures ok ==> Moved(old(Pending()), old(w.Contents()), avail, Pending(), w.Contents())
      ensures ok ==> w.op == old(w.op) + avail
    {
      hide *;
      ghost var all, out := Pending(), w.Contents();
      ok := TakeBuffered(w, avail, start);
      more, hidden := 0, |all| - avail;
      if ok {
        MovedLength(all, out, avail, Pending(), w.Contents());
        assert Pending()[0..] == Pending();
        more := NextPiece();
        ok := more > 0;
      }
    }

    /** Appends a literal that may run over any number of pieces. */
    method AppendLiteral(w: Output.Writer, length: nat) returns (ok: bool, ghost hidden: nat)
      requires Valid() && region != Nowhere && w.Valid() && w.buf != scratch
      modifies this`region, this`ip, this`ipLimit, this`peeked, reader, w`op, w.buf
      ensures w.Valid() && CanExit()
      ensures SameOutside(old(w.buf[..]), w.buf[..], w.base, w.opLimit)
      ensures ok ==> Valid() && Moved(old(Pending()), old(w.Contents()), length, Pending(), w.Contents())
      ensures !ok ==>
                || old(w.op) + length > w.opLimit
                || (Source.EndBefore(reader.iov, hidden) && hidden <= |old(Pending())| < hidden + length)
    {
      hide *;
      ghost var all, out, start := Pending(), w.Contents(), w.buf[..];
      ghost var done: nat := 0;
      BufferBounds();
      SameOutsideRefl(start, w.base, w.opLimit);
      MovedNothing(all, out);
      hidden := 0;
      var left: nat := length;
      var avail: nat := (ipLimit - ip) % U32;
      while avail < left
        invariant Valid() && region != Nowhere && w.Valid() && avail == ipLimit - ip && left == length - done
        invariant Moved(all, out, done, Pending(), w.Contents())
        invariant w.op == old(w.op) + done
        invariant SameOutside(start, w.buf[..], w.base, w.opLimit)
        decreases left, if avail == 0 then 1 else 0
      {
        ghost var p, c := Pending(), w.Contents();
        var taken: nat := avail;
        ok, avail, hidden := TakeStretch(w, taken, start);
        MovedLength(all, out, done, p, c);
        if !ok {
          return;
        }
        MovedMore(all, out, done, p, c, taken, Pending(), w.Contents());
        left := left - taken;
        done := done + taken;
      }
      ghost var p, c := Pending(), w.Contents();
      ok := TakeBuffered(w, left, start);
      if ok {
        MovedMore(all, out, done, p, c, left, Pending(), w.Contents());
      }
    }

    /** Consumes n buffered bytes. */
    method Advance(n: nat)
      requires Valid() && n <= ipLimit - ip
      modifies this`ip
      ensures Valid() && ip == old(ip) + n && (region != Nowhere ==> CanExit())
      ensures n <= |old(Pending())| && Pending() == old(Pending())[n..]
    {
      hide Source.Reader.Rest, Source.Reader.Visible;
      assert Pending()[n..] == Mem()[ip + n..ipLimit] + reader.Rest()[peeked..];
      ip := ip + n;
    }

    /** The five bytes at a ready tag agree with the unread bytes as far as the tag reaches. */
    lemma TagBytes()
      requires Valid() && TagReady()
      ensures region != Nowhere && ip + 5 <= |Mem()| && ipLimit <= |Mem()| && TagLength(Mem()[ip]) <= ipLimit - ip
      ensures |Pending()| >= TagLength(Mem()[ip]) && Pending()[0] == Mem()[ip]
      ensures var n := TagLength(Mem()[ip]); Mem()[ip..ip + 5][..n] == Pending()[..n]
    {
      hide Pending, SourceOk;
      var n := TagLength(Mem()[ip]);
      PendingPrefix(n);
      FirstByte();
      assert Mem()[ip..ip + 5][..n] == Mem()[ip..ip + n];
    }

    /** The length of a literal with tag c, whose first byte has been consumed. */
    method ReadLength(c: byte, ghost p: seq<byte>) returns (length: nat, ghost n: nat)
      requires Valid() && region != Nowhere && c % 4 == 0 && |p| >= TagLength(c) && p[0] == c && Pending() == p[1..]
      requires ip + 4 <= |Mem()| && TagLength(c) - 1 <= ipLimit - ip
      requires ([c] + Mem()[ip..ip + 4])[..TagLength(c)] == p[..TagLength(c)]
      modifies this`ip
      ensures Valid() && n == TagLength(c) && ParseHeader(p) == LiteralOf(length) && Pending() == p[n..]
    {
      hide ParseHeader, Valid, Pending, CanExit, LE, MaskWord;
      length, n := c / 4 + 1, 1;
      if length >= 61 {
        var extra := length - 60;
        ghost var word := [c] + Mem()[ip..ip + 4];
        assert word[1..] == Mem()[ip..ip + 4];
        LongLiteralHeader(p, word);
        length := (MaskWord(LE(Mem()[ip..ip + 4]), extra) + 1) % U32;
        Advance(extra);
        n := 1 + extra;
        assert p[1..][extra..] == p[n..];
      } else {
        ShortLiteralHeader(p);
      }
    }

    /** A literal: sixteen bytes at once if possible, otherwise as many pieces as it takes. */
    method LiteralTag(w: Output.Writer) returns (ok: bool, ghost hidden: nat)
      requires Valid() && TagReady() && w.Valid() && w.buf != scratch && Mem()[ip] % 4 == 0
      modifies this`region, this`ip, this`ipLimit, this`peeked, reader, w`op, w.buf
      ensures w.Valid() && CanExit()
      ensures SameOutside(old(w.buf[..]), w.buf[..], w.base, w.opLimit)
      ensures ok ==> Valid() && Stepped(old(Pending()), old(w.Contents()), Pending(), w.Contents())
      ensures !ok ==> RejectsAt(reader.iov, old(Pending()), old(w.Contents()), w.opLimit - w.base, hidden)
    {
      hide Decode, ParseHeader, Valid, TagReady, CanExit, Pending, SameOutside, RejectsAt, Stepped, Mem;
      ghost var p, out, limit := Pending(), w.Contents(), w.opLimit - w.base;
      TagBytes();
      ghost var word := Mem()[ip..ip + 5];
      var c := Mem()[ip];
      Advance(1);
      assert [c] + Mem()[ip..ip + 4] == word;
      var fast := w.TryFastAppend(Mem(), ip, ipLimit - ip, c / 4 + 1);
      if fast {
        ShortLiteralHeader(p);
        LiteralStep(p, out, 1, c / 4 + 1);
        PendingPrefix(c / 4 + 1);
        Advance(c / 4 + 1);
        return true, 0;
      }
      var length;
      ghost var n;
      length, n := ReadLength(c, p);
      LiteralStep(p, out, n, length);
      ok, hidden := AppendLiteral(w, length);
      if !ok {
        if |out| + length > limit { hidden := 0; }
        LiteralRejected(reader.iov, p, out, n, length, limit, hidden);
      }
    }

    /** Reads a copy tag: the table gives length, high offset bits and the number of offset bytes. */
    method ReadCopy() returns (offset: nat, length: nat)
      requires Valid() && TagReady() && Mem()[ip] % 4 != 0
      modifies this`ip
      ensures Valid() && CanExit() && |old(Pending())| > 0 && offset < U32 && 0 < length <= 64
      ensures var p := old(Pending());
              && TagLength(p[0]) <= |p| && ParseHeader(p) == CopyOf(offset, length)
              && Pending() == p[TagLength(p[0])..]
    {
      hide ParseHeader, Valid, TagReady, CanExit, Pending, LE, CharTable, MaskWord;
      ghost var p := Pending();
      TagBytes();
      ghost var word := Mem()[ip..ip + 5];
      var c := Mem()[ip];
      var entry := CharTable(c);
      ExtraBytes(c);
      Advance(1);
      assert word[1..] == Mem()[ip..ip + 4];
      CopyHeader(p, word);
      var extra := entry / 2048;
      var trailer := MaskWord(LE(Mem()[ip..ip + 4]), extra);
      length := entry % 256;
      Advance(extra);
      assert Pending() == p[1 + extra..];
      offset := entry / 256 % 8 * 256 + trailer;
    }

    /** A copy: one overlapping back reference in the output. */
    method CopyTag(w: Output.Writer) returns (ok: bool, ghost hidden: nat)
      requires Valid() && TagReady() && w.Valid() && w.buf != scratch && Mem()[ip] % 4 != 0
      modifies this`ip, w`op, w.buf
      ensures w.Valid() && CanExit()
      ensures SameOutside(old(w.buf[..]), w.buf[..], w.base, w.opLimit)
      ensures ok ==> Valid() && Stepped(old(Pending()), old(w.Contents()), Pending(), w.Contents())
      ensures !ok ==> RejectsAt(reader.iov, old(Pending()), old(w.Contents()), w.opLimit - w.base, hidden)
    {
      hide Decode, ParseHeader, Valid, TagReady, CanExit, Pending, SameOutside, RejectsAt, Stepped, Mem;
      ghost var p, out, limit := Pending(), w.Contents(), w.opLimit - w.base;
      var copyOffset, length := ReadCopy();
      hidden := 0;
      ok := w.AppendFromSelf(copyOffset, length);
      if ok {
        CopyStep(p, out, TagLength(p[0]), copyOffset, length);
      } else {
        CopyRejected(reader.iov, p, out, TagLength(p[0]), copyOffset, length, limit);
      }
    }

    /**
     * Processes tags until the input is taken for ended (eof) or something is wrong; `hidden` is the
     * number of bytes behind that place. When it ends cleanly the output is what the reference decoder
     * computes for the bytes before it; otherwise the reference decoder would fail on them too, or
     * produce more than the limit allows.
     */
    method DecompressAllTags(w: Output.Writer) returns (ghost hidden: nat)
      requires Valid() && !eof && w.Valid() && w.buf != scratch
      modifies this, reader, scratch, w`op, w.buf
      ensures w.Valid() && CanExit()
      ensures SameOutside(old(w.buf[..]), w.buf[..], w.base, w.opLimit)
      ensures Source.EndBefore(reader.iov, hidden) && hidden <= |old(Pending())|
      ensures eof ==> Decode(Cut(old(Pending()), hidden), old(w.Contents())) == Some(w.Contents())
      ensures !eof ==> Rejects(Cut(old(Pending()), hidden), old(w.Contents()), w.opLimit - w.base)
    {
      hide Decode, Valid, Pending, TagReady, CanExit, Mem, Output.Writer.Contents, SameOutside;
      hide Done, RejectsAt, Rejects, Cut, Stepped, Source.EndBefore;
      ghost var p, out, limit := Pending(), w.Contents(), w.opLimit - w.base;
      SameOutsideRefl(w.buf[..], w.base, w.opLimit);
      NothingDone(p, out);
      var ok;
      ok, hidden := MaybeRefill();
      if !ok {
        EndOfTags(reader.iov, p, out, p, out, limit, hidden, eof);
        return;
      }
      while true
        invariant Valid() && !eof && w.Valid()
        invariant SameOutside(old(w.buf[..]), w.buf[..], w.base, w.opLimit)
        invariant Done(p, out, Pending(), w.Contents())
        decreases |Pending()|
      {
        ghost var rest, done, before := Pending(), w.Contents(), w.buf[..];
        ok, hidden := MaybeRefill();
        if !ok {
          EndOfTags(reader.iov, p, out, rest, done, limit, hidden, eof);
          return;
        }
        ok, hidden := OneTag(w);
        SameOutsideTrans(old(w.buf[..]), before, w.buf[..], w.base, w.opLimit);
        if !ok {
          RejectedLater(reader.iov, p, out, rest, done, limit, hidden);
          return;
        }
        DoneMore(p, out, rest, done, Pending(), w.Contents());
        rest, done := Pending(), w.Contents();
        ok, hidden := MaybeRefill();
        if !ok {
          EndOfTags(reader.iov, p, out, rest, done, limit, hidden, eof);
          return;
        }
      }
    }

    /** Refills when fewer than five bytes are buffered. */
    method MaybeRefill() returns (ok: bool, ghost hidden: nat)
      requires Valid() && !eof
      modifies this, reader, scratch
      ensures CanExit()
      ensures ok ==> Valid() && Pending() == old(Pending()) && TagReady() && !eof
      ensures !ok ==> Source.EndBefore(reader.iov, hidden) && hidden <= |old(Pending())|
      ensures !ok && eof ==> hidden == |old(Pending())|
      ensures !ok && !eof ==> hidden < |old(Pending())| < hidden + TagLength(old(Pending())[0])
    {
      ok, hidden := true, 0;
      if ipLimit - ip < 5 {
        ok, hidden := RefillTag();
      }
    }

    /** Dispatches on the low two bits of the tag. */
    method OneTag(w: Output.Writer) returns (ok: bool, ghost hidden: nat)
      requires Valid() && TagReady() && w.Valid() && w.buf != scratch
      modifies this`region, this`ip, this`ipLimit, this`peeked, reader, w`op, w.buf
      ensures w.Valid() && CanExit()
      ensures SameOutside(old(w.buf[..]), w.buf[..], w.base, w.opLimit)
      ensures ok ==> Valid() && Stepped(old(Pending()), old(w.Contents()), Pending(), w.Contents())
      ensures !ok ==> RejectsAt(reader.iov, old(Pending()), old(w.Contents()), w.opLimit - w.base, hidden)
    {
      var c := Mem()[ip];
      if c % 4 == 0 {
        ok, hidden := LiteralTag(w);
      } else {
        ok, hidden := CopyTag(w);
      }
    }

    lemma PendingPrefix(n: nat)
      requires Valid() && n <= ipLimit - ip
      ensures ip + n <= ipLimit <= |Mem()|
      ensures n <= |Pending()| && Mem()[ip..ip + n] == Pending()[..n]
    {
    }
  }

  /** The bytes of p before p' have been decoded, which took the output from out to out'. */
  ghost predicate Done(p: seq<byte>, out: seq<byte>, p': seq<byte>, out': seq<byte>) {
    |p'| <= |p| && p' == p[|p| - |p'|..] && Decode(Cut(p, |p'|), out) == Some(out')
  }

  /** One element has been carried out. */
  ghost predicate Stepped(p: seq<byte>, out: seq<byte>, p': seq<byte>, out': seq<byte>) {
    |p'| < |p| && Done(p, out, p', out')
  }

  lemma NothingDone(p: seq<byte>, out: seq<byte>)
    ensures Done(p, out, p, out)
  {
  }

  /** What is done and what follows it, up to any later place. */
  lemma DoneSplit(p: seq<byte>, out: seq<byte>, p': seq<byte>, out': seq<byte>, m: nat)
    requires Done(p, out, p', out') && m <= |p'|
    ensures Decode(Cut(p, m), out) == Decode(Cut(p', m), out')
  {
    hide Decode;
    DecodeOfPrefix(Cut(p, |p'|), Cut(p', m), out);
    assert Cut(p, |p'|) + Cut(p', m) == Cut(p, m);
  }

  lemma DoneMore(p: seq<byte>, out: seq<byte>, p': seq<byte>, out': seq<byte>, p'': seq<byte>, out'': seq<byte>)
    requires Done(p, out, p', out') && Stepped(p', out', p'', out'')
    ensures Done(p, out, p'', out'') && |p''| < |p'|
  {
    hide Decode;
    DoneSplit(p, out, p', out', |p''|);
    assert p'[|p'| - |p''|..] == p[|p| - |p''|..];
  }

  /** A rejection further on rejects the whole. */
  lemma RejectedLater(iov: seq<seq<byte>>, p: seq<byte>, out: seq<byte>, p': seq<byte>, out': seq<byte>, limit: nat,
                      m: nat)
    requires Done(p, out, p', out') && RejectsAt(iov, p', out', limit, m)
    ensures Source.EndBefore(iov, m) && m <= |p| && Rejects(Cut(p, m), out, limit)
  {
    hide Decode, Source.EndBefore;
    DoneSplit(p, out, p', out', m);
  }

  /** An end between two tags is success; one inside a tag is failure. */
  lemma EndOfTags(iov: seq<seq<byte>>, p: seq<byte>, out: seq<byte>, p': seq<byte>, out': seq<byte>, limit: nat,
                  m: nat, eof: bool)
    requires Done(p, out, p', out') && m <= |p'|
    requires if eof then m == |p'| else m < |p'| < m + TagLength(p'[0])
    ensures m <= |p|
    ensures eof ==> Decode(Cut(p, m), out) == Some(out')
    ensures !eof ==> Rejects(Cut(p, m), out, limit)
  {
    DoneSplit(p, out, p', out', m);
    if !eof {
      assert Cut(p', m)[0] == p'[0];
    }
  }

  lemma ShortLiteralHeader(p: seq<byte>)
    requires |p| > 0 && p[0] % 4 == 0 && p[0] / 4 < 60
    ensures TagLength(p[0]) == 1 && ParseHeader(p) == LiteralOf(p[0] / 4 + 1)
  {
  }

  /** A literal that is there in full is one step of the reference decoder; otherwise it fails. */
  lemma LiteralDecodes(p: seq<byte>, out: seq<byte>, n: nat, len: nat)
    requires |p| > 0 && n == TagLength(p[0]) <= |p| && ParseHeader(p) == LiteralOf(len)
    ensures n + len <= |p| ==> Decode(p, out) == Decode(p[n + len..], out + p[n..n + len])
    ensures n + len > |p| ==> Decode(p, out) == None
  {
    hide ParseHeader;
  }

  lemma LiteralStep(p: seq<byte>, out: seq<byte>, n: nat, len: nat)
    requires |p| > 0 && n == TagLength(p[0]) <= |p| && ParseHeader(p) == LiteralOf(len)
    ensures len <= |p[n..]| ==> Stepped(p, out, p[n..][len..], out + p[n..][..len])
  {
    if len <= |p[n..]| {
      var a := p[..n + len];
      HeaderOfPrefix(a, p[n + len..]);
      assert a + p[n + len..] == p;
      LiteralDecodes(a, out, n, len);
      hide Decode, ParseHeader;
      assert a[n + len..] == [] && a[n..n + len] == p[n..][..len];
      EndOfInput(out + p[n..][..len]);
      assert p[n..][len..] == p[n + len..] && Cut(p, |p[n + len..]|) == a;
    }
  }

  lemma EndOfInput(out: seq<byte>)
    ensures Decode([], out) == Some(out)
  {
  }

  /** A literal that is cut off at the end of the input, or does not fit, rejects. */
  lemma LiteralRejected(iov: seq<seq<byte>>, p: seq<byte>, out: seq<byte>, n: nat, len: nat, limit: nat, m: nat)
    requires |p| > 0 && n == TagLength(p[0]) <= |p| && ParseHeader(p) == LiteralOf(len)
    requires Source.EndBefore(iov, m) && m <= |p[n..]|
    requires (m == 0 && |out| + len > limit) || |p[n..]| < m + len
    ensures RejectsAt(iov, p, out, limit, m)
  {
    var a := Cut(p, m);
    assert a + p[|p| - m..] == p;
    HeaderOfPrefix(a, p[|p| - m..]);
    LiteralDecodes(a, out, n, len);
    hide Decode, ParseHeader, Source.EndBefore;
    if n + len <= |a| {
      DecodeGrows(a[n + len..], out + a[n..n + len]);
    }
  }

  /** What a copy header commits the rest of the stream to. */
  lemma CopyDecodes(p: seq<byte>, out: seq<byte>, n: nat, offset: nat, len: nat)
    requires |p| > 0 && n == TagLength(p[0]) <= |p| && ParseHeader(p) == CopyOf(offset, len)
    ensures Decode(p, out) == if 1 <= offset <= |out| then Decode(p[n..], CopyOut(out, offset, len)) else None
  {
    hide ParseHeader, CopyOut;
  }

  lemma CopyStep(p: seq<byte>, out: seq<byte>, n: nat, offset: nat, len: nat)
    requires |p| > 0 && n == TagLength(p[0]) <= |p| && ParseHeader(p) == CopyOf(offset, len)
    requires 1 <= offset <= |out|
    ensures Stepped(p, out, p[n..], CopyOut(out, offset, len))
  {
    hide Decode, ParseHeader, CopyOut;
    var a := p[..n];
    assert a + p[n..] == p;
    HeaderOfPrefix(a, p[n..]);
    CopyDecodes(a, out, n, offset, len);
    EndOfInput(CopyOut(out, offset, len));
    assert a[n..] == [] && Cut(p, |p[n..]|) == a;
  }

  /** A copy from before the output, or one that does not fit, rejects. */
  lemma CopyRejected(iov: seq<seq<byte>>, p: seq<byte>, out: seq<byte>, n: nat, offset: nat, len: nat, limit: nat)
    requires |p| > 0 && n == TagLength(p[0]) <= |p| && ParseHeader(p) == CopyOf(offset, len)
    requires !(1 <= offset <= |out|) || |out| + len > limit
    ensures RejectsAt(iov, p, out, limit, 0)
  {
    hide Decode, ParseHeader, CopyOut;
    assert Cut(p, 0) == p;
    CopyDecodes(p, out, n, offset, len);
    if 1 <= offset <= |out| {
      DecodeGrows(p[n..], CopyOut(out, offset, len));
    }
  }
}
