/**
 * The byte sink. The scatter-gather build fills a vector of output pieces one after the other; the
 * flat build fills one buffer and never asks how much room is left.
 */
module Sink {
  import opened Bytes
  import opened Emit

  class Writer {
    const iov: seq<array<byte>>
    /** The build without scatter-gather support. */
    const flat: bool
    var curvec: nat
    var curoff: nat
    var written: nat

    ghost predicate Valid()
      reads this`curvec, this`curoff
    {
      && curvec < |iov| && curoff <= iov[curvec].Length
      && (forall i, j :: 0 <= i < j < |iov| ==> iov[i] != iov[j])
      && (flat ==> |iov| == 1)
    }

    /** The bytes of the first k pieces. */
    ghost function Filled(k: nat): seq<byte>
      requires k <= |iov|
      reads set i | 0 <= i < k :: iov[i]
    {
      if k == 0 then [] else Filled(k - 1) + iov[k - 1][..]
    }

    /** Everything appended so far. */
    ghost function Contents(): seq<byte>
      requires Valid()
      reads this`curvec, this`curoff, iov
    {
      Filled(curvec) + iov[curvec][..curoff]
    }

    /** The lengths of the pieces from k on. */
    ghost function RoomFrom(k: nat): nat
      requires k <= |iov|
      decreases |iov| - k
    {
      if k == |iov| then 0 else iov[k].Length + RoomFrom(k + 1)
    }

    /** How many bytes can still be appended. */
    ghost function Room(): nat
      requires Valid()
      reads this`curvec, this`curoff
    {
      iov[curvec].Length - curoff + RoomFrom(curvec + 1)
    }

    constructor (pieces: seq<array<byte>>, flatBuild: bool)
      requires |pieces| >= 1 && (flatBuild ==> |pieces| == 1)
      requires forall i, j :: 0 <= i < j < |pieces| ==> pieces[i] != pieces[j]
      ensures Valid() && Contents() == [] && Room() == RoomFrom(0)
      ensures iov == pieces && flat == flatBuild && written == 0
      ensures curvec == 0 && curoff == 0
    {
      iov, flat := pieces, flatBuild;
      curvec, curoff, written := 0, 0, 0;
    }

    /** How many bytes the current piece can still take. */
    ghost function PieceRoom(): nat
      requires Valid()
      reads this`curvec, this`curoff
    {
      iov[curvec].Length - curoff
    }

    /** memcpy into the current piece. */
    method Put(data: seq<byte>)
      requires Valid() && curoff + |data| <= iov[curvec].Length
      modifies this`curoff, iov[curvec]
      ensures Valid() && curoff == old(curoff) + |data|
      ensures Contents() == old(Contents()) + data
      ensures Room() == old(Room()) - |data|
      ensures SameOutside(old(iov[curvec][..]), iov[curvec][..], old(curoff), curoff)
    {
      ghost var before := iov[curvec][..curoff];
      CopyIn(iov[curvec], curoff, data, 0, |data|);
      assert data[0..|data|] == data;
      curoff := curoff + |data|;
      assert iov[curvec][..curoff] == before + data;
    }

    /** Moves to the next piece once the current one is full. */
    method NextPiece()
      requires Valid() && curoff == iov[curvec].Length && curvec + 1 < |iov|
      modifies this`curvec, this`curoff
      ensures Valid() && curvec == old(curvec) + 1 && curoff == 0
      ensures Contents() == old(Contents()) && Room() == old(Room())
    {
      assert iov[curvec][..curoff] == iov[curvec][..];
      curvec := curvec + 1;
      curoff := 0;
      assert iov[curvec][..curoff] == [];
    }

    /** With one piece the contents are simply its first bytes. */
    lemma OnePiece()
      requires Valid() && |iov| == 1
      ensures curvec == 0 && Contents() == iov[0][..curoff] && Room() == iov[0].Length - curoff
    {
      assert Filled(0) == [] && RoomFrom(1) == 0;
    }

    /** A full piece with room left over is not the last one. */
    lemma RoomAhead()
      requires Valid() && curoff == iov[curvec].Length && Room() > 0
      ensures curvec + 1 < |iov|
    {
    }

    /** Appends data that already stands in the right place: nothing is copied. */
    method Claim(n: nat)
      requires Valid() && curoff + n <= iov[curvec].Length
      modifies this`curoff, this`written
      ensures Valid() && curvec == old(curvec) && curoff == old(curoff) + n
      ensures Contents() == old(Contents()) + iov[curvec][old(curoff)..curoff]
      ensures Room() == old(Room()) - n && written == old(written) + n
    {
      ghost var before := iov[curvec][..curoff];
      written := written + n;
      curoff := curoff + n;
      assert iov[curvec][..curoff] == before + iov[curvec][old(curoff)..curoff];
    }

    /** Turns to the next piece and puts there what it can take of data[done..]. */
    method Spill(data: seq<byte>, done: nat) returns (n: nat)
      requires Valid() && done < |data| <= done + Room() && curoff == iov[curvec].Length
      modifies this`curvec, this`curoff, iov
      ensures Valid() && curvec == old(curvec) + 1 && done + n <= |data|
      ensures Contents() == old(Contents()) + data[done..done + n] && Room() == old(Room()) - n
      ensures done + n < |data| ==> curoff == iov[curvec].Length
    {
      hide Contents, Filled, Room, RoomFrom, SameOutside;
      RoomAhead();
      NextPiece();
      n := Min(iov[curvec].Length, |data| - done);
      Put(data[done..done + n]);
    }

    /** Appends data from elsewhere, spilling into as many pieces as it takes. */
    method Append(data: seq<byte>)
      requires Valid() && |data| <= Room()
      modifies this`curvec, this`curoff, this`written, iov
      ensures Valid()
      ensures Contents() == old(Contents()) + data
      ensures Room() == old(Room()) - |data| && written == old(written) + |data|
      ensures |iov| == 1 ==>
                curoff == old(curoff) + |data| && SameOutside(old(iov[0][..]), iov[0][..], old(curoff), curoff)
    {
      hide Contents, Filled, Room, RoomFrom, SameOutside;
      if |iov| == 1 { OnePiece(); }
      var n := Min(iov[curvec].Length - curoff, |data|);
      var done: nat := n;
      Put(data[..n]);
      written := written + |data|;
      while done < |data|
        invariant Valid() && n <= done <= |data|
        invariant Contents() == old(Contents()) + data[..done]
        invariant Room() == old(Room()) - done
        invariant written == old(written) + |data|
        invariant done < |data| ==> curoff == iov[curvec].Length
        invariant |iov| == 1 ==> done == |data| && curoff == old(curoff) + |data|
        invariant |iov| == 1 ==> SameOutside(old(iov[0][..]), iov[0][..], old(curoff), curoff)
        decreases |iov| - curvec
      {
        n := Spill(data, done);
        assert data[..done] + data[done..done + n] == data[..done + n];
        done := done + n;
      }
      assert data[..done] == data;
    }

    /**
     * Whether n more bytes may be written in place. The flat build always says yes and leaves the room
     * to the caller; otherwise an offer means that the current piece can take them. A piece with that
     * much room is refused only when it has no more bytes than there are pieces before it, which
     * cannot happen when every piece has at least as many bytes as there are pieces.
     */
    method Peek(n: nat) returns (direct: bool)
      requires Valid()
      ensures flat ==> direct
      ensures !flat && direct ==> n <= PieceRoom() <= Room()
      ensures !flat && n <= PieceRoom() ==> (!direct <==> iov[curvec].Length <= curvec)
      ensures !flat && (forall k :: 0 <= k < |iov| ==> iov[k].Length >= |iov|) ==> (direct <==> n <= PieceRoom())
    {
      direct := flat || (curvec < iov[curvec].Length && iov[curvec].Length - curoff >= n);
    }
  }
}
