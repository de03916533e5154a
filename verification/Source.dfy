/**
 * The byte source. The scatter-gather build reads a vector of pieces and keeps its place in a piece in
 * an `int`; the flat build reads one buffer, which is the same object with a single piece.
 */
module Source {
  import opened Bytes

  function Flatten(pieces: seq<seq<byte>>): seq<byte> {
    if |pieces| == 0 then [] else pieces[0] + Flatten(pieces[1..])
  }

  /** Empty pieces stand at the end of the vector only. */
  ghost predicate EmptyAtEnd(iov: seq<seq<byte>>) {
    forall i, j :: 0 <= i < j < |iov| && |iov[i]| == 0 ==> |iov[j]| == 0
  }

  /** Piece k is empty, and m bytes follow it. */
  predicate EmptyHides(iov: seq<seq<byte>>, k: nat, m: nat) {
    k < |iov| && |iov[k]| == 0 && |Flatten(iov[k..])| == m
  }

  /** The input may be taken for ended with m bytes left: really at its end, or at an empty piece. */
  ghost predicate EndBefore(iov: seq<seq<byte>>, m: nat) {
    m == 0 || exists k: nat :: EmptyHides(iov, k, m)
  }

  /** The decoder's 32-bit counters can hold every piece. */
  ghost predicate Countable(iov: seq<seq<byte>>) {
    forall k :: 0 <= k < |iov| ==> |iov[k]| < U32
  }

  /** No skip can fail its check: see SkipCheck. */
  ghost predicate Fits(iov: seq<seq<byte>>, flat: bool) {
    flat || forall k :: 0 <= k < |iov| ==> |iov[k]| < I32
  }

  lemma FlattenOne(s: seq<byte>)
    ensures Flatten([s]) == s
  {
    assert [s][1..] == [];
  }

  lemma FlattenFrom(iov: seq<seq<byte>>, k: nat)
    requires k < |iov|
    ensures Flatten(iov[k..]) == iov[k] + Flatten(iov[k + 1..])
    ensures UpToEmpty(iov[k..]) == if |iov[k]| == 0 then [] else iov[k] + UpToEmpty(iov[k + 1..])
  {
    assert iov[k..][1..] == iov[k + 1..];
  }

  lemma {:induction false} FlattenSnoc(iov: seq<seq<byte>>, piece: seq<byte>)
    ensures Flatten(iov + [piece]) == Flatten(iov) + piece
  {
    if |iov| == 0 {
      assert iov + [piece] == [piece];
      FlattenOne(piece);
    } else {
      FlattenSnoc(iov[1..], piece);
      assert (iov + [piece])[1..] == iov[1..] + [piece];
    }
  }

  /** What can be read before an empty piece is met, which the scatter-gather peek takes for the end. */
  function UpToEmpty(pieces: seq<seq<byte>>): seq<byte> {
    if |pieces| == 0 || |pieces[0]| == 0 then [] else pieces[0] + UpToEmpty(pieces[1..])
  }

  lemma {:induction false} UpToEmptyPrefix(iov: seq<seq<byte>>)
    ensures UpToEmpty(iov) <= Flatten(iov)
  {
    if |iov| > 0 { UpToEmptyPrefix(iov[1..]); }
  }

  /** That is everything exactly when empty pieces stand at the end of the vector. */
  lemma {:induction false} UpToEmptyIsAll(iov: seq<seq<byte>>)
    ensures UpToEmpty(iov) == Flatten(iov) <==> EmptyAtEnd(iov)
  {
    if |iov| > 0 {
      assert forall k :: 1 <= k < |iov| ==> iov[k] == iov[1..][k - 1];
      if |iov[0]| == 0 {
        FlattenNothing(iov);
      } else {
        UpToEmptyIsAll(iov[1..]);
        assert UpToEmpty(iov)[|iov[0]|..] == UpToEmpty(iov[1..]);
        assert Flatten(iov)[|iov[0]|..] == Flatten(iov[1..]);
      }
    }
  }

  lemma {:induction false} FlattenNothing(iov: seq<seq<byte>>)
    ensures Flatten(iov) == [] <==> forall k :: 0 <= k < |iov| ==> |iov[k]| == 0
  {
    if |iov| > 0 {
      FlattenNothing(iov[1..]);
      assert forall k :: 1 <= k < |iov| ==> iov[k] == iov[1..][k - 1];
    }
  }

  /** With empty pieces at the end only, nothing can be missed. */
  lemma NothingMissed(iov: seq<seq<byte>>, m: nat)
    requires EmptyAtEnd(iov) && EndBefore(iov, m)
    ensures m == 0
  {
    if m != 0 {
      var k: nat :| EmptyHides(iov, k, m);
      FlattenNothing(iov[k..]);
    }
  }

  /** The value of the `int` curoff after adding n. */
  function NewOffset(curoff: nat, n: nat): int
    requires curoff + n < U32
  {
    ToInt32(curoff + n)
  }

  /** The check in skip compares that value as a `size_t`, to which a negative number is huge. */
  function AsSize(x: int): nat
    requires -U32 < x < U32
  {
    if x < 0 then x + 0x1_0000_0000_0000_0000 else x
  }

  /** The check that skip makes after advancing inside a piece of length len. */
  predicate SkipPasses(curoff: nat, n: nat, len: nat)
    requires curoff + n < U32
  {
    AsSize(NewOffset(curoff, n)) <= len
  }

  /** It passes exactly when the new offset fits an `int` (no object has 2^63 bytes). */
  lemma SkipCheck(curoff: nat, n: nat, len: nat)
    requires curoff + n < U32 && curoff + n <= len
    ensures curoff + n < I32 ==> SkipPasses(curoff, n, len)
    ensures len < 0x8000_0000_0000_0000 ==> (SkipPasses(curoff, n, len) <==> curoff + n < I32)
  {
  }

  lemma FitsPasses(iov: seq<seq<byte>>, k: nat, off: nat, n: nat)
    requires k < |iov| && off + n <= |iov[k]| && off + n < U32
    ensures Fits(iov, false) ==> SkipPasses(off, n, |iov[k]|)
  {
  }

  // ---------- positions ----------

  /** How many bytes lie before piece k. */
  function Start(iov: seq<seq<byte>>, k: nat): nat
    requires k <= |iov|
  {
    if k == 0 then 0 else Start(iov, k - 1) + |iov[k - 1]|
  }

  lemma {:induction false} StartOrder(iov: seq<seq<byte>>, j: nat, k: nat)
    requires j < k <= |iov|
    ensures Start(iov, j) + |iov[j]| <= Start(iov, k)
    decreases k
  {
    if j < k - 1 { StartOrder(iov, j, k - 1); }
  }

  /** The bytes from piece k on are those behind its start. */
  lemma {:induction false} StartIsPlace(iov: seq<seq<byte>>, k: nat)
    requires k <= |iov|
    ensures Start(iov, k) <= |Flatten(iov)| && Flatten(iov)[Start(iov, k)..] == Flatten(iov[k..])
    ensures k == |iov| ==> Start(iov, k) == |Flatten(iov)|
    decreases k
  {
    if k == 0 {
      assert iov[0..] == iov;
    } else {
      StartIsPlace(iov, k - 1);
      FlattenFrom(iov, k - 1);
      hide Flatten;
      var all, at, n := Flatten(iov), Start(iov, k - 1), |iov[k - 1]|;
      assert all[at..][n..] == all[at + n..];
      if k == |iov| { EmptyVector(iov[k..]); }
    }
  }

  lemma EmptyVector(iov: seq<seq<byte>>)
    requires |iov| == 0
    ensures Flatten(iov) == []
  {
  }

  /** Where skip arrives: inside the piece, at the end of the last one, or on the next one. */
  function NextPosition(iov: seq<seq<byte>>, k: nat, off: nat, n: nat): (nat, nat)
    requires k < |iov| && off + n <= |iov[k]|
  {
    if off + n < |iov[k]| || k + 1 == |iov| then (k, off + n) else (k + 1, 0)
  }

  /** What follows offset `off` of piece k. */
  function RestAt(iov: seq<seq<byte>>, k: nat, off: nat): (r: seq<byte>)
    requires k < |iov| && off <= |iov[k]|
    ensures |r| >= |iov[k]| - off
  {
    iov[k][off..] + Flatten(iov[k + 1..])
  }

  function VisibleAt(iov: seq<seq<byte>>, k: nat, off: nat): (r: seq<byte>)
    requires k < |iov| && off <= |iov[k]|
    ensures r <= RestAt(iov, k, off)
  {
    UpToEmptyPrefix(iov[k + 1..]);
    if off == |iov[k]| then [] else iov[k][off..] + UpToEmpty(iov[k + 1..])
  }

  lemma DropFront(piece: seq<byte>, off: nat, n: nat, tail: seq<byte>)
    requires off + n <= |piece|
    ensures (piece[off..] + tail)[n..] == piece[off + n..] + tail
  {
  }

  /** Moving on inside a piece, or to the end of the last one. */
  lemma SkipInside(iov: seq<seq<byte>>, k: nat, off: nat, n: nat)
    requires k < |iov| && off + n <= |iov[k]|
    ensures RestAt(iov, k, off + n) == RestAt(iov, k, off)[n..]
    ensures n <= |VisibleAt(iov, k, off)|
    ensures off + n < |iov[k]| || k + 1 == |iov| ==> VisibleAt(iov, k, off + n) == VisibleAt(iov, k, off)[n..]
  {
    DropFront(iov[k], off, n, Flatten(iov[k + 1..]));
    DropFront(iov[k], off, n, UpToEmpty(iov[k + 1..]));
    if k + 1 == |iov| { assert UpToEmpty(iov[k + 1..]) == []; }
    hide Flatten, UpToEmpty;
  }

  /** Moving on from the end of a piece. */
  lemma SkipOver(iov: seq<seq<byte>>, k: nat, off: nat)
    requires k + 1 < |iov| && off <= |iov[k]|
    ensures RestAt(iov, k + 1, 0) == RestAt(iov, k, |iov[k]|)
    ensures off < |iov[k]| ==> VisibleAt(iov, k + 1, 0) == VisibleAt(iov, k, off)[|iov[k]| - off..]
  {
    hide Flatten, UpToEmpty;
    FlattenFrom(iov, k + 1);
    assert iov[k + 1][0..] == iov[k + 1] && iov[k][|iov[k]|..] == [];
  }

  /** What a skip leaves: the bytes behind it. */
  lemma {:induction false} SkipEffect(iov: seq<seq<byte>>, k: nat, off: nat, n: nat)
    requires k < |iov| && off + n <= |iov[k]|
    ensures var (k', off') := NextPosition(iov, k, off, n);
            && k' < |iov| && off' <= |iov[k']| && Start(iov, k') + off' == Start(iov, k) + off + n
            && RestAt(iov, k', off') == RestAt(iov, k, off)[n..]
            && n <= |VisibleAt(iov, k, off)|
            && (n > 0 ==> VisibleAt(iov, k', off') == VisibleAt(iov, k, off)[n..])
  {
    hide RestAt, VisibleAt;
    SkipInside(iov, k, off, n);
    if off + n == |iov[k]| && k + 1 < |iov| {
      SkipOver(iov, k, off);
    }
  }

  /** A place in piece k; its end is one only in the last piece, or if the piece is empty. */
  predicate PlaceOk(iov: seq<seq<byte>>, k: nat, off: nat)
    requires k < |iov|
  {
    off <= |iov[k]| && (0 < off == |iov[k]| ==> k + 1 == |iov|)
  }

  class Reader {
    const iov: seq<seq<byte>>
    /** The build without scatter-gather support. */
    const flat: bool
    var curvec: nat
    var curoff: nat
    /** A skip has failed its check: the process has ended there, whatever is computed after it. */
    var checkFailed: bool

    /** The position lies in the vector, and no check has failed that cannot fail. */
    ghost predicate InBounds()
      reads this
    {
      && (flat ==> |iov| == 1)
      && (Fits(iov, flat) ==> !checkFailed)
      && if |iov| == 0 then curvec == 0 && curoff == 0 else curvec < |iov| && PlaceOk(iov, curvec, curoff)
    }

    /** The bytes not skipped yet. */
    ghost function Rest(): (r: seq<byte>)
      requires InBounds()
      reads this
      ensures |iov| == 0 ==> r == []
      ensures |iov| > 0 ==> |r| >= |iov[curvec]| - curoff
    {
      if |iov| == 0 then [] else RestAt(iov, curvec, curoff)
    }

    /** How many bytes lie in one piece at the position. */
    ghost function Stretch(): nat
      requires InBounds()
      reads this
    {
      if |iov| == 0 then 0 else |iov[curvec]| - curoff
    }

    /** How many bytes have been skipped. */
    ghost function Position(): (p: nat)
      requires InBounds()
      reads this
      ensures curoff <= p
    {
      if |iov| == 0 then 0 else Start(iov, curvec) + curoff
    }

    /** What is left is what follows the position. */
    lemma RestIsPlace()
      requires InBounds()
      ensures Position() <= |Flatten(iov)| && Rest() == Flatten(iov)[Position()..]
    {
      if |iov| > 0 {
        StartIsPlace(iov, curvec);
        FlattenFrom(iov, curvec);
        assert (iov[curvec] + Flatten(iov[curvec + 1..]))[curoff..] == Rest();
        hide Flatten;
        var all, at, off := Flatten(iov), Start(iov, curvec), curoff;
        assert all[at..][off..] == all[at + off..];
      }
    }

    /** Those of them that can be read before an empty stretch is met. */
    ghost function Visible(): (r: seq<byte>)
      requires InBounds()
      reads this
      ensures r <= Rest()
    {
      if |iov| == 0 then [] else VisibleAt(iov, curvec, curoff)
    }

    constructor (pieces: seq<seq<byte>>, flatBuild: bool)
      requires flatBuild ==> |pieces| == 1
      ensures InBounds() && Rest() == Flatten(pieces) && iov == pieces && flat == flatBuild
      ensures curvec == 0 && curoff == 0 && Position() == 0 && !checkFailed
      ensures Visible() == UpToEmpty(pieces)
    {
      iov, flat := pieces, flatBuild;
      curvec, curoff, checkFailed := 0, 0, false;
      new;
      if |pieces| > 0 { assert pieces[0][0..] == pieces[0]; }
    }

    /** How many bytes lie at (curvec, curoff) in one stretch; zero is taken for the end of the input. */
    method Peek() returns (len: nat)
      requires InBounds()
      ensures |iov| == 0 ==> len == 0
      ensures |iov| > 0 ==> len == |iov[curvec]| - curoff
      ensures len <= |Visible()| && (len > 0 ==> iov[curvec][curoff..] == Rest()[..len])
      ensures len == 0 <==> Visible() == []
      ensures len == 0 ==> EndBefore(iov, |Rest()|)
    {
      len := 0;
      if curvec < |iov| && curoff < |iov[curvec]| {
        len := |iov[curvec]| - curoff;
        assert Rest()[..len] == iov[curvec][curoff..];
        assert Visible()[0] == iov[curvec][curoff];
      } else if |iov| > 0 {
        FlattenFrom(iov, curvec);
        if curoff == 0 {
          assert EmptyHides(iov, curvec, |Rest()|);
        }
      }
    }

    /** Advances by n bytes of the current piece, and to the next piece at its end. */
    method Skip(n: nat)
      requires InBounds() && |iov| > 0 && n <= |iov[curvec]| - curoff
      requires flat || curoff + n < U32
      modifies this
      ensures InBounds()
      ensures n <= |old(Rest())| && Rest() == old(Rest())[n..] && Position() == old(Position()) + n
      ensures n <= |old(Visible())| && (n > 0 ==> Visible() == old(Visible())[n..])
      ensures (curvec, curoff) == NextPosition(iov, old(curvec), old(curoff), n)
      ensures checkFailed <==>
              old(checkFailed) || (!flat && !SkipPasses(old(curoff), n, |iov[old(curvec)]|))
    {
      hide RestAt, VisibleAt, SkipPasses, Fits, Start;
      SkipEffect(iov, curvec, curoff, n);
      if !flat {
        FitsPasses(iov, curvec, curoff, n);
        checkFailed := checkFailed || !SkipPasses(curoff, n, |iov[curvec]|);
      }
      curoff := curoff + n;
      if curoff >= |iov[curvec]| && curvec + 1 < |iov| {
        curoff := 0;
        curvec := curvec + 1;
      }
    }
  }
}
