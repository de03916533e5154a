/**
 * How `compress` walks over a vector of pieces: which blocks it can read, and how it ends. Everything
 * is stated over the lengths of the pieces.
 */
module BlockStarts {
  import opened Bytes
  import opened Fragment
  import opened Source

  /** What compress does: it returns an error code, or it stays in its gathering loop for ever. */
  datatype Outcome = Returns(err: int) | Spins

  /** Piece k is empty and stands at position pos. */
  predicate EmptyAt(iov: seq<seq<byte>>, k: nat, pos: nat) {
    k < |iov| && |iov[k]| == 0 && Start(iov, k) == pos
  }

  /** Piece k holds all bytes from a to b. */
  predicate Holding(iov: seq<seq<byte>>, k: nat, a: nat, b: nat) {
    k < |iov| && Start(iov, k) <= a < b <= Start(iov, k) + |iov[k]|
  }

  ghost predicate OneStretch(iov: seq<seq<byte>>, a: nat, b: nat) {
    exists k: nat :: Holding(iov, k, a, b)
  }

  /**
   * A block that starts at pos finds nothing to read: at the end of the vector, and at an empty piece.
   * Behind a gathered block one empty piece is passed, so that it takes two in a row there.
   */
  ghost predicate Blocked(iov: seq<seq<byte>>, pos: nat) {
    || pos == |Flatten(iov)|
    || (if pos < BLOCK_SIZE || OneStretch(iov, pos - BLOCK_SIZE, pos)
        then exists k: nat :: EmptyAt(iov, k, pos)
        else exists k: nat :: EmptyAt(iov, k, pos) && EmptyAt(iov, k + 1, pos))
  }

  // ---------- where the reader stands ----------

  /** The position was reached by taking at least one byte. */
  predicate JustTaken(iov: seq<seq<byte>>, k: nat, off: nat) {
    && k < |iov| && off <= |iov[k]|
    && if off > 0 then off < |iov[k]| || k + 1 == |iov| else k > 0 && |iov[k - 1]| > 0
  }

  /** The position was reached by a skip of no bytes after that. */
  predicate Settled(iov: seq<seq<byte>>, k: nat, off: nat) {
    || (JustTaken(iov, k, off) && (off < |iov[k]| || k + 1 == |iov|))
    || (1 < k < |iov| && off == 0 && |iov[k - 1]| == 0 && |iov[k - 2]| > 0)
  }

  lemma SkipNothingSettles(iov: seq<seq<byte>>, k: nat, off: nat)
    requires JustTaken(iov, k, off)
    ensures var (k', off') := NextPosition(iov, k, off, 0); Settled(iov, k', off')
  {
  }

  lemma TakingSettles(iov: seq<seq<byte>>, k: nat, off: nat, n: nat)
    requires k < |iov| && 0 < n && off + n <= |iov[k]|
    ensures var (k', off') := NextPosition(iov, k, off, n); JustTaken(iov, k', off')
  {
  }

  /** No empty piece stands at a position inside a piece, or at the start of one behind a non-empty one. */
  lemma {:induction false} NothingEmptyAt(iov: seq<seq<byte>>, k: nat, off: nat, j: nat)
    requires JustTaken(iov, k, off) && off < |iov[k]|
    ensures Start(iov, k) + off < |Flatten(iov)| && !EmptyAt(iov, j, Start(iov, k) + off)
  {
    BeforeEnd(iov, k);
    if j < k {
      StartOrder(iov, j, k);
      if off == 0 && j < k - 1 { StartOrder(iov, j, k - 1); }
    } else if k < j < |iov| {
      StartOrder(iov, k, j);
    }
  }

  lemma {:induction false} BeforeEnd(iov: seq<seq<byte>>, k: nat)
    requires k < |iov|
    ensures Start(iov, k) + |iov[k]| <= |Flatten(iov)|
    ensures k + 1 == |iov| ==> Start(iov, k) + |iov[k]| == |Flatten(iov)|
  {
    StartIsPlace(iov, k + 1);
  }

  /** Nor do two of them stand behind an empty piece that was passed. */
  lemma {:induction false} OneEmptyAt(iov: seq<seq<byte>>, k: nat, j: nat)
    requires 1 < k < |iov| && |iov[k]| > 0 && |iov[k - 1]| == 0 && |iov[k - 2]| > 0
    ensures Start(iov, k) < |Flatten(iov)|
    ensures !(EmptyAt(iov, j, Start(iov, k)) && EmptyAt(iov, j + 1, Start(iov, k)))
  {
    BeforeEnd(iov, k);
    if j < k - 2 {
      StartOrder(iov, j, k - 2);
    } else if k < j + 1 < |iov| {
      StartOrder(iov, k, j + 1);
    }
  }

  /** The piece that holds a byte is the only one. */
  lemma {:induction false} HoldingUnique(iov: seq<seq<byte>>, k: nat, off: nat, n: nat)
    requires k < |iov| && off < |iov[k]| && n > 0
    ensures OneStretch(iov, Start(iov, k) + off, Start(iov, k) + off + n) <==> off + n <= |iov[k]|
  {
    var a, b := Start(iov, k) + off, Start(iov, k) + off + n;
    if off + n <= |iov[k]| {
      assert Holding(iov, k, a, b);
    }
    forall j: nat ensures Holding(iov, j, a, b) ==> j == k {
      if j < k {
        StartOrder(iov, j, k);
      } else if k < j < |iov| {
        StartOrder(iov, k, j);
      }
    }
  }

  /** Whether the reader sees anything at a block start. */
  ghost predicate AtBlock(iov: seq<seq<byte>>, k: nat, off: nat, pos: nat) {
    && k < |iov| && off <= |iov[k]| && Start(iov, k) + off == pos
    && (off == |iov[k]| <==> Blocked(iov, pos))
  }

  lemma {:induction false} FirstBlockStart(iov: seq<seq<byte>>)
    requires |iov| > 0
    ensures AtBlock(iov, 0, 0, 0)
  {
    BeforeEnd(iov, 0);
    if |iov[0]| == 0 {
      assert EmptyAt(iov, 0, 0);
    } else {
      forall j: nat ensures !EmptyAt(iov, j, 0) {
        if 0 < j < |iov| { StartOrder(iov, 0, j); }
      }
    }
  }

  /** Behind a block that lay in one piece. */
  lemma {:induction false} AfterDirectBlock(iov: seq<seq<byte>>, k: nat, off: nat)
    requires k < |iov| && off + BLOCK_SIZE <= |iov[k]|
    ensures var (k', off') := NextPosition(iov, k, off, BLOCK_SIZE);
            AtBlock(iov, k', off', Start(iov, k) + off + BLOCK_SIZE)
  {
    hide Blocked;
    var (k', off') := NextPosition(iov, k, off, BLOCK_SIZE);
    var pos := Start(iov, k) + off + BLOCK_SIZE;
    HoldingUnique(iov, k, off, BLOCK_SIZE);
    TakingSettles(iov, k, off, BLOCK_SIZE);
    if off' < |iov[k']| {
      NotBlocked(iov, k', off', pos);
    } else if k' + 1 == |iov| {
      BeforeEnd(iov, k');
      BlockedAtEnd(iov, pos);
    } else {
      assert EmptyAt(iov, k', pos);
      BlockedBehindStretch(iov, k', pos);
    }
  }

  /** Behind a block that was gathered, and after the skip of no bytes that follows it. */
  lemma {:induction false} AfterGatheredBlock(iov: seq<seq<byte>>, k: nat, off: nat, k': nat, off': nat)
    requires k < |iov| && off < |iov[k]| < off + BLOCK_SIZE && Settled(iov, k', off') && off' <= |iov[k']|
    requires Start(iov, k') + off' == Start(iov, k) + off + BLOCK_SIZE
    ensures AtBlock(iov, k', off', Start(iov, k) + off + BLOCK_SIZE)
  {
    hide Blocked;
    var pos := Start(iov, k) + off + BLOCK_SIZE;
    HoldingUnique(iov, k, off, BLOCK_SIZE);
    if JustTaken(iov, k', off') && off' < |iov[k']| {
      NotBlocked(iov, k', off', pos);
    } else if k' + 1 == |iov| && off' == |iov[k']| {
      BeforeEnd(iov, k');
      BlockedAtEnd(iov, pos);
    } else {
      assert Start(iov, k' - 1) == pos && EmptyAt(iov, k' - 1, pos);
      if |iov[k']| == 0 {
        BlockedByTwo(iov, k' - 1, pos);
      } else {
        NotBlockedPassed(iov, k', pos);
      }
    }
  }

  lemma BlockedAtEnd(iov: seq<seq<byte>>, pos: nat)
    requires pos == |Flatten(iov)|
    ensures Blocked(iov, pos)
  {
  }

  lemma BlockedBehindStretch(iov: seq<seq<byte>>, k: nat, pos: nat)
    requires EmptyAt(iov, k, pos) && pos >= BLOCK_SIZE && OneStretch(iov, pos - BLOCK_SIZE, pos)
    ensures Blocked(iov, pos)
  {
  }

  lemma BlockedByTwo(iov: seq<seq<byte>>, k: nat, pos: nat)
    requires EmptyAt(iov, k, pos) && EmptyAt(iov, k + 1, pos)
    ensures Blocked(iov, pos)
  {
  }

  lemma {:induction false} NotBlocked(iov: seq<seq<byte>>, k: nat, off: nat, pos: nat)
    requires JustTaken(iov, k, off) && off < |iov[k]| && pos == Start(iov, k) + off
    ensures !Blocked(iov, pos)
  {
    NothingEmptyAt(iov, k, off, 0);
    forall j: nat ensures !EmptyAt(iov, j, pos) { NothingEmptyAt(iov, k, off, j); }
  }

  lemma {:induction false} NotBlockedPassed(iov: seq<seq<byte>>, k: nat, pos: nat)
    requires 1 < k < |iov| && |iov[k]| > 0 && |iov[k - 1]| == 0 && |iov[k - 2]| > 0
    requires pos == Start(iov, k) >= BLOCK_SIZE && !OneStretch(iov, pos - BLOCK_SIZE, pos)
    ensures !Blocked(iov, pos)
  {
    OneEmptyAt(iov, k, 0);
    forall j: nat ensures !(EmptyAt(iov, j, pos) && EmptyAt(iov, j + 1, pos)) { OneEmptyAt(iov, k, j); }
  }

  // ---------- how the block loop ends ----------

  /** The result of the loop, and how many bytes have been compressed by then. */
  datatype Ending = Ending(outcome: Outcome, covered: nat)

  /** The block loop over n announced bytes, from the block start pos on. */
  ghost function EndingFrom(iov: seq<seq<byte>>, n: nat, pos: nat): (e: Ending)
    requires pos <= n && pos <= |Flatten(iov)|
    ensures pos <= e.covered <= n && e.covered <= |Flatten(iov)|
    ensures e.outcome == Returns(0) <==> e.covered == n
    decreases n - pos
  {
    if pos == n then Ending(Returns(0), n)
    else if Blocked(iov, pos) then Ending(Returns(-EIO), pos)
    else if |Flatten(iov)| < pos + Min(n - pos, BLOCK_SIZE) then Ending(Spins, pos)
    else EndingFrom(iov, n, pos + Min(n - pos, BLOCK_SIZE))
  }

  /** One turn of the loop. */
  lemma EndingTurn(iov: seq<seq<byte>>, n: nat, pos: nat, num: nat)
    requires pos < n && pos <= |Flatten(iov)| && num == Min(n - pos, BLOCK_SIZE)
    ensures Blocked(iov, pos) ==> EndingFrom(iov, n, pos) == Ending(Returns(-EIO), pos)
    ensures !Blocked(iov, pos) && |Flatten(iov)| < pos + num ==> EndingFrom(iov, n, pos) == Ending(Spins, pos)
    ensures !Blocked(iov, pos) && pos + num <= |Flatten(iov)| ==>
              EndingFrom(iov, n, pos) == EndingFrom(iov, n, pos + num)
  {
    hide Blocked;
  }

  /** No block that starts from `from` on and before `to` is blocked. */
  ghost predicate Unblocked(iov: seq<seq<byte>>, from: nat, to: nat) {
    forall pos: nat :: from <= pos < to && pos % BLOCK_SIZE == 0 ==> !Blocked(iov, pos)
  }

  lemma NextStart(iov: seq<seq<byte>>, pos: nat, to: nat)
    requires pos % BLOCK_SIZE == 0 && pos < to
    ensures Unblocked(iov, pos, to) <==> !Blocked(iov, pos) && Unblocked(iov, pos + BLOCK_SIZE, to)
  {
    hide Blocked;
  }

  /**
   * The loop succeeds exactly when the source holds what it announces and no block is blocked. It
   * never ends exactly when the source is too short, ends inside a block, and no block is blocked.
   */
  lemma {:induction false} EndingIff(iov: seq<seq<byte>>, n: nat, pos: nat)
    requires pos <= n && pos <= |Flatten(iov)| && (pos < n ==> pos % BLOCK_SIZE == 0)
    ensures var available, e := |Flatten(iov)|, EndingFrom(iov, n, pos).outcome;
            && (e == Returns(0) <==> n <= available && Unblocked(iov, pos, n))
            && (e == Spins <==> n > available && available % BLOCK_SIZE != 0 && Unblocked(iov, pos, available))
            && (e == Returns(0) || e == Spins || e == Returns(-EIO))
    decreases n - pos
  {
    hide Blocked, Unblocked;
    var available := |Flatten(iov)|;
    if pos < n {
      NextStart(iov, pos, n);
      if pos < available { NextStart(iov, pos, available); }
      if pos == available { BlockedAtEnd(iov, pos); }
      NothingToBlock(iov, pos + BLOCK_SIZE, n);
      NothingToBlock(iov, pos + BLOCK_SIZE, available);
      if !Blocked(iov, pos) && pos + Min(n - pos, BLOCK_SIZE) <= available {
        EndingIff(iov, n, pos + Min(n - pos, BLOCK_SIZE));
      }
    } else {
      NothingToBlock(iov, pos, n);
    }
  }

  lemma NothingToBlock(iov: seq<seq<byte>>, from: nat, to: nat)
    ensures to <= from ==> Unblocked(iov, from, to)
  {
  }

  // ---------- vectors with empty pieces at the end only ----------

  /** How many of n announced bytes are compressed when the source holds only `available` bytes. */
  function Covered(available: nat, n: nat): (r: nat)
    ensures r <= available && r <= n
  {
    if n <= available then n else available - available % BLOCK_SIZE
  }

  /** A source that is too short is noticed only between two blocks. */
  function OutcomeFor(available: nat, n: nat): Outcome {
    if n <= available then Returns(0) else if available % BLOCK_SIZE == 0 then Returns(-EIO) else Spins
  }

  lemma {:induction false} BlockedOnlyAtEnd(iov: seq<seq<byte>>, pos: nat)
    requires EmptyAtEnd(iov)
    ensures Blocked(iov, pos) <==> pos == |Flatten(iov)|
  {
    forall k: nat | EmptyAt(iov, k, pos) ensures pos == |Flatten(iov)| {
      StartIsPlace(iov, k);
      FlattenNothing(iov[k..]);
    }
  }

  /** Then only the number of bytes matters. */
  lemma {:induction false} EndingByLength(iov: seq<seq<byte>>, n: nat, pos: nat)
    requires EmptyAtEnd(iov)
    requires pos <= n && pos <= |Flatten(iov)| && (pos < n ==> pos % BLOCK_SIZE == 0)
    ensures EndingFrom(iov, n, pos) == Ending(OutcomeFor(|Flatten(iov)|, n), Covered(|Flatten(iov)|, n))
    decreases n - pos
  {
    hide Blocked, Flatten, EmptyAtEnd;
    BlockedOnlyAtEnd(iov, pos);
    if pos < n && !Blocked(iov, pos) && pos + Min(n - pos, BLOCK_SIZE) <= |Flatten(iov)| {
      EndingByLength(iov, n, pos + Min(n - pos, BLOCK_SIZE));
    }
  }

  /** An empty piece behind a block that lies in one piece: the bytes behind it are not found. */
  lemma {:induction false} HiddenBehindBlock(a: seq<byte>, b: seq<byte>)
    requires |a| == BLOCK_SIZE && |b| > 0
    ensures Flatten([a, [], b]) == a + b == Flatten([a, b])
    ensures EndingFrom([a, [], b], |a + b|, 0) == Ending(Returns(-EIO), BLOCK_SIZE)
    ensures EndingFrom([a, b], |a + b|, 0) == Ending(Returns(0), |a + b|)
  {
    var iov := [a, [], b];
    FlattenOne(b);
    assert iov[1..] == [[], b] && [[], b][1..] == [b] && [a, b][1..] == [b];
    FirstBlockStart(iov);
    AfterDirectBlock(iov, 0, 0);
    EndingByLength([a, b], |a + b|, 0);
  }
}
