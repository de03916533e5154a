/**
 * That the match search finds what it is for: laws about the elements of a block that mention neither
 * the scan nor the hash table. They hold for every hash function, except where stated.
 */
module Greedy {
  import opened Bytes
  import opened Format
  import opened Encoder
  import opened Match
  import opened Fragment

  /** The positions p - 1 and p hold the same four bytes: five equal bytes in a row. */
  predicate RunAt(f: seq<byte>, p: nat) {
    1 <= p && p + 4 <= |f| && Four(f, p) == Four(f, p - 1)
  }

  /** The len bytes at p agree with those at distance d, and no longer stretch does. */
  predicate LongestAt(f: seq<byte>, p: nat, d: nat, len: nat) {
    && 1 <= d <= p && p + len <= |f| && f[p..p + len] == f[p - d..p - d + len]
    && (p + len < |f| ==> f[p + len] != f[p - d + len])
  }

  /** How far a search that starts at p moves one byte at a time, and still may take a match. */
  predicate Searched(f: seq<byte>, p: nat, j: nat) {
    1 <= j <= 32 && p + j + 1 + INPUT_MARGIN <= |f|
  }

  /** A literal at p stops at the first run that the search meets. */
  ghost predicate StopsAtRun(f: seq<byte>, p: nat, len: nat) {
    forall j: nat :: Searched(f, p, j) && RunAt(f, p + j) ==> len <= j
  }

  /**
   * How far behind the last copy probe k of a search lies: 32 steps of one byte, then 32 of two, and so
   * on.
   */
  function Probe(k: nat): nat {
    if k == 0 then 1 else Probe(k - 1) + (31 + k) / 32
  }

  lemma {:induction false} FirstProbe()
    ensures Probe(0) == 1
  {
  }

  lemma {:induction false} NextProbe(k: nat, j: nat)
    requires 32 * j <= k < 32 * j + 32
    ensures Probe(k + 1) == Probe(k) + j + 1
  {
  }

  lemma {:induction false} ProbesApart(j: nat, i: nat)
    requires i <= 32
    ensures Probe(32 * j + i) == Probe(32 * j) + i * (j + 1)
    decreases i
  {
    hide Probe;
    if i > 0 {
      ProbesApart(j, i - 1);
      NextProbe(32 * j + i - 1, j);
      Distribute(j + 1, 1, i - 1, 1);
    }
  }

  /** The distance between probes grows after every 32 probes, not after every 32 bytes. */
  lemma {:induction false} ProbeDistance(j: nat)
    ensures Probe(32 * j) == 1 + 16 * j * (j + 1)
  {
    hide Probe;
    if j > 0 {
      ProbeDistance(j - 1);
      ProbesApart(j - 1, 32);
      Distribute(j, 1, j - 1, 1);
    } else {
      FirstProbe();
    }
  }

  ghost predicate AtProbe(len: nat) {
    exists k: nat :: len == Probe(k)
  }

  /** Where a copy ends inside a run, the run goes on as a copy. */
  predicate RunGoesOn(f: seq<byte>, end: nat, rest: seq<Element>) {
    end + INPUT_MARGIN < |f| && RunAt(f, end) ==> |rest| > 0 && rest[0].Copy? && rest[0].offset == 1
  }

  /**
   * The elements cover the block from p on. Only the last of them can be a literal without a copy
   * behind it; copies start where the search looks and are as long as possible; runs are not missed.
   */
  ghost predicate Covers(f: seq<byte>, p: nat, es: seq<Element>)
    decreases |es|
  {
    if |es| == 0 then p == |f|
    else
      match es[0]
      case Literal(data) =>
        && 1 <= |data| <= |f| - p && data == f[p..p + |data|] && StopsAtRun(f, p, |data|)
        && (|es| > 1 ==> es[1].Copy? && AtProbe(|data|))
        && Covers(f, p + |data|, es[1..])
      case Copy(d, len) =>
        && len >= 4 && p + INPUT_MARGIN <= |f| && LongestAt(f, p, d, len)
        && RunGoesOn(f, p + len, es[1..])
        && Covers(f, p + len, es[1..])
  }

  // ---------- the elements of a block obey the laws ----------

  lemma {:induction false} RemainderCovers(f: seq<byte>, p: nat)
    requires p <= |f| <= BLOCK_SIZE && StopsAtRun(f, p, |f| - p)
    ensures Covers(f, p, Remainder(f, p))
  {
    if p < |f| {
      var es := Remainder(f, p);
      assert es[1..] == [] && Covers(f, |f|, es[1..]);
    }
  }

  lemma {:induction false} LiteralCovers(f: seq<byte>, p: nat, ip: nat, rest: seq<Element>)
    requires p < ip <= |f| && StopsAtRun(f, p, ip - p)
    requires |rest| > 0 && rest[0].Copy? && Covers(f, ip, rest) && AtProbe(ip - p)
    ensures Covers(f, p, [Literal(f[p..ip])] + rest)
  {
    hide StopsAtRun, AtProbe;
    var es := [Literal(f[p..ip])] + rest;
    assert es[1..] == rest && es[1] == rest[0];
  }

  lemma {:induction false} CopyCovers(f: seq<byte>, p: nat, d: nat, len: nat, rest: seq<Element>)
    requires len >= 4 && p + INPUT_MARGIN <= |f| && LongestAt(f, p, d, len)
    requires RunGoesOn(f, p + len, rest) && Covers(f, p + len, rest)
    ensures Covers(f, p, [Copy(d, len)] + rest)
  {
    hide LongestAt, RunGoesOn;
    assert ([Copy(d, len)] + rest)[1..] == rest;
  }

  /** No run among the first n positions of a search. */
  ghost predicate NoRun(f: seq<byte>, p: nat, n: nat) {
    forall j: nat :: Searched(f, p, j) && j < n ==> !RunAt(f, p + j)
  }

  /** While the search moves byte by byte, the position before ip is the latest in its bucket. */
  ghost predicate Stepping(f: seq<byte>, h: Hash, table: seq<u16>, ip: nat, skip: nat, nextEmit: nat)
    requires HashInto(h, |table|) && 1 <= ip && ip + 3 <= |f|
  {
    && (skip <= 64 ==> ip == nextEmit + skip - 31 && table[h(Four(f, ip - 1))] == ip - 1)
    && (skip > 64 ==> ip > nextEmit + 33)
  }

  lemma {:induction false} ScanCovers(f: seq<byte>, h: Hash, table: seq<u16>, ip: nat, skip: nat, nextEmit: nat)
    requires BlockOk(f) && HashInto(h, |table|) && TableBelow(table, ip)
    requires nextEmit < ip && ip + 4 <= |f| && skip >= 32
    requires Stepping(f, h, table, ip, skip, nextEmit) && NoRun(f, nextEmit, ip - nextEmit)
    requires ip == nextEmit + Probe(skip - 32)
    ensures Covers(f, nextEmit, Scan(f, h, table, ip, skip, nextEmit))
    decreases |f| - ip, 1
  {
    hide Copies, AfterCopy, Covers, Remainder, Stepping, NoRun, StopsAtRun, Probe;
    var next := ip + skip / 32;
    ProbeAfter(skip - 32);
    if next + INPUT_MARGIN > |f| {
      NothingMissed(f, h, table, ip, skip, nextEmit);
      RemainderCovers(f, nextEmit);
    } else {
      var hval := h(Four(f, ip));
      var candidate, updated := table[hval], table[hval := ip];
      if Four(f, ip) != Four(f, candidate) {
        MissKeeps(f, h, table, ip, skip, nextEmit);
        ScanCovers(f, h, updated, next, skip + 1, nextEmit);
      } else {
        CopiesCover(f, h, updated, ip, candidate);
        CopiesStart(f, h, updated, ip, candidate);
        StopHere(f, nextEmit, ip - nextEmit);
        LiteralCovers(f, nextEmit, ip, Copies(f, h, updated, ip, candidate));
      }
    }
  }

  lemma {:induction false} ProbeAfter(k: nat)
    ensures Probe(k + 1) == Probe(k) + (32 + k) / 32 && AtProbe(Probe(k))
  {
  }

  lemma {:induction false} StopHere(f: seq<byte>, p: nat, len: nat)
    requires NoRun(f, p, len)
    ensures StopsAtRun(f, p, len)
  {
  }

  /** When the margin is reached no run is left that the search should have taken. */
  lemma {:induction false} NothingMissed(f: seq<byte>, h: Hash, table: seq<u16>, ip: nat, skip: nat, nextEmit: nat)
    requires HashInto(h, |table|) && nextEmit < ip && ip + 4 <= |f| && skip >= 32
    requires Stepping(f, h, table, ip, skip, nextEmit) && NoRun(f, nextEmit, ip - nextEmit)
    requires ip + skip / 32 + INPUT_MARGIN > |f|
    ensures StopsAtRun(f, nextEmit, |f| - nextEmit)
  {
  }

  /** A miss says that there was no run, and leaves ip as the latest in its bucket. */
  lemma {:induction false} MissKeeps(f: seq<byte>, h: Hash, table: seq<u16>, ip: nat, skip: nat, nextEmit: nat)
    requires HashInto(h, |table|) && TableBelow(table, ip) && ip < BLOCK_SIZE
    requires nextEmit < ip && skip >= 32 && ip + skip / 32 + INPUT_MARGIN <= |f|
    requires Stepping(f, h, table, ip, skip, nextEmit) && NoRun(f, nextEmit, ip - nextEmit)
    requires Four(f, ip) != Four(f, table[h(Four(f, ip))])
    ensures Stepping(f, h, table[h(Four(f, ip)) := ip], ip + skip / 32, skip + 1, nextEmit)
    ensures NoRun(f, nextEmit, ip + skip / 32 - nextEmit)
  {
    hide Four;
  }

  lemma {:induction false} CopiesStart(f: seq<byte>, h: Hash, table: seq<u16>, ip: nat, candidate: nat)
    requires BlockOk(f) && HashInto(h, |table|) && TableBelow(table, ip + 1)
    requires candidate < ip && ip + INPUT_MARGIN <= |f|
    ensures |Copies(f, h, table, ip, candidate)| > 0
    ensures Copies(f, h, table, ip, candidate)[0].Copy?
    ensures Copies(f, h, table, ip, candidate)[0].offset == ip - candidate
  {
    hide AfterCopy, Scan;
  }

  lemma {:induction false} LongestMatch(f: seq<byte>, ip: nat, candidate: nat)
    requires candidate < ip && ip + 4 <= |f| && f[ip..ip + 4] == f[candidate..candidate + 4]
    ensures LongestAt(f, ip, ip - candidate, 4 + MatchLength(f, candidate + 4, ip + 4, |f|))
  {
    hide CommonPrefix;
    MatchLengthIsLongest(f, candidate + 4, ip + 4, |f|);
    JoinMatches(f, candidate, ip, 4, MatchLength(f, candidate + 4, ip + 4, |f|));
  }

  lemma {:induction false} CopiesCover(f: seq<byte>, h: Hash, table: seq<u16>, ip: nat, candidate: nat)
    requires BlockOk(f) && HashInto(h, |table|) && TableBelow(table, ip + 1)
    requires candidate < ip && ip + INPUT_MARGIN <= |f|
    requires f[ip..ip + 4] == f[candidate..candidate + 4]
    ensures Covers(f, ip, Copies(f, h, table, ip, candidate))
    decreases |f| - ip, 0
  {
    hide Scan, AfterCopy, Covers, MatchLength, LongestAt, RunGoesOn;
    assert 4 + MatchLength(f, candidate + 4, ip + 4, |f|) <= |f| - ip by {
      MatchLengthIsLongest(f, candidate + 4, ip + 4, |f|);
    }
    var matched := 4 + MatchLength(f, candidate + 4, ip + 4, |f|);
    LongestMatch(f, ip, candidate);
    AfterCopyCovers(f, h, table, ip + matched);
    CopyCovers(f, ip, ip - candidate, matched, AfterCopy(f, h, table, ip + matched));
  }

  lemma {:induction false} AfterCopyCovers(f: seq<byte>, h: Hash, table: seq<u16>, end: nat)
    requires BlockOk(f) && HashInto(h, |table|) && end > 0 && TableBelow(table, end - 1)
    requires end <= |f|
    ensures Covers(f, end, AfterCopy(f, h, table, end)) && RunGoesOn(f, end, AfterCopy(f, h, table, end))
    decreases |f| - end, 2
  {
    hide Copies, Scan, Covers, Remainder;
    if end + INPUT_MARGIN >= |f| {
      RemainderCovers(f, end);
    } else {
      var told := table[h(Four(f, end - 1)) := end - 1];
      var hval := h(Four(f, end));
      var candidate, updated := told[hval], told[hval := end];
      if Four(f, end) == Four(f, candidate) {
        CopiesCover(f, h, updated, end, candidate);
        CopiesStart(f, h, updated, end, candidate);
      } else {
        ScanCovers(f, h, updated, end + 1, 32, end);
      }
    }
  }

  /** For every block and every hash function the elements obey the laws of Covers. */
  lemma {:induction false} ElementsCover(f: seq<byte>, h: Hash, tableSize: nat)
    requires |f| <= BLOCK_SIZE && HashInto(h, tableSize)
    ensures Covers(f, 0, Elements(f, h, tableSize))
  {
    if |f| < INPUT_MARGIN {
      RemainderCovers(f, 0);
    } else {
      ScanCovers(f, h, seq(tableSize, _ => 0), 1, 32, 0);
    }
  }

  // ---------- equal bytes ----------

  /** Nothing but the empty list covers nothing. */
  lemma {:induction false} CoversEnd(f: seq<byte>, es: seq<Element>)
    requires Covers(f, |f|, es)
    ensures es == []
  {
  }

  lemma {:induction false} HeadLiteral(f: seq<byte>, es: seq<Element>)
    requires Covers(f, 0, es) && |f| > 0
    ensures |es| > 0 && es[0].Literal?
    ensures var n := |es[0].data|; 1 <= n <= |f| && es[0].data == f[..n] && StopsAtRun(f, 0, n)
    ensures Covers(f, |es[0].data|, es[1..]) && (|es| > 1 ==> es[1].Copy?)
  {
    hide StopsAtRun, AtProbe;
  }

  lemma {:induction false} HeadCopy(f: seq<byte>, p: nat, es: seq<Element>)
    requires Covers(f, p, es) && |es| > 0 && es[0].Copy?
    ensures LongestAt(f, p, es[0].offset, es[0].len) && Covers(f, p + es[0].len, es[1..])
  {
    hide LongestAt, RunGoesOn;
  }

  lemma {:induction false} LongestInRun(b: byte, n: nat, d: nat, len: nat)
    requires LongestAt(seq(n, _ => b), 1, d, len)
    ensures d == 1 && len == n - 1
  {
  }

  /** What the laws leave of a block of equal bytes: one byte, and one copy of it for all the rest. */
  lemma {:induction false} EqualBytesCovered(b: byte, n: nat, es: seq<Element>)
    requires n >= 2 + INPUT_MARGIN && Covers(seq(n, _ => b), 0, es)
    ensures es == [Literal([b]), Copy(1, n - 1)]
  {
    var f := seq(n, _ => b);
    HeadLiteral(f, es);
    assert |es[0].data| <= 1 by {
      assert Searched(f, 0, 1) && RunAt(f, 0 + 1);
    }
    var rest := es[1..];
    assert |rest| > 0;
    HeadCopy(f, 1, rest);
    LongestInRun(b, n, rest[0].offset, rest[0].len);
    CoversEnd(f, rest[1..]);
    hide Covers, StopsAtRun;
    assert f[..1] == [b] && rest == [rest[0]] && es == [es[0]] + rest;
  }

  /** A block of equal bytes becomes one literal byte and one copy, whatever the hash function. */
  lemma {:induction false} EqualBytes(b: byte, n: nat, h: Hash, tableSize: nat)
    requires 2 + INPUT_MARGIN <= n <= BLOCK_SIZE && HashInto(h, tableSize)
    ensures Elements(seq(n, _ => b), h, tableSize) == [Literal([b]), Copy(1, n - 1)]
  {
    ElementsCover(seq(n, _ => b), h, tableSize);
    EqualBytesCovered(b, n, Elements(seq(n, _ => b), h, tableSize));
  }

  lemma {:induction false} CopyTagCount(offset: nat, len: nat)
    requires 1 <= offset < 65536 && len >= 4
    ensures |EncodeCopy(offset, len)| <= 3 * (len / 64 + 1)
    decreases len
  {
    if len >= 68 { CopyTagCount(offset, len - 64); }
  }

  /** So it takes about three bytes for every 64. */
  lemma {:induction false} EqualBytesSize(b: byte, n: nat, h: Hash, tableSize: nat)
    requires 2 + INPUT_MARGIN <= n <= BLOCK_SIZE && HashInto(h, tableSize)
    ensures AllEncodable(Elements(seq(n, _ => b), h, tableSize))
    ensures |EncodeAll(Elements(seq(n, _ => b), h, tableSize))| <= 2 + 3 * ((n - 1) / 64 + 1)
  {
    EqualBytes(b, n, h, tableSize);
    ElementsSize(seq(n, _ => b), h, tableSize);
    var es := [Literal([b]), Copy(1, n - 1)];
    assert es[1..] == [Copy(1, n - 1)] && es[1..][1..] == [];
    CopyTagCount(1, n - 1);
    assert EncodeAll(es) == Encode(es[0]) + EncodeAll(es[1..]) && EncodeAll(es[1..]) == Encode(Copy(1, n - 1)) + [];
  }

  // ---------- the first repetition ----------

  /** The hash tells different words at positions up to p apart. */
  ghost predicate NoCollision(f: seq<byte>, h: Hash, p: nat)
    requires p + 4 <= |f|
  {
    forall i, j :: 0 <= i < j <= p && Four(f, i) != Four(f, j) ==> h(Four(f, i)) != h(Four(f, j))
  }

  /** No four bytes before position p have occurred twice. */
  ghost predicate NoRepeat(f: seq<byte>, p: nat)
    requires p + 3 <= |f|
  {
    forall i, j :: 0 <= i < j < p ==> Four(f, i) != Four(f, j)
  }

  /** Every bucket holds the position of its word among those before ip; the others hold 0. */
  ghost predicate Indexed(f: seq<byte>, h: Hash, table: seq<u16>, ip: nat)
    requires HashInto(h, |table|) && ip + 3 <= |f|
  {
    && (forall i :: 1 <= i < ip ==> table[h(Four(f, i))] == i)
    && (forall k :: 0 <= k < |table| && table[k] > 0 ==> table[k] < ip && h(Four(f, table[k])) == k)
  }

  /** A word that has not occurred finds no match, and gets its bucket. */
  lemma {:induction false} NewWord(f: seq<byte>, h: Hash, table: seq<u16>, ip: nat, p: nat)
    requires HashInto(h, |table|) && 1 <= ip < p <= 32 && p + 4 <= |f| && TableBelow(table, ip)
    requires NoRepeat(f, p) && NoCollision(f, h, p) && Indexed(f, h, table, ip)
    ensures Four(f, table[h(Four(f, ip))]) != Four(f, ip)
    ensures Indexed(f, h, table[h(Four(f, ip)) := ip], ip + 1)
  {
  }

  /** A word that has occurred once finds that place. */
  lemma {:induction false} OldWord(f: seq<byte>, h: Hash, table: seq<u16>, p: nat, q: nat)
    requires HashInto(h, |table|) && q < p && p + 4 <= |f| && TableBelow(table, p)
    requires Four(f, p) == Four(f, q) && NoRepeat(f, p) && NoCollision(f, h, p) && Indexed(f, h, table, p)
    ensures table[h(Four(f, p))] == q
  {
  }

  lemma {:induction false} ScanFindsRepeat(f: seq<byte>, h: Hash, table: seq<u16>, ip: nat, p: nat, q: nat)
    requires BlockOk(f) && HashInto(h, |table|) && TableBelow(table, ip)
    requires 1 <= ip <= p <= 32 && q < p && p + 1 + INPUT_MARGIN <= |f|
    requires Four(f, p) == Four(f, q) && NoRepeat(f, p) && NoCollision(f, h, p) && Indexed(f, h, table, ip)
    ensures var es := Scan(f, h, table, ip, 31 + ip, 0);
            |es| >= 2 && es[0] == Literal(f[0..p]) && es[1].Copy? && es[1].offset == p - q
    decreases p - ip
  {
    hide Scan, Copies, Indexed, NoRepeat, NoCollision;
    var hval := h(Four(f, ip));
    var candidate, updated := table[hval], table[hval := ip];
    SearchOnce(f, h, table, ip, 31 + ip, updated);
    if ip < p {
      NewWord(f, h, table, ip, p);
      ScanFindsRepeat(f, h, updated, ip + 1, p, q);
    } else {
      OldWord(f, h, table, p, q);
      CopiesStart(f, h, updated, ip, candidate);
    }
  }

  /** One turn of the scan that moves on by one byte. */
  lemma {:induction false} SearchOnce(f: seq<byte>, h: Hash, table: seq<u16>, ip: nat, skip: nat, updated: seq<u16>)
    requires BlockOk(f) && HashInto(h, |table|) && TableBelow(table, ip)
    requires 1 <= ip && ip + 1 + INPUT_MARGIN <= |f| && skip >= 32 && skip / 32 == 1
    requires updated == table[h(Four(f, ip)) := ip]
    ensures var candidate := table[h(Four(f, ip))];
            Scan(f, h, table, ip, skip, 0)
            == if Four(f, ip) != Four(f, candidate) then Scan(f, h, updated, ip + 1, skip + 1, 0)
               else [Literal(f[0..ip])] + Copies(f, h, updated, ip, candidate)
  {
    hide Copies, Remainder, Four;
  }

  /**
   * With a hash that tells the words up to there apart, the first repetition of four bytes among the
   * first 33 positions ends the first literal and is taken as a copy, as long as possible.
   */
  lemma {:induction false} FirstRepeatTaken(f: seq<byte>, h: Hash, tableSize: nat, p: nat, q: nat)
    requires |f| <= BLOCK_SIZE && HashInto(h, tableSize)
    requires q < p <= 32 && p + 1 + INPUT_MARGIN <= |f|
    requires Four(f, p) == Four(f, q) && NoRepeat(f, p) && NoCollision(f, h, p)
    ensures var es := Elements(f, h, tableSize);
            && |es| >= 2 && es[0] == Literal(f[..p])
            && es[1].Copy? && es[1].offset == p - q && LongestAt(f, p, p - q, es[1].len)
  {
    ScanFindsRepeat(f, h, seq(tableSize, _ => 0), 1, p, q);
    hide Scan, StopsAtRun, AtProbe;
    var es := Elements(f, h, tableSize);
    assert f[0..p] == f[..p];
    ElementsCover(f, h, tableSize);
    assert es[1..][0] == es[1];
  }
}
