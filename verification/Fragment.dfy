/**
 * What one block compresses to: the greedy match search of compress_fragment as pure functions,
 * without cached hashes, wide loads or output buffers, for an arbitrary hash function.
 */
module Fragment {
  import opened Bytes
  import opened Format
  import opened Encoder
  import opened Match

  type u16 = x: int | 0 <= x < 65536

  /** Largest block, and the bytes at its end where no match is searched for. */
  const BLOCK_SIZE := 65536
  const INPUT_MARGIN := 15

  /** A hash of the four bytes at a position. */
  type Hash = seq<byte> -> nat

  ghost predicate HashInto(h: Hash, size: nat) {
    forall x: seq<byte> :: h(x) < size
  }

  /** Every table entry is a position strictly before ip. */
  predicate TableBelow(table: seq<u16>, ip: nat) {
    forall i :: 0 <= i < |table| ==> table[i] < ip
  }

  /** The four bytes at a position. */
  function Four(f: seq<byte>, p: nat): seq<byte>
    requires p + 4 <= |f|
  {
    f[p..p + 4]
  }

  predicate BlockOk(f: seq<byte>) {
    INPUT_MARGIN <= |f| <= BLOCK_SIZE
  }

  /** The bytes after the last copy become one literal. */
  function Remainder(f: seq<byte>, nextEmit: nat): seq<Element>
    requires nextEmit <= |f| <= BLOCK_SIZE
  {
    if nextEmit < |f| then [Literal(f[nextEmit..])] else []
  }

  /** Step 1: look for a four-byte match, moving ahead skip / 32 bytes at a time. */
  function Scan(f: seq<byte>, h: Hash, table: seq<u16>, ip: nat, skip: nat, nextEmit: nat)
    : seq<Element>
    requires BlockOk(f) && HashInto(h, |table|) && TableBelow(table, ip)
    requires nextEmit < ip && ip + 4 <= |f| && skip >= 32
    decreases |f| - ip, 1
  {
    var next := ip + skip / 32;
    if next + INPUT_MARGIN > |f| then Remainder(f, nextEmit)
    else
      var hval := h(Four(f, ip));
      var candidate := table[hval];
      var updated := table[hval := ip];
      if Four(f, ip) != Four(f, candidate) then Scan(f, h, updated, next, skip + 1, nextEmit)
      else [Literal(f[nextEmit..ip])] + Copies(f, h, updated, ip, candidate)
  }

  /** Step 3: extend the match, emit it, and look for another one right behind it. */
  function Copies(f: seq<byte>, h: Hash, table: seq<u16>, ip: nat, candidate: nat)
    : seq<Element>
    requires BlockOk(f) && HashInto(h, |table|) && TableBelow(table, ip + 1)
    requires candidate < ip && ip + INPUT_MARGIN <= |f|
    decreases |f| - ip, 0
  {
    MatchLengthIsLongest(f, candidate + 4, ip + 4, |f|);
    var matched := 4 + MatchLength(f, candidate + 4, ip + 4, |f|);
    var end := ip + matched;
    [Copy(ip - candidate, matched)] + AfterCopy(f, h, table, end)
  }

  /** The table is told about end - 1 and end; the old entry for end is the next candidate. */
  function AfterCopy(f: seq<byte>, h: Hash, table: seq<u16>, end: nat): seq<Element>
    requires BlockOk(f) && HashInto(h, |table|) && end > 0 && TableBelow(table, end - 1)
    requires end <= |f|
    decreases |f| - end, 2
  {
    if end + INPUT_MARGIN >= |f| then Remainder(f, end)
    else
      var told := table[h(Four(f, end - 1)) := end - 1];
      var hval := h(Four(f, end));
      var candidate := told[hval];
      var updated := told[hval := end];
      if Four(f, end) == Four(f, candidate) then Copies(f, h, updated, end, candidate)
      else Scan(f, h, updated, end + 1, 32, end)
  }

  /** The elements of a whole block, starting from a zeroed table. */
  function Elements(f: seq<byte>, h: Hash, tableSize: nat): seq<Element>
    requires |f| <= BLOCK_SIZE && HashInto(h, tableSize)
  {
    if |f| < INPUT_MARGIN then Remainder(f, 0)
    else Scan(f, h, seq(tableSize, _ => 0), 1, 32, 0)
  }

  // ---------- the elements mean the block ----------

  /** Copying matching bytes from inside the block continues the block. */
  lemma {:induction false} CopyContinues(prefix: seq<byte>, f: seq<byte>, candidate: nat, ip: nat, len: nat)
    requires candidate < ip && ip + len <= |f|
    requires f[candidate..candidate + len] == f[ip..ip + len]
    ensures CopyOut(prefix + f[..ip], ip - candidate, len) == prefix + f[..ip + len]
    decreases len
  {
    if len > 0 {
      var out := prefix + f[..ip];
      assert out[|out| - (ip - candidate)] == f[candidate];
      assert f[candidate..candidate + len][0] == f[ip..ip + len][0];
      assert out + [f[ip]] == prefix + f[..ip + 1];
      assert f[candidate + 1..candidate + len] == f[candidate..candidate + len][1..];
      assert f[ip + 1..ip + len] == f[ip..ip + len][1..];
      assert candidate + 1 + (len - 1) == candidate + len;
      CopyContinues(prefix, f, candidate + 1, ip + 1, len - 1);
    }
  }

  lemma JoinMatches(f: seq<byte>, p: nat, q: nat, a: nat, b: nat)
    requires p < q && q + a + b <= |f|
    requires f[p..p + a] == f[q..q + a] && f[p + a..p + a + b] == f[q + a..q + a + b]
    ensures f[p..p + (a + b)] == f[q..q + (a + b)]
  {
    assert f[p..p + (a + b)] == f[p..p + a] + f[p + a..p + a + b];
    assert f[q..q + (a + b)] == f[q..q + a] + f[q + a..q + a + b];
  }

  lemma RemainderApplies(prefix: seq<byte>, f: seq<byte>, nextEmit: nat)
    requires nextEmit <= |f| <= BLOCK_SIZE
    ensures ApplyAll(prefix + f[..nextEmit], Remainder(f, nextEmit)) == Some(prefix + f)
  {
    if nextEmit < |f| {
      var r := Remainder(f, nextEmit);
      assert prefix + f[..nextEmit] + f[nextEmit..] == prefix + f;
      assert r[1..] == [];
    } else {
      assert f[..nextEmit] == f;
    }
  }

  lemma ApplyFirst(out: seq<byte>, e: Element, rest: seq<Element>)
    requires Apply(out, e).Some?
    ensures ApplyAll(out, [e] + rest) == ApplyAll(Apply(out, e).value, rest)
  {
    assert ([e] + rest)[1..] == rest;
  }

  lemma LiteralStep(prefix: seq<byte>, f: seq<byte>, nextEmit: nat, ip: nat, rest: seq<Element>)
    requires nextEmit <= ip <= |f|
    requires ApplyAll(prefix + f[..ip], rest) == Some(prefix + f)
    ensures ApplyAll(prefix + f[..nextEmit], [Literal(f[nextEmit..ip])] + rest) == Some(prefix + f)
  {
    var out := prefix + f[..nextEmit];
    assert out + f[nextEmit..ip] == prefix + f[..ip];
    ApplyFirst(out, Literal(f[nextEmit..ip]), rest);
  }

  lemma CopyStep(prefix: seq<byte>, f: seq<byte>, ip: nat, candidate: nat, more: nat, rest: seq<Element>)
    requires candidate < ip && ip + 4 + more <= |f|
    requires f[ip..ip + 4] == f[candidate..candidate + 4]
    requires f[ip + 4..ip + 4 + more] == f[candidate + 4..candidate + 4 + more]
    requires ApplyAll(prefix + f[..ip + 4 + more], rest) == Some(prefix + f)
    ensures ApplyAll(prefix + f[..ip], [Copy(ip - candidate, 4 + more)] + rest) == Some(prefix + f)
  {
    JoinMatches(f, candidate, ip, 4, more);
    CopyContinues(prefix, f, candidate, ip, 4 + more);
    ApplyFirst(prefix + f[..ip], Copy(ip - candidate, 4 + more), rest);
  }

  lemma {:induction false} ScanApplies(prefix: seq<byte>, f: seq<byte>, h: Hash, table: seq<u16>,
                                       ip: nat, skip: nat, nextEmit: nat)
    requires BlockOk(f) && HashInto(h, |table|) && TableBelow(table, ip)
    requires nextEmit < ip && ip + 4 <= |f| && skip >= 32
    ensures ApplyAll(prefix + f[..nextEmit], Scan(f, h, table, ip, skip, nextEmit)) == Some(prefix + f)
    decreases |f| - ip, 1
  {
    hide Copies, AfterCopy, ApplyAll, Remainder;
    var next := ip + skip / 32;
    if next + INPUT_MARGIN > |f| {
      RemainderApplies(prefix, f, nextEmit);
    } else {
      var hval := h(Four(f, ip));
      var candidate, updated := table[hval], table[hval := ip];
      if Four(f, ip) != Four(f, candidate) {
        ScanApplies(prefix, f, h, updated, next, skip + 1, nextEmit);
      } else {
        CopiesApply(prefix, f, h, updated, ip, candidate);
        LiteralStep(prefix, f, nextEmit, ip, Copies(f, h, updated, ip, candidate));
      }
    }
  }

  lemma {:induction false} CopiesApply(prefix: seq<byte>, f: seq<byte>, h: Hash, table: seq<u16>,
                                       ip: nat, candidate: nat)
    requires BlockOk(f) && HashInto(h, |table|) && TableBelow(table, ip + 1)
    requires candidate < ip && ip + INPUT_MARGIN <= |f|
    requires f[ip..ip + 4] == f[candidate..candidate + 4]
    ensures ApplyAll(prefix + f[..ip], Copies(f, h, table, ip, candidate)) == Some(prefix + f)
    decreases |f| - ip, 0
  {
    hide Scan, AfterCopy, ApplyAll, CommonPrefix;
    var more := MatchLength(f, candidate + 4, ip + 4, |f|);
    assert more <= |f| - ip - 4 && f[candidate + 4..candidate + 4 + more] == f[ip + 4..ip + 4 + more] by {
      MatchLengthIsLongest(f, candidate + 4, ip + 4, |f|);
    }
    AfterCopyApplies(prefix, f, h, table, ip + 4 + more);
    CopyStep(prefix, f, ip, candidate, more, AfterCopy(f, h, table, ip + 4 + more));
  }

  lemma {:induction false} AfterCopyApplies(prefix: seq<byte>, f: seq<byte>, h: Hash, table: seq<u16>,
                                            end: nat)
    requires BlockOk(f) && HashInto(h, |table|) && end > 0 && TableBelow(table, end - 1)
    requires end <= |f|
    ensures ApplyAll(prefix + f[..end], AfterCopy(f, h, table, end)) == Some(prefix + f)
    decreases |f| - end, 2
  {
    hide Copies, Scan, ApplyAll, Remainder;
    if end + INPUT_MARGIN >= |f| {
      RemainderApplies(prefix, f, end);
    } else {
      var told := table[h(Four(f, end - 1)) := end - 1];
      var hval := h(Four(f, end));
      var candidate, updated := told[hval], told[hval := end];
      if Four(f, end) == Four(f, candidate) {
        CopiesApply(prefix, f, h, updated, end, candidate);
      } else {
        ScanApplies(prefix, f, h, updated, end + 1, 32, end);
      }
    }
  }

  /**
   * Hash independence: whatever the hash function and whatever output came before, the elements of
   * a block append exactly the block. In particular no copy reaches before the start of the block.
   */
  lemma ElementsMeanBlock(prefix: seq<byte>, f: seq<byte>, h: Hash, tableSize: nat)
    requires |f| <= BLOCK_SIZE && HashInto(h, tableSize)
    ensures ApplyAll(prefix, Elements(f, h, tableSize)) == Some(prefix + f)
  {
    assert prefix + f[..0] == prefix;
    if |f| < INPUT_MARGIN {
      RemainderApplies(prefix, f, 0);
    } else {
      ScanApplies(prefix, f, h, seq(tableSize, _ => 0), 1, 32, 0);
    }
  }

  // ---------- the elements are encodable and small ----------

  /** Both halves of what the encoder needs: legal elements, and a cost that stays within a bound. */
  ghost predicate Fits(es: seq<Element>, bound: int) {
    AllEncodable(es) && 60 * TotalCost(es) <= bound
  }

  lemma FitsWithin(es: seq<Element>, a: int, b: int)
    requires Fits(es, a) && a <= b
    ensures Fits(es, b)
  {
  }

  lemma RemainderFits(f: seq<byte>, nextEmit: nat)
    requires nextEmit <= |f| <= BLOCK_SIZE
    ensures Fits(Remainder(f, nextEmit), 61 * (|f| - nextEmit) + 60)
  {
    if nextEmit < |f| { assert Remainder(f, nextEmit)[1..] == []; }
  }

  /** A literal may cost a byte too many, but the copy behind it gives that byte back. */
  lemma LiteralThen(data: seq<byte>, rest: seq<Element>, covered: nat)
    requires 1 <= |data| <= BLOCK_SIZE && Fits(rest, 61 * covered)
    ensures Fits([Literal(data)] + rest, 61 * (|data| + covered) + 60)
  {
    assert ([Literal(data)] + rest)[1..] == rest;
  }

  lemma CopyThen(offset: nat, len: nat, rest: seq<Element>, covered: nat)
    requires 1 <= offset < 65536 && len >= 4 && Fits(rest, 61 * covered + 60)
    ensures Fits([Copy(offset, len)] + rest, 61 * (len + covered))
  {
    assert ([Copy(offset, len)] + rest)[1..] == rest;
  }

  lemma {:induction false} ScanFits(f: seq<byte>, h: Hash, table: seq<u16>, ip: nat, skip: nat, nextEmit: nat)
    requires BlockOk(f) && HashInto(h, |table|) && TableBelow(table, ip)
    requires nextEmit < ip && ip + 4 <= |f| && skip >= 32
    ensures Fits(Scan(f, h, table, ip, skip, nextEmit), 61 * (|f| - nextEmit) + 60)
    decreases |f| - ip, 1
  {
    hide Copies, AfterCopy, Fits, Remainder;
    var next := ip + skip / 32;
    if next + INPUT_MARGIN > |f| {
      RemainderFits(f, nextEmit);
    } else {
      var hval := h(Four(f, ip));
      var candidate, updated := table[hval], table[hval := ip];
      if Four(f, ip) != Four(f, candidate) {
        ScanFits(f, h, updated, next, skip + 1, nextEmit);
      } else {
        CopiesFit(f, h, updated, ip, candidate);
        LiteralThen(f[nextEmit..ip], Copies(f, h, updated, ip, candidate), |f| - ip);
      }
    }
  }

  lemma {:induction false} CopiesFit(f: seq<byte>, h: Hash, table: seq<u16>, ip: nat, candidate: nat)
    requires BlockOk(f) && HashInto(h, |table|) && TableBelow(table, ip + 1)
    requires candidate < ip && ip + INPUT_MARGIN <= |f|
    ensures Fits(Copies(f, h, table, ip, candidate), 61 * (|f| - ip))
    decreases |f| - ip, 0
  {
    hide Scan, AfterCopy, Fits, CommonPrefix;
    MatchLengthIsLongest(f, candidate + 4, ip + 4, |f|);
    var matched := 4 + MatchLength(f, candidate + 4, ip + 4, |f|);
    var end := ip + matched;
    AfterCopyFits(f, h, table, end);
    CopyThen(ip - candidate, matched, AfterCopy(f, h, table, end), |f| - end);
  }

  lemma {:induction false} AfterCopyFits(f: seq<byte>, h: Hash, table: seq<u16>, end: nat)
    requires BlockOk(f) && HashInto(h, |table|) && end > 0 && TableBelow(table, end - 1)
    requires end <= |f|
    ensures Fits(AfterCopy(f, h, table, end), 61 * (|f| - end) + 60)
    decreases |f| - end, 2
  {
    hide Copies, Scan, Fits, Remainder;
    if end + INPUT_MARGIN >= |f| {
      RemainderFits(f, end);
    } else {
      var told := table[h(Four(f, end - 1)) := end - 1];
      var hval := h(Four(f, end));
      var candidate, updated := told[hval], told[hval := end];
      if Four(f, end) == Four(f, candidate) {
        CopiesFit(f, h, updated, end, candidate);
        FitsWithin(Copies(f, h, updated, end, candidate), 61 * (|f| - end), 61 * (|f| - end) + 60);
      } else {
        ScanFits(f, h, updated, end + 1, 32, end);
      }
    }
  }

  /** A block grows by at most one sixtieth, plus one byte for its last literal. */
  lemma ElementsSize(f: seq<byte>, h: Hash, tableSize: nat)
    requires |f| <= BLOCK_SIZE && HashInto(h, tableSize)
    ensures AllEncodable(Elements(f, h, tableSize))
    ensures 60 * |EncodeAll(Elements(f, h, tableSize))| <= 61 * |f| + 60
  {
    if |f| < INPUT_MARGIN {
      RemainderFits(f, 0);
    } else {
      ScanFits(f, h, seq(tableSize, _ => 0), 1, 32, 0);
    }
    EncodeAllSize(Elements(f, h, tableSize));
  }
}
