/** compress_fragment as it runs: hash table in place, cached hashes, wide loads, output in place. */
module FragmentCompressor {
  import opened Bytes
  import opened Bits
  import opened Format
  import opened Encoder
  import opened Match
  import opened Fragment
  import opened Emit

  /** Multiplicative hash of a 32-bit word, keeping the top bits. */
  function HashBytes(bytes: nat, shift: nat): nat {
    Shr(bytes * 0x1e35a7bd % U32, shift)
  }

  /** A legal table size: a power of two between 2 and 2^31. */
  predicate TableSize(n: nat) {
    n > 0 && 1 <= Log2Floor(n) <= 31 && n == Pow2(Log2Floor(n))
  }

  function Shift(tableSize: nat): nat
    requires TableSize(tableSize)
  {
    32 - Log2Floor(tableSize)
  }

  /** The hash of four bytes for a given table size. */
  function HashFor(tableSize: nat): Hash
    requires TableSize(tableSize)
  {
    var shift := Shift(tableSize);
    (s: seq<byte>) => HashBytes(LE(s), shift)
  }

  /** The largest 32-bit word shifted right is the largest table index. */
  lemma ShiftFits(tableSize: nat)
    requires TableSize(tableSize)
    ensures Shr(U32 - 1, Shift(tableSize)) == tableSize - 1
  {
    Pow2Of32();
    ShrOnes(Shift(tableSize), Log2Floor(tableSize));
  }

  /** Every hash value is an index of the table. */
  lemma HashInRange(tableSize: nat)
    requires TableSize(tableSize)
    ensures HashInto(HashFor(tableSize), tableSize)
  {
    ShiftFits(tableSize);
    forall s: seq<byte> ensures HashFor(tableSize)(s) < tableSize {
      ShrMonotone(LE(s) * 0x1e35a7bd % U32, U32 - 1, Shift(tableSize));
    }
  }

  /** The two checks made on entry to compress_fragment. */
  lemma TableChecks(tableSize: nat)
    requires TableSize(tableSize)
    ensures And(tableSize, tableSize - 1) == 0
    ensures Shr(U32 - 1, Shift(tableSize)) == tableSize - 1
    ensures HashInto(HashFor(tableSize), tableSize)
  {
    PowerOfTwoCheck(Log2Floor(tableSize));
    ShiftFits(tableSize);
    HashInRange(tableSize);
  }

  /** get_u32_at_offset: a 32-bit word out of an eight-byte load. */
  function U32AtOffset(v: nat, offset: nat): nat
    requires offset <= 4
  {
    v / Pow256(offset) % U32
  }

  lemma LoadAtOffset(f: seq<byte>, p: nat, offset: nat)
    requires p + 8 <= |f| && offset <= 4
    ensures U32AtOffset(LE(f[p..p + 8]), offset) == Load32(f, p + offset)
  {
    var w := f[p..p + 8];
    LEDivMod(w, offset);
    assert Pow256(2) == 65536;
    assert Pow256(4) == U32;
    LEDivMod(w[offset..], 4);
    assert w[offset..][..4] == f[p + offset..p + offset + 4];
  }

  lemma SameLoads(f: seq<byte>, p: nat, q: nat)
    requires p + 4 <= |f| && q + 4 <= |f|
    ensures Load32(f, p) == Load32(f, q) <==> Four(f, p) == Four(f, q)
  {
    if Load32(f, p) == Load32(f, q) { LEInjective(f[p..p + 4], f[q..q + 4]); }
  }

  /** The table in use and where the search stands in the block. */
  ghost predicate Searching(f: seq<byte>, table: seq<u16>, tableSize: nat, ip: nat) {
    && BlockOk(f) && TableSize(tableSize) && |table| == tableSize
    && HashInto(HashFor(tableSize), tableSize) && TableBelow(table, ip)
  }

  /** One turn of the scan: the margin, a match, or the next position. */
  lemma ScanTurn(f: seq<byte>, tableSize: nat, table: seq<u16>, ip: nat, skip: nat, nextEmit: nat)
    requires Searching(f, table, tableSize, ip) && nextEmit < ip && ip + 4 <= |f| && skip >= 32
    ensures var h := HashFor(tableSize);
            var next, hval := ip + skip / 32, h(Four(f, ip));
            && hval < tableSize && table[hval] < ip
            && Scan(f, h, table, ip, skip, nextEmit)
               == if next + INPUT_MARGIN > |f| then Remainder(f, nextEmit)
                  else if Four(f, ip) != Four(f, table[hval]) then
                    Scan(f, h, table[hval := ip], next, skip + 1, nextEmit)
                  else [Literal(f[nextEmit..ip])] + Copies(f, h, table[hval := ip], ip, table[hval])
  {
    hide Copies, HashFor, TableSize, Remainder;
  }

  /**
   * Step 1. Scans until a four-byte match turns up or the margin is reached, and leaves exactly the
   * table that the specification function has at that point.
   */
  method FindCandidate(f: seq<byte>, table: array<u16>, tableSize: nat, start: nat, startHash: nat,
                       ghost nextEmit: nat)
    returns (found: bool, ip: nat, candidate: nat)
    requires tableSize <= table.Length && Searching(f, table[..tableSize], tableSize, start)
    requires nextEmit < start && start + 4 <= |f|
    requires startHash == HashFor(tableSize)(Four(f, start))
    modifies table
    ensures found ==>
              && start <= ip && ip + INPUT_MARGIN <= |f| && candidate < ip
              && Searching(f, table[..tableSize], tableSize, ip + 1)
              && Four(f, ip) == Four(f, candidate)
    ensures Scan(f, HashFor(tableSize), old(table[..tableSize]), start, 32, nextEmit)
         == if found then [Literal(f[nextEmit..ip])] + Copies(f, HashFor(tableSize), table[..tableSize], ip, candidate)
            else Remainder(f, nextEmit)
  {
    hide Scan, Copies, Remainder, HashFor, HashBytes, Load32, TableSize;
    var ipLimit := |f| - INPUT_MARGIN;
    var shift := Shift(tableSize);
    ghost var h := HashFor(tableSize);
    var skip := 32;
    var nextHash: nat := startHash;
    var nextIp: nat := start;
    ghost var all := Scan(f, h, table[..tableSize], start, 32, nextEmit);
    candidate := 0;
    while true
      invariant start <= nextIp && nextIp + 4 <= |f| && 32 <= skip <= 32 + nextIp
      invariant Searching(f, table[..tableSize], tableSize, nextIp)
      invariant nextHash == h(Four(f, nextIp))
      invariant Scan(f, h, table[..tableSize], nextIp, skip, nextEmit) == all
      decreases |f| - nextIp
    {
      ip := nextIp;
      var hval := nextHash;
      HashIsLoad(f, tableSize, ip);
      assert hval == HashBytes(Load32(f, ip), shift);
      ghost var before: seq<u16> := table[..tableSize];
      ScanTurn(f, tableSize, before, ip, skip, nextEmit);
      nextIp := ip + skip / 32;
      skip := skip + 1;
      if nextIp > ipLimit {
        return false, ip, candidate;
      }
      nextHash := HashBytes(Load32(f, nextIp), shift);
      HashIsLoad(f, tableSize, nextIp);
      candidate := table[hval];
      assert candidate == before[hval] && candidate < ip;
      table[hval] := ip;
      assert table[..tableSize] == before[hval := ip];
      SameLoads(f, ip, candidate);
      if Load32(f, ip) == Load32(f, candidate) {
        return true, ip, candidate;
      }
    }
  }

  /**
   * Second half of step 3. One eight-byte load serves three hashes; positions ip - 1 and ip enter
   * the table, and the entry that ip replaces is the next candidate.
   */
  method AdvanceTable(f: seq<byte>, table: array<u16>, tableSize: nat, ip: nat)
    returns (again: bool, candidate: nat, nextHash: nat)
    requires ip > 0 && ip + INPUT_MARGIN < |f|
    requires tableSize <= table.Length && Searching(f, table[..tableSize], tableSize, ip - 1)
    modifies table
    ensures Searching(f, table[..tableSize], tableSize, ip + 1) && candidate < ip
    ensures again <==> Four(f, ip) == Four(f, candidate)
    ensures nextHash == HashFor(tableSize)(Four(f, ip + 1))
    ensures AfterCopy(f, HashFor(tableSize), old(table[..tableSize]), ip)
         == if again then Copies(f, HashFor(tableSize), table[..tableSize], ip, candidate)
            else Scan(f, HashFor(tableSize), table[..tableSize], ip + 1, 32, ip)
  {
    hide Copies, Scan, HashFor, HashBytes, Load32, LE, U32AtOffset, TableSize;
    var shift := Shift(tableSize);
    ghost var before: seq<u16> := table[..tableSize];
    var insertTail := ip - 1;
    var inputBytes := LE(f[insertTail..insertTail + 8]);
    LoadAtOffset(f, insertTail, 0);
    LoadAtOffset(f, insertTail, 1);
    LoadAtOffset(f, insertTail, 2);
    HashIsLoad(f, tableSize, ip - 1);
    HashIsLoad(f, tableSize, ip);
    HashIsLoad(f, tableSize, ip + 1);
    ghost var h := HashFor(tableSize);
    var prevHash := HashBytes(U32AtOffset(inputBytes, 0), shift);
    assert prevHash == h(Four(f, ip - 1));
    table[prevHash] := ip - 1;
    ghost var told: seq<u16> := before[prevHash := ip - 1];
    assert table[..tableSize] == told;
    var curHash := HashBytes(U32AtOffset(inputBytes, 1), shift);
    assert curHash == h(Four(f, ip));
    candidate := table[curHash];
    assert candidate == told[curHash] && candidate < ip;
    var candidateBytes := Load32(f, candidate);
    table[curHash] := ip;
    assert table[..tableSize] == told[curHash := ip];
    SameLoads(f, ip, candidate);
    again := U32AtOffset(inputBytes, 1) == candidateBytes;
    nextHash := HashBytes(U32AtOffset(inputBytes, 2), shift);
  }

  /** Room that one block may need: its bytes, a sixtieth, and the overrun of the last fast path. */
  function Space(n: nat): nat {
    n + n / 60 + 18
  }

  /** The elements emitted so far stand in the buffer and cost at most slack over 61/60 of the input. */
  ghost predicate Emitted(buf: seq<byte>, op0: nat, op: nat, es: seq<Element>, covered: nat, slack: nat) {
    && Holds(buf, op0, EncodeAll(es)) && op == op0 + |EncodeAll(es)|
    && 60 * (op - op0) <= 61 * covered + slack
  }

  lemma EmittedNext(before: seq<byte>, after: seq<byte>, op0: nat, op: nat, es: seq<Element>, e: Element, hi: nat)
    requires Holds(before, op0, EncodeAll(es)) && op == op0 + |EncodeAll(es)|
    requires SameOutside(before, after, op, hi) && Holds(after, op, Encode(e))
    ensures Holds(after, op0, EncodeAll(es + [e]))
    ensures |EncodeAll(es + [e])| == |EncodeAll(es)| + |Encode(e)|
  {
    HoldsKept(before, after, op0, EncodeAll(es), op, hi);
    HoldsConcat(after, op0, EncodeAll(es), Encode(e));
    EncodeAllAppend(es, [e]);
    assert EncodeAll([e]) == Encode(e) by { assert [e][1..] == []; }
  }

  lemma EmittedNothing(buf: seq<byte>, op0: nat)
    requires op0 <= |buf|
    ensures Emitted(buf, op0, op0, [], 0, 0)
  {
  }

  lemma HashIsLoad(f: seq<byte>, tableSize: nat, p: nat)
    requires TableSize(tableSize) && p + 4 <= |f|
    ensures HashBytes(Load32(f, p), Shift(tableSize)) == HashFor(tableSize)(Four(f, p))
  {
  }

  /** Emits one copy behind the elements already there. */
  method PutCopy(dst: array<byte>, op0: nat, op: nat, offset: nat, len: nat, ghost es: seq<Element>,
                 ghost covered: nat, ghost total: nat)
    returns (end: nat)
    requires 1 <= offset < 65536 && len >= 4 && covered + len <= total
    requires Emitted(dst[..], op0, op, es, covered, 60) && op0 + Space(total) <= dst.Length
    modifies dst
    ensures Emitted(dst[..], op0, end, es + [Copy(offset, len)], covered + len, 0)
    ensures SameOutside(old(dst[..]), dst[..], op0, op0 + Space(total))
  {
    CopySize(offset, len);
    end := EmitCopy(dst, op, offset, len);
    EmittedNext(old(dst[..]), dst[..], op0, op, es, Copy(offset, len), end);
  }

  /** Emits one literal behind the elements already there. */
  method PutLiteral(dst: array<byte>, op0: nat, op: nat, f: seq<byte>, lit: nat, len: nat, fast: bool,
                    ghost es: seq<Element>)
    returns (end: nat)
    requires 1 <= len && lit + len <= |f| <= BLOCK_SIZE
    requires fast ==> lit + 16 <= |f|
    requires Emitted(dst[..], op0, op, es, lit, 0) && op0 + Space(|f|) <= dst.Length
    modifies dst
    ensures Emitted(dst[..], op0, end, es + [Literal(f[lit..lit + len])], lit + len, 60)
    ensures SameOutside(old(dst[..]), dst[..], op0, op0 + Space(|f|))
  {
    ghost var e := Literal(f[lit..lit + len]);
    ElementSize(e);
    end := EmitLiteral(dst, op, f, lit, len, fast);
    EmittedNext(old(dst[..]), dst[..], op0, op, es, e, op0 + Space(|f|));
  }

  /** First half of step 3: measure the match at ip, emit it as one copy and move behind it. */
  method TakeMatch(f: seq<byte>, ghost table: seq<u16>, tableSize: nat, dst: array<byte>, op0: nat, op: nat,
                   ip: nat, candidate: nat, ghost es: seq<Element>)
    returns (next: nat, end: nat, ghost more: seq<Element>)
    requires Searching(f, table, tableSize, ip + 1)
    requires candidate < ip && ip + INPUT_MARGIN <= |f| && Four(f, ip) == Four(f, candidate)
    requires Emitted(dst[..], op0, op, es, ip, 60) && op0 + Space(|f|) <= dst.Length
    modifies dst
    ensures ip + 4 <= next <= |f| && Searching(f, table, tableSize, next - 1)
    ensures es + Copies(f, HashFor(tableSize), table, ip, candidate)
         == more + AfterCopy(f, HashFor(tableSize), table, next)
    ensures Emitted(dst[..], op0, end, more, next, 0)
    ensures SameOutside(old(dst[..]), dst[..], op0, op0 + Space(|f|))
  {
    hide Scan, AfterCopy, EncodeAll, Encode, CommonPrefix, MatchLength, HashFor, Holds, SameOutside, TableSize;
    var extra := FindMatchLength64(f, candidate + 4, ip + 4, |f|);
    var matched := 4 + extra;
    assert extra <= |f| - ip - 4 && f[ip..ip + matched] == f[candidate..candidate + matched] by {
      MatchLengthIsLongest(f, candidate + 4, ip + 4, |f|);
      JoinMatches(f, candidate, ip, 4, extra);
    }
    next := ip + matched;
    var offset := ip - candidate;
    end := PutCopy(dst, op0, op, offset, matched, es, ip, |f|);
    more := es + [Copy(offset, matched)];
    ConcatElement(es, Copy(offset, matched), AfterCopy(f, HashFor(tableSize), table, next));
  }

  /** How the search goes on after step 3: with another scan, or with the closing literal. */
  ghost function Continuation(f: seq<byte>, table: seq<u16>, tableSize: nat, more: bool, nextEmit: nat): seq<Element>
    requires nextEmit <= |f| <= BLOCK_SIZE
    requires more ==> nextEmit + 5 <= |f| && Searching(f, table, tableSize, nextEmit + 1)
  {
    if more then Scan(f, HashFor(tableSize), table, nextEmit + 1, 32, nextEmit) else Remainder(f, nextEmit)
  }

  /** Step 3. Emits copies for as long as each one is directly followed by another match. */
  method EmitMatches(f: seq<byte>, table: array<u16>, tableSize: nat, dst: array<byte>, op0: nat, opStart: nat,
                     start: nat, firstCandidate: nat, ghost before: seq<Element>)
    returns (more: bool, nextEmit: nat, op: nat, nextHash: nat, ghost es: seq<Element>)
    requires dst as object != table as object
    requires tableSize <= table.Length && Searching(f, table[..tableSize], tableSize, start + 1)
    requires firstCandidate < start && start + INPUT_MARGIN <= |f|
    requires Four(f, start) == Four(f, firstCandidate)
    requires Emitted(dst[..], op0, opStart, before, start, 60) && op0 + Space(|f|) <= dst.Length
    modifies dst, table
    ensures start < nextEmit <= |f|
    ensures more ==>
              && nextEmit + INPUT_MARGIN < |f|
              && Searching(f, table[..tableSize], tableSize, nextEmit + 1)
              && nextHash == HashFor(tableSize)(Four(f, nextEmit + 1))
    ensures before + Copies(f, HashFor(tableSize), old(table[..tableSize]), start, firstCandidate)
         == es + Continuation(f, table[..tableSize], tableSize, more, nextEmit)
    ensures Emitted(dst[..], op0, op, es, nextEmit, 0)
    ensures SameOutside(old(dst[..]), dst[..], op0, op0 + Space(|f|))
  {
    hide Scan, EncodeAll, Encode, Holds, Copies, HashFor, Remainder;
    var ipLimit := |f| - INPUT_MARGIN;
    var ip: nat, candidate: nat := start, firstCandidate;
    op, nextEmit, nextHash, es := opStart, start, 0, before;
    ghost var h := HashFor(tableSize);
    ghost var all := before + Copies(f, h, table[..tableSize], start, firstCandidate);
    while true
      invariant start <= ip && ip + INPUT_MARGIN <= |f| && candidate < ip
      invariant Searching(f, table[..tableSize], tableSize, ip + 1)
      invariant Four(f, ip) == Four(f, candidate)
      invariant Emitted(dst[..], op0, op, es, ip, 60)
      invariant es + Copies(f, h, table[..tableSize], ip, candidate) == all
      invariant SameOutside(old(dst[..]), dst[..], op0, op0 + Space(|f|))
      decreases |f| - ip
    {
      ip, op, es := TakeMatch(f, table[..tableSize], tableSize, dst, op0, op, ip, candidate, es);
      nextEmit := ip;
      if ip >= ipLimit {
        return false, nextEmit, op, nextHash, es;
      }
      var again: bool;
      again, candidate, nextHash := AdvanceTable(f, table, tableSize, ip);
      if !again {
        return true, nextEmit, op, nextHash, es;
      }
    }
  }

  lemma ConcatElement(es: seq<Element>, e: Element, rest: seq<Element>)
    ensures es + ([e] + rest) == es + [e] + rest
  {
  }

  /** The main loop: one literal, then copies, until the margin at the end of the block is reached. */
  method MainLoop(f: seq<byte>, dst: array<byte>, op0: nat, table: array<u16>, tableSize: nat)
    returns (nextEmit: nat, op: nat, ghost es: seq<Element>)
    requires dst as object != table as object
    requires tableSize <= table.Length && Searching(f, table[..tableSize], tableSize, 1)
    requires op0 + Space(|f|) <= dst.Length
    modifies dst, table
    ensures nextEmit <= |f|
    ensures Scan(f, HashFor(tableSize), old(table[..tableSize]), 1, 32, 0) == es + Remainder(f, nextEmit)
    ensures Emitted(dst[..], op0, op, es, nextEmit, 0)
    ensures SameOutside(old(dst[..]), dst[..], op0, op0 + Space(|f|))
  {
    hide Scan, EncodeAll, Encode, Holds, Copies, HashFor, Remainder, Load32, HashBytes;
    var ip: nat := 1;
    var nextHash: nat := HashBytes(Load32(f, ip), Shift(tableSize));
    HashIsLoad(f, tableSize, ip);
    EmittedNothing(dst[..], op0);
    ghost var h := HashFor(tableSize);
    ghost var all := Scan(f, h, table[..tableSize], 1, 32, 0);
    op, nextEmit, es := op0, 0, [];
    assert es + all == all;
    while true
      invariant nextEmit + 1 == ip && ip + 4 <= |f|
      invariant Searching(f, table[..tableSize], tableSize, ip)
      invariant nextHash == h(Four(f, ip))
      invariant Emitted(dst[..], op0, op, es, nextEmit, 0)
      invariant es + Scan(f, h, table[..tableSize], ip, 32, nextEmit) == all
      invariant SameOutside(old(dst[..]), dst[..], op0, op0 + Space(|f|))
      decreases |f| - ip
    {
      assert nextEmit < ip;
      var found, at, candidate := FindCandidate(f, table, tableSize, ip, nextHash, nextEmit);
      if !found {
        return;
      }
      assert nextEmit + 16 <= |f|;
      ghost var literal := Literal(f[nextEmit..at]);
      ConcatElement(es, literal, Copies(f, h, table[..tableSize], at, candidate));
      op := PutLiteral(dst, op0, op, f, nextEmit, at - nextEmit, true, es);
      var more: bool;
      more, nextEmit, op, nextHash, es :=
        EmitMatches(f, table, tableSize, dst, op0, op, at, candidate, es + [literal]);
      if !more {
        return;
      }
      ip := nextEmit + 1;
    }
  }

  /**
   * Compresses one block behind position op0 and returns the end of its output. The bytes are those
   * of the specification, and nothing outside the block's room is touched, not even in passing.
   */
  method CompressFragment(f: seq<byte>, dst: array<byte>, op0: nat, table: array<u16>, tableSize: nat)
    returns (op: nat)
    requires dst as object != table as object
    requires |f| <= BLOCK_SIZE && TableSize(tableSize) && tableSize <= table.Length
    requires forall i :: 0 <= i < tableSize ==> table[i] == 0
    requires op0 + Space(|f|) <= dst.Length
    modifies dst, table
    ensures HashInto(HashFor(tableSize), tableSize)
    ensures op == op0 + |EncodeAll(Elements(f, HashFor(tableSize), tableSize))| <= op0 + Space(|f|)
    ensures Holds(dst[..], op0, EncodeAll(Elements(f, HashFor(tableSize), tableSize)))
    ensures SameOutside(old(dst[..]), dst[..], op0, op0 + Space(|f|))
  {
    hide Scan, EncodeAll, Encode, Holds, HashFor, Pow2, Log2Floor, And;
    TableChecks(tableSize);
    assert And(tableSize, tableSize - 1) == 0;
    assert Shr(U32 - 1, Shift(tableSize)) == tableSize - 1;
    EmittedNothing(dst[..], op0);
    ghost var all := Elements(f, HashFor(tableSize), tableSize);
    ghost var es: seq<Element> := [];
    op := op0;
    var nextEmit: nat := 0;
    if |f| >= INPUT_MARGIN {
      assert table[..tableSize] == seq(tableSize, _ => 0);
      nextEmit, op, es := MainLoop(f, dst, op0, table, tableSize);
    }
    assert es + Remainder(f, nextEmit) == all;
    if nextEmit < |f| {
      op := PutLiteral(dst, op0, op, f, nextEmit, |f| - nextEmit, false, es);
      assert f[nextEmit..nextEmit + (|f| - nextEmit)] == f[nextEmit..];
    } else {
      assert all == es;
    }
  }
}
