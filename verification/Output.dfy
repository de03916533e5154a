/** The output side of the decompressor: a buffer with a write position and a hard limit. */
module Output {
  import opened Bytes
  import opened Format
  import opened Emit
  import opened OverlapCopy

  class Writer {
    const buf: array<byte>
    const base: nat
    var op: nat
    var opLimit: nat

    ghost predicate Valid()
      reads this
    {
      base <= op <= opLimit <= buf.Length && opLimit - base < U32
    }

    /** The output produced so far. */
    ghost function Contents(): seq<byte>
      requires Valid()
      reads this, buf
    {
      buf[base..op]
    }

    constructor (target: array<byte>, start: nat)
      requires start <= target.Length
      ensures Valid() && buf == target && base == start && op == start && opLimit == start
    {
      buf, base, op, opLimit := target, start, start, start;
    }

    method SetExpectedLength(len: nat)
      requires Valid() && op == base && base + len <= buf.Length && len < U32
      modifies this`opLimit
      ensures Valid() && opLimit == base + len
    {
      opLimit := op + len;
    }

    method CheckLength() returns (full: bool)
      requires Valid()
      ensures full <==> |Contents()| == opLimit - base
    {
      full := op == opLimit;
    }

    /** Appends len bytes of m starting at ip, or refuses if they do not fit. */
    method Append(m: seq<byte>, ip: nat, len: nat) returns (ok: bool)
      requires Valid() && ip + len <= |m|
      modifies this`op, buf
      ensures Valid()
      ensures ok <==> old(op) + len <= opLimit
      ensures op == old(op) + if ok then len else 0
      ensures Contents() == if ok then old(Contents()) + m[ip..ip + len] else old(Contents())
      ensures SameOutside(old(buf[..]), buf[..], base, opLimit)
    {
      var spaceLeft := opLimit - op;
      if spaceLeft < len {
        return false;
      }
      ghost var before := buf[base..op];
      CopyIn(buf, op, m, ip, len);
      assert buf[base..op] == before;
      op := op + len;
      assert buf[base..op] == before + m[ip..ip + len];
      return true;
    }

    /** Copies sixteen bytes at once when input and output both have sixteen to spare. */
    method TryFastAppend(m: seq<byte>, ip: nat, available: nat, len: nat) returns (ok: bool)
      requires Valid() && ip + available <= |m|
      modifies this`op, buf
      ensures Valid()
      ensures ok <==> len <= 16 <= available && 16 <= opLimit - old(op) < I32
      ensures ok ==> op == old(op) + len && Contents() == old(Contents()) + m[ip..ip + len]
      ensures !ok ==> op == old(op) && buf[..] == old(buf[..])
      ensures SameOutside(old(buf[..]), buf[..], base, opLimit)
    {
      var spaceLeft := ToInt32(opLimit - op);
      if len <= 16 && available >= 16 && spaceLeft >= 16 {
        ghost var before := buf[base..op];
        CopySixteen(buf, op, m, ip);
        assert buf[base..op] == before;
        assert buf[op..op + len] == m[ip..ip + 16][..len] == m[ip..ip + len];
        op := op + len;
        assert buf[base..op] == before + m[ip..ip + len];
        return true;
      }
      return false;
    }

    /** A repeating stretch behind the output is what the reference copy appends. */
    lemma RepeatsIsCopy(before: seq<byte>, offset: nat, len: nat)
      requires Valid() && op + len <= buf.Length && 1 <= offset <= op - base
      requires before == buf[base..op]
      requires Repeats(buf[..], op, op + len, offset)
      ensures buf[base..op + len] == CopyOut(before, offset, len)
    {
      var r := buf[base..op + len];
      assert before <= r;
      forall i | |before| <= i < |r| ensures r[i] == r[i - offset] {
        assert buf[..][base + i] == buf[..][base + i - offset];
      }
      CopyOutUnique(before, offset, len, r);
    }

    /**
     * A back reference through any of the three copy routines. It is refused exactly when the offset
     * is zero, reaches before the output, or the bytes do not fit.
     */
    method AppendFromSelf(offset: nat, len: nat) returns (ok: bool)
      requires Valid() && offset < U32 && 0 < len < U32 - 10
      modifies this`op, buf
      ensures Valid()
      ensures ok <==> 1 <= offset <= old(op) - base && old(op) + len <= opLimit
      ensures ok ==> Contents() == CopyOut(old(Contents()), offset, len)
      ensures !ok ==> op == old(op) && buf[..] == old(buf[..])
      ensures SameOutside(old(buf[..]), buf[..], base, opLimit)
    {
      var spaceLeft := opLimit - op;
      if op - base <= (offset - 1) % U32 {
        return false;
      }
      ghost var before := buf[base..op];
      if len <= 16 && offset >= 8 && spaceLeft >= 16 {
        CopyTwice(offset);
      } else if spaceLeft >= len + 10 {
        IncrementalCopyFastPath(buf, op - offset, op, len);
      } else {
        if spaceLeft < len {
          return false;
        }
        IncrementalCopy(buf, op - offset, op, len);
      }
      assert buf[base..op] == before;
      RepeatsIsCopy(before, offset, len);
      op := op + len;
      return true;
    }

    /** Two eight-byte copies; with a distance of eight or more neither reads what it writes. */
    method CopyTwice(offset: nat)
      requires Valid() && 8 <= offset <= op - base && op + 16 <= opLimit
      modifies buf
      ensures Repeats(buf[..], op, op + 16, offset)
      ensures SameOutside(old(buf[..]), buf[..], op, op + 16)
    {
      ghost var first := buf[..];
      Copy64(buf, op - offset, op);
      ExtendPattern(first, buf[..], op, offset, 1, op - offset, op, 8);
      ghost var second := buf[..];
      Copy64(buf, op - offset + 8, op + 8);
      ExtendPattern(second, buf[..], op, offset, 1, op - offset + 8, op + 8, 8);
    }
  }
}
