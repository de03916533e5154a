/** Overlapping copies inside one buffer: byte at a time, and eight bytes at a time. */
module OverlapCopy {
  import opened Bytes
  import opened Emit

  /** Every byte in [lo, hi) equals the byte d positions before it. */
  ghost predicate Repeats(buf: seq<byte>, lo: nat, hi: nat, d: nat) {
    d <= lo && hi <= |buf| && forall i :: lo <= i < hi ==> buf[i] == buf[i - d]
  }

  /** An eight-byte load followed by an eight-byte store. */
  method Copy64(buf: array<byte>, src: nat, op: nat)
    requires src + 8 <= buf.Length && op + 8 <= buf.Length
    modifies buf
    ensures Holds(buf[..], op, old(buf[src..src + 8]))
    ensures SameOutside(old(buf[..]), buf[..], op, op + 8)
  {
    forall i | 0 <= i < 8 {
      buf[op + i] := buf[src + i];
    }
  }

  /** One byte at a time, so that freshly written bytes are copied again. */
  method IncrementalCopy(buf: array<byte>, src: nat, op: nat, len: nat)
    requires src < op && len > 0 && op + len <= buf.Length
    modifies buf
    ensures Repeats(buf[..], op, op + len, op - src)
    ensures SameOutside(old(buf[..]), buf[..], op, op + len)
  {
    var n := 0;
    while n < len
      invariant 0 <= n <= len
      invariant forall i :: op <= i < op + n ==> buf[i] == buf[i - (op - src)]
      invariant SameOutside(old(buf[..]), buf[..], op, op + n)
    {
      buf[op + n] := buf[src + n];
      n := n + 1;
    }
  }

  /** The bytes before a copy determine it: any two copy routines leave the same bytes. */
  lemma {:induction false} RepeatsDetermines(a: seq<byte>, b: seq<byte>, op: nat, len: nat, d: nat)
    requires d > 0 && Repeats(a, op, op + len, d) && Repeats(b, op, op + len, d) && a[..op] == b[..op]
    ensures a[..op + len] == b[..op + len]
    decreases len
  {
    if len > 0 {
      RepeatsDetermines(a, b, op, len - 1, d);
      var i := op + len - 1;
      assert a[i - d] == a[..i][i - d] && b[i - d] == b[..i][i - d];
      assert a[..i + 1] == a[..i] + [a[i]] && b[..i + 1] == b[..i] + [b[i]];
    }
  }

  /** A pattern also repeats at every multiple of its distance. */
  lemma {:induction false} RepeatsFar(buf: seq<byte>, lo: nat, hi: nat, d: nat, j: nat, k: nat)
    requires Repeats(buf, lo, hi, d) && lo - d <= j && j + k * d < hi
    ensures buf[j] == buf[j + k * d]
    decreases k
  {
    if k > 0 {
      assert k * d == (k - 1) * d + d;
      assert (k - 1) * d >= 0;
      RepeatsFar(buf, lo, hi, d, j, k - 1);
    }
  }

  /** Copying eight bytes from k pattern lengths back extends the pattern by n of them. */
  lemma ExtendPattern(before: seq<byte>, after: seq<byte>, op: nat, d: nat, k: nat, src: nat, cur: nat, n: nat)
    requires 1 <= d <= op && k >= 1 && cur == src + k * d && op - d <= src && op <= cur && n <= 8 && n <= k * d
    requires Repeats(before, op, cur, d) && cur + 8 <= |before|
    requires SameOutside(before, after, cur, cur + 8) && Holds(after, cur, before[src..src + 8])
    ensures Repeats(after, op, cur + n, d)
  {
    forall i | op <= i < cur + n ensures after[i] == after[i - d] {
      if i >= cur {
        var t := i - cur;
        assert after[cur + t] == before[src..src + 8][t] == before[src + t];
        if t >= d {
          assert after[cur + (t - d)] == before[src..src + 8][t - d] == before[src + t - d];
        } else {
          assert k * d == (k - 1) * d + d;
          RepeatsFar(before, op, cur, d, src + t, k - 1);
        }
      }
    }
  }

  /**
   * The fast path: while the pattern is shorter than eight bytes each copy doubles it; then whole
   * eight-byte words are copied. At most ten bytes after the end of the copy are touched.
   */
  method IncrementalCopyFastPath(buf: array<byte>, src: nat, op: nat, len: nat)
    requires src < op && len > 0 && op + len + 10 <= buf.Length
    modifies buf
    ensures Repeats(buf[..], op, op + len, op - src)
    ensures SameOutside(old(buf[..]), buf[..], op, op + len + 10)
  {
    ghost var d := op - src;
    ghost var k := 1;
    var from: nat, cur: nat, left: int := src, op, len;
    while cur - from < 8
      invariant from == src && k in {1, 2, 4, 8} && cur == from + k * d && left == len - (cur - op)
      invariant op <= cur <= op + len + 10
      invariant Repeats(buf[..], op, cur, d)
      invariant SameOutside(old(buf[..]), buf[..], op, op + len + 10)
      decreases 8 - (cur - from)
    {
      ghost var before := buf[..];
      assert cur <= op + 3;
      Copy64(buf, from, cur);
      ExtendPattern(before, buf[..], op, d, k, from, cur, cur - from);
      left := left - (cur - from);
      cur := cur + (cur - from);
      k := 2 * k;
    }
    while left > 0
      invariant src <= from && cur == from + k * d && k >= 1 && k * d >= 8 && left == len - (cur - op)
      invariant op <= cur
      invariant Repeats(buf[..], op, if cur <= op + len then cur else op + len, d)
      invariant SameOutside(old(buf[..]), buf[..], op, op + len + 10)
      decreases left
    {
      ghost var before := buf[..];
      Copy64(buf, from, cur);
      ExtendPattern(before, buf[..], op, d, k, from, cur, 8);
      from := from + 8;
      cur := cur + 8;
      left := left - 8;
    }
  }
}
