/** The match finder: byte-at-a-time meaning, and the 8-byte and 4-byte implementations. */
module Match {
  import opened Bytes
  import opened Bits

  /** Length of the longest common prefix, one byte at a time. */
  function CommonPrefix(s: seq<byte>, t: seq<byte>): nat {
    if |s| == 0 || |t| == 0 || s[0] != t[0] then 0
    else 1 + CommonPrefix(s[1..], t[1..])
  }

  /** The match at s1 and s2, not running past limit on the s2 side. */
  function MatchLength(f: seq<byte>, s1: nat, s2: nat, limit: nat): nat
    requires s1 <= s2 <= limit <= |f|
  {
    CommonPrefix(f[s1..], f[s2..limit])
  }

  lemma {:induction false} CommonPrefixIsLongest(s: seq<byte>, t: seq<byte>)
    ensures var n := CommonPrefix(s, t);
            && n <= |s| && n <= |t| && s[..n] == t[..n]
            && (n < |s| && n < |t| ==> s[n] != t[n])
  {
    if |s| > 0 && |t| > 0 && s[0] == t[0] {
      CommonPrefixIsLongest(s[1..], t[1..]);
      var n := CommonPrefix(s, t);
      assert s[..n] == [s[0]] + s[1..][..n - 1];
      assert t[..n] == [t[0]] + t[1..][..n - 1];
    }
  }

  /** The answer is the largest n such that the n bytes at s1 and at s2 agree. */
  lemma MatchLengthIsLongest(f: seq<byte>, s1: nat, s2: nat, limit: nat)
    requires s1 <= s2 <= limit <= |f|
    ensures var n := MatchLength(f, s1, s2, limit);
            && n <= limit - s2
            && f[s1..s1 + n] == f[s2..s2 + n]
            && (s2 + n < limit ==> f[s1 + n] != f[s2 + n])
  {
    CommonPrefixIsLongest(f[s1..], f[s2..limit]);
    var n := MatchLength(f, s1, s2, limit);
    assert f[s1..][..n] == f[s1..s1 + n] && f[s2..limit][..n] == f[s2..s2 + n];
  }

  lemma {:induction false} CommonPrefixSkip(u: seq<byte>, s: seq<byte>, t: seq<byte>)
    ensures CommonPrefix(u + s, u + t) == |u| + CommonPrefix(s, t)
  {
    if |u| == 0 {
      assert u + s == s && u + t == t;
    } else {
      assert (u + s)[1..] == u[1..] + s && (u + t)[1..] == u[1..] + t;
      CommonPrefixSkip(u[1..], s, t);
    }
  }

  lemma {:induction false} CommonPrefixExtend(s: seq<byte>, t: seq<byte>, x: seq<byte>, y: seq<byte>)
    requires |s| == |t| && s != t
    ensures CommonPrefix(s + x, t + y) == CommonPrefix(s, t)
  {
    if s[0] == t[0] {
      assert s == [s[0]] + s[1..] && t == [t[0]] + t[1..];
      assert (s + x)[1..] == s[1..] + x && (t + y)[1..] == t[1..] + y;
      CommonPrefixExtend(s[1..], t[1..], x, y);
    }
  }

  /** The xor of two words, cut behind its first byte. */
  lemma {:induction false} XorFirstByte(s: seq<byte>, t: seq<byte>)
    requires |s| == |t| > 0
    ensures Xor(s[0], t[0]) < Pow2(8) && (Xor(s[0], t[0]) == 0 <==> s[0] == t[0])
    ensures Xor(LE(s), LE(t)) == Xor(s[0], t[0]) + Shl(Xor(LE(s[1..]), LE(t[1..])), 8)
  {
    var x, y := LE(s[1..]), LE(t[1..]);
    ByteShift(x);
    ByteShift(y);
    XorSplit(8, s[0], x, t[0], y);
    XorZero(s[0], t[0]);
  }

  /** Counting the trailing zero bits of the xor of two different words finds the first differing byte. */
  lemma {:induction false} FirstDifferingByte(s: seq<byte>, t: seq<byte>)
    requires |s| == |t| && s != t
    ensures Xor(LE(s), LE(t)) > 0
    ensures Ctz(Xor(LE(s), LE(t))) / 8 == CommonPrefix(s, t)
  {
    var x, y := LE(s[1..]), LE(t[1..]);
    XorFirstByte(s, t);
    hide Xor, Shl, Pow2, LE, Ctz;
    if s[0] == t[0] {
      assert s == [s[0]] + s[1..] && t == [t[0]] + t[1..];
      FirstDifferingByte(s[1..], t[1..]);
      CtzShift(8, Xor(x, y));
    } else {
      CtzLow(8, Xor(s[0], t[0]), Xor(x, y));
    }
  }

  lemma MatchAdvance(f: seq<byte>, s1: nat, s2: nat, limit: nat, k: nat)
    requires s1 <= s2 && s2 + k <= limit <= |f|
    requires LE(f[s2..s2 + k]) == LE(f[s1..s1 + k])
    ensures MatchLength(f, s1, s2, limit) == k + MatchLength(f, s1 + k, s2 + k, limit)
  {
    LEInjective(f[s2..s2 + k], f[s1..s1 + k]);
    assert f[s1..] == f[s1..s1 + k] + f[s1 + k..];
    assert f[s2..limit] == f[s2..s2 + k] + f[s2 + k..limit];
    CommonPrefixSkip(f[s1..s1 + k], f[s1 + k..], f[s2 + k..limit]);
  }

  lemma MatchStop(f: seq<byte>, s1: nat, s2: nat, limit: nat, k: nat)
    requires s1 <= s2 && s2 + k <= limit <= |f|
    requires LE(f[s2..s2 + k]) != LE(f[s1..s1 + k])
    ensures Xor(LE(f[s2..s2 + k]), LE(f[s1..s1 + k])) > 0
    ensures Ctz(Xor(LE(f[s2..s2 + k]), LE(f[s1..s1 + k]))) / 8 == MatchLength(f, s1, s2, limit)
  {
    var u, v := f[s1..s1 + k], f[s2..s2 + k];
    FirstDifferingByte(v, u);
    assert f[s1..] == u + f[s1 + k..];
    assert f[s2..limit] == v + f[s2 + k..limit];
    CommonPrefixExtend(u, v, f[s1 + k..], f[s2 + k..limit]);
    CommonPrefixSymmetric(u, v);
  }

  lemma {:induction false} CommonPrefixSymmetric(s: seq<byte>, t: seq<byte>)
    ensures CommonPrefix(s, t) == CommonPrefix(t, s)
  {
    if |s| > 0 && |t| > 0 && s[0] == t[0] { CommonPrefixSymmetric(s[1..], t[1..]); }
  }

  /** The byte loop that finishes both versions. */
  method MatchBytes(f: seq<byte>, s1: nat, start: nat, limit: nat) returns (matched: nat)
    requires s1 <= start <= limit <= |f|
    ensures matched == MatchLength(f, s1, start, limit)
  {
    var s2 := start;
    matched := 0;
    while s2 < limit && f[s1 + matched] == f[s2]
      invariant s2 == start + matched && s2 <= limit
      invariant MatchLength(f, s1, start, limit) == matched + MatchLength(f, s1 + matched, s2, limit)
    {
      assert f[s1 + matched..][1..] == f[s1 + matched + 1..];
      assert f[s2..limit][1..] == f[s2 + 1..limit];
      s2 := s2 + 1;
      matched := matched + 1;
    }
  }

  /** The deployed 64-bit little-endian version: eight bytes at a time, then single bytes. */
  method FindMatchLength64(f: seq<byte>, s1: nat, start: nat, limit: nat) returns (matched: nat)
    requires s1 <= start <= limit <= |f|
    ensures matched == MatchLength(f, s1, start, limit)
  {
    hide MatchLength, LE, Xor, Ctz;
    var s2 := start;
    matched := 0;
    while s2 + 8 <= limit
      invariant s2 == start + matched && s2 <= limit
      invariant MatchLength(f, s1, start, limit) == matched + MatchLength(f, s1 + matched, s2, limit)
    {
      var a, b := LE(f[s2..s2 + 8]), LE(f[s1 + matched..s1 + matched + 8]);
      if a == b {
        MatchAdvance(f, s1 + matched, s2, limit, 8);
        s2 := s2 + 8;
        matched := matched + 8;
      } else {
        MatchStop(f, s1 + matched, s2, limit, 8);
        var matchingBits := Ctz(Xor(a, b));
        matched := matched + matchingBits / 8;
        return;
      }
    }
    var tail := MatchBytes(f, s1 + matched, s2, limit);
    matched := matched + tail;
  }

  /** The portable version: four bytes at a time, then ctz (little-endian) or single bytes. */
  method FindMatchLength32(f: seq<byte>, s1: nat, start: nat, limit: nat, littleEndian: bool)
    returns (matched: nat)
    requires s1 <= start <= limit <= |f|
    ensures matched == MatchLength(f, s1, start, limit)
  {
    hide MatchLength, LE, Xor, Ctz;
    var s2 := start;
    matched := 0;
    while s2 + 4 <= limit && LE(f[s2..s2 + 4]) == LE(f[s1 + matched..s1 + matched + 4])
      invariant s2 == start + matched && s2 <= limit
      invariant MatchLength(f, s1, start, limit) == matched + MatchLength(f, s1 + matched, s2, limit)
      decreases limit - s2
    {
      MatchAdvance(f, s1 + matched, s2, limit, 4);
      s2 := s2 + 4;
      matched := matched + 4;
    }
    if littleEndian && s2 + 4 <= limit {
      MatchStop(f, s1 + matched, s2, limit, 4);
      var matchingBits := Ctz(Xor(LE(f[s2..s2 + 4]), LE(f[s1 + matched..s1 + matched + 4])));
      matched := matched + matchingBits / 8;
    } else {
      var tail := MatchBytes(f, s1 + matched, s2, limit);
      matched := matched + tail;
    }
  }
}
