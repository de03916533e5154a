/** Bytes, machine-word ranges and little-endian words, shared by the whole codec model. */
module Bytes {

  type byte = x: int | 0 <= x < 256

  /** Number of values of a 32-bit unsigned integer, and the bound of a signed one. */
  const U32 := 0x1_0000_0000
  const I32 := 0x8000_0000

  /** The error number that compression and decompression report, negated. */
  const EIO := 5

  datatype Option<+T> = None | Some(value: T)

  function Min(a: int, b: int): int {
    if a < b then a else b
  }

  /** What a C `int` holds after being assigned a value in [0, 2^32). */
  function ToInt32(x: nat): int
    requires x < U32
  {
    if x < I32 then x else x - U32
  }

  function Pow256(k: nat): (r: nat)
    ensures r > 0
  {
    if k == 0 then 1 else 256 * Pow256(k - 1)
  }

  /** The value of a little-endian word. */
  function LE(s: seq<byte>): nat {
    if |s| == 0 then 0 else s[0] + 256 * LE(s[1..])
  }

  /** The shortest little-endian byte string whose value is n. */
  function LEBytes(n: nat): seq<byte> {
    if n == 0 then [] else [n % 256] + LEBytes(n / 256)
  }

  /** The four-byte load used for hashing and for match candidates. */
  function Load32(s: seq<byte>, p: nat): nat
    requires p + 4 <= |s|
  {
    LE(s[p..p + 4])
  }

  lemma {:induction false} LEBound(s: seq<byte>)
    ensures LE(s) < Pow256(|s|)
  {
    if |s| > 0 { LEBound(s[1..]); }
  }

  lemma {:induction false} LEInjective(s: seq<byte>, t: seq<byte>)
    requires |s| == |t| && LE(s) == LE(t)
    ensures s == t
  {
    if |s| > 0 {
      LEInjective(s[1..], t[1..]);
      assert s == [s[0]] + s[1..] && t == [t[0]] + t[1..];
    }
  }

  lemma {:induction false} LESplit(s: seq<byte>, k: nat)
    requires k <= |s|
    ensures LE(s) == LE(s[..k]) + Pow256(k) * LE(s[k..])
  {
    if k > 0 {
      LESplit(s[1..], k - 1);
      assert s[1..][..k - 1] == s[..k][1..];
      assert s[1..][k - 1..] == s[k..];
      Distribute(256, Pow256(k - 1), LE(s[..k][1..]), LE(s[k..]));
    }
  }

  lemma Distribute(p: int, k: int, a: int, v: int)
    ensures p * (a + k * v) == p * a + (k * p) * v
  {
  }

  lemma MulAtLeast(d: nat, k: int)
    requires k >= 1
    ensures d * k >= d
  {
  }

  lemma MulMinus(d: int, a: int, b: int)
    ensures d * (a - b) == d * a - d * b
  {
  }

  lemma QuotientsAgree(d: nat, q1: int, r1: nat, q2: int, r2: nat)
    requires r1 < d && r2 < d && d * q1 + r1 == d * q2 + r2
    ensures q1 == q2
  {
    MulMinus(d, q2, q1);
    MulMinus(d, q1, q2);
    if q1 < q2 {
      MulAtLeast(d, q2 - q1);
    } else if q2 < q1 {
      MulAtLeast(d, q1 - q2);
    }
  }

  lemma DivModUnique(n: nat, q: nat, r: nat, d: nat)
    requires r < d && n == d * q + r
    ensures n / d == q && n % d == r
  {
    QuotientsAgree(d, n / d, n % d, q, r);
  }

  /** Shifting a loaded word right by whole bytes drops its low bytes; masking keeps them. */
  lemma {:induction false} LEDivMod(s: seq<byte>, k: nat)
    requires k <= |s|
    ensures LE(s) / Pow256(k) == LE(s[k..])
    ensures LE(s) % Pow256(k) == LE(s[..k])
  {
    LESplit(s, k);
    LEBound(s[..k]);
    DivModUnique(LE(s), LE(s[k..]), LE(s[..k]), Pow256(k));
  }

  lemma {:induction false} LEBytesValue(n: nat)
    ensures LE(LEBytes(n)) == n
  {
    if n > 0 { LEBytesValue(n / 256); }
  }

  lemma {:induction false} LEBytesLength(n: nat, k: nat)
    requires n < Pow256(k)
    ensures |LEBytes(n)| <= k
    ensures n > 0 ==> |LEBytes(n)| >= 1
  {
    if n > 0 && k > 0 { LEBytesLength(n / 256, k - 1); }
  }

  /** Taking n bytes more of what follows the first `done` bytes. */
  lemma TakeMore(out: seq<byte>, all: seq<byte>, done: nat, n: nat)
    requires done + n <= |all|
    ensures all[..done] + all[done..][..n] == all[..done + n]
    ensures out + all[..done] + all[done..][..n] == out + all[..done + n]
    ensures all[done..][n..] == all[done + n..]
  {
  }
}
