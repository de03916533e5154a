/** The length preamble (section 1 of the Snappy compressed format description). */
module Varint {
  import opened Bytes

  /** Base-128 digits, least significant first, with the high bit set on all but the last. */
  function Encode(v: nat): seq<byte> {
    if v < 128 then [v] else [v % 128 + 128] + Encode(v / 128)
  }

  /** The full value of a varint of at most `budget` bytes, and the bytes it takes. */
  function Raw(s: seq<byte>, budget: nat): Option<(nat, nat)> {
    if budget == 0 || |s| == 0 then None
    else if s[0] < 128 then Some((s[0], 1))
    else
      match Raw(s[1..], budget - 1)
      case None => None
      case Some((v, n)) => Some((s[0] % 128 + 128 * v, n + 1))
  }

  /** The strict parser: a value that does not fit 32 bits is refused. */
  function Strict(s: seq<byte>): Option<(nat, nat)> {
    match Raw(s, 5)
    case None => None
    case Some((v, n)) => if v < U32 then Some((v, n)) else None
  }

  /** The decoder's preamble reader: bits above the 32nd are dropped. */
  function Lenient(s: seq<byte>): Option<(nat, nat)> {
    match Raw(s, 5)
    case None => None
    case Some((v, n)) => Some((v % U32, n))
  }

  /** The largest value of k base-128 digits, plus one. */
  function Pow128(k: nat): nat {
    if k == 0 then 1 else 128 * Pow128(k - 1)
  }

  lemma Pow128Values()
    ensures Pow128(1) == 0x80 && Pow128(2) == 0x4000 && Pow128(3) == 0x20_0000
    ensures Pow128(4) == 0x1000_0000 && Pow128(5) == 0x8_0000_0000
  {
    assert Pow128(2) == 0x4000;
    assert Pow128(4) == 0x1000_0000;
  }

  lemma {:induction false} RawOfEncode(v: nat, rest: seq<byte>, k: nat)
    requires k > 0 && v < Pow128(k)
    ensures Raw(Encode(v) + rest, k) == Some((v, |Encode(v)|))
    ensures 1 <= |Encode(v)| <= k
  {
    if v >= 128 {
      RawOfEncode(v / 128, rest, k - 1);
      assert (Encode(v) + rest)[1..] == Encode(v / 128) + rest;
    }
  }

  /** Both parsers read back every 32-bit value and stop where its encoding stops. */
  lemma RoundTrip(v: nat, rest: seq<byte>)
    requires v < U32
    ensures Strict(Encode(v) + rest) == Some((v, |Encode(v)|))
    ensures Lenient(Encode(v) + rest) == Some((v, |Encode(v)|))
    ensures 1 <= |Encode(v)| <= 5
  {
    Pow128Values();
    RawOfEncode(v, rest, 5);
  }

  /** Bytes behind a complete varint, or behind as many bytes as it may have, do not matter. */
  lemma {:induction false} RawOfPrefix(s: seq<byte>, t: seq<byte>, k: nat)
    requires Raw(s, k).Some? || |s| >= k
    ensures Raw(s + t, k) == Raw(s, k)
  {
    if |s| > 0 && k > 0 && s[0] >= 128 {
      assert (s + t)[1..] == s[1..] + t;
      RawOfPrefix(s[1..], t, k - 1);
    }
  }

  /** A varint is complete in the bytes it takes. */
  lemma {:induction false} RawOfItself(s: seq<byte>, k: nat)
    requires Raw(s, k).Some?
    ensures Raw(s, k).value.1 <= |s| && Raw(s[..Raw(s, k).value.1], k) == Raw(s, k)
  {
    if s[0] >= 128 {
      RawOfItself(s[1..], k - 1);
      var n := Raw(s[1..], k - 1).value.1;
      assert s[..n + 1][1..] == s[1..][..n];
    }
  }

  lemma {:induction false} RawBound(s: seq<byte>, k: nat)
    requires Raw(s, k).Some?
    ensures 1 <= Raw(s, k).value.1 && Raw(s, k).value.0 < Pow128(Raw(s, k).value.1)
  {
    if s[0] >= 128 { RawBound(s[1..], k - 1); }
  }

  /** No other varint with the same value is shorter. */
  lemma ShortestEncoding(s: seq<byte>)
    requires Strict(s).Some?
    ensures |Encode(Strict(s).value.0)| <= Strict(s).value.1
  {
    hide Raw, Encode;
    RawBound(s, 5);
    RawOfEncode(Strict(s).value.0, [], Strict(s).value.1);
  }

  function Digit(b: byte): nat { b % 128 }

  /** Raw written out for its five possible lengths. */
  ghost function RawFlat(s: seq<byte>): Option<(nat, nat)> {
    if |s| < 1 then None
    else if s[0] < 128 then Some((Digit(s[0]), 1))
    else if |s| < 2 then None
    else if s[1] < 128 then Some((Digit(s[0]) + 0x80 * Digit(s[1]), 2))
    else if |s| < 3 then None
    else if s[2] < 128 then Some((Digit(s[0]) + 0x80 * Digit(s[1]) + 0x4000 * Digit(s[2]), 3))
    else if |s| < 4 then None
    else if s[3] < 128 then
      Some((Digit(s[0]) + 0x80 * Digit(s[1]) + 0x4000 * Digit(s[2]) + 0x20_0000 * Digit(s[3]), 4))
    else if |s| < 5 then None
    else if s[4] < 128 then
      Some((Digit(s[0]) + 0x80 * Digit(s[1]) + 0x4000 * Digit(s[2]) + 0x20_0000 * Digit(s[3])
            + 0x1000_0000 * Digit(s[4]), 5))
    else None
  }

  /** Raw for at most three bytes. */
  ghost function RawFlat3(s: seq<byte>): Option<(nat, nat)> {
    if |s| < 1 then None
    else if s[0] < 128 then Some((Digit(s[0]), 1))
    else if |s| < 2 then None
    else if s[1] < 128 then Some((Digit(s[0]) + 0x80 * Digit(s[1]), 2))
    else if |s| < 3 then None
    else if s[2] < 128 then Some((Digit(s[0]) + 0x80 * Digit(s[1]) + 0x4000 * Digit(s[2]), 3))
    else None
  }

  lemma {:induction false} RawIsFlat3(s: seq<byte>)
    ensures Raw(s, 3) == RawFlat3(s)
  {
    if |s| > 1 && s[0] >= 128 && s[1] >= 128 {
      assert s[1..][1..] == s[2..];
      assert Raw(s[2..], 1) == if |s| > 2 && s[2] < 128 then Some((s[2] as nat, 1)) else None;
    }
  }

  /** Two continuation bytes in front of the rest. */
  lemma {:induction false} RawTwoMore(s: seq<byte>, k: nat)
    requires |s| >= 2 && s[0] >= 128 && s[1] >= 128
    ensures Raw(s, k + 2) ==
            match Raw(s[2..], k) case None => None
                                 case Some((v, n)) => Some((Digit(s[0]) + 0x80 * Digit(s[1]) + 0x4000 * v, n + 2))
  {
    assert s[1..][1..] == s[2..];
  }

  lemma {:induction false} RawIsFlat(s: seq<byte>)
    ensures Raw(s, 5) == RawFlat(s)
  {
    if |s| >= 2 && s[0] >= 128 && s[1] >= 128 {
      RawTwoMore(s, 3);
      RawIsFlat3(s[2..]);
      hide Raw;
    }
  }

  /** The fifth byte is one of 16..127: the only case in which the two parsers part ways. */
  ghost predicate OversizedFifthByte(s: seq<byte>) {
    && |s| >= 5
    && (forall i :: 0 <= i < 4 ==> s[i] >= 128)
    && 16 <= s[4] < 128
  }

  /** Five digits leave the 32-bit range exactly through the fifth. */
  lemma FlatRange(s: seq<byte>)
    ensures RawFlat(s).Some? && RawFlat(s).value.0 >= U32 <==> OversizedFifthByte(s)
  {
  }

  lemma ParsersCompared(s: seq<byte>)
    ensures Strict(s).Some? ==> Lenient(s) == Strict(s)
    ensures Lenient(s) != Strict(s) <==> OversizedFifthByte(s)
    ensures OversizedFifthByte(s) ==> Strict(s).None? && Lenient(s).Some?
  {
    hide Raw, RawFlat, OversizedFifthByte;
    RawIsFlat(s);
    FlatRange(s);
  }

  /** Writes a value through its five size classes; returns the position after the last byte. */
  method Encode32(buf: array<byte>, at: nat, v: nat) returns (end: nat)
    requires v < U32 && at + |Encode(v)| <= buf.Length
    modifies buf
    ensures at < end <= at + 5 && end <= buf.Length && buf[at..end] == Encode(v)
    ensures forall j :: 0 <= j < at || end <= j < buf.Length ==> buf[j] == old(buf[j])
  {
    hide Encode;
    if v < 0x80 {
      Digits1(v);
      buf[at] := v;
      end := at + 1;
    } else if v < 0x4000 {
      Digits2(v);
      buf[at], buf[at + 1] := v % 128 + 128, v / 0x80;
      end := at + 2;
    } else if v < 0x20_0000 {
      Digits3(v);
      buf[at], buf[at + 1], buf[at + 2] := v % 128 + 128, v / 0x80 % 128 + 128, v / 0x4000;
      end := at + 3;
    } else if v < 0x1000_0000 {
      Digits4(v);
      buf[at], buf[at + 1], buf[at + 2], buf[at + 3] :=
        v % 128 + 128, v / 0x80 % 128 + 128, v / 0x4000 % 128 + 128, v / 0x20_0000;
      end := at + 4;
    } else {
      Digits5(v);
      buf[at], buf[at + 1], buf[at + 2], buf[at + 3], buf[at + 4] :=
        v % 128 + 128, v / 0x80 % 128 + 128, v / 0x4000 % 128 + 128, v / 0x20_0000 % 128 + 128,
        v / 0x1000_0000;
      end := at + 5;
    }
  }

  lemma NestedDivision(v: nat)
    ensures v / 128 / 0x80 == v / 0x4000
    ensures v / 128 / 0x4000 == v / 0x20_0000
    ensures v / 128 / 0x20_0000 == v / 0x1000_0000
  {
  }

  /** The digits of Encode written out for its five size classes. */
  lemma Digits1(v: nat)
    requires v < 0x80
    ensures Encode(v) == [v]
  {
  }

  lemma Digits2(v: nat)
    requires 0x80 <= v < 0x4000
    ensures Encode(v) == [v % 128 + 128, v / 0x80]
  {
  }

  lemma Digits3(v: nat)
    requires 0x4000 <= v < 0x20_0000
    ensures Encode(v) == [v % 128 + 128, v / 0x80 % 128 + 128, v / 0x4000]
  {
    NestedDivision(v);
    Digits2(v / 128);
  }

  lemma Digits4(v: nat)
    requires 0x20_0000 <= v < 0x1000_0000
    ensures Encode(v) == [v % 128 + 128, v / 0x80 % 128 + 128, v / 0x4000 % 128 + 128, v / 0x20_0000]
  {
    NestedDivision(v);
    Digits3(v / 128);
  }

  lemma Digits5(v: nat)
    requires 0x1000_0000 <= v < U32
    ensures Encode(v) == [v % 128 + 128, v / 0x80 % 128 + 128, v / 0x4000 % 128 + 128,
                          v / 0x20_0000 % 128 + 128, v / 0x1000_0000]
  {
    NestedDivision(v);
    Digits4(v / 128);
  }

  lemma EncodeLength(v: nat)
    requires v < U32
    ensures |Encode(v)| == if v < 0x80 then 1 else if v < 0x4000 then 2 else if v < 0x20_0000 then 3
                           else if v < 0x1000_0000 then 4 else 5
  {
    hide Encode;
    if v < 0x80 {
      Digits1(v);
    } else if v < 0x4000 {
      Digits2(v);
    } else if v < 0x20_0000 {
      Digits3(v);
    } else if v < 0x1000_0000 {
      Digits4(v);
    } else {
      Digits5(v);
    }
  }

  /** Reads at most five bytes of s[p..limit]; None stands for the NULL result. */
  method Parse32WithLimit(s: seq<byte>, p: nat, limit: nat) returns (r: Option<(nat, nat)>)
    requires p <= limit <= |s|
    ensures r == match Strict(s[p..limit]) case None => None case Some((v, n)) => Some((v, p + n))
  {
    hide Raw;
    RawIsFlat(s[p..limit]);
    var ptr := p;
    if ptr >= limit { return None; }
    var b: byte := s[ptr];
    ptr := ptr + 1;
    var result: nat := b % 128;
    if b < 128 { return Some((result, ptr)); }
    if ptr >= limit { return None; }
    b := s[ptr];
    ptr := ptr + 1;
    result := result + b % 128 * 0x80;
    if b < 128 { return Some((result, ptr)); }
    if ptr >= limit { return None; }
    b := s[ptr];
    ptr := ptr + 1;
    result := result + b % 128 * 0x4000;
    if b < 128 { return Some((result, ptr)); }
    if ptr >= limit { return None; }
    b := s[ptr];
    ptr := ptr + 1;
    result := result + b % 128 * 0x20_0000;
    if b < 128 { return Some((result, ptr)); }
    if ptr >= limit { return None; }
    b := s[ptr];
    ptr := ptr + 1;
    result := (result + b % 128 * 0x1000_0000) % U32;
    if b < 16 { return Some((result, ptr)); }
    return None;
  }
}
