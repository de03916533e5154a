/** The decoder's lookup table, row by row as in the source, and what its entries encode. */
module TagTable {
  import opened Bytes
  import opened Format

  /** Eight entries per row: length in bits 0..7, offset / 256 in bits 8..10, extra bytes in bits 11..13. */
  function Row(r: nat): seq<nat>
    requires r < 32
  {
    if r == 0 then [0x0001, 0x0804, 0x1001, 0x2001, 0x0002, 0x0805, 0x1002, 0x2002]
    else if r == 1 then [0x0003, 0x0806, 0x1003, 0x2003, 0x0004, 0x0807, 0x1004, 0x2004]
    else if r == 2 then [0x0005, 0x0808, 0x1005, 0x2005, 0x0006, 0x0809, 0x1006, 0x2006]
    else if r == 3 then [0x0007, 0x080a, 0x1007, 0x2007, 0x0008, 0x080b, 0x1008, 0x2008]
    else if r == 4 then [0x0009, 0x0904, 0x1009, 0x2009, 0x000a, 0x0905, 0x100a, 0x200a]
    else if r == 5 then [0x000b, 0x0906, 0x100b, 0x200b, 0x000c, 0x0907, 0x100c, 0x200c]
    else if r == 6 then [0x000d, 0x0908, 0x100d, 0x200d, 0x000e, 0x0909, 0x100e, 0x200e]
    else if r == 7 then [0x000f, 0x090a, 0x100f, 0x200f, 0x0010, 0x090b, 0x1010, 0x2010]
    else if r == 8 then [0x0011, 0x0a04, 0x1011, 0x2011, 0x0012, 0x0a05, 0x1012, 0x2012]
    else if r == 9 then [0x0013, 0x0a06, 0x1013, 0x2013, 0x0014, 0x0a07, 0x1014, 0x2014]
    else if r == 10 then [0x0015, 0x0a08, 0x1015, 0x2015, 0x0016, 0x0a09, 0x1016, 0x2016]
    else if r == 11 then [0x0017, 0x0a0a, 0x1017, 0x2017, 0x0018, 0x0a0b, 0x1018, 0x2018]
    else if r == 12 then [0x0019, 0x0b04, 0x1019, 0x2019, 0x001a, 0x0b05, 0x101a, 0x201a]
    else if r == 13 then [0x001b, 0x0b06, 0x101b, 0x201b, 0x001c, 0x0b07, 0x101c, 0x201c]
    else if r == 14 then [0x001d, 0x0b08, 0x101d, 0x201d, 0x001e, 0x0b09, 0x101e, 0x201e]
    else if r == 15 then [0x001f, 0x0b0a, 0x101f, 0x201f, 0x0020, 0x0b0b, 0x1020, 0x2020]
    else if r == 16 then [0x0021, 0x0c04, 0x1021, 0x2021, 0x0022, 0x0c05, 0x1022, 0x2022]
    else if r == 17 then [0x0023, 0x0c06, 0x1023, 0x2023, 0x0024, 0x0c07, 0x1024, 0x2024]
    else if r == 18 then [0x0025, 0x0c08, 0x1025, 0x2025, 0x0026, 0x0c09, 0x1026, 0x2026]
    else if r == 19 then [0x0027, 0x0c0a, 0x1027, 0x2027, 0x0028, 0x0c0b, 0x1028, 0x2028]
    else if r == 20 then [0x0029, 0x0d04, 0x1029, 0x2029, 0x002a, 0x0d05, 0x102a, 0x202a]
    else if r == 21 then [0x002b, 0x0d06, 0x102b, 0x202b, 0x002c, 0x0d07, 0x102c, 0x202c]
    else if r == 22 then [0x002d, 0x0d08, 0x102d, 0x202d, 0x002e, 0x0d09, 0x102e, 0x202e]
    else if r == 23 then [0x002f, 0x0d0a, 0x102f, 0x202f, 0x0030, 0x0d0b, 0x1030, 0x2030]
    else if r == 24 then [0x0031, 0x0e04, 0x1031, 0x2031, 0x0032, 0x0e05, 0x1032, 0x2032]
    else if r == 25 then [0x0033, 0x0e06, 0x1033, 0x2033, 0x0034, 0x0e07, 0x1034, 0x2034]
    else if r == 26 then [0x0035, 0x0e08, 0x1035, 0x2035, 0x0036, 0x0e09, 0x1036, 0x2036]
    else if r == 27 then [0x0037, 0x0e0a, 0x1037, 0x2037, 0x0038, 0x0e0b, 0x1038, 0x2038]
    else if r == 28 then [0x0039, 0x0f04, 0x1039, 0x2039, 0x003a, 0x0f05, 0x103a, 0x203a]
    else if r == 29 then [0x003b, 0x0f06, 0x103b, 0x203b, 0x003c, 0x0f07, 0x103c, 0x203c]
    else if r == 30 then [0x0801, 0x0f08, 0x103d, 0x203d, 0x1001, 0x0f09, 0x103e, 0x203e]
    else [0x1801, 0x0f0a, 0x103f, 0x203f, 0x2001, 0x0f0b, 0x1040, 0x2040]
  }

  function CharTable(c: byte): nat {
    RowLength(c / 8);
    Row(c / 8)[c % 8]
  }

  lemma RowLength(r: nat)
    requires r < 32
    ensures |Row(r)| == 8
  {
  }

  /** The masks that keep the low 0..4 bytes of a word. */
  function MaskWord(w: nat, k: nat): nat
    requires k <= 4
  {
    w % Pow256(k)
  }

  /** What an entry must say about its tag byte. */
  predicate EntryOk(c: byte, entry: nat) {
    && entry / 2048 == TagLength(c) - 1
    && (c % 4 == 1 ==> entry % 256 == 4 + c / 4 % 8 && entry / 256 % 8 == c / 32)
    && (c % 4 >= 2 ==> entry % 256 == c / 4 + 1 && entry / 256 % 8 == 0)
  }

  /** The literal entries of the last two rows announce one to four length bytes. */
  function LiteralEntry(n: nat): nat {
    if n < 60 then n + 1 else 2048 * (n - 59) + 1
  }

  /** The table follows a regular scheme: row r holds the tags 8r .. 8r + 7. */
  function Scheme(r: nat): seq<nat> {
    var copy1 := 0x0804 + r / 4 * 256 + r % 4 * 2;
    [LiteralEntry(2 * r), copy1, 0x1001 + 2 * r, 0x2001 + 2 * r,
     LiteralEntry(2 * r + 1), copy1 + 1, 0x1002 + 2 * r, 0x2002 + 2 * r]
  }

  lemma LowRows(r: nat)
    requires r < 16
    ensures Row(r) == Scheme(r)
  {
  }

  lemma HighRows(r: nat)
    requires 16 <= r < 32
    ensures Row(r) == Scheme(r)
  {
  }

  lemma LiteralTag(n: nat)
    requires n < 64
    ensures EntryOk(4 * n, LiteralEntry(n))
  {
    assert 4 * n / 4 == n;
  }

  lemma ShortOffsetTag(q: nat, m: nat)
    requires q < 8 && m < 8
    ensures EntryOk(32 * q + 4 * m + 1, 0x0804 + 256 * q + m)
  {
    var c: byte := 32 * q + 4 * m + 1;
    assert c / 4 == 8 * q + m;
  }

  lemma LongOffsetTags(n: nat)
    requires n < 64
    ensures EntryOk(4 * n + 2, 0x1001 + n) && EntryOk(4 * n + 3, 0x2001 + n)
  {
    assert (4 * n + 2) / 4 == n && (4 * n + 3) / 4 == n;
  }

  lemma SchemeOk(r: nat, i: nat)
    requires r < 32 && i < 8
    ensures EntryOk(8 * r + i, Scheme(r)[i])
  {
    hide EntryOk, LiteralEntry;
    var n, q, m := 2 * r + i / 4, r / 4, r % 4 * 2 + i / 4;
    assert 32 * q + 4 * m == 4 * n;
    LiteralTag(n);
    ShortOffsetTag(q, m);
    LongOffsetTags(n);
  }

  /** All 256 entries agree with the format description. */
  lemma CharTableOk(c: byte)
    ensures EntryOk(c, CharTable(c))
  {
    hide Row, Scheme, EntryOk;
    if c / 8 < 16 { LowRows(c / 8); } else { HighRows(c / 8); }
    SchemeOk(c / 8, c % 8);
  }

  /** Bits 11..13 of an entry count the bytes behind the tag. */
  lemma ExtraBytes(c: byte)
    ensures CharTable(c) / 2048 + 1 == TagLength(c)
  {
    hide CharTable;
    CharTableOk(c);
  }

  /** The low k bytes of the four behind a tag are all that the mask keeps. */
  lemma MaskKeeps(w: seq<byte>, p: seq<byte>, k: nat)
    requires |w| == 5 && k <= 4 && k < |p| && w[..k + 1] == p[..k + 1]
    ensures MaskWord(LE(w[1..]), k) == LE(p[1..k + 1])
  {
    LEDivMod(w[1..], k);
    assert w[1..][..k] == w[..k + 1][1..];
    assert p[1..k + 1] == p[..k + 1][1..];
  }

  /** The table-driven copy decoder reads the header that the format describes. */
  lemma CopyHeader(p: seq<byte>, w: seq<byte>)
    requires |p| > 0 && |p| >= TagLength(p[0]) && p[0] % 4 != 0
    requires |w| == 5 && w[..TagLength(p[0])] == p[..TagLength(p[0])]
    ensures var entry := CharTable(p[0]);
            ParseHeader(p) == CopyOf(entry / 256 % 8 * 256 + MaskWord(LE(w[1..]), TagLength(p[0]) - 1), entry % 256)
    ensures 1 <= CharTable(p[0]) % 256 <= 64
    ensures CharTable(p[0]) / 256 % 8 * 256 + MaskWord(LE(w[1..]), TagLength(p[0]) - 1) < U32
  {
    hide CharTable;
    var n := TagLength(p[0]);
    CharTableOk(p[0]);
    MaskKeeps(w, p, n - 1);
    if p[0] % 4 == 1 {
      assert p[1..2] == [p[1]];
      assert LE([p[1]]) == p[1];
    } else {
      LEBound(p[1..n]);
      assert Pow256(2) == 65536;
      assert Pow256(4) == U32;
    }
  }

  /** A long literal header: the masked word plus one, in 32 bits. */
  lemma LongLiteralHeader(p: seq<byte>, w: seq<byte>)
    requires |p| > 0 && p[0] % 4 == 0 && p[0] / 4 >= 60 && |p| >= TagLength(p[0])
    requires |w| == 5 && w[..TagLength(p[0])] == p[..TagLength(p[0])]
    ensures ParseHeader(p) == LiteralOf((MaskWord(LE(w[1..]), p[0] / 4 - 59) + 1) % U32)
  {
    MaskKeeps(w, p, p[0] / 4 - 59);
  }
}
