/** The reflected CRC-32 (polynomial 0xEDB88320, seed and final XOR 0xFFFFFFFF)
    that the controller expects at the end of every Bluetooth output report.
    This is the frame check sequence of IEEE 802.3 (clause 3.2.9) in
    reflected bit order.

    The byte-wise table-driven algorithm of the source is specified by the
    functions TableEntry, Step, Fold and Checksum; the class Engine is the
    source's static class, with its table filled in place by nested loops and
    its Compute loop proved against Checksum. CheckValue pins Checksum to the
    standard check value of the algorithm. */
module Crc32 {

  /** The generator polynomial in reflected bit order. */
  const Polynomial: bv32 := 0xEDB8_8320
  /** Initial register value; also the final XOR mask. */
  const Seed: bv32 := 0xFFFF_FFFF
  /** Number of shift-and-reduce rounds per table entry (one per bit of a byte). */
  const BitsPerByte: nat := 8
  /** Number of entries in the lookup table (one per byte value). */
  const TableSize: nat := 256

  /** One shift-and-reduce round: the register moves one bit towards the low
      end, and the polynomial is folded back in when a 1 bit falls out. */
  function Round(r: bv32): bv32 {
    if r & 1 != 0 then (r >> 1) ^ Polynomial else r >> 1
  }

  /** n rounds applied to r. Naming r in the decreases clause as well keeps
      the verifier from unrolling all the rounds of an unknown register; n
      alone already decreases. */
  function Rounds(r: bv32, n: nat): bv32
    decreases n, r
  {
    if n == 0 then r else Rounds(Round(r), n - 1)
  }

  /** Entry i of the lookup table: i after eight rounds. */
  function TableEntry(i: bv32): bv32
    requires i < 256
  {
    Rounds(i, BitsPerByte)
  }

  /** One table-driven step: the register for crc after byte b, looked up at
      the low byte of crc ^ b. */
  function Step(crc: bv32, b: bv8): bv32 {
    (crc >> 8) ^ TableEntry((crc ^ b as bv32) & 0xFF)
  }

  /** The register after feeding the bytes of s, in order, starting from crc. */
  function Fold(crc: bv32, s: seq<bv8>): bv32
    decreases |s|
  {
    if s == [] then crc else Step(Fold(crc, s[..|s| - 1]), s[|s| - 1])
  }

  /** The CRC-32 of s. */
  function Checksum(s: seq<bv8>): bv32 {
    Fold(Seed, s) ^ Seed
  }

  // ---------------------------------------------------------------------
  // Small bit-vector facts

  lemma IndexRoundTrip(x: bv32)
    requires x < 256
    ensures 0 <= x as int < 256 && (x as int) as bv32 == x
  {}

  // ---------------------------------------------------------------------
  // Further properties of the specification

  /** The checksum of the empty input is zero. */
  lemma ChecksumOfEmpty()
    ensures Checksum([]) == 0
  {}

  /** Appending a byte advances the register by one step: the checksum is a
      left fold over the input. */
  lemma FoldAppend(crc: bv32, s: seq<bv8>, b: bv8)
    ensures Fold(crc, s + [b]) == Step(Fold(crc, s), b)
  {
    assert (s + [b])[..|s + [b]| - 1] == s;
  }

  /** The byte values of the ASCII text "123456789", the check input of the
      CRC-32 catalogue. */
  const CheckInput: seq<bv8> := [0x31, 0x32, 0x33, 0x34, 0x35, 0x36, 0x37, 0x38, 0x39]

  /** A known register value after a prefix of s, stepped by the next byte. */
  lemma FoldPrefix(s: seq<bv8>, k: nat, b: bv8, c: bv32, next: bv32)
    requires k < |s| && s[k] == b && Fold(Seed, s[..k]) == c && Step(c, b) == next
    ensures Fold(Seed, s[..k + 1]) == next
  {
    FoldAppend(Seed, s[..k], s[k]);
    assert s[..k + 1] == s[..k] + [s[k]];
  }

  /** The register after the first three bytes of the check input. */
  lemma CheckPrefix3()
    ensures Fold(Seed, CheckInput[..3]) == 0x77B7_9C2D
  {
    var s := CheckInput;
    assert TableEntry(0xCE) == 0x7CDC_EFB7;
    assert Step(Seed, 0x31) == 0x7C23_1048;
    assert TableEntry(0x7A) == 0xB0D0_9822;
    assert Step(0x7C23_1048, 0x32) == 0xB0AC_BB32;
    assert TableEntry(0x01) == 0x7707_3096;
    assert Step(0xB0AC_BB32, 0x33) == 0x77B7_9C2D;
    assert s[..0] == [];
    FoldPrefix(s, 0, 0x31, 0xFFFF_FFFF, 0x7C23_1048);
    FoldPrefix(s, 1, 0x32, 0x7C23_1048, 0xB0AC_BB32);
    FoldPrefix(s, 2, 0x33, 0xB0AC_BB32, 0x77B7_9C2D);
  }

  /** The register after the first six bytes of the check input. */
  lemma CheckPrefix6()
    ensures Fold(Seed, CheckInput[..6]) == 0xF68D_2C9E
  {
    var s := CheckInput;
    CheckPrefix3();
    assert TableEntry(0x19) == 0x646B_A8C0;
    assert Step(0x77B7_9C2D, 0x34) == 0x641C_1F5C;
    assert TableEntry(0x69) == 0x346E_D9FC;
    assert Step(0x641C_1F5C, 0x35) == 0x340A_C5E3;
    assert TableEntry(0xD5) == 0xF6B9_265B;
    assert Step(0x340A_C5E3, 0x36) == 0xF68D_2C9E;
    FoldPrefix(s, 3, 0x34, 0x77B7_9C2D, 0x641C_1F5C);
    FoldPrefix(s, 4, 0x35, 0x641C_1F5C, 0x340A_C5E3);
    FoldPrefix(s, 5, 0x36, 0x340A_C5E3, 0xF68D_2C9E);
  }

  /** The standard check value: CRC-32("123456789") = 0xCBF43926. */
  lemma CheckValue()
    ensures Checksum(CheckInput) == 0xCBF4_3926
  {
    var s := CheckInput;
    CheckPrefix6();
    assert TableEntry(0xA9) == 0xAF0A_1B4C;
    assert Step(0xF68D_2C9E, 0x37) == 0xAFFC_9660;
    assert TableEntry(0x58) == 0x65B0_D9C6;
    assert Step(0xAFFC_9660, 0x38) == 0x651F_2550;
    assert TableEntry(0x69) == 0x346E_D9FC;
    assert Step(0x651F_2550, 0x39) == 0x340B_C6D9;
    FoldPrefix(s, 6, 0x37, 0xF68D_2C9E, 0xAFFC_9660);
    FoldPrefix(s, 7, 0x38, 0xAFFC_9660, 0x651F_2550);
    FoldPrefix(s, 8, 0x39, 0x651F_2550, 0x340B_C6D9);
    assert s[..9] == s;
  }

  // ---------------------------------------------------------------------
  // The loop of Compute, reading a concrete table

  /** The table index of one step: the low byte of crc ^ b. */
  function Index(crc: bv32, b: bv8): (k: int)
    ensures 0 <= k < TableSize
  {
    ((crc ^ b as bv32) & 0xFF) as int
  }

  /** t holds TableEntry(i) at every index i. */
  ghost predicate IsTable(t: seq<bv32>) {
    |t| == TableSize && forall i: bv32 :: i < 256 ==> t[i as int] == TableEntry(i)
  }

  /** The register after feeding s from crc, each byte looked up in t at Index. */
  function TableFold(t: seq<bv32>, crc: bv32, s: seq<bv8>): bv32
    requires |t| == TableSize
    decreases |s|
  {
    if s == [] then crc
    else
      var c := TableFold(t, crc, s[..|s| - 1]);
      (c >> 8) ^ t[Index(c, s[|s| - 1])]
  }

  /** With the right table, a lookup is a step of the specification. */
  lemma LookupIsStep(t: seq<bv32>, c: bv32, b: bv8)
    requires IsTable(t)
    ensures (c >> 8) ^ t[Index(c, b)] == Step(c, b)
  {}

  /** Reading the right table gives the specification's register. */
  lemma {:induction false} TableFoldIsFold(t: seq<bv32>, crc: bv32, s: seq<bv8>)
    requires IsTable(t)
    ensures TableFold(t, crc, s) == Fold(crc, s)
    decreases |s|
  {
    if s != [] {
      TableFoldIsFold(t, crc, s[..|s| - 1]);
      LookupIsStep(t, TableFold(t, crc, s[..|s| - 1]), s[|s| - 1]);
    }
  }

  /** The register read from the right table, XOR the seed, is the CRC-32. */
  lemma TableChecksum(t: seq<bv32>, s: seq<bv8>, c: bv32)
    requires IsTable(t) && c == TableFold(t, Seed, s)
    ensures c ^ Seed == Checksum(s)
  {
    TableFoldIsFold(t, Seed, s);
  }

  /** One more byte of s, already read into b, extends the fold by one lookup. */
  lemma TableFoldByte(t: seq<bv32>, s: seq<bv8>, i: nat, b: bv8, c: bv32)
    requires |t| == TableSize && i < |s| && b == s[i]
    requires c == TableFold(t, Seed, s[..i])
    ensures (c >> 8) ^ t[Index(c, b)] == TableFold(t, Seed, s[..i + 1])
  {
    assert s[..i + 1][..i] == s[..i];
  }

  // ---------------------------------------------------------------------
  // The source's static class

  /** The process-wide CRC engine: a 256-entry table built once and read
      only afterwards. */
  class Engine {
    const table: array<bv32>

    ghost predicate Valid()
      reads this, table
    {
      IsTable(table[..])
    }

    /** The static initializer: fills the table in place, one entry at a
        time, each by eight rounds on a local register. */
    constructor ()
      ensures Valid() && fresh(table)
    {
      var t := new bv32[TableSize];
      for i := 0 to TableSize
        invariant forall k: bv32 :: k < 256 && k as int < i ==> t[k as int] == TableEntry(k)
      {
        var r: bv32 := i as bv32;
        for j := 0 to BitsPerByte
          invariant Rounds(r, BitsPerByte - j) == Rounds(i as bv32, BitsPerByte)
        {
          r := if r & 1 != 0 then (r >> 1) ^ Polynomial else r >> 1;
        }
        t[i] := r;
        forall k: bv32 | k < 256 && k as int == i
          ensures t[k as int] == TableEntry(k)
        {
          IndexRoundTrip(k);
        }
      }
      forall k: bv32 | k < 256
        ensures t[..][k as int] == TableEntry(k)
      {
        IndexRoundTrip(k);
      }
      table := t;
    }

    /** The CRC-32 of bytes[0..length): only that prefix is read, and a
        length of zero or less gives the checksum of the empty input, 0.
        A length beyond the array would index out of range in the source,
        so callers must not pass one. */
    method Compute(bytes: array<bv8>, length: int) returns (crc: bv32)
      requires Valid()
      requires length <= bytes.Length
      ensures crc == Checksum(bytes[..if length < 0 then 0 else length])
    {
      var c := Seed;
      var i := 0;
      while i < length
        invariant 0 <= i <= if length < 0 then 0 else length
        invariant c == TableFold(table[..], Seed, bytes[..i])
      {
        var b := bytes[i];
        TableFoldByte(table[..], bytes[..], i, b, c);
        c := (c >> 8) ^ table[Index(c, b)];
        i := i + 1;
      }
      TableChecksum(table[..], bytes[..i], c);
      crc := c ^ Seed;
    }
  }
}
