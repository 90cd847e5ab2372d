/** The Bluetooth output report 0x11 that asks the controller for its input
    report. It is 78 bytes long: a fixed four-byte header, zero padding, and
    a CRC-32 trailer over the Bluetooth HID transaction header 0xA2 followed
    by the first 74 bytes of the report, written least significant byte
    first. */
module Reports {
  import Crc32

  /** Length of the output report in bytes. */
  const ReportLength: nat := 78
  /** Offset of the four checksum bytes; also the number of bytes they cover. */
  const ChecksumOffset: nat := 74
  /** Number of bytes in the checksum trailer. */
  const ChecksumLength: nat := 4
  /** Bluetooth HID transaction header (DATA, output) prepended before the
      checksum is taken; it is not itself sent. */
  const TransactionHeader: bv8 := 0xA2
  /** The report id and three fixed header bytes that start the report. */
  const Header: seq<bv8> := [0x11, 0x80, 0x00, 0x01]

  // ---------------------------------------------------------------------
  // Little-endian encoding of the checksum

  /** The four bytes of x, least significant first. */
  function LittleEndian(x: bv32): (r: seq<bv8>)
    ensures |r| == ChecksumLength
  {
    [(x & 0xFF) as bv8, ((x >> 8) & 0xFF) as bv8,
     ((x >> 16) & 0xFF) as bv8, ((x >> 24) & 0xFF) as bv8]
  }

  /** The 32-bit value whose little-endian bytes are s. */
  function FromLittleEndian(s: seq<bv8>): bv32
    requires |s| == ChecksumLength
  {
    (s[0] as bv32) | (s[1] as bv32 << 8) | (s[2] as bv32 << 16) | (s[3] as bv32 << 24)
  }

  /** Decoding the encoding gives the value back. */
  lemma FromLittleEndianOfLittleEndian(x: bv32)
    ensures FromLittleEndian(LittleEndian(x)) == x
  {}

  /** Each byte lane of the assembled value holds its byte. */
  lemma Lanes(a: bv8, b: bv8, c: bv8, d: bv8, x: bv32)
    requires x == (a as bv32) | (b as bv32 << 8) | (c as bv32 << 16) | (d as bv32 << 24)
    ensures LittleEndian(x) == [a, b, c, d]
  {
    assert (x & 0xFF) as bv8 == a && ((x >> 8) & 0xFF) as bv8 == b;
    assert ((x >> 16) & 0xFF) as bv8 == c && ((x >> 24) & 0xFF) as bv8 == d;
  }

  /** Encoding the decoded value gives the bytes back. */
  lemma LittleEndianOfFromLittleEndian(s: seq<bv8>)
    requires |s| == ChecksumLength
    ensures LittleEndian(FromLittleEndian(s)) == s
  {
    var x := FromLittleEndian(s);
    Lanes(s[0], s[1], s[2], s[3], x);
    assert LittleEndian(x) == [s[0], s[1], s[2], s[3]];
    assert [s[0], s[1], s[2], s[3]] == s;
  }

  // ---------------------------------------------------------------------
  // The report as a value

  /** The bytes the checksum of a report covers: the transaction header, then
      everything in front of the trailer. */
  function Covered(body: seq<bv8>): (r: seq<bv8>)
    ensures |r| == |body| + 1 && r[0] == TransactionHeader && r[1..] == body
  {
    [TransactionHeader] + body
  }

  /** body with its checksum trailer appended. */
  function Seal(body: seq<bv8>): (r: seq<bv8>)
    requires |body| == ChecksumOffset
    ensures |r| == ReportLength
    ensures r[..ChecksumOffset] == body
    ensures r[ChecksumOffset..] == LittleEndian(Crc32.Checksum(Covered(body)))
  {
    body + LittleEndian(Crc32.Checksum(Covered(body)))
  }

  /** A report of the right length whose trailer is the checksum of the
      bytes it covers, as the controller checks on receipt. */
  predicate ChecksumValid(report: seq<bv8>) {
    |report| == ReportLength
    && FromLittleEndian(report[ChecksumOffset..]) == Crc32.Checksum(Covered(report[..ChecksumOffset]))
  }

  /** Sealing always yields a report that passes the check, and it leaves the
      bytes it covers as they were. */
  lemma SealIsValid(body: seq<bv8>)
    requires |body| == ChecksumOffset
    ensures ChecksumValid(Seal(body)) && Seal(body)[..ChecksumOffset] == body
  {
    FromLittleEndianOfLittleEndian(Crc32.Checksum(Covered(body)));
  }

  /** Every report that passes the check is the seal of its own first 74 bytes. */
  lemma ValidIsSealed(report: seq<bv8>)
    requires ChecksumValid(report)
    ensures report == Seal(report[..ChecksumOffset])
  {
    var body := report[..ChecksumOffset];
    LittleEndianOfFromLittleEndian(report[ChecksumOffset..]);
    assert report == body + report[ChecksumOffset..];
  }

  /** The bytes in front of the trailer: the header, then zero padding. */
  function RequestBody(): (r: seq<bv8>)
    ensures |r| == ChecksumOffset
    ensures r[..4] == Header
    ensures forall i :: 4 <= i < ChecksumOffset ==> r[i] == 0
  {
    Header + seq(ChecksumOffset - |Header|, _ => 0)
  }

  /** The status request report. */
  function Request(): seq<bv8> {
    Seal(RequestBody())
  }

  /** The request is 78 bytes long: the header, zeros up to the trailer, and
      a trailer that passes the checksum check. */
  lemma RequestFormat()
    ensures |Request()| == ReportLength
    ensures Request()[..4] == Header
    ensures forall i :: 4 <= i < ChecksumOffset ==> Request()[i] == 0
    ensures ChecksumValid(Request())
  {
    SealIsValid(RequestBody());
  }

  /** The request is the body followed by the encoding of the checksum of
      the bytes it covers. */
  lemma RequestTrailer(crc: bv32)
    requires crc == Crc32.Checksum(Covered(RequestBody()))
    ensures Request() == RequestBody() + LittleEndian(crc)
  {}

  // ---------------------------------------------------------------------
  // The report built in place

  /** Array.Copy: length elements of src from srcIndex onwards overwrite
      those of dst from dstIndex onwards. The elements are read before any
      is written, so src and dst may be the same array. */
  method ArrayCopy(src: array<bv8>, srcIndex: nat, dst: array<bv8>, dstIndex: nat, length: nat)
    requires srcIndex + length <= src.Length && dstIndex + length <= dst.Length
    modifies dst
    ensures dst[..] == old(dst[..dstIndex]) + old(src[srcIndex..srcIndex + length])
                       + old(dst[dstIndex + length..])
  {
    var part := src[srcIndex..srcIndex + length];
    ghost var before := dst[..];
    for k := 0 to length
      invariant dst.Length == |before|
      invariant forall j :: 0 <= j < dst.Length ==>
        dst[j] == if dstIndex <= j < dstIndex + k then part[j - dstIndex] else before[j]
    {
      dst[dstIndex + k] := part[k];
    }
    assert dst[..] == before[..dstIndex] + part + before[dstIndex + length..];
  }

  /** BitConverter.GetBytes on a 32-bit value, fixed to little-endian order. */
  method GetBytes(x: bv32) returns (a: array<bv8>)
    ensures fresh(a) && a[..] == LittleEndian(x)
  {
    a := new bv8[ChecksumLength];
    a[0] := (x & 0xFF) as bv8;
    a[1] := ((x >> 8) & 0xFF) as bv8;
    a[2] := ((x >> 16) & 0xFF) as bv8;
    a[3] := ((x >> 24) & 0xFF) as bv8;
  }

  /** A zeroed report with the header bytes written: the request body and
      a trailer that is still zero. */
  method NewReport() returns (report: array<bv8>)
    ensures fresh(report) && report.Length == ReportLength
    ensures report[..] == RequestBody() + [0, 0, 0, 0]
    ensures report[..ChecksumOffset] == RequestBody()
  {
    report := new bv8[ReportLength](_ => 0);
    report[0] := 0x11; report[1] := 0x80; report[2] := 0x00; report[3] := 0x01;
    assert report[..] == RequestBody() + [0, 0, 0, 0];
    assert report[..ChecksumOffset] == RequestBody();
  }

  /** A fresh array holding the transaction header and then the first 74
      bytes of report. */
  method CoveredBytes(report: array<bv8>) returns (crcData: array<bv8>)
    requires report.Length == ReportLength
    ensures fresh(crcData) && crcData[..] == Covered(report[..ChecksumOffset])
  {
    crcData := new bv8[ChecksumOffset + 1](_ => 0);
    crcData[0] := TransactionHeader;
    ArrayCopy(report, 0, crcData, 1, ChecksumOffset);
  }

  /** Builds the request as the poll does: header bytes into a zeroed report,
      the covered bytes copied behind the transaction header, their checksum
      computed and copied into the trailer. */
  method BuildRequest(engine: Crc32.Engine) returns (report: array<bv8>)
    requires engine.Valid()
    ensures fresh(report) && report[..] == Request()
  {
    report := NewReport();
    var crcData := CoveredBytes(report);
    assert crcData[..ChecksumOffset + 1] == Covered(RequestBody());
    var crc := engine.Compute(crcData, ChecksumOffset + 1);
    RequestTrailer(crc);
    var bytes := GetBytes(crc);
    ArrayCopy(bytes, 0, report, ChecksumOffset, ChecksumLength);
    assert report[..] == RequestBody() + LittleEndian(crc);
  }
}
