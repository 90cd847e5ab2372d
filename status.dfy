/** The battery status carried by the controller's Bluetooth input report
    0x11, and the outcome of one poll of the controller with its device I/O
    given as data. */
module Status {
  import opened Wrappers

  /** A battery reading: a percentage and whether the battery is charging.
      A level of -1 means that no reading is available. */
  datatype BatteryStatus = BatteryStatus(level: int, charging: bool)

  /** The status shown while no controller answers. */
  const Unknown := BatteryStatus(-1, false)

  /** Id of the input report that carries the battery byte. */
  const InputReportId: bv8 := 0x11
  /** Offset of the battery byte in the input report. */
  const BatteryOffset: nat := 32
  /** Bit of the battery byte that is set while the battery charges. */
  const ChargingBit: bv8 := 0x10
  /** Percent per step of the four-bit level. */
  const LevelStep: nat := 10
  /** The highest level reported. */
  const FullLevel: nat := 100

  function Min(a: int, b: int): int {
    if a < b then a else b
  }

  /** The four-bit level field: the low nibble of the battery byte. */
  function Nibble(b: bv8): (n: nat)
    ensures n < 16
  {
    (b & 0x0F) as nat
  }

  /** A status the controller can report: a level that is a multiple of ten
      between 0 and 100. */
  predicate IsReading(s: BatteryStatus) {
    0 <= s.level <= FullLevel && s.level % LevelStep == 0
  }

  // ---------------------------------------------------------------------
  // The battery byte

  /** Decodes the battery byte: ten percent per step of the low nibble,
      capped at 100, and the charging bit. */
  function DecodeBatteryByte(b: bv8): (s: BatteryStatus)
    ensures IsReading(s)
    ensures s.level == FullLevel <==> Nibble(b) >= 10
    ensures Nibble(b) < 10 ==> s.level == LevelStep * Nibble(b)
    ensures s.charging <==> b & ChargingBit != 0
  {
    BatteryStatus(Min(Nibble(b) * LevelStep, FullLevel), b & ChargingBit != 0)
  }

  /** Only the low five bits of the battery byte matter. */
  lemma DecodeIgnoresHighBits(a: bv8, b: bv8)
    requires a & 0x1F == b & 0x1F
    ensures DecodeBatteryByte(a) == DecodeBatteryByte(b)
  {
    assert a & 0x0F == (a & 0x1F) & 0x0F && b & 0x0F == (b & 0x1F) & 0x0F;
    assert a & ChargingBit == (a & 0x1F) & ChargingBit && b & ChargingBit == (b & 0x1F) & ChargingBit;
  }

  /** Two battery bytes decode alike exactly when they agree on the charging
      bit and on the nibble, the nibbles 10 to 15 all counting as full. */
  lemma DecodeEqualIff(a: bv8, b: bv8)
    ensures DecodeBatteryByte(a) == DecodeBatteryByte(b)
        <==> (a & ChargingBit == b & ChargingBit)
             && (Nibble(a) == Nibble(b) || (Nibble(a) >= 10 && Nibble(b) >= 10))
  {
    var x, y := DecodeBatteryByte(a), DecodeBatteryByte(b);
    if Nibble(a) < 10 && Nibble(b) < 10 {
      assert x.level == y.level <==> Nibble(a) == Nibble(b);
    }
    assert x.charging == y.charging <==> a & ChargingBit == b & ChargingBit;
  }

  /** A battery byte that decodes to s. */
  function EncodeBatteryByte(s: BatteryStatus): (b: bv8)
    requires IsReading(s)
    ensures Nibble(b) <= 10 && b & 0xE0 == 0
  {
    (s.level / LevelStep) as bv8 | (if s.charging then ChargingBit else 0)
  }

  /** Decoding the byte built for a reading gives that reading back. */
  lemma DecodeEncode(s: BatteryStatus)
    requires IsReading(s)
    ensures DecodeBatteryByte(EncodeBatteryByte(s)) == s
  {
    var n := (s.level / LevelStep) as bv8;
    var b := EncodeBatteryByte(s);
    assert n <= 10;
    assert b & 0x0F == n && (b & ChargingBit != 0 <==> s.charging);
    assert Nibble(b) == s.level / LevelStep;
  }

  // ---------------------------------------------------------------------
  // The input report

  /** The response carries a battery reading: something was read, it is
      report 0x11, and the buffer reaches the battery byte. */
  predicate Accepts(buffer: seq<bv8>, bytesRead: int) {
    bytesRead > 0 && |buffer| > BatteryOffset && buffer[0] == InputReportId
  }

  /** The status read from the input buffer after a read of bytesRead bytes.
      A buffer too short to index ends the poll with an exception, which is
      caught and shown as the unknown status. */
  function ParseResponse(buffer: seq<bv8>, bytesRead: int): (s: BatteryStatus)
    ensures Accepts(buffer, bytesRead) ==> s == DecodeBatteryByte(buffer[BatteryOffset])
    ensures !Accepts(buffer, bytesRead) ==> s == Unknown
  {
    if bytesRead > 0 && |buffer| > 0 && buffer[0] == InputReportId then
      if |buffer| > BatteryOffset then DecodeBatteryByte(buffer[BatteryOffset])
      else Unknown
    else Unknown
  }

  /** A response yields a reading exactly when it is accepted; otherwise the
      status is unknown. */
  lemma ParseKnownIff(buffer: seq<bv8>, bytesRead: int)
    ensures ParseResponse(buffer, bytesRead).level >= 0 <==> Accepts(buffer, bytesRead)
    ensures ParseResponse(buffer, bytesRead).level < 0 ==> ParseResponse(buffer, bytesRead) == Unknown
  {}

  /** The status depends on the buffer only through its length, its first
      byte and its battery byte. */
  lemma ParseReadsOnly(a: seq<bv8>, b: seq<bv8>, bytesRead: int)
    requires |a| == |b|
    requires |a| > 0 ==> a[0] == b[0]
    requires |a| > BatteryOffset ==> a[BatteryOffset] == b[BatteryOffset]
    ensures ParseResponse(a, bytesRead) == ParseResponse(b, bytesRead)
  {}

  // ---------------------------------------------------------------------
  // One poll

  /** What a read of the device returned: an exception, or the input buffer
      (as long as the device's largest input report) and the number of bytes
      read into it. */
  datatype ReadResult = ReadFailed | ReadOk(buffer: seq<bv8>, bytesRead: int)

  /** What the device I/O of one poll did: listing the controllers threw
      (outside the handler, so the exception leaves the poll), no controller
      was listed, or one was, together with whether opening it and writing the request to it
      succeeded, what the read returned, and whether closing the stream at
      the end of the `using` block succeeded. */
  datatype DeviceIo =
    | EnumerationFailed
    | NotFound
    | Found(openOk: bool, writeOk: bool, read: ReadResult, closeOk: bool)

  /** The request report is handed to the device in this poll. */
  predicate RequestSent(io: DeviceIo) {
    io.Found? && io.openOk
  }

  /** Decoding the response throws before any status is shown: the buffer
      has no first byte to look at, or it is report 0x11 but too short to
      reach the battery byte. */
  predicate DecodeThrows(buffer: seq<bv8>, bytesRead: int) {
    bytesRead > 0 && (|buffer| == 0 || (buffer[0] == InputReportId && |buffer| <= BatteryOffset))
  }

  /** The body of the `using` block ran to its end, so the stream is closed
      after a status was already shown. */
  predicate BodyCompleted(io: DeviceIo) {
    io.Found? && io.openOk && io.writeOk && io.read.ReadOk?
    && !DecodeThrows(io.read.buffer, io.read.bytesRead)
  }

  /** How many status updates one poll makes: none when the exception from
      listing the controllers leaves the poll; otherwise one, and a second
      (the unknown status from the handler) when closing the stream fails
      after the body already showed a status. */
  function TickUpdates(io: DeviceIo): nat {
    if io.EnumerationFailed? then 0
    else if BodyCompleted(io) && !io.closeOk then 2
    else 1
  }

  /** The status a poll ends with, or None when an exception leaves the
      poll before any status is shown. Every other failure of the I/O, a
      failure to close the stream, and every response that is not accepted
      end in the unknown status. */
  function TickStatus(io: DeviceIo): (r: Option<BatteryStatus>)
    ensures r.None? <==> io.EnumerationFailed?
    ensures r.Some? && r.value.level >= 0 <==>
      io.Found? && io.openOk && io.writeOk && io.read.ReadOk? && io.closeOk
      && Accepts(io.read.buffer, io.read.bytesRead)
    ensures r.Some? && r.value.level < 0 ==> r.value == Unknown
    ensures r.Some? && r.value.level >= 0 ==> r.value == DecodeBatteryByte(io.read.buffer[BatteryOffset])
  {
    match io
    case EnumerationFailed => None
    case NotFound => Some(Unknown)
    case Found(openOk, writeOk, read, closeOk) =>
      if !openOk || !writeOk then Some(Unknown)
      else match read
        case ReadFailed => Some(Unknown)
        case ReadOk(buffer, bytesRead) =>
          if closeOk then Some(ParseResponse(buffer, bytesRead)) else Some(Unknown)
  }

  /** A poll that shows a second status shows the unknown status last, and
      an accepted response is decoded without an exception. */
  lemma SecondUpdateIsUnknown(io: DeviceIo)
    ensures TickUpdates(io) == 2 ==> TickStatus(io) == Some(Unknown)
    ensures io.Found? && io.read.ReadOk? && Accepts(io.read.buffer, io.read.bytesRead)
      ==> !DecodeThrows(io.read.buffer, io.read.bytesRead)
  {}

  /** A poll that an exception leaves makes no update; every other poll
      ends in the unknown status or a reading. */
  lemma TickStatusShape(io: DeviceIo)
    ensures TickStatus(io).None? <==> TickUpdates(io) == 0
    ensures TickStatus(io).Some? ==>
      TickStatus(io).value == Unknown || IsReading(TickStatus(io).value)
  {}

  /** A controller that answers with a battery byte is shown in the state the
      byte encodes. */
  lemma TickShowsController(s: BatteryStatus, buffer: seq<bv8>, bytesRead: int)
    requires IsReading(s)
    requires |buffer| > BatteryOffset && buffer[0] == InputReportId && bytesRead > 0
    requires buffer[BatteryOffset] == EncodeBatteryByte(s)
    ensures TickStatus(Found(true, true, ReadOk(buffer, bytesRead), true)) == Some(s)
  {
    DecodeEncode(s);
  }
}
