# DS4 battery monitor — verified model of the protocol and status core

The DS4 battery monitor is a small desktop tool that polls a Sony DualShock 4
controller over Bluetooth HID every ten seconds. On each poll it sends the
controller a 78-byte output report, 0x11, sealed with a CRC-32 trailer. It
then reads the controller's input report, decodes byte 32 into a battery
level and a charging flag, and shows the result in four places: a coloured
bar, a status text, a tray tooltip and a 24x24 tray icon.

This project models that core in Dafny and proves properties of it.

- `crc32.dfy` (module `Crc32`): the CRC-32 of IEEE 802.3 (clause 3.2.9) in
  reflected bit order, with polynomial 0xEDB88320 and seed and final XOR
  0xFFFFFFFF. It has two parts.
  - The specification functions `Rounds`, `TableEntry`, `Step`, `Fold` and
    `Checksum`.
  - The class `Engine`. Its constructor fills the 256-entry table in place
    with the source's nested loops. `Compute` runs the table-driven loop, and
    its contract says it returns `Checksum` of the first `length` bytes.
    `CheckValue` proves the catalogue check value: 0xCBF43926 for "123456789".
- `report.dfy` (module `Reports`): the status request report, as a value and
  built in place the way the poll builds it.
  - As a value: `Request`, `Seal` and the little-endian trailer codec.
  - In place: `BuildRequest` zero-fills the arrays, writes the header, copies
    with `ArrayCopy`, computes the CRC with `Engine.Compute`, and encodes it
    with `GetBytes`.
- `status.dfy` (module `Status`): decoding the battery byte and the input
  report, and the status one poll ends with, where the device I/O is given as
  data (`DeviceIo`).
- `presentation.dfy` (module `Presentation`): the colour rule, the clamped
  level, the tray icon's fill width, the status text and the tooltip. Each
  text has a read-back function and a round-trip lemma.
- `monitor.dfy` (module `Monitor`): the window as a class.
  - Its fields are the last level, the charging flag, the four display
    elements and the reports sent.
  - Its methods are `UpdateUI` with its helper `DrawTrayIcon`,
    `ResetStatus`, and the poll `UpdateBatteryStatus` with its parts
    `SendRequest` and `ShowResponse`.
  - `Valid()` says that every display element shows the stored status. Every
    method keeps it.
- `wrappers.dfy` (module `Wrappers`): `Option`.

Three details of the code that the model keeps exactly:

- **The input buffer.** The input report is read into a buffer as long as
  the device's largest input report. The decoder checks `bytesRead > 0` and
  byte 0, and then indexes byte 32 of that buffer. So a read of fewer than 33
  bytes into a longer buffer decodes whatever the buffer holds at offset 32,
  which is zero for a fresh array. An exception, and so the unknown status,
  comes only when the buffer itself is shorter than 33 bytes.
  `Status.ParseResponse` models exactly this. Its `buffer` is the whole
  array, whose `bytesRead` may be smaller than its length.
- **The fill width.** The tray icon computes it in floating point as
  `(int)(18 * (L / 100.0))`. The model uses the integer `18 * L / 100`. For
  L in 0..100, 18·L/100 = 9·L/50 is an integer only at L = 0, 50 and 100.
  There L / 100.0 is 0, 0.5 or 1 and the product 0, 9 or 18, all exact in
  double precision. For every other L the exact value lies at least 1/50
  away from an integer, far more than the rounding error of the two double
  operations, so truncation gives floor(18·L/100) in every case.
- **Closing the stream.** The `using` block disposes the stream after its
  body has already shown a status. When disposing throws, the handler
  then makes a second update, to the unknown status. `DeviceIo.Found` carries the
  outcome as `closeOk`, and the poll then ends in (-1, false) after two
  updates. When the body itself throws (at the write, the read, or an
  index past the end of the buffer), the handler runs once whatever
  disposing does.

## Model

| member | source | states |
|---|---|---|
| Crc32.Engine.constructor | MainWindow.xaml.cs:338-348 | the table has 256 entries, and entry i is i after eight rounds of "shift right, XOR 0xEDB88320 if a 1 bit fell out" |
| Crc32.Engine.Compute | MainWindow.xaml.cs:349-355 | returns the CRC-32 (`Checksum`) of exactly the first `length` bytes; a zero or negative length gives the checksum of the empty input |
| Crc32.TableFoldIsFold | MainWindow.xaml.cs:351-353 | folding with lookups in a correctly filled table equals the specification fold with seed 0xFFFFFFFF |
| Crc32.ChecksumOfEmpty | MainWindow.xaml.cs:351-354 | the checksum of no bytes is 0 |
| Crc32.FoldAppend | MainWindow.xaml.cs:352-353 | each byte advances the register by one table step: the checksum is a left fold over the input |
| Crc32.CheckValue | MainWindow.xaml.cs:333-355 | the checksum of ASCII "123456789" is 0xCBF43926, the check value of the standard CRC-32 |
| Reports.FromLittleEndianOfLittleEndian | MainWindow.xaml.cs:208 | decoding the four little-endian trailer bytes gives the checksum back |
| Reports.LittleEndianOfFromLittleEndian | MainWindow.xaml.cs:208 | encoding a decoded 4-byte trailer gives the same bytes |
| Reports.Covered | MainWindow.xaml.cs:204-206 | the checksummed bytes are 0xA2 followed by the first 74 report bytes |
| Reports.Seal | MainWindow.xaml.cs:204-208 | sealing yields 78 bytes, keeps the 74 covered bytes, and appends the little-endian CRC of 0xA2 ++ those bytes |
| Reports.SealIsValid | MainWindow.xaml.cs:204-208 | a sealed report passes the receiver's checksum check, and writing the trailer does not alter bytes 0..73 |
| Reports.ValidIsSealed | MainWindow.xaml.cs:204-208 | every 78-byte report that passes the checksum check is the seal of its own first 74 bytes |
| Reports.RequestBody | MainWindow.xaml.cs:200-201 | 74 bytes: header 11 80 00 01, then zeros |
| Reports.RequestFormat | MainWindow.xaml.cs:200-208 | the request `Request()`, the sealed request body, is 78 bytes with header 11 80 00 01, zeros at 4..73, and a valid checksum trailer |
| Reports.ArrayCopy | MainWindow.xaml.cs:206 | the destination afterwards is its old prefix, the copied slice of the source, and its old suffix |
| Reports.GetBytes | MainWindow.xaml.cs:208 | a fresh 4-byte array holding the value least significant byte first |
| Reports.NewReport | MainWindow.xaml.cs:200-201 | a fresh 78-byte array holding the request body followed by a zero trailer |
| Reports.CoveredBytes | MainWindow.xaml.cs:204-206 | a fresh 75-byte array holding 0xA2 and then report bytes 0..73 |
| Reports.BuildRequest | MainWindow.xaml.cs:200-208 | the array built in place holds exactly the request report |
| Status.DecodeBatteryByte | MainWindow.xaml.cs:219-221 | level = min(10 · low nibble, 100), always a multiple of ten in 0..100; nibbles 10..15 give 100; charging is bit 4 |
| Status.DecodeIgnoresHighBits | MainWindow.xaml.cs:219-221 | bits 5..7 of the battery byte never affect the status |
| Status.DecodeEqualIff | MainWindow.xaml.cs:219-221 | two bytes decode alike iff they agree on bit 4 and on the nibble, nibbles 10..15 counting as equal |
| Status.EncodeBatteryByte | MainWindow.xaml.cs:219-221 | a battery byte that decodes to the reading: its nibble is at most 10 and it has no high bits |
| Status.DecodeEncode | MainWindow.xaml.cs:219-221 | decoding the byte for a reading gives that reading back |
| Status.ParseResponse | MainWindow.xaml.cs:216-225 | an accepted response (bytes read, id 0x11, byte 32 present) decodes byte 32; every other response gives (-1, false) |
| Status.ParseKnownIff | MainWindow.xaml.cs:216-227 | the status has a level iff the response is accepted; otherwise it is exactly (-1, false) |
| Status.ParseReadsOnly | MainWindow.xaml.cs:216-221 | the status depends on the buffer only through its length, byte 0 and byte 32 |
| Status.TickStatus | MainWindow.xaml.cs:190-228 | a poll ends without a status (None) iff listing the controllers threw; otherwise it yields a reading iff the device is found, opens, takes the write, returns an accepted response and closes, and (-1, false) in every other case |
| Status.SecondUpdateIsUnknown | MainWindow.xaml.cs:197-227 | a poll that updates the status twice ends in (-1, false), and an accepted response is decoded without an exception |
| Status.TickStatusShape | MainWindow.xaml.cs:190-228 | a poll ends without a status iff it makes no update (`TickUpdates`, the count of status updates in 192-227, is 0); every other poll ends in the unknown status or a valid reading |
| Status.TickShowsController | MainWindow.xaml.cs:197-222 | a controller that answers with the byte for a reading is shown in that reading |
| Presentation.GaugeColour | MainWindow.xaml.cs:238-239 | blue iff charging; red iff not charging and level <= 20; green iff not charging and level > 20 |
| Presentation.Clamp | MainWindow.xaml.cs:283 | the icon's level is the level clamped into 0..100 |
| Presentation.ColourIgnoresClamp | MainWindow.xaml.cs:283-285 | the tray icon's colour, taken from the clamped level, equals the bar's colour, taken from the raw level |
| Presentation.FillWidth | MainWindow.xaml.cs:284 | the fill width is floor(18 · L / 100), in 0..18 |
| Presentation.FillWidthMonotone | MainWindow.xaml.cs:284 | a higher level never gets a narrower fill |
| Presentation.FillWidthExtremes | MainWindow.xaml.cs:284-289 | the fill is empty iff L < 6 and full iff L = 100 |
| Presentation.Icon | MainWindow.xaml.cs:271-290 | level -1 gives the "?" glyph; otherwise a fill of the clamped width and colour is drawn iff the width is positive |
| Presentation.IconFill | MainWindow.xaml.cs:280-290 | for a level other than -1, a drawn fill is 1..18 pixels wide in the bar's colour, and there is none iff the level is below 6 |
| Presentation.NatToString | MainWindow.xaml.cs:249-250 | decimal digits with no leading zero |
| Presentation.ParseNatToString | MainWindow.xaml.cs:249-250 | reading the decimal text back gives the number |
| Presentation.IntToString | MainWindow.xaml.cs:249-250 | the text starts with a minus sign iff the number is negative, and every other character is a digit |
| Presentation.ReadNatOfNatToString | MainWindow.xaml.cs:249-250 | the digits of n are read back as n |
| Presentation.ReadIntOfIntToString | MainWindow.xaml.cs:249-250 | the decimal text of any integer, negative or not, is read back as that integer |
| Presentation.StatusText | MainWindow.xaml.cs:242-251 | level -1 shows the language's "Disconnected" entry, or "?" without one; a level shows "⚡N%" while charging and "N%" otherwise |
| Presentation.TrayText | MainWindow.xaml.cs:242-251 | "DS4: " followed by the "Disconnected" entry (fallback "Disconnected") at -1, and by "N%" otherwise |
| Presentation.ReadStatusTextRoundTrip | MainWindow.xaml.cs:249 | reading the status text of any reading gives back its level and charging flag |
| Presentation.UnknownTextIsNoReading | MainWindow.xaml.cs:244 | the disconnected text is never read as a reading when the language's entry is not one |
| Presentation.SourceEntriesAreNoReading | MainWindow.xaml.cs:69-79 | the built-in entries "未接続" and "Disconnected", and a missing entry, are never read as a reading |
| Presentation.ReadTrayTextRoundTrip | MainWindow.xaml.cs:250 | the tooltip of a reading gives back its level |
| Presentation.TrayTextExtendsStatusText | MainWindow.xaml.cs:249-250 | when not charging, the tooltip is "DS4: " followed by the status text |
| Monitor.Window.constructor | MainWindow.xaml.cs:29-48 | the window starts with (-1, false) on display, then polls once: afterwards it shows the poll's status (still (-1, false) when the poll escaped), made one update more than the poll, and sent the request iff the device opened |
| Monitor.Window.UpdateUI | MainWindow.xaml.cs:230-255 | stores exactly (level, charging), redraws every display element from it, and counts one update |
| Monitor.Window.DrawTrayIcon | MainWindow.xaml.cs:257-291 | the icon's content equals `Icon(level, charging)` |
| Monitor.Window.ResetStatus | MainWindow.xaml.cs:310 | shows the unknown status (-1, false) |
| Monitor.Window.SendRequest | MainWindow.xaml.cs:199-210 | the request report is appended to the reports sent, and nothing else changes |
| Monitor.Window.UpdateBatteryStatus | MainWindow.xaml.cs:190-228 | when listing the controllers throws, nothing changes and no update is made; otherwise the window ends showing `TickStatus(io)` after `TickUpdates(io)` updates: one, or two when closing the stream fails after the body showed a status; the request is sent iff the device opened |
| Monitor.Window.ShowResponse | MainWindow.xaml.cs:213-227 | after a successful write, shows the status of `TickStatus` for the read outcome and close outcome given, with the matching number of updates, and sends nothing |

## Left out

- HID device enumeration, `Open`, `Write`, `Read`, `GetMaxInputReportLength` and the stream's `Dispose` are foreign I/O. Each poll takes their outcomes as the `DeviceIo` value, and an exception from any of them is one of its cases. Enumeration at line 192 runs before the `try`: its exception (`EnumerationFailed`) leaves the poll with no update. Where it goes next is not modelled; the source installs no handler for it, so from the timer it reaches the dispatcher, and from the constructor it aborts the window.
- `Thread.Sleep(150)` and the ten-second `DispatcherTimer` are timing and UI threading. They are not modelled; each poll is one method call.
- GDI+ drawing, `GetHicon`/`DestroyIcon`, the `NotifyIcon` and the fixed battery frame are native resources. Only the glyph/fill/colour decision is kept, as `TrayIcon`.
- The window bar's width, `(Width - 2) * max(0, level) / 100.0`, is floating point over a WPF property. Only the bar's colour is modelled.
- Settings load and save, the language dictionaries and the tray menu are file I/O and UI glue. Looking up the current language is assumed to succeed, and its "Disconnected" entry is the `Option` constant `Window.entry`.
- Window dragging and the other P/Invoke calls are OS calls with no logic to model.
- The application class is not part of this model. It holds the single-instance mutex, the message box and the settings-file cleanup.
- `BitConverter.GetBytes` follows the host's byte order. The model fixes it to little-endian, the order of every host the tool runs on.
- Status.TickStatus: models the enumeration exception at line 192 only as the end of the poll (None), not where it propagates. It does not model an exception thrown by `UpdateUI` itself (a WPF or GDI+ failure while redrawing). Inside the `try` of the poll it would lead to a further unknown status; the model treats every display update as succeeding.
- Monitor.Window.UpdateBatteryStatus: assumes every `UpdateUI` and `ResetStatus` call succeeds. A throw from `UpdateUI` at line 222 would be caught and reset; a throw from the `ResetStatus` calls at lines 193 and 227, which run outside the `try`, would escape the poll. Neither is modelled. The enumeration exception at line 192 is modelled as ending the poll with nothing changed; what the dispatcher then does with it is not.
- Monitor.Window.constructor: assumes its display updates do not throw. When its first poll escapes with the enumeration exception, the source's constructor throws and no window exists; the model instead ends the constructor with the unknown status on display and one update.
- Status.TickStatusShape: "no update" stands for an exception leaving the poll only at line 192. The `ResetStatus` calls at lines 193 and 227 run outside the `try` too, but the display updates are assumed not to throw (see the lines above).
- Crc32.Engine.Compute: requires `length <= bytes.Length`. Beyond that the source throws IndexOutOfRangeException, which no caller triggers; the exception path is not modelled.
- Reports.ArrayCopy: requires both ranges to be in bounds. `Array.Copy` throws otherwise, and the builder never triggers that.
- The checksum is not proved equal to a bit-serial reference definition of CRC-32. It is tied to the standard by the check value "123456789" ↦ 0xCBF43926 instead.
