/** The main window's battery state: the last status shown, the texts,
    colour and icon that show it, and the poll that refreshes it every ten
    seconds. Device I/O is an input of the poll, and the reports handed to
    the device are recorded in a field. */
module Monitor {
  import opened Wrappers
  import opened Status
  import opened Presentation
  import Crc32
  import Reports

  class Window {
    /** The current language's "Disconnected" entry, when it has one. */
    const entry: Option<string>

    var lastLevel: int
    var isCharging: bool
    /** The status text under the bar. */
    var statusText: string
    /** The tray icon's tooltip. */
    var trayText: string
    /** The colour of the window's bar. */
    var barColour: Colour
    /** The content of the tray icon. */
    var trayIcon: TrayIcon
    /** Every report handed to the device's stream, oldest first. */
    var sentReports: seq<seq<bv8>>
    /** How many times the status has been updated. */
    ghost var updates: nat

    /** The last status stored. */
    function Shown(): BatteryStatus
      reads this
    {
      BatteryStatus(lastLevel, isCharging)
    }

    /** Every display element shows the stored status. */
    ghost predicate Valid()
      reads this
    {
      statusText == StatusText(lastLevel, isCharging, entry)
      && trayText == TrayText(lastLevel, entry)
      && barColour == GaugeColour(lastLevel, isCharging)
      && trayIcon == Icon(lastLevel, isCharging)
    }

    /** The window starts by showing the unknown status, and then polls the
        controller once. */
    constructor (entry: Option<string>, engine: Crc32.Engine, io: DeviceIo)
      requires engine.Valid()
      ensures Valid() && this.entry == entry
      ensures Shown() == GetOr(TickStatus(io), Unknown)
      ensures sentReports == if RequestSent(io) then [Reports.Request()] else []
      ensures updates == 1 + TickUpdates(io)
    {
      this.entry := entry;
      lastLevel := -1;
      isCharging := false;
      statusText := "";
      trayText := "";
      barColour := Red;
      trayIcon := QuestionMark;
      sentReports := [];
      updates := 0;
      new;
      UpdateUI(-1, false);
      UpdateBatteryStatus(engine, io);
    }

    /** Stores the status and redraws every display element from it. */
    method UpdateUI(level: int, charging: bool)
      modifies this
      ensures lastLevel == level && isCharging == charging && Valid()
      ensures sentReports == old(sentReports) && updates == old(updates) + 1
    {
      lastLevel := level;
      isCharging := charging;
      barColour := if charging then DodgerBlue else if level <= LowLevel then Red else LimeGreen;
      if level == -1 {
        statusText := if entry.Some? then entry.value else UnknownText;
        trayText := TrayPrefix + (if entry.Some? then entry.value else DisconnectedText);
      } else {
        var percent := IntToString(level) + "%";
        statusText := if charging then [Bolt] + percent else percent;
        trayText := TrayPrefix + percent;
      }
      trayIcon := DrawTrayIcon(level, charging);
      updates := updates + 1;
    }

    /** Decides the icon's content: the question mark, or the gauge with a
        fill as wide as the clamped level when that is at least one pixel. */
    method DrawTrayIcon(level: int, charging: bool) returns (icon: TrayIcon)
      ensures icon == Icon(level, charging)
    {
      if level == -1 {
        icon := QuestionMark;
      } else {
        var currentLevel := if level < 0 then 0 else if level > 100 then 100 else level;
        var fillWidth := 18 * currentLevel / 100;
        var brush := if charging then DodgerBlue else if currentLevel <= LowLevel then Red else LimeGreen;
        if fillWidth > 0 {
          icon := Gauge(Some(Fill(fillWidth, brush)));
        } else {
          icon := Gauge(None);
        }
      }
    }

    /** Shows the unknown status. */
    method ResetStatus()
      modifies this
      ensures Shown() == Unknown && Valid()
      ensures sentReports == old(sentReports) && updates == old(updates) + 1
    {
      UpdateUI(-1, false);
    }

    /** Builds the status request and hands it to the device's stream. */
    method SendRequest(engine: Crc32.Engine)
      requires engine.Valid()
      modifies this`sentReports
      ensures sentReports == old(sentReports) + [Reports.Request()]
    {
      var report := Reports.BuildRequest(engine);
      sentReports := sentReports + [report[..]];
    }

    /** One poll: find the controller, send it the status request, read its
        input report and show the status it carries. An exception from
        listing the controllers leaves the poll with nothing changed. Every
        other failure, including an exception from the device or from
        closing the stream, shows the unknown status instead. */
    method UpdateBatteryStatus(engine: Crc32.Engine, io: DeviceIo)
      requires engine.Valid() && Valid()
      modifies this
      ensures Valid() && Shown() == GetOr(TickStatus(io), old(Shown()))
      ensures io.EnumerationFailed? ==> unchanged(this)
      ensures sentReports == old(sentReports) + if RequestSent(io) then [Reports.Request()] else []
      ensures updates == old(updates) + TickUpdates(io)
    {
      if io.EnumerationFailed? {
        return;
      }
      if io.NotFound? {
        ResetStatus();
        return;
      }
      if !io.openOk {
        ResetStatus();
        return;
      }
      SendRequest(engine);
      if !io.writeOk {
        ResetStatus();
        return;
      }
      ShowResponse(io.read, io.closeOk);
    }

    /** The rest of a poll once the request was written: show the status the
        read response carries, or the unknown status when the read threw or
        the response is not accepted, and show the unknown status again when
        closing the stream throws after that. */
    method ShowResponse(read: ReadResult, closeOk: bool)
      modifies this
      ensures Valid() && Shown() == TickStatus(Found(true, true, read, closeOk)).value
      ensures sentReports == old(sentReports)
      ensures updates == old(updates) + TickUpdates(Found(true, true, read, closeOk))
    {
      match read {
        case ReadFailed =>
          ResetStatus();
        case ReadOk(inputReport, bytesRead) =>
          if bytesRead > 0 && |inputReport| == 0 {
            // inputReport[0] throws; the handler shows the unknown status
            ResetStatus();
            return;
          }
          if bytesRead > 0 && inputReport[0] == InputReportId {
            if |inputReport| <= BatteryOffset {
              // inputReport[32] throws
              ResetStatus();
              return;
            }
            var batteryByte := inputReport[BatteryOffset];
            var level := Min(Nibble(batteryByte) * LevelStep, FullLevel);
            var charging := batteryByte & ChargingBit != 0;
            UpdateUI(level, charging);
          } else {
            ResetStatus();
          }
          if !closeOk {
            // Disposing the stream throws after the body has shown a status
            ResetStatus();
          }
      }
    }
  }
}
