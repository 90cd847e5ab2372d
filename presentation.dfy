/** How a battery status is shown: the colour of the window's bar, the
    status text, the tray tooltip and the 24x24 tray icon. The drawing itself
    is left out; what is kept is every decision that depends on the status. */
module Presentation {
  import opened Wrappers
  import opened Status

  // ---------------------------------------------------------------------
  // Colour

  /** The brushes used for the gauge. */
  datatype Colour = DodgerBlue | Red | LimeGreen

  /** The level at or below which the battery is shown as low. */
  const LowLevel: int := 20

  /** Blue while charging; otherwise red when low and green when not. */
  function GaugeColour(level: int, charging: bool): (c: Colour)
    ensures c == DodgerBlue <==> charging
    ensures c == Red <==> !charging && level <= LowLevel
    ensures c == LimeGreen <==> !charging && level > LowLevel
  {
    if charging then DodgerBlue else if level <= LowLevel then Red else LimeGreen
  }

  /** The level drawn in the tray icon: the level clamped to 0..100. */
  function Clamp(level: int): (c: int)
    ensures 0 <= c <= FullLevel
    ensures 0 <= level <= FullLevel ==> c == level
    ensures level < 0 ==> c == 0
    ensures level > FullLevel ==> c == FullLevel
  {
    if level < 0 then 0 else if level > FullLevel then FullLevel else level
  }

  /** Clamping never changes the colour, so the window's bar (coloured by
      the raw level) and the tray icon (coloured by the clamped level) agree. */
  lemma ColourIgnoresClamp(level: int, charging: bool)
    ensures GaugeColour(Clamp(level), charging) == GaugeColour(level, charging)
  {}

  // ---------------------------------------------------------------------
  // Tray icon

  /** Width in pixels of the fill area inside the icon's battery frame. */
  const FillArea: nat := 18

  /** Width of the fill for a clamped level: 18 * level / 100 rounded down. */
  function FillWidth(level: int): (w: int)
    requires 0 <= level <= FullLevel
    ensures 0 <= w <= FillArea
    ensures 100 * w <= FillArea * level < 100 * (w + 1)
  {
    FillArea * level / 100
  }

  /** A larger level never gets a narrower fill. */
  lemma FillWidthMonotone(a: int, b: int)
    requires 0 <= a <= b <= FullLevel
    ensures FillWidth(a) <= FillWidth(b)
  {}

  /** The fill is empty exactly below 6 percent and full exactly at 100. */
  lemma FillWidthExtremes(level: int)
    requires 0 <= level <= FullLevel
    ensures FillWidth(level) == 0 <==> level < 6
    ensures FillWidth(level) == FillArea <==> level == FullLevel
  {}

  /** The fill rectangle of the icon. */
  datatype Fill = Fill(width: int, colour: Colour)

  /** The icon's content inside its frame: a grey question mark while no
      reading is available, otherwise the gauge with its fill, if any. */
  datatype TrayIcon = QuestionMark | Gauge(fill: Option<Fill>)

  function Icon(level: int, charging: bool): (i: TrayIcon)
    ensures i == QuestionMark <==> level == -1
    ensures i.Gauge? ==> (i.fill.Some? <==> FillWidth(Clamp(level)) > 0)
    ensures i.Gauge? && i.fill.Some? ==>
      i.fill.value == Fill(FillWidth(Clamp(level)), GaugeColour(Clamp(level), charging))
  {
    if level == -1 then QuestionMark
    else
      var current := Clamp(level);
      var width := FillWidth(current);
      if width > 0 then Gauge(Some(Fill(width, GaugeColour(current, charging))))
      else Gauge(None)
  }

  /** A drawn fill is between 1 and 18 pixels wide and has the bar's colour;
      there is no fill exactly when the level is below 6 percent. */
  lemma IconFill(level: int, charging: bool)
    requires level != -1
    ensures Icon(level, charging).Gauge?
    ensures Icon(level, charging).fill.None? <==> level < 6
    ensures Icon(level, charging).fill.Some? ==>
      1 <= Icon(level, charging).fill.value.width <= FillArea
      && Icon(level, charging).fill.value.colour == GaugeColour(level, charging)
  {
    FillWidthExtremes(Clamp(level));
    ColourIgnoresClamp(level, charging);
  }

  // ---------------------------------------------------------------------
  // Decimal text

  predicate IsDigit(c: char) {
    '0' <= c <= '9'
  }

  function DigitChar(d: nat): (c: char)
    requires d < 10
    ensures IsDigit(c)
  {
    ['0', '1', '2', '3', '4', '5', '6', '7', '8', '9'][d]
  }

  function DigitValue(c: char): (d: nat)
    requires IsDigit(c)
    ensures d < 10
  {
    (c - '0') as nat
  }

  /** n in decimal, as string interpolation formats it. */
  function NatToString(n: nat): (s: string)
    ensures |s| >= 1 && forall i :: 0 <= i < |s| ==> IsDigit(s[i])
    ensures s[0] == '0' ==> n == 0
    decreases n
  {
    if n < 10 then [DigitChar(n)] else NatToString(n / 10) + [DigitChar(n % 10)]
  }

  /** i in decimal, with a leading minus sign when negative. */
  function IntToString(i: int): (s: string)
    ensures |s| >= 1 && (s[0] == '-' <==> i < 0)
    ensures forall k :: 1 <= k < |s| ==> IsDigit(s[k])
    ensures i >= 0 ==> s == NatToString(i)
    ensures i < 0 ==> s == "-" + NatToString(-i)
  {
    if i < 0 then "-" + NatToString(-i) else NatToString(i)
  }

  /** The value of a string of decimal digits. */
  function ParseNat(s: string): nat
    requires forall i :: 0 <= i < |s| ==> IsDigit(s[i])
    decreases |s|
  {
    if s == [] then 0 else 10 * ParseNat(s[..|s| - 1]) + DigitValue(s[|s| - 1])
  }

  /** Reads a non-empty string of decimal digits as its value. */
  function ReadNat(t: string): Option<nat> {
    if |t| >= 1 && forall i :: 0 <= i < |t| ==> IsDigit(t[i]) then Some(ParseNat(t)) else None
  }

  /** Reads a decimal number with an optional leading minus sign. */
  function ReadInt(t: string): Option<int> {
    if |t| >= 1 && t[0] == '-' then
      match ReadNat(t[1..])
      case Some(n) => Some(-(n as int))
      case None => None
    else
      match ReadNat(t)
      case Some(n) => Some(n as int)
      case None => None
  }

  lemma DigitRoundTrip(d: nat)
    requires d < 10
    ensures DigitValue(DigitChar(d)) == d
  {}

  /** Reading back the decimal form of n gives n. */
  lemma {:induction false} ParseNatToString(n: nat)
    ensures ParseNat(NatToString(n)) == n
    decreases n
  {
    var s := NatToString(n);
    if n < 10 {
      DigitRoundTrip(n);
    } else {
      ParseNatToString(n / 10);
      DigitRoundTrip(n % 10);
      assert s[..|s| - 1] == NatToString(n / 10);
    }
  }

  lemma ReadNatOfNatToString(n: nat)
    ensures ReadNat(NatToString(n)) == Some(n)
  {
    ParseNatToString(n);
  }

  /** Reading back the decimal form of i, negative or not, gives i. */
  lemma ReadIntOfIntToString(i: int)
    ensures ReadInt(IntToString(i)) == Some(i)
  {
    var s := IntToString(i);
    if i < 0 {
      assert s[1..] == NatToString(-i);
      ReadNatOfNatToString(-i);
    } else {
      ReadNatOfNatToString(i);
    }
  }

  // ---------------------------------------------------------------------
  // Status text and tray tooltip

  /** The lightning sign in front of a level while charging. */
  const Bolt: char := '\U{26A1}'
  /** The status text while no reading is available and the language has no
      "Disconnected" entry. */
  const UnknownText: string := "?"
  /** The tooltip's fallback for a missing "Disconnected" entry. */
  const DisconnectedText: string := "Disconnected"
  /** The tooltip's prefix. */
  const TrayPrefix: string := "DS4: "

  /** The status text: the language's "Disconnected" entry (or "?") while no
      reading is available, otherwise the level and a percent sign, behind
      a lightning sign while charging. entry is the current language's
      "Disconnected" entry, when it has one. */
  function StatusText(level: int, charging: bool, entry: Option<string>): (t: string)
    ensures level == -1 ==> t == GetOr(entry, UnknownText)
    ensures level != -1 && charging ==> t == [Bolt] + PercentText(level)
    ensures level != -1 && !charging ==> t == PercentText(level)
  {
    if level == -1 then GetOr(entry, UnknownText)
    else if charging then [Bolt] + PercentText(level)
    else PercentText(level)
  }

  function PercentText(level: int): (t: string)
    ensures |t| >= 2 && t[|t| - 1] == '%'
  {
    IntToString(level) + "%"
  }

  /** The tray tooltip. */
  function TrayText(level: int, entry: Option<string>): (t: string)
    ensures |t| >= |TrayPrefix| && t[..|TrayPrefix|] == TrayPrefix
    ensures level == -1 ==> t[|TrayPrefix|..] == GetOr(entry, DisconnectedText)
    ensures level != -1 ==> t[|TrayPrefix|..] == PercentText(level)
  {
    if level == -1 then TrayPrefix + GetOr(entry, DisconnectedText)
    else TrayPrefix + PercentText(level)
  }

  /** Reads "N%" back as the level N. */
  function ReadPercent(t: string): Option<nat> {
    if |t| >= 1 && t[|t| - 1] == '%' then ReadNat(t[..|t| - 1]) else None
  }

  /** Reads a status text back as the reading it shows. */
  function ReadStatusText(t: string): Option<BatteryStatus> {
    if |t| > 0 && t[0] == Bolt then
      match ReadPercent(t[1..])
      case Some(n) => Some(BatteryStatus(n, true))
      case None => None
    else
      match ReadPercent(t)
      case Some(n) => Some(BatteryStatus(n, false))
      case None => None
  }

  lemma ReadPercentText(level: nat)
    ensures ReadPercent(PercentText(level)) == Some(level)
  {
    var t := PercentText(level);
    assert t[..|t| - 1] == NatToString(level);
    ReadNatOfNatToString(level);
  }

  /** The status text of a reading shows exactly that reading. */
  lemma ReadStatusTextRoundTrip(s: BatteryStatus, entry: Option<string>)
    requires s.level >= 0
    ensures ReadStatusText(StatusText(s.level, s.charging, entry)) == Some(s)
  {
    ReadPercentText(s.level);
    if s.charging {
      assert ([Bolt] + PercentText(s.level))[1..] == PercentText(s.level);
    } else {
      assert PercentText(s.level)[0] != Bolt;
    }
  }

  /** The status text shown while no reading is available is never read as a
      reading, whatever the language, as long as its entry is not itself a
      level. */
  lemma UnknownTextIsNoReading(entry: Option<string>)
    requires entry.Some? ==> ReadStatusText(entry.value).None?
    ensures ReadStatusText(StatusText(-1, false, entry)).None?
  {
    assert ReadPercent(UnknownText).None?;
  }

  /** The built-in languages' "Disconnected" entries, "未接続" and
      "Disconnected", and a missing entry never show as a reading. */
  lemma SourceEntriesAreNoReading(entry: Option<string>)
    requires entry == None || entry == Some("未接続") || entry == Some("Disconnected")
    ensures ReadStatusText(StatusText(-1, false, entry)).None?
  {
    assert ReadPercent(UnknownText).None?;
    assert ReadPercent("未接続").None?;
    assert ReadPercent("Disconnected").None?;
    assert "未接続"[0] != Bolt;
    assert "Disconnected"[0] != Bolt;
  }

  /** The tooltip of a reading shows its level. */
  lemma ReadTrayTextRoundTrip(level: int, entry: Option<string>)
    requires level >= 0
    ensures ReadPercent(TrayText(level, entry)[|TrayPrefix|..]) == Some(level)
  {
    ReadPercentText(level);
  }

  /** While not charging, the tooltip is the status text behind "DS4: ". */
  lemma TrayTextExtendsStatusText(level: int, entry: Option<string>)
    requires level != -1
    ensures TrayText(level, entry) == TrayPrefix + StatusText(level, false, entry)
  {}
}
