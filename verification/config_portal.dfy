/** The decisions save_config (config_portal.py) takes from the parsed form:
    the transit system of a line code, the checkbox settings, the secondary
    line and the ROTATION_STATIONS list with the text written for it. */
module ConfigPortal {

  import opened Optional
  import opened Strings
  import opened Display
  import opened FormData

  /** The portal's list of CTA line codes: the board's codes and the colour names. */
  const PortalCtaLines: seq<string> :=
    ["Red", "Blue", "Brn", "Brown", "G", "Green", "Org", "Orange", "P", "Purple", "Pink", "Y", "Yellow"]

  /** The portal's detect_transit_type; `lineCode` is "" for a missing code. */
  function PortalTransitType(lineCode: string): (t: TransitType)
    ensures lineCode == "" ==> t == Metra
  {
    if lineCode == "" then Metra
    else if lineCode in PortalCtaLines then Cta
    else Metra
  }

  /** The portal calls CTA exactly the 13 listed codes; every code the board
      calls CTA is one of them, while the colour names ("Brown", ...) are CTA
      to the portal and Metra to the board. */
  lemma PortalTransitTypeShape(lineCode: string)
    ensures PortalTransitType(lineCode) == Cta <==> lineCode in PortalCtaLines
    ensures DetectTransitType(lineCode) == Cta ==> PortalTransitType(lineCode) == Cta
    ensures PortalTransitType("Brown") == Cta && DetectTransitType("Brown") == Metra
  {
    assert "" !in PortalCtaLines;
    assert "Brown" !in CtaLines;
  }

  /** A checkbox is on when the form sent it under either of its two names. */
  predicate Checked(params: Params, underscoreName: string, hyphenName: string) {
    underscoreName in params || hyphenName in params
  }

  /** The checkbox settings save_config writes. */
  datatype Checkboxes = Checkboxes(
    enableSecondary: bool,
    enableServiceAlerts: bool,
    enableAlertIcons: bool,
    enableAutoUpdate: bool,
    enableWatchdog: bool,
    enableStatusLed: bool,
    enableWeather: bool,
    enableSleepMode: bool,
    enableAdaptiveBrightness: bool)

  /** The nine settings: a form with none of the boxes turns every one off. */
  function CheckboxesOf(params: Params): (boxes: Checkboxes)
    ensures params == map[] ==> boxes == Checkboxes(false, false, false, false, false, false, false, false, false)
  {
    Checkboxes(
      Checked(params, "enable_secondary", "enable-secondary"),
      Checked(params, "enable_service_alerts", "enable-service-alerts"),
      Checked(params, "enable_alert_icons", "enable-alert-icons"),
      Checked(params, "enable_auto_update", "enable-auto-update"),
      Checked(params, "enable_watchdog", "enable-watchdog"),
      Checked(params, "enable_status_led", "enable-status-led"),
      Checked(params, "enable_weather", "enable-weather"),
      Checked(params, "enable_sleep_mode", "enable-sleep"),
      Checked(params, "enable_adaptive_brightness", "enable-adaptive"))
  }

  /** A browser sends a checked box and leaves an unchecked one out, so for a
      submitted form a checkbox setting is on exactly when the form carried a
      field under one of the box's names, whatever its value. */
  lemma CheckboxFromForm(entries: seq<(string, string)>, underscoreName: string, hyphenName: string)
    requires forall i :: 0 <= i < |entries| ==> Sendable(entries[i])
    requires forall i, j :: 0 <= i < j < |entries| ==> entries[i].0 != entries[j].0
    ensures Checked(ParamsOf(EncodeForm(entries)), underscoreName, hyphenName)
        <==> exists i :: 0 <= i < |entries| && (entries[i].0 == underscoreName || entries[i].0 == hyphenName)
  {
    FormRoundTrip(entries);
    var params := ParamsOf(EncodeForm(entries));
    if exists i :: 0 <= i < |entries| && (entries[i].0 == underscoreName || entries[i].0 == hyphenName) {
      var i :| 0 <= i < |entries| && (entries[i].0 == underscoreName || entries[i].0 == hyphenName);
      assert entries[i].0 in params;
    }
  }

  /** params.get(key) used as a condition: present and not empty. */
  predicate Filled(params: Params, key: string) {
    key in params && params[key] != ""
  }

  /** LINE_2: the secondary line id when the box is checked and the id filled
      in, None otherwise. */
  function SecondaryLine(params: Params): (line2: Option<string>)
    ensures line2.Some? <==> Checked(params, "enable_secondary", "enable-secondary") && Filled(params, "secondary_line_id")
    ensures line2.Some? ==> line2.value == params["secondary_line_id"] && line2.value != ""
  {
    if CheckboxesOf(params).enableSecondary && "secondary_line_id" in params && params["secondary_line_id"] != "" then
      Some(params["secondary_line_id"])
    else None
  }

  /** One entry of ROTATION_STATIONS; the station id doubles as its name. */
  datatype RotationStation = RotationStation(name: string, id: string, line: string, transitType: TransitType)

  function StationKey(slot: nat, field: string): string
    requires 1 <= slot <= 9
  {
    "station" + [DigitChar(slot)] + "_" + field
  }

  /** The entry of one slot, when both its station id and line id are filled in. */
  function SlotStation(params: Params, slot: nat): (r: Option<RotationStation>)
    requires 1 <= slot <= 9
    ensures r.Some? <==> Filled(params, StationKey(slot, "station_id")) && Filled(params, StationKey(slot, "line_id"))
  {
    var stationKey, lineKey := StationKey(slot, "station_id"), StationKey(slot, "line_id");
    if Filled(params, stationKey) && Filled(params, lineKey) then
      var stationId, lineId := params[stationKey], params[lineKey];
      Some(RotationStation(stationId, stationId, lineId, PortalTransitType(lineId)))
    else None
  }

  /** The entries of slots 1 to n, in slot order. */
  function SlotStations(params: Params, n: nat): seq<RotationStation>
    requires n <= 3
  {
    if n == 0 then []
    else
      var earlier := SlotStations(params, n - 1);
      match SlotStation(params, n)
      case None => earlier
      case Some(s) => earlier + [s]
  }

  /** The ROTATION_STATIONS list: slots 1 to 3 in station mode, none otherwise. */
  function RotationStationsOf(params: Params): seq<RotationStation> {
    if "rotation_mode" in params && params["rotation_mode"] == "station" then SlotStations(params, 3) else []
  }

  /** The loop of save_config over the three slots. */
  method BuildRotationStations(params: Params) returns (stations: seq<RotationStation>)
    ensures stations == RotationStationsOf(params)
  {
    stations := [];
    if "rotation_mode" in params && params["rotation_mode"] == "station" {
      for i := 1 to 4
        invariant stations == SlotStations(params, i - 1)
      {
        var stationKey, lineKey := StationKey(i, "station_id"), StationKey(i, "line_id");
        if stationKey in params && params[stationKey] != "" && lineKey in params && params[lineKey] != "" {
          var stationId, lineId := params[stationKey], params[lineKey];
          var transitType := PortalTransitType(lineId);
          stations := stations + [RotationStation(stationId, stationId, lineId, transitType)];
        }
      }
    }
  }

  /** Every entry of slots 1 to n comes from a filled slot, in increasing slot order. */
  lemma {:induction false} SlotStationsShape(params: Params, n: nat)
    requires n <= 3
    ensures |SlotStations(params, n)| <= n
    ensures forall s :: s in SlotStations(params, n) ==>
              exists slot :: 1 <= slot <= n && SlotStation(params, slot) == Some(s)
    ensures forall s :: s in SlotStations(params, n) ==>
              s.id != "" && s.line != "" && s.name == s.id && s.transitType == PortalTransitType(s.line)
  {
    if n > 0 {
      SlotStationsShape(params, n - 1);
    }
  }

  /** Outside station mode the list is empty; in station mode it holds at most
      three entries, each from a slot with both ids filled in, named after its
      station id and typed by its line code. */
  lemma RotationStationsShape(params: Params)
    ensures !("rotation_mode" in params && params["rotation_mode"] == "station") ==> RotationStationsOf(params) == []
    ensures |RotationStationsOf(params)| <= 3
    ensures forall s :: s in RotationStationsOf(params) ==>
              s.id != "" && s.line != "" && s.name == s.id && s.transitType == PortalTransitType(s.line)
  {
    SlotStationsShape(params, 3);
  }

  /** A station form with all three slots filled lists the three slots in order. */
  lemma AllSlotsFilled(params: Params)
    requires "rotation_mode" in params && params["rotation_mode"] == "station"
    requires forall slot :: 1 <= slot <= 3 ==>
               Filled(params, StationKey(slot, "station_id")) && Filled(params, StationKey(slot, "line_id"))
    ensures RotationStationsOf(params) == [SlotStation(params, 1).value, SlotStation(params, 2).value, SlotStation(params, 3).value]
  {
    assert SlotStations(params, 1) == [SlotStation(params, 1).value];
    assert SlotStations(params, 2) == [SlotStation(params, 1).value, SlotStation(params, 2).value];
  }

  function TransitTypeName(t: TransitType): string {
    match t
    case Cta => "cta"
    case Metra => "metra"
  }

  /** The line written for one entry: a Python dict display with the four
      fields quoted. */
  function StationLine(s: RotationStation): string {
    "    {\"name\": \"" + s.name + "\", \"id\": \"" + s.id + "\", \"line\": \"" + s.line
      + "\", \"transit_type\": \"" + TransitTypeName(s.transitType) + "\"}"
  }

  /** An entry line stays on one line when its fields do. */
  lemma StationLineOneLine(s: RotationStation)
    requires '\n' !in s.name && '\n' !in s.id && '\n' !in s.line
    ensures '\n' !in StationLine(s)
  {
  }

  /** The entry line, read field by field: the station name, id and line code
      and the transit type each sit inside the quotes of their own key. */
  lemma StationLineFields(s: RotationStation)
    ensures var line, n, d, l := StationLine(s), |s.name|, |s.id|, |s.line|;
      && |line| == 58 + n + d + l + |TransitTypeName(s.transitType)|
      && line[..14] == "    {\"name\": \""
      && line[14..14 + n] == s.name
      && line[14 + n..24 + n] == "\", \"id\": \""
      && line[24 + n..24 + n + d] == s.id
      && line[24 + n + d..36 + n + d] == "\", \"line\": \""
      && line[36 + n + d..36 + n + d + l] == s.line
      && line[36 + n + d + l..56 + n + d + l] == "\", \"transit_type\": \""
      && line[56 + n + d + l..|line| - 2] == TransitTypeName(s.transitType)
      && line[|line| - 2..] == "\"}"
  {
    NinePieces("    {\"name\": \"", s.name, "\", \"id\": \"", s.id, "\", \"line\": \"", s.line,
               "\", \"transit_type\": \"", TransitTypeName(s.transitType), "\"}");
  }

  /** Where each of nine concatenated pieces sits. */
  lemma NinePieces(a: string, b: string, c: string, d: string, e: string, f: string, g: string, h: string, k: string)
    ensures var t := a + b + c + d + e + f + g + h + k;
      var o1, o2, o3, o4 := |a|, |a| + |b|, |a| + |b| + |c|, |a| + |b| + |c| + |d|;
      var o5, o6, o7, o8 := o4 + |e|, o4 + |e| + |f|, o4 + |e| + |f| + |g|, o4 + |e| + |f| + |g| + |h|;
      && |t| == o8 + |k|
      && t[..o1] == a && t[o1..o2] == b && t[o2..o3] == c && t[o3..o4] == d
      && t[o4..o5] == e && t[o5..o6] == f && t[o6..o7] == g && t[o7..o8] == h && t[o8..] == k
  {
    var t := a + b + c + d + e + f + g + h + k;
    var p2 := a + b;
    var p3 := p2 + c;
    var p4 := p3 + d;
    var p5 := p4 + e;
    var p6 := p5 + f;
    var p7 := p6 + g;
    var p8 := p7 + h;
    assert t == p8 + k;
    assert t[..|p8|] == p8 && t[|p8|..] == k;
    PieceOf(t, p7, h);
    PieceOf(t, p6, g);
    PieceOf(t, p5, f);
    PieceOf(t, p4, e);
    PieceOf(t, p3, d);
    PieceOf(t, p2, c);
    PieceOf(t, a, b);
  }

  /** A piece that follows a prefix in the text's opening. */
  lemma PieceOf(whole: string, prefix: string, piece: string)
    requires |prefix| + |piece| <= |whole|
    requires whole[..|prefix| + |piece|] == prefix + piece
    ensures whole[..|prefix|] == prefix
    ensures whole[|prefix|..|prefix| + |piece|] == piece
  {
    assert forall k :: 0 <= k < |prefix| + |piece| ==> whole[k] == (prefix + piece)[k];
  }

  /** The lines of a list of entries, one per entry. */
  function StationLines(stations: seq<RotationStation>): (lines: seq<string>)
    ensures |lines| == |stations|
    ensures forall i :: 0 <= i < |stations| ==> lines[i] == StationLine(stations[i])
  {
    seq(|stations|, i requires 0 <= i < |stations| => StationLine(stations[i]))
  }

  /** The text save_config writes for ROTATION_STATIONS. */
  function RotationStationsText(stations: seq<RotationStation>): (text: string)
    ensures stations == [] <==> text == "ROTATION_STATIONS = []\n"
    ensures stations != [] ==> |text| >= 24 && text[..21] == "ROTATION_STATIONS = [" && text[|text| - 3..] == "\n]\n"
  {
    if stations == [] then "ROTATION_STATIONS = []\n"
    else
      var text := ListText(StationLines(stations));
      assert text[21] == '\n';
      text
  }

  /** A non-empty list written out: its lines joined by ",\n" inside brackets. */
  function ListText(lines: seq<string>): string
    requires |lines| >= 1
  {
    "ROTATION_STATIONS = [\n" + JoinLines(lines) + "\n]\n"
  }

  /** ',\n'.join(lines). */
  function JoinLines(lines: seq<string>): (r: string)
    requires |lines| >= 1
    decreases |lines|
  {
    if |lines| == 1 then lines[0] else lines[0] + ",\n" + JoinLines(lines[1..])
  }

  /** Where line i starts in ',\n'.join(lines): after the lines before it and
      one separator each. */
  function LineStart(lines: seq<string>, i: nat): nat
    requires i <= |lines|
  {
    if i == 0 then 0 else LineStart(lines, i - 1) + |lines[i - 1]| + 2
  }

  lemma {:induction false} LineStartShift(lines: seq<string>, i: nat)
    requires 1 <= i <= |lines|
    ensures LineStart(lines, i) == |lines[0]| + 2 + LineStart(lines[1..], i - 1)
    decreases i
  {
    if i > 1 {
      LineStartShift(lines, i - 1);
      assert lines[1..][i - 2] == lines[i - 1];
    }
  }

  /** ',\n'.join of two or more lines: the first line, ",\n", the join of the rest. */
  lemma JoinLinesUnfold(lines: seq<string>)
    requires |lines| >= 2
    ensures JoinLines(lines) == (lines[0] + ",\n") + JoinLines(lines[1..])
  {
  }

  /** A slice of the second part of a concatenation. */
  lemma SliceOfSecond(first: string, second: string, lo: nat, hi: nat)
    requires lo <= hi <= |second|
    ensures (first + second)[|first| + lo..|first| + hi] == second[lo..hi]
    ensures (first + second)[..|first|] == first
  {
    assert forall k :: |first| + lo <= k < |first| + hi ==> (first + second)[k] == second[k - |first|];
  }

  /** ',\n'.join(lines) starts with the first line, and is only that line when
      there is no other. */
  lemma JoinLinesFirst(lines: seq<string>)
    requires |lines| >= 1
    ensures |lines[0]| <= |JoinLines(lines)| && JoinLines(lines)[..|lines[0]|] == lines[0]
    ensures |lines| == 1 ==> JoinLines(lines) == lines[0]
  {
    if |lines| >= 2 {
      JoinLinesUnfold(lines);
      assert JoinLines(lines) == lines[0] + (",\n" + JoinLines(lines[1..]));
      SliceOfSecond(lines[0], ",\n" + JoinLines(lines[1..]), 0, 0);
    }
  }

  /** In ',\n'.join(lines) every line sits at LineStart, in order: the first
      at the start, each later one right after ",\n", and the last one ends
      the text. */
  lemma {:induction false} JoinLinesAt(lines: seq<string>, i: nat)
    requires i < |lines|
    ensures LineStart(lines, i) + |lines[i]| <= |JoinLines(lines)|
    ensures JoinLines(lines)[LineStart(lines, i)..LineStart(lines, i) + |lines[i]|] == lines[i]
    ensures i > 0 ==> JoinLines(lines)[LineStart(lines, i) - 2..LineStart(lines, i)] == ",\n"
    ensures i == |lines| - 1 ==> |JoinLines(lines)| == LineStart(lines, i) + |lines[i]|
    decreases i
  {
    if i == 0 {
      JoinLinesFirst(lines);
    } else {
      var head, rest := lines[0] + ",\n", JoinLines(lines[1..]);
      JoinLinesUnfold(lines);
      JoinLinesAt(lines[1..], i - 1);
      LineStartShift(lines, i);
      var start := LineStart(lines[1..], i - 1);
      assert lines[1..][i - 1] == lines[i];
      SliceOfSecond(head, rest, start, start + |lines[i]|);
      if i > 1 {
        SliceOfSecond(head, rest, start - 2, start);
      } else {
        assert (head + rest)[|head| - 2..|head|] == head[|head| - 2..];
      }
    }
  }

  /** Slices of a text made of an opening, a body and a closing. */
  lemma FramedSlices(opening: string, body: string, closing: string, lo: nat, hi: nat)
    requires lo <= hi <= |body|
    ensures (opening + body + closing)[|opening| + lo..|opening| + hi] == body[lo..hi]
    ensures (opening + body + closing)[..|opening|] == opening
    ensures (opening + body + closing)[|opening| + |body|..] == closing
  {
    var text := opening + body + closing;
    assert forall k :: |opening| + lo <= k < |opening| + hi ==> text[k] == body[k - |opening|];
  }

  /** A line of a written list at offset `at` of its text: right after
      "ROTATION_STATIONS = [\n" when it is the first line, right after ",\n"
      otherwise, and right before "\n]\n" when it is the last. */
  predicate LineAt(text: string, line: string, at: int, first: bool, last: bool) {
    && 0 <= at && at + |line| <= |text|
    && text[at..at + |line|] == line
    && (first ==> text[..at] == "ROTATION_STATIONS = [\n")
    && (!first ==> at >= 2 && text[at - 2..at] == ",\n")
    && (last ==> text[at + |line|..] == "\n]\n")
  }

  /** In a written list every line sits at 22 + LineStart, in order, and the
      next one starts two characters (",\n") after it ends. */
  lemma ListTextLines(lines: seq<string>, i: nat)
    requires i < |lines|
    ensures LineAt(ListText(lines), lines[i], 22 + LineStart(lines, i), i == 0, i == |lines| - 1)
    ensures i + 1 < |lines| ==> LineStart(lines, i + 1) == LineStart(lines, i) + |lines[i]| + 2
  {
    var joined := JoinLines(lines);
    var opening, closing := "ROTATION_STATIONS = [\n", "\n]\n";
    JoinLinesAt(lines, i);
    var start := LineStart(lines, i);
    FramedSlices(opening, joined, closing, start, start + |lines[i]|);
    if i > 0 {
      FramedSlices(opening, joined, closing, start - 2, start);
    }
  }

  /** The ROTATION_STATIONS text lists every entry's line, in list order:
      entry i's line sits at 22 + LineStart, the first right after the
      opening, each later one right after ",\n", the last right before the
      closing. */
  lemma RotationStationsTextLines(stations: seq<RotationStation>, i: nat)
    requires i < |stations|
    ensures LineAt(RotationStationsText(stations), StationLine(stations[i]), 22 + LineStart(StationLines(stations), i),
                   i == 0, i == |stations| - 1)
    ensures i + 1 < |stations| ==>
              LineStart(StationLines(stations), i + 1) == LineStart(StationLines(stations), i) + |StationLine(stations[i])| + 2
  {
    ListTextLine(StationLines(stations), i, RotationStationsText(stations), StationLine(stations[i]));
  }

  /** ListTextLines, for a text and a line given by other names. */
  lemma ListTextLine(lines: seq<string>, i: nat, text: string, line: string)
    requires i < |lines| && text == ListText(lines) && line == lines[i]
    ensures LineAt(text, line, 22 + LineStart(lines, i), i == 0, i == |lines| - 1)
  {
    ListTextLines(lines, i);
  }

  /** ',\n'.join of three lines. */
  lemma JoinThree(a: string, b: string, c: string)
    ensures JoinLines([a, b, c]) == a + ",\n" + (b + ",\n" + c)
  {
    assert [a, b, c][1..] == [b, c] && [b, c][1..] == [c];
    assert JoinLines([c]) == c;
    assert JoinLines([b, c]) == b + ",\n" + c;
  }

  /** A station form with all three slots filled writes the three slots'
      lines, in slot order. */
  lemma ThreeStationsText(params: Params)
    requires "rotation_mode" in params && params["rotation_mode"] == "station"
    requires forall slot :: 1 <= slot <= 3 ==>
               Filled(params, StationKey(slot, "station_id")) && Filled(params, StationKey(slot, "line_id"))
    ensures RotationStationsText(RotationStationsOf(params))
         == "ROTATION_STATIONS = [\n"
            + (StationLine(SlotStation(params, 1).value) + ",\n"
               + (StationLine(SlotStation(params, 2).value) + ",\n"
                  + StationLine(SlotStation(params, 3).value)))
            + "\n]\n"
  {
    AllSlotsFilled(params);
    var lines := StationLines(RotationStationsOf(params));
    assert lines == [lines[0], lines[1], lines[2]];
    JoinThree(lines[0], lines[1], lines[2]);
  }
}
