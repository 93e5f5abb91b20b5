# Chicago Transit Board, modelled in Dafny

Chicago Transit Board runs on a small LED-matrix board under MicroPython. It
shows the next Metra (and CTA) trains at a configured station, along with
service alerts. Two setup web portals sit beside it, and it can update itself
from GitHub. This project models the decision logic of those programs and
proves properties of it:

- **The board (`main.py`)**
  - Two hand-written GTFS-Realtime protobuf decoders: one for trip updates and one for alerts.
  - The conversion of a trip-updates feed into the sorted Inbound and Outbound train queues of `fetch_metra_trains`.
  - The alert list and the per-line alert flags recomputed by `fetch_alerts`.
  - The view and station rotation of `main_loop`.
  - The small display helpers: `format_time`, `detect_transit_type` and the sleep-hours test.
- **The configuration portal (`config_portal.py`)**
  - The URL-encoded form parser.
  - The decisions `save_config` takes from the parsed form: checkboxes, secondary line, rotation stations and the `ROTATION_STATIONS` text.
- **The Wi-Fi setup portal (`setup_portal.py`)**
  - The signal label.
  - The list of networks offered after a scan: strongest first, one entry per SSID.
  - The SSID saved from the form.
- **The updater (`auto_update.py`)**
  - Version parsing and comparison.
  - The choice of the newest version across the two GitHub URL patterns.
  - The remembered download base and the raw-file URL built from it.

Modules:

| module | file | contents |
|---|---|---|
| `Optional` | optional.dfy | `Option` |
| `Strings` | strings.dfy | `str.split`, `'sep'.join`, `str.strip`, decimal digits, `str(int)` |
| `Wire` | wire.dfy | protobuf varints and length-delimited fields; the field tokenizer `Walk` that specifies every decoder loop, and an encoder that is its inverse |
| `TripDecoder` | trip_decoder.dfy | `parse_gtfs_protobuf` and its nested parsers |
| `AlertDecoder` | alert_decoder.dfy | `parse_gtfs_alerts_protobuf` and its nested parsers |
| `Sorting` | sorting.dfy | the stable sort by key behind `list.sort` and `sorted` |
| `Arrivals` | arrivals.dfy | `fetch_metra_trains` after the HTTP request |
| `Alerts` | alerts.dfy | `fetch_metra_alerts` after the HTTP request |
| `Display` | display.dfy | `format_time`, `detect_transit_type`, the sleep-hours test |
| `Board` | board.dfy | class `BoardState`: `fetch_alerts` and the view rotation over the board's globals |
| `FormData` | form_data.dfy | `parse_form_data` (identical in both portals), with a form encoder as its inverse |
| `ConfigPortal` | config_portal.dfy | `save_config` of the configuration portal |
| `SetupPortal` | setup_portal.dfy | the signal label, `scan_networks`, the SSID choice |
| `AutoUpdate` | auto_update.dfy | version logic; class `Updater` holds `_working_url_base` |

Each protobuf message has two descriptions:

- **A specification:** a left fold of a per-field step over the fields `Wire.Walk` finds.
- **The source's `while pos < len(data)` loop:** a method proved equal to that fold.

The decoders are checked against `Wire.EncodeFields` through round-trip lemmas. Every message the decoders keep is read back unchanged.

Module-level globals that the source mutates are fields of a class:

- `Board.BoardState` holds the alerts, the flags, the current view and the station index.
- `AutoUpdate.Updater` holds the working URL base.

The configuration constants they read are fixed at construction.

The two portals disagree about colour line names. The configuration portal treats `"Brown"`, `"Green"`, `"Orange"`, `"Purple"` and `"Yellow"` as CTA lines (config_portal.py:39). The board's `detect_transit_type` calls them Metra (main.py:1178). `ConfigPortal.PortalTransitTypeShape` states both sides of this. The board reads a rotation station's `transit_type` from the saved entry, so the model keeps both tables as the code has them.

## Model

| member | source | states |
|---|---|---|
| Strings.JoinSplit | config_portal.py:282 | `'&'.join(data.split('&'))` gives back `data`: splitting loses nothing |
| Strings.SplitPiecesFree | config_portal.py:282 | no piece of a split contains the separator |
| Strings.StripLeftShape | auto_update.py:50 | the left strip drops a prefix made only of whitespace and keeps a suffix that does not start with whitespace |
| Strings.StripRightShape | auto_update.py:50 | the right strip drops a suffix made only of whitespace and keeps a prefix that does not end with whitespace |
| Strings.StripShape | auto_update.py:50 | a stripped string is empty or starts and ends with a non-whitespace character |
| Strings.StripIdempotent | auto_update.py:79 | stripping the already stripped `response.text` again (inside `parse_version`) changes nothing |
| Strings.NatStringValue | main.py:1704 | the decimal text of a natural number reads back as that number |
| Strings.IntString | main.py:1704 | `f"{minutes}"`: a leading `-` for a negative number, then the decimal digits of its magnitude |
| Strings.IntStringInjective | main.py:1704 | different integers never print the same |
| Wire.Text | main.py:513-520 | decoding keeps one character per byte |
| Wire.TextInjective | main.py:513-520 | different byte strings never decode to the same text |
| Wire.Latin1 | main.py:513-520 | the inverse of the decoding on Latin-1 text |
| Wire.Varint | main.py:500-511 | inside the buffer a varint read consumes at least one byte and never runs past the end; at or past the end it reads 0 and consumes nothing |
| Wire.ReadVarint | main.py:500-511 | the source's byte loop, with the bounds above, computes `Varint` |
| Wire.VarintOfEncoding | main.py:500-511 | reading the encoding of n, whatever bytes surround it, yields n and stops exactly after the encoding |
| Wire.Clip | main.py:522-525 | `data[pos:pos+length]` is the exact slice when in bounds, and never longer than asked otherwise |
| Wire.Delimited | main.py:522-525 | a length-delimited read never moves backwards, moves forward inside the buffer, and its payload is no longer than the declared length |
| Wire.ReadBytes | main.py:522-525 | `read_bytes` computes `Delimited` |
| Wire.ReadString | main.py:513-520 | `read_string` is the decoded payload of `Delimited`, at its end position |
| Wire.StepOfEncodedField | main.py:534-547 | one pass of the field loop over an encoded varint, length-delimited or fixed field reads exactly that field and resumes right after it; fixed fields only in the messages that have that branch |
| Wire.StepAt | main.py:531-549 | one pass of a message loop: read the tag, split it into field number and wire type, consume the field; anything but a stop moves forward |
| Wire.WalkLength | main.py:531-549 | each field the message loop reads takes at least one byte, so `Walk` never yields more fields than bytes left |
| Wire.WalkStops | main.py:548-549 | inside a message any other wire type ends the message |
| Wire.WalkSkipsByte | main.py:696-697 | at feed level an unknown wire type skips one byte after the tag and carries on |
| Wire.WalkEncoded | main.py:531-549 | walking the encoding of a list of fields gives back exactly those fields |
| TripDecoder.ParseStopTimeEvent | main.py:527-550 | the loop computes `EventTime`: the last field-2 varint, 0 if none |
| TripDecoder.ParseStopTimeUpdate | main.py:552-590 | the loop computes `StopTimeUpdateOf`: stop_sequence, stop_id, and the arrival time, with the departure time used only while the arrival time is 0 |
| TripDecoder.ParseTripDescriptor | main.py:592-617 | the loop computes `TripDescriptorOf`: trip_id (field 1) and route_id (field 5) |
| TripDecoder.ParseTripUpdate | main.py:619-646 | the loop computes `TripUpdateOf`: the last trip descriptor, and every stop_time_update in order |
| TripDecoder.ParseEntity | main.py:648-674 | the loop computes `EntityOf`: the id and the last trip_update |
| TripDecoder.ParseGtfsProtobuf | main.py:676-703 | the feed loop computes `TripFeed`: the entities that carry a trip_update, in feed order |
| TripDecoder.TripFeed | main.py:676-703 | the entities of the FeedMessage loop; every entity it keeps has a trip_update |
| TripDecoder.EntityHasTripUpdate | main.py:648-674 | an entity has a trip_update exactly when one of its fields is a length-delimited field 3 |
| TripDecoder.ArrivalBeforeDeparture | main.py:571-577 | a non-zero arrival time is kept when a departure follows |
| TripDecoder.DepartureWithoutArrival | main.py:574-577 | without an arrival, the departure time is used |
| TripDecoder.EventRoundTrip | main.py:527-550 | an encoded StopTimeEvent decodes to its time |
| TripDecoder.StopRoundTrip | main.py:552-590 | an encoded StopTimeUpdate decodes to itself |
| TripDecoder.TripRoundTrip | main.py:592-617 | an encoded TripDescriptor decodes to itself |
| TripDecoder.UpdateRoundTrip | main.py:619-646 | an encoded TripUpdate decodes to itself, stop list included |
| TripDecoder.EntityRoundTrip | main.py:648-674 | an encoded FeedEntity decodes to itself |
| TripDecoder.FeedRoundTrip | main.py:676-697 | an encoded feed decodes to its entities that have a trip_update, in order |
| AlertDecoder.ParseTranslation | main.py:759-778 | the loop computes `TranslationText`: the last field-1 string |
| AlertDecoder.ParseTranslatedString | main.py:780-802 | the loop computes `TranslatedString`: the first non-empty translation, "" if none |
| AlertDecoder.ParseEntitySelector | main.py:804-823 | the loop computes `SelectorRoute`: the last route_id (field 4) |
| AlertDecoder.ParseAlert | main.py:825-853 | the loop computes `AlertOf`: the non-empty route of every informed_entity in order, plus the header and description texts |
| AlertDecoder.ParseEntity | main.py:855-877 | the loop computes `EntityOf`: the id and the last alert |
| AlertDecoder.ParseGtfsAlertsProtobuf | main.py:879-906 | the feed loop computes `AlertFeed`: the entities that carry an alert, in feed order |
| AlertDecoder.TranslatedStringEmpty | main.py:780-802 | the text is "" exactly when no translation field holds non-empty text |
| AlertDecoder.TranslatedStringFirst | main.py:780-802 | the text is the text of the first translation field that holds non-empty text |
| AlertDecoder.AlertRoutesNonEmpty | main.py:836-840 | an alert never lists an empty route |
| AlertDecoder.AlertFeed | main.py:879-906 | the entities of the FeedMessage loop; every entity it keeps has an alert |
| AlertDecoder.TranslationRoundTrip | main.py:759-778 | an encoded translation decodes to its text |
| AlertDecoder.TranslatedRoundTrip | main.py:780-802 | an encoded one-translation string decodes to its text |
| AlertDecoder.SelectorRoundTrip | main.py:804-823 | an encoded selector decodes to its route |
| AlertDecoder.AlertRoundTrip | main.py:825-853 | an encoded alert with non-empty routes decodes to itself |
| AlertDecoder.EntityRoundTrip | main.py:855-877 | an encoded alert entity decodes to itself |
| AlertDecoder.FeedRoundTrip | main.py:879-900 | an encoded alerts feed decodes to its entities that have an alert, in order |
| Sorting.SortBy | main.py:1015-1016 | the result is sorted by the key and is a permutation of the input |
| Sorting.SortStable | main.py:1015-1016 | trains with equal minutes keep their feed order |
| Display.FormatTime | main.py:1697-1704 | "ARR" exactly for 0 minutes, otherwise the number followed by " min" |
| Display.FormatTimeInjective | main.py:1697-1704 | different minute counts never show the same label |
| Display.DetectTransitType | main.py:1172-1183 | CTA exactly for the eight listed codes; Metra for the empty code and any other |
| Display.InSleepHours | main.py:1533-1540 | start == end never sleeps; a window that wraps midnight is the complement of the waking window from end to start |
| Display.SleepHoursShape | main.py:1533-1540 | a window and its reverse split the day between them |
| Arrivals.TruncDiv60 | main.py:989 | `int(d / 60)` rounds toward zero: 60·m ≤ d < 60·m + 60 for d ≥ 0, and the mirror image below 0 |
| Arrivals.FirstStopAt | main.py:971-980 | None exactly when no update is at the station; otherwise the first update at the station |
| Arrivals.FindStop | main.py:971-980 | the inner loop with its `break` finds `FirstStopAt` |
| Arrivals.ArrivalOf | main.py:959-1005 | a train only for a trip of the line that stops at the station; it is of the line, line 1, and shows 0 to 120 minutes |
| Arrivals.TrainOf | main.py:955-1005 | the loop body over one entity, with its `continue` branches and clamp, yields exactly `EntityArrival` of that entity |
| Arrivals.Queue | main.py:954-1013 | at most one train per entity, and each queued train is the train of one of the entities |
| Arrivals.QueueSameMinutes | main.py:1005-1013 | two trains of one queue with equal minutes are the same record |
| Arrivals.QueueOrderUnique | main.py:1015-1016 | every ordering of a queue by minutes, stable or not, is the model's sorted queue |
| Arrivals.FetchMetraTrains | main.py:908-1025 | the two queues are the feed's trains for the station, split by direction, each sorted by minutes |
| Arrivals.QueueBounds | main.py:954-1013 | every queued train is of the line and the queue's direction, is line 1, and shows 0 to 120 minutes |
| Arrivals.ArrivalWindow | main.py:989-1000 | a trip of the line at the station yields a train exactly when it arrives between 359 s ago and 7259 s from now |
| Arrivals.ArrivalMinutes | main.py:989-997 | under a minute away or up to 359 s late shows 0; otherwise the whole minutes until arrival |
| Arrivals.DirectionRule | main.py:1005 | Inbound exactly when the stop sequence is above 15 |
| Arrivals.NoArrivalOffLine | main.py:962-984 | a trip of another line, or one that does not stop at the station, yields nothing |
| Arrivals.RavenswoodScenario | main.py:908-1016 | an encoded one-trip UP-N feed arriving at RAVENSWOOD in 300 s gives one train at 5 minutes: Inbound for stop sequence 20, Outbound for 10 |
| Alerts.MetraAlerts | main.py:1326-1341 | at most one record per entity, and none with both header and description empty |
| Alerts.FetchMetraAlerts | main.py:1302-1348 | no response gives no alerts; otherwise the records of the decoded feed's meaningful alerts, in order |
| Alerts.MetraAlertsMeaningful | main.py:1326-1341 | every record has a header or a description, and no empty route |
| Alerts.FetchedAlertsMeaningful | main.py:1326-1341 | the above holds for every decoded feed |
| Board.NextView | main.py:2064-2100 | Alerts follows only Outbound, and only while alerts are shown; Inbound is always followed by Outbound |
| Board.RotationStep | main.py:2062-2103 | in station mode the station index stays below the number of stations; outside it the index never changes |
| Board.RotationCycle | main.py:2062-2085 | from Inbound, a full cycle of 3 views (2 without alerts) returns to Inbound; the station moves on exactly once, at the end |
| Board.NoAlertsViewWithoutAlerts | main.py:2087-2099 | without alerts on screen the Alerts view is never entered, and the board toggles Inbound and Outbound |
| Board.BoardState.constructor | main.py:441-465 | the start-up globals: no alerts, flags clear, Inbound at station 0; station rotation only in station mode with at least one station |
| Board.BoardState.MarkAffectedLines | main.py:1273-1278 | a line's flag becomes set exactly when it was set or some alert lists that line; line 2 only in dual-line mode |
| Board.BoardState.FetchAlerts | main.py:1252-1300 | the alerts are the Metra alerts when a Metra line is configured and the response arrived, otherwise none; each flag is set exactly when an active alert lists its line |
| Board.BoardState.RotateView | main.py:2062-2103 | the new view and station are one `RotationStep` of the old ones; alerts and flags unchanged; the station index stays valid |
| FormData.HexChar | config_portal.py:296 | the partner of `int(hex, 16)` on one digit: a hex digit whose value is d |
| FormData.SpaceForPlus | config_portal.py:287 | every `+` becomes a space and nothing else changes |
| FormData.PercentDecode | config_portal.py:289-303 | decoding never lengthens the text |
| FormData.PercentDecodePlain | config_portal.py:289-303 | text without `%` decodes to itself |
| FormData.PairParts | config_portal.py:284-285 | None exactly when the pair has no `=`; otherwise key + "=" + value is the pair, and the key has no `=` |
| FormData.DecodeValue | config_portal.py:287-303 | the source's decoding loop computes `FormValue` |
| FormData.ParseFormData | config_portal.py:279-305 | the loop computes `ParamsOf` (setup_portal.py:430-457 is the same code) |
| FormData.ParamsFromKeys | config_portal.py:282-304 | a key is present exactly when some pair has an `=` and that key |
| FormData.ParamsFromLast | config_portal.py:304 | a repeated key keeps the decoded value of its last pair |
| FormData.FormEncode | config_portal.py:279-305 | a browser's form encoding of a value never contains `&` or `=` |
| FormData.FormValueRoundTrip | config_portal.py:287-303 | decoding a form-encoded Latin-1 value gives the value back |
| FormData.FormRoundTrip | config_portal.py:279-305 | parsing an encoded form with distinct names gives exactly those names, each with its value |
| ConfigPortal.PortalTransitType | config_portal.py:35-40 | the empty code is Metra |
| ConfigPortal.PortalTransitTypeShape | config_portal.py:35-40 | CTA exactly for the 13 listed codes; every board CTA code is a portal CTA code; "Brown" is CTA to the portal and Metra to the board |
| ConfigPortal.CheckboxesOf | config_portal.py:309-317 | a form with none of the boxes turns all nine settings off |
| ConfigPortal.CheckboxFromForm | config_portal.py:309-318 | for a submitted form a setting is on exactly when a field under either of its names was sent |
| ConfigPortal.SecondaryLine | config_portal.py:339-352 | LINE_2 is set exactly when the box is checked and the id is not empty, and it is that id |
| ConfigPortal.SlotStation | config_portal.py:368-376 | a slot gives an entry exactly when both its station id and line id are filled in |
| ConfigPortal.BuildRotationStations | config_portal.py:366-385 | the loop over slots 1 to 3 computes `RotationStationsOf` |
| ConfigPortal.SlotStationsShape | config_portal.py:367-376 | every entry comes from a filled slot, is named after its station id and is typed by its line code |
| ConfigPortal.RotationStationsShape | config_portal.py:366-385 | empty outside station mode; at most three entries, each from filled ids |
| ConfigPortal.AllSlotsFilled | config_portal.py:367-376 | three filled slots give three entries in slot order |
| ConfigPortal.StationLineOneLine | config_portal.py:375 | an entry line stays on one line when its name, id and line code do |
| ConfigPortal.StationLineFields | config_portal.py:375 | the entry line holds the name, the id, the line code and the transit type, each inside the quotes of its own key, at the offsets the f-string gives |
| ConfigPortal.StationLines | config_portal.py:375 | one line per entry, in entry order |
| ConfigPortal.RotationStationsText | config_portal.py:378-385 | `ROTATION_STATIONS = []` exactly for no stations; otherwise a bracketed list opening with `ROTATION_STATIONS = [` and closing with `\n]\n` |
| ConfigPortal.JoinLinesAt | config_portal.py:379 | in `',\n'.join(lines)` every line sits at its offset, each after the first is preceded by `,\n`, and the last ends the text |
| ConfigPortal.ListTextLines | config_portal.py:378-380 | the same inside the opening `ROTATION_STATIONS = [\n` and the closing `\n]\n` |
| ConfigPortal.RotationStationsTextLines | config_portal.py:375-380 | the text holds every entry's line in order: the first right after the opening, each next one after `,\n`, the last right before the closing |
| ConfigPortal.ThreeStationsText | config_portal.py:366-380 | three filled slots give the opening, the three entry lines joined by `,\n`, and the closing |
| SetupPortal.SignalLabel | setup_portal.py:43-50 | a four-character label that starts with a star |
| SetupPortal.SignalLabelMonotone | setup_portal.py:43-50 | a stronger signal never has fewer stars; 1 to 4 stars, split at -50, -60 and -70 |
| SetupPortal.NetworkOf | setup_portal.py:417-419 | a network keeps its RSSI, and has an empty name exactly for an empty SSID |
| SetupPortal.CollectNetworks | setup_portal.py:398-428 | the sort and the loop with `seen_ssids` compute `NetworksOf` |
| SetupPortal.DedupeShape | setup_portal.py:416-424 | kept names are non-empty and distinct; each entry is the first of its SSID; no non-empty SSID is lost |
| SetupPortal.DedupeOrdered | setup_portal.py:409-424 | on a strongest-first list the kept networks are strongest first |
| SetupPortal.DedupeStrongest | setup_portal.py:409-424 | on a strongest-first list each kept network carries the strongest RSSI its SSID was seen with |
| SetupPortal.NetworksShape | setup_portal.py:398-428 | the offered networks are strongest first and distinct and non-empty; every scanned SSID is offered, with its strongest RSSI |
| SetupPortal.ChosenSsid | setup_portal.py:463-465 | the chosen SSID; the typed one for `__manual__`; "" when missing |
| SetupPortal.ChosenFromForm | setup_portal.py:463-465 | a submitted form saves the picked network, or the typed name when the manual entry was picked |
| AutoUpdate.VersionOf | auto_update.py:45-56 | a blank version text reads as (0, 0, 0) |
| AutoUpdate.ParseVersion | auto_update.py:45-56 | the padding loop computes `VersionOf` |
| AutoUpdate.NewerIsStrictOrder | auto_update.py:58-63 | tuple comparison is a strict total order |
| AutoUpdate.NothingBelowNoVersion | auto_update.py:71 | nothing is older than (0, 0, 0), and every other version is newer than it |
| AutoUpdate.IsNewerVersionShape | auto_update.py:58-63 | no text is newer than itself, two texts are never newer than each other, and an unreadable remote is never newer |
| AutoUpdate.IsNewerVersionStrings | auto_update.py:58-63 | on written-out versions is_newer_version is the tuple comparison |
| AutoUpdate.VersionString | auto_update.py:45-56 | the partner of `parse_version`: "major.minor.patch" |
| AutoUpdate.VersionRoundTrip | auto_update.py:45-56 | every version's text parses back to that version |
| AutoUpdate.VersionPadded | auto_update.py:52-53 | "1.7" reads as (1, 7, 0) |
| AutoUpdate.VersionTruncated | auto_update.py:50-54 | " 1.2.3.4\n" reads as (1, 2, 3) |
| AutoUpdate.VersionFourParts | auto_update.py:54 | a fourth part is ignored |
| AutoUpdate.VersionOfStripped | auto_update.py:50 | surrounding whitespace does not change the version |
| AutoUpdate.UnreadableVersions | auto_update.py:55-56 | "", "1..2" and "v1.2.3" read as (0, 0, 0) |
| AutoUpdate.BestOf | auto_update.py:74-91 | the best index, if any, is one of the responses seen so far |
| AutoUpdate.BestOfNone | auto_update.py:74-91 | there is no best exactly when every response reads as (0, 0, 0) |
| AutoUpdate.BestOfNewest | auto_update.py:74-91 | the best is the text and triple of the first response with the greatest triple |
| AutoUpdate.RemoteVersionChoice | auto_update.py:65-97 | None exactly when nothing reads above (0, 0, 0); otherwise the stripped text of the first response with the greatest version |
| AutoUpdate.Updater.constructor | auto_update.py:28 | no base is remembered at start |
| AutoUpdate.Updater.RawUrl | auto_update.py:30-34 | the remembered base + "/" + file when one is set and not empty, otherwise the first pattern + "/" + file; always one of the patterns + "/" + file |
| AutoUpdate.Updater.GetRemoteVersion | auto_update.py:65-97 | returns the newest stripped version; remembers the URL pattern that gave it, so later URLs are built on that pattern, or keeps the old base when none did |

## Left out

- HTTP requests, Wi-Fi, NTP, the LED, the display drawing, the web servers and the HTML pages are outside the model. A response is a parameter: the body of a 200 answer, or None. The current time is the `now` parameter.
- Exception paths: the model's decoders cannot raise, so the `except` branches of the decoders, `fetch_metra_trains`, `fetch_alerts` and `fetch_metra_alerts` are not modelled.
- Wire.Text: `bytes.decode('utf-8')` is modelled as one character per byte. Multi-byte UTF-8 is not modelled. Invalid UTF-8 is not modelled either: read_string returns "" for it, and in scan_networks (setup_portal.py:417) the decode raises an exception that nothing catches. `SetupPortal.NetworkOf` gives a per-byte text instead.
- FormData.HexValue: `int(x, 16)` is read only on hex digit strings. Python's leniency (signs, surrounding whitespace, underscores) is not modelled, so for example `%+4` is treated as not a hex escape.
- AutoUpdate.VersionOf: `int(p)` is read only on decimal digit strings. Python's leniency (signs, surrounding whitespace, underscores) is not modelled. For example Python reads "1.-1.0" as (1, -1, 0), which get_remote_version takes as newer than (0, 0, 0); the model reads it as (0, 0, 0).
- Arrivals.TruncDiv60: `int((arrival_time - current_time) / 60)` is float division then truncation. It is modelled as exact integer truncation, so float rounding of very large timestamps is not captured.
- Sorting.SortBy: `list.sort` and `sorted(..., reverse=True)` are modelled as a stable insertion sort. The reverse sort is an ascending sort on the negated RSSI. MicroPython's sort is an unstable quicksort, so the model picks one order where the board's runtime may pick another. This shows only among elements with equal keys. For the train queues it makes no difference: trains of one queue with equal minutes are equal records, and `Arrivals.QueueOrderUnique` proves that every ordering by minutes is the model's.
- SetupPortal.CollectNetworks: among networks with equal RSSI the model keeps scan order, which the board's unstable sort need not. For example, RSSI -60, -50, -50 for networks A, B, C can come out C, B, A on the board, while the model gives B, C, A. When two such networks share an SSID, the one kept, and so the security flag shown, may differ.
- fetch_cta_trains, fetch_trains_for_station, fetch_trains and fetch_weather depend on the CTA and weather JSON services and are not modelled.
- fetch_cta_alerts always returns an empty list, so `Board.BoardState.FetchAlerts` adds an empty CTA list.
- The brightness values of adjust_brightness are floats and are left out; only the sleep-hours test is modelled.
- The rotation timer (`current_time - last_rotation >= DISPLAY_ROTATION_TIME`) is left to the caller of `Board.BoardState.RotateView`, and so is the station fetch that follows a station change.
- ConfigPortal: the rest of the `config.py` text written by save_config, which is `params.get` with defaults pasted into a template, is not modelled. Only the `LINE_2` decision and the `ROTATION_STATIONS` list and text are.
- FormData.FormEncode is the browser's side of the form, written for the round trip. It uses upper-case hex digits and `+` for space. The portals never encode.
- download_file, check_for_updates, the local version file and the file copies are I/O and are not modelled.
