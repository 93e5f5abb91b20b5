/** The board's own state in main.py: the alert list and per-line alert flags
    that fetch_alerts resets and recomputes, and the view rotation of
    main_loop (which view is on screen and, in station-rotation mode, which
    station). The configuration constants it reads are fixed at construction. */
module Board {

  import opened Optional
  import opened Wire
  import opened Display
  import opened Alerts

  /** current_direction: "Inbound", "Outbound" or "Alerts". */
  datatype View = InboundView | OutboundView | AlertsView

  /** What the rotation step moves: the view and the station index. */
  datatype Rotation = Rotation(view: View, station: nat)

  /** The view after one rotation: Inbound, Outbound, Alerts and round again
      while alerts are shown; Inbound and Outbound otherwise. */
  function NextView(v: View, alertsShown: bool): (next: View)
    ensures next == AlertsView ==> alertsShown && v == OutboundView
    ensures v == InboundView ==> next == OutboundView
  {
    if alertsShown then
      match v
      case InboundView => OutboundView
      case OutboundView => AlertsView
      case AlertsView => InboundView
    else if v == InboundView then OutboundView
    else InboundView
  }

  /** One rotation step. In station mode the station index moves on, modulo the
      number of stations, whenever the view comes back to Inbound. */
  function RotationStep(r: Rotation, alertsShown: bool, stationMode: bool, stationCount: nat): (next: Rotation)
    requires stationMode ==> stationCount > 0
    ensures stationMode && r.station < stationCount ==> next.station < stationCount
    ensures !stationMode ==> next.station == r.station
  {
    var v := NextView(r.view, alertsShown);
    Rotation(v, if stationMode && v == InboundView then (r.station + 1) % stationCount else r.station)
  }

  /** The number of views a station (or the board, in direction mode) cycles through. */
  function CycleLength(alertsShown: bool): nat {
    if alertsShown then 3 else 2
  }

  function Steps(r: Rotation, n: nat, alertsShown: bool, stationMode: bool, stationCount: nat): Rotation
    requires stationMode ==> stationCount > 0
    decreases n
  {
    if n == 0 then r else Steps(RotationStep(r, alertsShown, stationMode, stationCount), n - 1, alertsShown, stationMode, stationCount)
  }

  /** A full cycle from Inbound shows every view once, comes back to Inbound
      and moves to the next station exactly once, at its end. */
  lemma RotationCycle(station: nat, alertsShown: bool, stationMode: bool, stationCount: nat, n: nat)
    requires stationMode ==> stationCount > 0
    requires 0 < n < CycleLength(alertsShown)
    ensures Steps(Rotation(InboundView, station), n, alertsShown, stationMode, stationCount).station == station
    ensures Steps(Rotation(InboundView, station), n, alertsShown, stationMode, stationCount).view != InboundView
    ensures Steps(Rotation(InboundView, station), CycleLength(alertsShown), alertsShown, stationMode, stationCount)
         == Rotation(InboundView, if stationMode then (station + 1) % stationCount else station)
  {
    var r0 := Rotation(InboundView, station);
    var r1 := RotationStep(r0, alertsShown, stationMode, stationCount);
    assert r1 == Rotation(OutboundView, station);
    assert Steps(r0, 1, alertsShown, stationMode, stationCount) == Steps(r1, 0, alertsShown, stationMode, stationCount);
    var r2 := RotationStep(r1, alertsShown, stationMode, stationCount);
    assert Steps(r0, 2, alertsShown, stationMode, stationCount) == Steps(r1, 1, alertsShown, stationMode, stationCount)
        == Steps(r2, 0, alertsShown, stationMode, stationCount);
    if alertsShown {
      assert r2 == Rotation(AlertsView, station);
      var r3 := RotationStep(r2, alertsShown, stationMode, stationCount);
      assert Steps(r0, 3, alertsShown, stationMode, stationCount) == Steps(r2, 1, alertsShown, stationMode, stationCount)
          == Steps(r3, 0, alertsShown, stationMode, stationCount);
    }
  }

  /** Without alerts on screen the Alerts view is left at the next step and
      never entered. */
  lemma NoAlertsViewWithoutAlerts(v: View)
    ensures NextView(v, false) != AlertsView
    ensures NextView(NextView(v, false), false) == (if v == InboundView then InboundView else OutboundView)
  {
  }

  class BoardState {
    /** LINE_1 ("" when not configured). */
    const line1: string
    /** LINE_2; the board is in dual-line mode when it is set. */
    const line2: Option<string>
    const enableServiceAlerts: bool
    /** ROTATION_MODE == "station" and ROTATION_STATIONS is not empty. */
    const stationRotationEnabled: bool
    /** len(ROTATION_STATIONS). */
    const stationCount: nat

    var activeAlerts: seq<AlertRecord>
    var line1HasAlerts: bool
    var line2HasAlerts: bool
    var currentDirection: View
    var currentStationIndex: nat

    /** ROTATION_STATIONS[current_station_index] is always defined in station mode. */
    ghost predicate Valid()
      reads this
    {
      stationRotationEnabled ==> currentStationIndex < stationCount
    }

    /** The module-level start-up values. */
    constructor(line1: string, line2: Option<string>, enableServiceAlerts: bool, rotationMode: string, stationCount: nat)
      ensures Valid()
      ensures this.line1 == line1 && this.line2 == line2 && this.enableServiceAlerts == enableServiceAlerts
      ensures this.stationCount == stationCount
      ensures stationRotationEnabled <==> rotationMode == "station" && stationCount > 0
      ensures activeAlerts == [] && !line1HasAlerts && !line2HasAlerts
      ensures currentDirection == InboundView && currentStationIndex == 0
    {
      this.line1 := line1;
      this.line2 := line2;
      this.enableServiceAlerts := enableServiceAlerts;
      this.stationCount := stationCount;
      stationRotationEnabled := rotationMode == "station" && stationCount > 0;
      activeAlerts := [];
      line1HasAlerts := false;
      line2HasAlerts := false;
      currentDirection := InboundView;
      currentStationIndex := 0;
    }

    predicate DualLineMode()
      reads this
    {
      line2.Some?
    }

    /** ENABLE_SERVICE_ALERTS and len(active_alerts) > 0. */
    predicate AlertsShown()
      reads this
    {
      enableServiceAlerts && |activeAlerts| > 0
    }

    /** The transit system of line 1 (Metra when unset) and of line 2 (none
        outside dual-line mode or when empty). */
    function Line1Type(): TransitType
      reads this
    {
      if line1 != "" then DetectTransitType(line1) else Metra
    }

    function Line2Type(): Option<TransitType>
      reads this
    {
      if DualLineMode() && line2.value != "" then Some(DetectTransitType(line2.value)) else None
    }

    /** Metra alerts are fetched when either line is a Metra line. */
    predicate UsesMetra()
      reads this
    {
      Line1Type() == Metra || Line2Type() == Some(Metra)
    }

    predicate UsesCta()
      reads this
    {
      Line1Type() == Cta || Line2Type() == Some(Cta)
    }

    /** Sets a line's flag when one of the alerts lists that line; flags already
        set stay set. */
    method MarkAffectedLines(alerts: seq<AlertRecord>)
      modifies this
      ensures line1HasAlerts <==> old(line1HasAlerts) || exists a :: a in alerts && line1 in a.routes
      ensures line2HasAlerts <==> old(line2HasAlerts) || (DualLineMode() && exists a :: a in alerts && line2.value in a.routes)
      ensures activeAlerts == old(activeAlerts)
      ensures currentDirection == old(currentDirection) && currentStationIndex == old(currentStationIndex)
    {
      for k := 0 to |alerts|
        invariant line1HasAlerts <==> old(line1HasAlerts) || exists j :: 0 <= j < k && line1 in alerts[j].routes
        invariant line2HasAlerts <==> old(line2HasAlerts) || (DualLineMode() && exists j :: 0 <= j < k && line2.value in alerts[j].routes)
        invariant activeAlerts == old(activeAlerts)
        invariant currentDirection == old(currentDirection) && currentStationIndex == old(currentStationIndex)
      {
        var affectedRoutes := alerts[k].routes;
        if line1 in affectedRoutes {
          line1HasAlerts := true;
        }
        if DualLineMode() && line2.value in affectedRoutes {
          line2HasAlerts := true;
        }
      }
      assert forall a :: a in alerts ==> exists j :: 0 <= j < |alerts| && alerts[j] == a;
    }

    /** fetch_alerts: clear the alerts and flags, then take the Metra alerts
        when a Metra line is configured and the CTA alerts when a CTA line is;
        fetch_cta_alerts always answers with no alerts. `metraResponse` is the
        body of the alerts request, or None when it did not succeed. */
    method FetchAlerts(metraResponse: Option<Bytes>)
      requires Valid()
      modifies this
      ensures Valid()
      ensures currentDirection == old(currentDirection) && currentStationIndex == old(currentStationIndex)
      ensures UsesMetra() && metraResponse.Some? ==> activeAlerts == MetraAlerts(AlertDecoder.AlertFeed(metraResponse.value))
      ensures !UsesMetra() || metraResponse.None? ==> activeAlerts == []
      ensures line1HasAlerts <==> exists a :: a in activeAlerts && line1 in a.routes
      ensures line2HasAlerts <==> DualLineMode() && exists a :: a in activeAlerts && line2.value in a.routes
    {
      activeAlerts := [];
      line1HasAlerts := false;
      line2HasAlerts := false;
      if UsesMetra() {
        var metraAlerts := FetchMetraAlerts(metraResponse);
        activeAlerts := activeAlerts + metraAlerts;
        MarkAffectedLines(metraAlerts);
      }
      if UsesCta() {
        var ctaAlerts: seq<AlertRecord> := [];
        assert activeAlerts + ctaAlerts == activeAlerts;
        activeAlerts := activeAlerts + ctaAlerts;
        MarkAffectedLines(ctaAlerts);
      }
    }

    /** The rotation step of main_loop, taken each time the rotation period
        has elapsed. */
    method RotateView()
      requires Valid()
      modifies this
      ensures Valid()
      ensures Rotation(currentDirection, currentStationIndex)
           == RotationStep(old(Rotation(currentDirection, currentStationIndex)), old(AlertsShown()),
                           stationRotationEnabled, stationCount)
      ensures activeAlerts == old(activeAlerts)
      ensures line1HasAlerts == old(line1HasAlerts) && line2HasAlerts == old(line2HasAlerts)
    {
      if stationRotationEnabled {
        if enableServiceAlerts && |activeAlerts| > 0 {
          if currentDirection == InboundView {
            currentDirection := OutboundView;
          } else if currentDirection == OutboundView {
            currentDirection := AlertsView;
          } else {
            currentDirection := InboundView;
            currentStationIndex := (currentStationIndex + 1) % stationCount;
          }
        } else {
          if currentDirection == InboundView {
            currentDirection := OutboundView;
          } else {
            currentDirection := InboundView;
            currentStationIndex := (currentStationIndex + 1) % stationCount;
          }
        }
      } else {
        if enableServiceAlerts && |activeAlerts| > 0 {
          if currentDirection == InboundView {
            currentDirection := OutboundView;
          } else if currentDirection == OutboundView {
            currentDirection := AlertsView;
          } else {
            currentDirection := InboundView;
          }
        } else {
          currentDirection := if currentDirection == InboundView then OutboundView else InboundView;
        }
      }
    }
  }
}
