/** The arrival derivation of fetch_metra_trains (main.py): from the decoded
    trip-updates feed, the trains of one line at one station, split by
    direction and sorted by minutes to arrival. The HTTP request, the API token
    check and the clock are outside the model: the response body and the
    current POSIX time are parameters. */
module Arrivals {

  import opened Optional
  import opened Wire
  import opened TripDecoder
  import opened Sorting

  datatype Direction = Inbound | Outbound

  /** TrainArrival: route, direction, minutes until arrival and which configured
      line (1 or 2) the train belongs to. */
  datatype TrainArrival = TrainArrival(route: string, direction: Direction, minutes: int, lineNum: nat)

  /** The sort key of both queues. */
  function Minutes(t: TrainArrival): int { t.minutes }

  /** int(d / 60): the quotient rounded toward zero. */
  function TruncDiv60(d: int): (m: int)
    ensures d >= 0 ==> 60 * m <= d < 60 * m + 60
    ensures d < 0 ==> 60 * m - 60 < d <= 60 * m
  {
    if d >= 0 then d / 60 else -((-d) / 60)
  }

  /** The first stop-time update of the station, if the trip stops there. */
  function FirstStopAt(stops: seq<StopTimeUpdate>, stationId: string): (r: Option<StopTimeUpdate>)
    ensures r.None? <==> forall s :: s in stops ==> s.stopId != stationId
    ensures r.Some? ==> exists k :: 0 <= k < |stops| && stops[k] == r.value && r.value.stopId == stationId
                                    && forall j :: 0 <= j < k ==> stops[j].stopId != stationId
    decreases |stops|
  {
    if stops == [] then None
    else if stops[0].stopId == stationId then Some(stops[0])
    else
      var r := FirstStopAt(stops[1..], stationId);
      assert forall s :: s in stops ==> s == stops[0] || s in stops[1..];
      if r.Some? then
        assert exists k :: 0 <= k < |stops| && stops[k] == r.value && r.value.stopId == stationId
                           && forall j :: 0 <= j < k ==> stops[j].stopId != stationId by {
          var k :| 0 <= k < |stops[1..]| && stops[1..][k] == r.value && r.value.stopId == stationId
                   && forall j :: 0 <= j < k ==> stops[1..][j].stopId != stationId;
          assert stops[k + 1] == r.value;
          forall j | 0 <= j < k + 1 ensures stops[j].stopId != stationId {
            if j > 0 {
              assert stops[j] == stops[1..][j - 1];
            }
          }
        }
        r
      else r
  }

  /** The train one trip update contributes, if any: the trip must run on the
      line, stop at the station, and arrive between 5 minutes ago and 120
      minutes from now; a train already due shows 0 minutes. */
  function ArrivalOf(update: TripUpdate, stationId: string, lineCode: string, now: int): (r: Option<TrainArrival>)
    ensures r.Some? ==> update.trip.Some? && update.trip.value.routeId == lineCode
                        && FirstStopAt(update.stopTimeUpdates, stationId).Some?
    ensures r.Some? ==> r.value.route == lineCode && r.value.lineNum == 1 && 0 <= r.value.minutes <= 120
  {
    if update.trip.None? || update.trip.value.routeId != lineCode then None
    else
      match FirstStopAt(update.stopTimeUpdates, stationId)
      case None => None
      case Some(stop) =>
        var minutes := TruncDiv60(stop.arrivalTime - now);
        if minutes < -5 then None
        else
          var shown := if minutes < 0 then 0 else minutes;
          if shown > 120 then None
          else Some(TrainArrival(lineCode, if stop.stopSequence > 15 then Inbound else Outbound, shown, 1))
  }

  /** An entity without a trip update contributes nothing (the decoder never
      yields one; see TripDecoder.TripFeed). */
  function EntityArrival(e: FeedEntity, stationId: string, lineCode: string, now: int): Option<TrainArrival> {
    if e.tripUpdate.None? then None else ArrivalOf(e.tripUpdate.value, stationId, lineCode, now)
  }

  /** The trains of one direction, in feed order, before sorting: at most one
      per entity, each the train of one of the entities. */
  function Queue(entities: seq<FeedEntity>, stationId: string, lineCode: string, now: int, dir: Direction): (q: seq<TrainArrival>)
    ensures |q| <= |entities|
    ensures forall t :: t in q ==> exists k :: 0 <= k < |entities| && EntityArrival(entities[k], stationId, lineCode, now) == Some(t)
    decreases |entities|
  {
    if entities == [] then []
    else
      var rest := Queue(entities[..|entities| - 1], stationId, lineCode, now, dir);
      var a := EntityArrival(entities[|entities| - 1], stationId, lineCode, now);
      if a.Some? && a.value.direction == dir then rest + [a.value] else rest
  }

  /** The train of a trip of the line that stops at the station and passes
      both minute filters. */
  lemma ArrivalShown(update: TripUpdate, stationId: string, lineCode: string, now: int,
                     stop: StopTimeUpdate, minutes: int, shown: int)
    requires update.trip.Some? && update.trip.value.routeId == lineCode
    requires FirstStopAt(update.stopTimeUpdates, stationId) == Some(stop)
    requires minutes == TruncDiv60(stop.arrivalTime - now) && minutes >= -5
    requires shown == (if minutes < 0 then 0 else minutes) && shown <= 120
    ensures ArrivalOf(update, stationId, lineCode, now)
         == Some(TrainArrival(lineCode, if stop.stopSequence > 15 then Inbound else Outbound, shown, 1))
  {
  }

  /** A queue over one more entity gains that entity's train when it has one
      in the queue's direction. */
  lemma QueueStep(entities: seq<FeedEntity>, k: nat, stationId: string, lineCode: string, now: int, dir: Direction)
    requires k < |entities|
    ensures var a := EntityArrival(entities[k], stationId, lineCode, now);
            Queue(entities[..k + 1], stationId, lineCode, now, dir)
              == Queue(entities[..k], stationId, lineCode, now, dir) + (if a.Some? && a.value.direction == dir then [a.value] else [])
  {
    assert entities[..k + 1][..k] == entities[..k];
  }

  /** The inner stop loop of fetch_metra_trains: the first stop_time_update of
      the station. */
  method FindStop(stops: seq<StopTimeUpdate>, stationId: string) returns (found: Option<StopTimeUpdate>)
    ensures found == FirstStopAt(stops, stationId)
  {
    found := None;
    var i := 0;
    while i < |stops|
      invariant 0 <= i <= |stops|
      invariant FirstStopAt(stops, stationId) == FirstStopAt(stops[i..], stationId)
    {
      assert stops[i..][1..] == stops[i + 1..];
      if stops[i].stopId == stationId {
        found := Some(stops[i]);
        return;
      }
      i := i + 1;
    }
  }

  /** The body of fetch_metra_trains' entity loop up to the append: the train
      an entity contributes, if any. */
  method TrainOf(entity: FeedEntity, stationId: string, lineCode: string, now: int) returns (train: Option<TrainArrival>)
    ensures train == EntityArrival(entity, stationId, lineCode, now)
  {
    train := None;
    if entity.tripUpdate.None? {
      return;
    }
    var update := entity.tripUpdate.value;
    if update.trip.None? || update.trip.value.routeId != lineCode {
      return;
    }
    var stop := FindStop(update.stopTimeUpdates, stationId);
    if stop.None? {
      return;
    }
    var minutes := TruncDiv60(stop.value.arrivalTime - now);
    ghost var unclamped := minutes;
    if minutes < -5 {
      return;
    }
    if minutes < 0 {
      minutes := 0;
    }
    if minutes > 120 {
      return;
    }
    var direction := if stop.value.stopSequence > 15 then Inbound else Outbound;
    ArrivalShown(update, stationId, lineCode, now, stop.value, unclamped, minutes);
    train := Some(TrainArrival(lineCode, direction, minutes, 1));
  }

  /** fetch_metra_trains after the response has been read: decode the feed,
      keep each trip's train for the station, then sort both queues by minutes. */
  method FetchMetraTrains(rawContent: Bytes, stationId: string, lineCode: string, now: int)
    returns (inbound: seq<TrainArrival>, outbound: seq<TrainArrival>)
    ensures inbound == SortBy(Queue(TripFeed(rawContent), stationId, lineCode, now, Inbound), Minutes)
    ensures outbound == SortBy(Queue(TripFeed(rawContent), stationId, lineCode, now, Outbound), Minutes)
  {
    var entities := ParseGtfsProtobuf(rawContent);
    inbound, outbound := [], [];
    for k := 0 to |entities|
      invariant inbound == Queue(entities[..k], stationId, lineCode, now, Inbound)
      invariant outbound == Queue(entities[..k], stationId, lineCode, now, Outbound)
    {
      QueueStep(entities, k, stationId, lineCode, now, Inbound);
      QueueStep(entities, k, stationId, lineCode, now, Outbound);
      var train := TrainOf(entities[k], stationId, lineCode, now);
      if train.Some? {
        if train.value.direction == Inbound {
          inbound := inbound + [train.value];
        } else {
          outbound := outbound + [train.value];
        }
      }
    }
    assert entities[..|entities|] == entities;
    inbound := SortBy(inbound, Minutes);
    outbound := SortBy(outbound, Minutes);
  }

  // ---------------------------------------------------------------------
  // Properties

  /** Every queued train is of the requested line and direction, belongs to
      line 1, and shows between 0 and 120 minutes. */
  lemma {:induction false} QueueBounds(entities: seq<FeedEntity>, stationId: string, lineCode: string, now: int, dir: Direction)
    ensures forall t :: t in Queue(entities, stationId, lineCode, now, dir) ==>
              t.route == lineCode && t.direction == dir && t.lineNum == 1 && 0 <= t.minutes <= 120
    decreases |entities|
  {
    if entities != [] {
      QueueBounds(entities[..|entities| - 1], stationId, lineCode, now, dir);
    }
  }

  /** Two trains of one queue with the same minutes are the same record. */
  lemma QueueSameMinutes(entities: seq<FeedEntity>, stationId: string, lineCode: string, now: int, dir: Direction,
                         s: TrainArrival, t: TrainArrival)
    requires s in Queue(entities, stationId, lineCode, now, dir) && t in Queue(entities, stationId, lineCode, now, dir)
    requires s.minutes == t.minutes
    ensures s == t
  {
    QueueBounds(entities, stationId, lineCode, now, dir);
  }

  /** Two orderings by minutes of the same trains are equal when trains with
      the same minutes are the same record. */
  lemma {:induction false} SortedByMinutesUnique(a: seq<TrainArrival>, b: seq<TrainArrival>)
    requires multiset(a) == multiset(b)
    requires Sorted(a, Minutes) && Sorted(b, Minutes)
    requires forall s, t :: s in a && t in a && s.minutes == t.minutes ==> s == t
    ensures a == b
    decreases |a|
  {
    assert |a| == |multiset(a)| == |multiset(b)| == |b|;
    if a != [] {
      SortedHeads(a, b);
      SameTails(a, b);
      SortedTail(a, Minutes);
      SortedTail(b, Minutes);
      assert forall x :: x in a[1..] ==> x in a;
      SortedByMinutesUnique(a[1..], b[1..]);
      forall i | 1 <= i < |a| ensures a[i] == b[i] {
        assert a[i] == a[1..][i - 1] && b[i] == b[1..][i - 1];
      }
    }
  }

  /** The first trains of two such orderings are the same record. */
  lemma SortedHeads(a: seq<TrainArrival>, b: seq<TrainArrival>)
    requires a != [] && b != [] && multiset(a) == multiset(b)
    requires Sorted(a, Minutes) && Sorted(b, Minutes)
    requires forall s, t :: s in a && t in a && s.minutes == t.minutes ==> s == t
    ensures a[0] == b[0]
  {
    assert a[0] in multiset(b) && b[0] in multiset(a);
    var i :| 0 <= i < |b| && b[i] == a[0];
    var k :| 0 <= k < |a| && a[k] == b[0];
    assert Minutes(a[0]) <= Minutes(a[k]) && Minutes(b[0]) <= Minutes(b[i]);
  }

  /** Removing the same first train leaves the same trains. */
  lemma SameTails(a: seq<TrainArrival>, b: seq<TrainArrival>)
    requires a != [] && b != [] && multiset(a) == multiset(b) && a[0] == b[0]
    ensures multiset(a[1..]) == multiset(b[1..])
  {
    assert a == [a[0]] + a[1..] && b == [b[0]] + b[1..];
    assert multiset(a[1..]) == multiset(a) - multiset{a[0]};
    assert multiset(b[1..]) == multiset(b) - multiset{b[0]};
  }

  /** Any ordering of a queue by minutes is the one the model computes, so the
      train queues do not depend on whether the sort keeps trains with equal
      minutes in feed order. */
  lemma QueueOrderUnique(entities: seq<FeedEntity>, stationId: string, lineCode: string, now: int, dir: Direction,
                         r: seq<TrainArrival>)
    requires multiset(r) == multiset(Queue(entities, stationId, lineCode, now, dir))
    requires Sorted(r, Minutes)
    ensures r == SortBy(Queue(entities, stationId, lineCode, now, dir), Minutes)
  {
    var q := Queue(entities, stationId, lineCode, now, dir);
    forall s, t | s in r && t in r && s.minutes == t.minutes ensures s == t {
      assert s in multiset(q) && t in multiset(q);
      QueueSameMinutes(entities, stationId, lineCode, now, dir, s, t);
    }
    SortedByMinutesUnique(r, SortBy(q, Minutes));
  }

  /** A trip of the line that stops at the station yields a train exactly when
      it arrives between 359 seconds ago and 7259 seconds from now, that is
      when the truncated minutes lie between -5 and 120. */
  lemma ArrivalWindow(update: TripUpdate, stationId: string, lineCode: string, now: int, stop: StopTimeUpdate)
    requires update.trip.Some? && update.trip.value.routeId == lineCode
    requires FirstStopAt(update.stopTimeUpdates, stationId) == Some(stop)
    ensures ArrivalOf(update, stationId, lineCode, now).Some?
        <==> -359 <= stop.arrivalTime - now <= 7259
  {
  }

  /** A train due within the minute, or up to 359 seconds late, shows 0 minutes;
      a later one shows the whole minutes until it arrives. */
  lemma ArrivalMinutes(update: TripUpdate, stationId: string, lineCode: string, now: int, stop: StopTimeUpdate)
    requires update.trip.Some? && update.trip.value.routeId == lineCode
    requires FirstStopAt(update.stopTimeUpdates, stationId) == Some(stop)
    requires -359 <= stop.arrivalTime - now <= 7259
    ensures var m := ArrivalOf(update, stationId, lineCode, now).value.minutes;
            && (stop.arrivalTime - now < 60 ==> m == 0)
            && (stop.arrivalTime - now >= 0 ==> 60 * m <= stop.arrivalTime - now < 60 * m + 60)
  {
  }

  /** Direction is a function of the stop sequence alone: Inbound exactly
      above 15. */
  lemma DirectionRule(update: TripUpdate, stationId: string, lineCode: string, now: int, stop: StopTimeUpdate)
    requires ArrivalOf(update, stationId, lineCode, now).Some?
    requires FirstStopAt(update.stopTimeUpdates, stationId) == Some(stop)
    ensures ArrivalOf(update, stationId, lineCode, now).value.direction == Inbound <==> stop.stopSequence > 15
  {
  }

  /** A trip of another line, or one that does not stop at the station,
      yields nothing. */
  lemma NoArrivalOffLine(update: TripUpdate, stationId: string, lineCode: string, now: int)
    requires update.trip.None? || update.trip.value.routeId != lineCode
             || forall s :: s in update.stopTimeUpdates ==> s.stopId != stationId
    ensures ArrivalOf(update, stationId, lineCode, now).None?
  {
  }

  /** The queue of a one-entity feed. */
  lemma QueueOfOne(e: FeedEntity, stationId: string, lineCode: string, now: int, dir: Direction)
    ensures Queue([e], stationId, lineCode, now, dir)
         == if EntityArrival(e, stationId, lineCode, now).Some? && EntityArrival(e, stationId, lineCode, now).value.direction == dir
            then [EntityArrival(e, stationId, lineCode, now).value] else []
  {
    assert [e][..0] == [];
  }

  /** The UP-N trip of the scenario below: stop sequence `sequence` at
      RAVENSWOOD, arriving 300 seconds after `now`. */
  function ScenarioEntity(now: nat, sequence: nat): FeedEntity {
    FeedEntity("", Some(TripUpdate(Some(TripDescriptor("", "UP-N")), [StopTimeUpdate(sequence, "RAVENSWOOD", now + 300)])))
  }

  lemma ScenarioArrival(now: nat, sequence: nat)
    ensures EntityArrival(ScenarioEntity(now, sequence), "RAVENSWOOD", "UP-N", now)
         == Some(TrainArrival("UP-N", if sequence > 15 then Inbound else Outbound, 5, 1))
  {
    var stop := StopTimeUpdate(sequence, "RAVENSWOOD", now + 300);
    assert FirstStopAt([stop], "RAVENSWOOD") == Some(stop);
    assert TruncDiv60(300) == 5;
  }

  lemma ScenarioFeed(now: nat, sequence: nat)
    ensures TripFeed(EncodeFeed([ScenarioEntity(now, sequence)])) == [ScenarioEntity(now, sequence)]
  {
    var e := ScenarioEntity(now, sequence);
    assert IsLatin1("RAVENSWOOD") && IsLatin1("UP-N") && IsLatin1("");
    assert EncodableEntity(e);
    FeedRoundTrip([e]);
    assert WithTripUpdate([e]) == [e];
  }

  /** The UP-N trip at RAVENSWOOD, arriving in 300 seconds, read from its
      encoded feed: a single train at 5 minutes, Inbound for stop sequence 20
      and Outbound for stop sequence 10, and nothing in the other queue. */
  lemma RavenswoodScenario(now: nat, sequence: nat, dir: Direction)
    requires sequence == 20 || sequence == 10
    ensures SortBy(Queue(TripFeed(EncodeFeed([ScenarioEntity(now, sequence)])), "RAVENSWOOD", "UP-N", now, dir), Minutes)
         == if dir == (if sequence == 20 then Inbound else Outbound) then [TrainArrival("UP-N", dir, 5, 1)] else []
  {
    var e := ScenarioEntity(now, sequence);
    ScenarioFeed(now, sequence);
    ScenarioArrival(now, sequence);
    QueueOfOne(e, "RAVENSWOOD", "UP-N", now, dir);
    SortOfOne(Queue([e], "RAVENSWOOD", "UP-N", now, dir));
  }

  /** A queue of at most one train is already in order. */
  lemma SortOfOne(q: seq<TrainArrival>)
    requires |q| <= 1
    ensures SortBy(q, Minutes) == q
  {
    if q != [] {
      assert q[1..] == [];
    }
  }
}
