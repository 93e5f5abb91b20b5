/** parse_gtfs_protobuf (main.py): the GTFS-Realtime trip-updates decoder.
    FeedMessage -> FeedEntity -> TripUpdate -> TripDescriptor / StopTimeUpdate
    -> StopTimeEvent. Every message is a `while pos < len(data)` loop; a field
    is extracted only when both its number and its wire type are the right
    ones, and is otherwise skipped by its actual wire type. The specification
    of each message is a fold over `Wire.Walk`; each method is the source's
    loop, proved equal to it. */
module TripDecoder {

  import opened Optional
  import opened Wire

  datatype StopTimeUpdate = StopTimeUpdate(stopSequence: nat, stopId: string, arrivalTime: nat)

  datatype TripDescriptor = TripDescriptor(tripId: string, routeId: string)

  /** `trip` is None while no TripDescriptor field was seen (the source's `{}`). */
  datatype TripUpdate = TripUpdate(trip: Option<TripDescriptor>, stopTimeUpdates: seq<StopTimeUpdate>)

  datatype FeedEntity = FeedEntity(id: string, tripUpdate: Option<TripUpdate>)

  // ---------------------------------------------------------------------
  // The records each message denotes

  /** StopTimeEvent: field 2 (varint) is the time; the last one read wins. */
  function EventTimeStep(time: nat, f: Field): nat {
    if f.number == 2 && f.payload.VarintValue? then f.payload.value else time
  }

  function EventTime(data: Bytes): nat {
    FoldFields(EventTimeStep, 0, Walk(data, 0, Nested))
  }

  /** A StopTimeUpdate before any of its fields is read. */
  const NoStop := StopTimeUpdate(0, "", 0)

  /** StopTimeUpdate: 1 stop_sequence (varint), 2 arrival and 3 departure
      (StopTimeEvent, the departure used only while the arrival time is still 0),
      4 stop_id (string). */
  function StopStep(stop: StopTimeUpdate, f: Field): StopTimeUpdate {
    match f.payload
    case VarintValue(v) => if f.number == 1 then stop.(stopSequence := v) else stop
    case LengthDelimited(b) =>
      if f.number == 2 then stop.(arrivalTime := EventTime(b))
      else if f.number == 3 then (if stop.arrivalTime == 0 then stop.(arrivalTime := EventTime(b)) else stop)
      else if f.number == 4 then stop.(stopId := Text(b))
      else stop
    case Fixed(_) => stop
  }

  function StopTimeUpdateOf(data: Bytes): StopTimeUpdate {
    FoldFields(StopStep, NoStop, Walk(data, 0, Nested))
  }

  /** TripDescriptor: 1 trip_id, 5 route_id (strings). */
  function TripStep(trip: TripDescriptor, f: Field): TripDescriptor {
    match f.payload
    case LengthDelimited(b) =>
      if f.number == 1 then trip.(tripId := Text(b))
      else if f.number == 5 then trip.(routeId := Text(b))
      else trip
    case _ => trip
  }

  function TripDescriptorOf(data: Bytes): TripDescriptor {
    FoldFields(TripStep, TripDescriptor("", ""), Walk(data, 0, Nested))
  }

  /** TripUpdate: 1 trip (TripDescriptor, the last one wins), 2 stop_time_update
      (repeated, appended in order). */
  function TripUpdateStep(update: TripUpdate, f: Field): TripUpdate {
    match f.payload
    case LengthDelimited(b) =>
      if f.number == 1 then update.(trip := Some(TripDescriptorOf(b)))
      else if f.number == 2 then update.(stopTimeUpdates := update.stopTimeUpdates + [StopTimeUpdateOf(b)])
      else update
    case _ => update
  }

  function TripUpdateOf(data: Bytes): TripUpdate {
    FoldFields(TripUpdateStep, TripUpdate(None, []), Walk(data, 0, Nested))
  }

  /** FeedEntity: 1 id (string), 3 trip_update (TripUpdate). */
  function EntityStep(entity: FeedEntity, f: Field): FeedEntity {
    match f.payload
    case LengthDelimited(b) =>
      if f.number == 1 then entity.(id := Text(b))
      else if f.number == 3 then entity.(tripUpdate := Some(TripUpdateOf(b)))
      else entity
    case _ => entity
  }

  function EntityOf(data: Bytes): FeedEntity {
    FoldFields(EntityStep, FeedEntity("", None), Walk(data, 0, Nested))
  }

  /** FeedMessage: each field 2 (FeedEntity) is decoded and kept, in feed order,
      when it held a trip_update. */
  function FeedStep(entities: seq<FeedEntity>, f: Field): seq<FeedEntity> {
    match f.payload
    case LengthDelimited(b) =>
      if f.number == 2 && EntityOf(b).tripUpdate.Some? then entities + [EntityOf(b)] else entities
    case _ => entities
  }

  function TripFeed(data: Bytes): (entities: seq<FeedEntity>)
    ensures forall e :: e in entities ==> e.tripUpdate.Some?
  {
    FeedFoldKeepsTripUpdates([], Walk(data, 0, FeedLevel));
    FoldFields(FeedStep, [], Walk(data, 0, FeedLevel))
  }

  // ---------------------------------------------------------------------
  // The message loops

  /** parse_stop_time_event. */
  method ParseStopTimeEvent(data: Bytes) returns (time: nat)
    ensures time == EventTime(data)
  {
    var pos := 0;
    time := 0;
    ghost var whole := FoldFields(EventTimeStep, 0, Walk(data, 0, Nested));
    while pos < |data|
      invariant FoldFields(EventTimeStep, time, Walk(data, pos, Nested)) == whole
      decreases |data| - pos
    {
      ghost var here, before := pos, time;
      var tag, p := ReadVarint(data, pos);
      var fieldNum, wireType := tag / 8, tag % 8;
      if fieldNum == 2 && wireType == 0 {
        time, pos := ReadVarint(data, p);
      } else if wireType == 0 {
        var skipped;
        skipped, pos := ReadVarint(data, p);
      } else if wireType == 2 {
        var skipped;
        skipped, pos := ReadBytes(data, p);
      } else if wireType == 1 {
        pos := p + 8;
      } else if wireType == 5 {
        pos := p + 4;
      } else {
        WalkStops(data, here, tag, Nested);
        break;
      }
      WalkStep(EventTimeStep, before, data, here, tag, p, pos, Nested);
    }
  }

  /** parse_stop_time_update. */
  method ParseStopTimeUpdate(data: Bytes) returns (stop: StopTimeUpdate)
    ensures stop == StopTimeUpdateOf(data)
  {
    var pos := 0;
    stop := StopTimeUpdate(0, "", 0);
    ghost var whole := FoldFields(StopStep, NoStop, Walk(data, 0, Nested));
    while pos < |data|
      invariant FoldFields(StopStep, stop, Walk(data, pos, Nested)) == whole
      decreases |data| - pos
    {
      ghost var here, before := pos, stop;
      var tag, p := ReadVarint(data, pos);
      var fieldNum, wireType := tag / 8, tag % 8;
      if fieldNum == 1 && wireType == 0 {
        var sequence;
        sequence, pos := ReadVarint(data, p);
        stop := stop.(stopSequence := sequence);
      } else if fieldNum == 2 && wireType == 2 {
        var arrivalData;
        arrivalData, pos := ReadBytes(data, p);
        var time := ParseStopTimeEvent(arrivalData);
        stop := stop.(arrivalTime := time);
      } else if fieldNum == 3 && wireType == 2 {
        var departureData;
        departureData, pos := ReadBytes(data, p);
        if stop.arrivalTime == 0 {
          var time := ParseStopTimeEvent(departureData);
          stop := stop.(arrivalTime := time);
        }
      } else if fieldNum == 4 && wireType == 2 {
        var stopId;
        stopId, pos := ReadString(data, p);
        stop := stop.(stopId := stopId);
      } else if wireType == 0 {
        var skipped;
        skipped, pos := ReadVarint(data, p);
      } else if wireType == 2 {
        var skipped;
        skipped, pos := ReadBytes(data, p);
      } else if wireType == 1 {
        pos := p + 8;
      } else if wireType == 5 {
        pos := p + 4;
      } else {
        WalkStops(data, here, tag, Nested);
        break;
      }
      WalkStep(StopStep, before, data, here, tag, p, pos, Nested);
    }
  }

  /** parse_trip_descriptor. */
  method ParseTripDescriptor(data: Bytes) returns (trip: TripDescriptor)
    ensures trip == TripDescriptorOf(data)
  {
    var pos := 0;
    trip := TripDescriptor("", "");
    ghost var whole := FoldFields(TripStep, TripDescriptor("", ""), Walk(data, 0, Nested));
    while pos < |data|
      invariant FoldFields(TripStep, trip, Walk(data, pos, Nested)) == whole
      decreases |data| - pos
    {
      ghost var here, before := pos, trip;
      var tag, p := ReadVarint(data, pos);
      var fieldNum, wireType := tag / 8, tag % 8;
      if fieldNum == 1 && wireType == 2 {
        var tripId;
        tripId, pos := ReadString(data, p);
        trip := trip.(tripId := tripId);
      } else if fieldNum == 5 && wireType == 2 {
        var routeId;
        routeId, pos := ReadString(data, p);
        trip := trip.(routeId := routeId);
      } else if wireType == 0 {
        var skipped;
        skipped, pos := ReadVarint(data, p);
      } else if wireType == 2 {
        var skipped;
        skipped, pos := ReadBytes(data, p);
      } else if wireType == 1 {
        pos := p + 8;
      } else if wireType == 5 {
        pos := p + 4;
      } else {
        WalkStops(data, here, tag, Nested);
        break;
      }
      WalkStep(TripStep, before, data, here, tag, p, pos, Nested);
    }
  }

  /** parse_trip_update. */
  method ParseTripUpdate(data: Bytes) returns (update: TripUpdate)
    ensures update == TripUpdateOf(data)
  {
    var pos := 0;
    update := TripUpdate(None, []);
    ghost var whole := FoldFields(TripUpdateStep, TripUpdate(None, []), Walk(data, 0, Nested));
    while pos < |data|
      invariant FoldFields(TripUpdateStep, update, Walk(data, pos, Nested)) == whole
      decreases |data| - pos
    {
      ghost var here, before := pos, update;
      var tag, p := ReadVarint(data, pos);
      var fieldNum, wireType := tag / 8, tag % 8;
      if fieldNum == 1 && wireType == 2 {
        var tripData;
        tripData, pos := ReadBytes(data, p);
        var trip := ParseTripDescriptor(tripData);
        update := update.(trip := Some(trip));
      } else if fieldNum == 2 && wireType == 2 {
        var stopData;
        stopData, pos := ReadBytes(data, p);
        var stop := ParseStopTimeUpdate(stopData);
        update := update.(stopTimeUpdates := update.stopTimeUpdates + [stop]);
      } else if wireType == 0 {
        var skipped;
        skipped, pos := ReadVarint(data, p);
      } else if wireType == 2 {
        var skipped;
        skipped, pos := ReadBytes(data, p);
      } else if wireType == 1 {
        pos := p + 8;
      } else if wireType == 5 {
        pos := p + 4;
      } else {
        WalkStops(data, here, tag, Nested);
        break;
      }
      WalkStep(TripUpdateStep, before, data, here, tag, p, pos, Nested);
    }
  }

  /** parse_entity (trip-updates feed). */
  method ParseEntity(data: Bytes) returns (entity: FeedEntity)
    ensures entity == EntityOf(data)
  {
    var pos := 0;
    entity := FeedEntity("", None);
    ghost var whole := FoldFields(EntityStep, FeedEntity("", None), Walk(data, 0, Nested));
    while pos < |data|
      invariant FoldFields(EntityStep, entity, Walk(data, pos, Nested)) == whole
      decreases |data| - pos
    {
      ghost var here, before := pos, entity;
      var tag, p := ReadVarint(data, pos);
      var fieldNum, wireType := tag / 8, tag % 8;
      if fieldNum == 1 && wireType == 2 {
        var id;
        id, pos := ReadString(data, p);
        entity := entity.(id := id);
      } else if fieldNum == 3 && wireType == 2 {
        var updateData;
        updateData, pos := ReadBytes(data, p);
        var update := ParseTripUpdate(updateData);
        entity := entity.(tripUpdate := Some(update));
      } else if wireType == 0 {
        var skipped;
        skipped, pos := ReadVarint(data, p);
      } else if wireType == 2 {
        var skipped;
        skipped, pos := ReadBytes(data, p);
      } else if wireType == 1 {
        pos := p + 8;
      } else if wireType == 5 {
        pos := p + 4;
      } else {
        WalkStops(data, here, tag, Nested);
        break;
      }
      WalkStep(EntityStep, before, data, here, tag, p, pos, Nested);
    }
  }

  /** parse_gtfs_protobuf: the FeedMessage loop. An unknown wire type here
      advances one byte past the tag instead of ending the message. */
  method ParseGtfsProtobuf(data: Bytes) returns (entities: seq<FeedEntity>)
    ensures entities == TripFeed(data)
  {
    var pos := 0;
    entities := [];
    ghost var whole := FoldFields(FeedStep, [], Walk(data, 0, FeedLevel));
    while pos < |data|
      invariant FoldFields(FeedStep, entities, Walk(data, pos, FeedLevel)) == whole
      decreases |data| - pos
    {
      ghost var here, before := pos, entities;
      var tag, p := ReadVarint(data, pos);
      var fieldNum, wireType := tag / 8, tag % 8;
      if fieldNum == 2 && wireType == 2 {
        var entityData;
        entityData, pos := ReadBytes(data, p);
        var entity := ParseEntity(entityData);
        if entity.tripUpdate.Some? {
          entities := entities + [entity];
        }
        FeedEntityField(data, here, tag, p, entityData, pos, before, entity, entities);
      } else if wireType == 0 {
        var skipped;
        skipped, pos := ReadVarint(data, p);
        FeedOtherField(data, here, tag, p, pos, before);
      } else if wireType == 2 {
        var skipped;
        skipped, pos := ReadBytes(data, p);
        FeedOtherField(data, here, tag, p, pos, before);
      } else if wireType == 1 {
        pos := p + 8;
        FeedOtherField(data, here, tag, p, pos, before);
      } else if wireType == 5 {
        pos := p + 4;
        FeedOtherField(data, here, tag, p, pos, before);
      } else {
        pos := p + 1;
        FeedOtherField(data, here, tag, p, pos, before);
      }
    }
  }

  /** The feed loop over an entity field (field 2, wire type 2) decodes the
      entity bytes, keeps the entity when it holds a tripUpdate and moves past it. */
  lemma FeedEntityField(data: Bytes, here: nat, tag: nat, p: nat, b: Bytes, next: nat,
                        before: seq<FeedEntity>, entity: FeedEntity, after: seq<FeedEntity>)
    requires here < |data| && Varint(data, here) == (tag, p) && tag / 8 == 2 && tag % 8 == 2
    requires Delimited(data, p) == (b, next) && entity == EntityOf(b)
    requires after == if entity.tripUpdate.Some? then before + [entity] else before
    ensures FoldFields(FeedStep, before, Walk(data, here, FeedLevel))
         == FoldFields(FeedStep, after, Walk(data, next, FeedLevel))
  {
    WalkStep(FeedStep, before, data, here, tag, p, next, FeedLevel);
    assert FieldAt(data, here) == Field(2, LengthDelimited(b));
  }

  /** The feed loop over any other field it consumes, or over a byte it skips,
      leaves the entities as they are. */
  lemma FeedOtherField(data: Bytes, here: nat, tag: nat, p: nat, next: nat, before: seq<FeedEntity>)
    requires here < |data| && Varint(data, here) == (tag, p)
    requires !(tag / 8 == 2 && tag % 8 == 2)
    requires || (tag % 8 == 0 && next == Varint(data, p).1)
             || (tag % 8 == 2 && next == Delimited(data, p).1)
             || (tag % 8 == 1 && next == p + 8)
             || (tag % 8 == 5 && next == p + 4)
             || (tag % 8 !in {0, 1, 2, 5} && next == p + 1)
    ensures FoldFields(FeedStep, before, Walk(data, here, FeedLevel))
         == FoldFields(FeedStep, before, Walk(data, next, FeedLevel))
  {
    if tag % 8 in {0, 1, 2, 5} {
      WalkStep(FeedStep, before, data, here, tag, p, next, FeedLevel);
      assert FeedStep(before, FieldAt(data, here)) == before;
    } else {
      WalkSkipsByte(data, here, tag, p);
    }
  }

  // ---------------------------------------------------------------------
  // Properties of the decoded feed

  /** The FeedMessage fold only ever appends entities that carry a trip update. */
  lemma {:induction false} FeedFoldKeepsTripUpdates(acc: seq<FeedEntity>, fields: seq<Field>)
    requires forall e :: e in acc ==> e.tripUpdate.Some?
    ensures forall e :: e in FoldFields(FeedStep, acc, fields) ==> e.tripUpdate.Some?
    decreases |fields|
  {
    if fields != [] {
      var next := FeedStep(acc, fields[0]);
      FeedFoldKeepsTripUpdates(next, fields[1..]);
      assert FoldFields(FeedStep, acc, fields) == FoldFields(FeedStep, next, fields[1..]);
    }
  }

  /** Every entity parse_gtfs_protobuf returns has a trip_update. */
  /** A field that sets FeedEntity.trip_update. */
  predicate IsTripUpdateField(f: Field) {
    f.number == 3 && f.payload.LengthDelimited?
  }

  /** The FeedEntity fold ends with a trip update exactly when it started with
      one or one of the fields sets it. */
  lemma {:induction false} EntityFoldTripUpdate(acc: FeedEntity, fields: seq<Field>)
    ensures FoldFields(EntityStep, acc, fields).tripUpdate.Some?
        <==> acc.tripUpdate.Some? || exists f :: f in fields && IsTripUpdateField(f)
    decreases |fields|
  {
    if fields != [] {
      var next := EntityStep(acc, fields[0]);
      EntityFoldTripUpdate(next, fields[1..]);
      assert FoldFields(EntityStep, acc, fields) == FoldFields(EntityStep, next, fields[1..]);
      assert fields == [fields[0]] + fields[1..];
      assert (exists f :: f in fields && IsTripUpdateField(f))
         <==> IsTripUpdateField(fields[0]) || exists f :: f in fields[1..] && IsTripUpdateField(f);
    }
  }

  /** An entity has a trip update exactly when its message holds a
      length-delimited field 3. */
  lemma EntityHasTripUpdate(data: Bytes)
    ensures EntityOf(data).tripUpdate.Some?
        <==> exists f :: f in Walk(data, 0, Nested) && IsTripUpdateField(f)
  {
    EntityFoldTripUpdate(FeedEntity("", None), Walk(data, 0, Nested));
  }

  /** A departure does not replace an arrival time that is already set. */
  lemma ArrivalBeforeDeparture(arrival: Bytes, departure: Bytes)
    requires EventTime(arrival) != 0
    ensures StopTimeUpdateOf(EncodeFields([Field(2, LengthDelimited(arrival)), Field(3, LengthDelimited(departure))])).arrivalTime
         == EventTime(arrival)
  {
    var first, second := Field(2, LengthDelimited(arrival)), Field(3, LengthDelimited(departure));
    WalkEncoded([first, second], Nested);
    assert [first, second] == [first] + [second];
    FoldFirst(StopStep, NoStop, first, [second]);
    FoldOne(StopStep, StopStep(NoStop, first), second);
  }

  /** Without an arrival, the departure time stands in for it. */
  lemma DepartureWithoutArrival(departure: Bytes)
    ensures StopTimeUpdateOf(EncodeFields([Field(3, LengthDelimited(departure))])).arrivalTime
         == EventTime(departure)
  {
    var only := Field(3, LengthDelimited(departure));
    WalkEncoded([only], Nested);
    FoldOne(StopStep, NoStop, only);
  }

  // ---------------------------------------------------------------------
  // Encoding partners: records written out as the messages the decoder reads

  function EncodeEvent(time: nat): Bytes {
    EncodeFields([Field(2, VarintValue(time))])
  }

  /** A StopTimeEvent holding `time` decodes to `time`. */
  lemma EventRoundTrip(time: nat)
    ensures EventTime(EncodeEvent(time)) == time
  {
    var only := Field(2, VarintValue(time));
    WalkEncoded([only], Nested);
    FoldOne(EventTimeStep, 0, only);
  }

  predicate EncodableStop(s: StopTimeUpdate) {
    IsLatin1(s.stopId)
  }

  function EncodeStop(s: StopTimeUpdate): Bytes
    requires EncodableStop(s)
  {
    EncodeFields([Field(1, VarintValue(s.stopSequence)),
                  Field(2, LengthDelimited(EncodeEvent(s.arrivalTime))),
                  Field(4, LengthDelimited(Latin1(s.stopId)))])
  }

  /** parse_stop_time_update reads an encoded StopTimeUpdate back. */
  lemma StopRoundTrip(s: StopTimeUpdate)
    requires EncodableStop(s)
    ensures StopTimeUpdateOf(EncodeStop(s)) == s
  {
    var f1 := Field(1, VarintValue(s.stopSequence));
    var f2 := Field(2, LengthDelimited(EncodeEvent(s.arrivalTime)));
    var f4 := Field(4, LengthDelimited(Latin1(s.stopId)));
    WalkEncoded([f1, f2, f4], Nested);
    EventRoundTrip(s.arrivalTime);
    assert [f1, f2, f4] == [f1] + ([f2] + [f4]);
    var a := StopStep(NoStop, f1);
    var b := StopStep(a, f2);
    FoldFirst(StopStep, NoStop, f1, [f2] + [f4]);
    FoldFirst(StopStep, a, f2, [f4]);
    FoldOne(StopStep, b, f4);
  }

  predicate EncodableTrip(t: TripDescriptor) {
    IsLatin1(t.tripId) && IsLatin1(t.routeId)
  }

  function EncodeTrip(t: TripDescriptor): Bytes
    requires EncodableTrip(t)
  {
    EncodeFields([Field(1, LengthDelimited(Latin1(t.tripId))), Field(5, LengthDelimited(Latin1(t.routeId)))])
  }

  /** parse_trip_descriptor reads an encoded TripDescriptor back. */
  lemma TripRoundTrip(t: TripDescriptor)
    requires EncodableTrip(t)
    ensures TripDescriptorOf(EncodeTrip(t)) == t
  {
    var f1, f5 := Field(1, LengthDelimited(Latin1(t.tripId))), Field(5, LengthDelimited(Latin1(t.routeId)));
    WalkEncoded([f1, f5], Nested);
    assert [f1, f5] == [f1] + [f5];
    FoldFirst(TripStep, TripDescriptor("", ""), f1, [f5]);
    FoldOne(TripStep, TripStep(TripDescriptor("", ""), f1), f5);
  }

  predicate EncodableUpdate(u: TripUpdate) {
    && (u.trip.Some? ==> EncodableTrip(u.trip.value))
    && forall i :: 0 <= i < |u.stopTimeUpdates| ==> EncodableStop(u.stopTimeUpdates[i])
  }

  /** Field 2 of a TripUpdate, once per stop. */
  function StopFields(stops: seq<StopTimeUpdate>): (fs: seq<Field>)
    requires forall i :: 0 <= i < |stops| ==> EncodableStop(stops[i])
    ensures forall i :: 0 <= i < |fs| ==> fs[i].payload.LengthDelimited?
    decreases |stops|
  {
    if stops == [] then []
    else [Field(2, LengthDelimited(EncodeStop(stops[0])))] + StopFields(stops[1..])
  }

  function UpdateFields(u: TripUpdate): (fs: seq<Field>)
    requires EncodableUpdate(u)
    ensures forall i :: 0 <= i < |fs| ==> fs[i].payload.LengthDelimited?
  {
    (if u.trip.Some? then [Field(1, LengthDelimited(EncodeTrip(u.trip.value)))] else [])
    + StopFields(u.stopTimeUpdates)
  }

  function EncodeUpdate(u: TripUpdate): Bytes
    requires EncodableUpdate(u)
  {
    EncodeFields(UpdateFields(u))
  }

  /** Stop-time updates are appended in message order. */
  lemma {:induction false} StopFieldsFold(acc: TripUpdate, stops: seq<StopTimeUpdate>)
    requires forall i :: 0 <= i < |stops| ==> EncodableStop(stops[i])
    ensures FoldFields(TripUpdateStep, acc, StopFields(stops))
         == acc.(stopTimeUpdates := acc.stopTimeUpdates + stops)
    decreases |stops|
  {
    if stops == [] {
      assert acc.stopTimeUpdates + stops == acc.stopTimeUpdates;
    } else {
      var b := EncodeStop(stops[0]);
      StopRoundTrip(stops[0]);
      var head := Field(2, LengthDelimited(b));
      var next := acc.(stopTimeUpdates := acc.stopTimeUpdates + [stops[0]]);
      AppendStop(acc, b);
      assert StopFields(stops) == [head] + StopFields(stops[1..]);
      FoldFirst(TripUpdateStep, acc, head, StopFields(stops[1..]));
      assert TripUpdateStep(acc, head) == next;
      StopFieldsFold(next, stops[1..]);
      AppendFirst(acc.stopTimeUpdates, stops);
    }
  }

  lemma AppendStop(acc: TripUpdate, b: Bytes)
    ensures TripUpdateStep(acc, Field(2, LengthDelimited(b)))
         == acc.(stopTimeUpdates := acc.stopTimeUpdates + [StopTimeUpdateOf(b)])
  {
  }

  /** parse_trip_update reads an encoded TripUpdate back. */
  lemma UpdateRoundTrip(u: TripUpdate)
    requires EncodableUpdate(u)
    ensures TripUpdateOf(EncodeUpdate(u)) == u
  {
    var fields := UpdateFields(u);
    assert forall i :: 0 <= i < |fields| ==> Encodable(fields[i], Nested);
    WalkEncoded(fields, Nested);
    var start := TripUpdate(None, []);
    if u.trip.Some? {
      var head := Field(1, LengthDelimited(EncodeTrip(u.trip.value)));
      TripRoundTrip(u.trip.value);
      assert fields == [head] + StopFields(u.stopTimeUpdates);
      FoldFirst(TripUpdateStep, start, head, StopFields(u.stopTimeUpdates));
      StopFieldsFold(TripUpdateStep(start, head), u.stopTimeUpdates);
    } else {
      assert fields == StopFields(u.stopTimeUpdates);
      StopFieldsFold(start, u.stopTimeUpdates);
    }
  }

  predicate EncodableEntity(e: FeedEntity) {
    IsLatin1(e.id) && (e.tripUpdate.Some? ==> EncodableUpdate(e.tripUpdate.value))
  }

  function EntityFields(e: FeedEntity): (fs: seq<Field>)
    requires EncodableEntity(e)
    ensures forall i :: 0 <= i < |fs| ==> fs[i].payload.LengthDelimited?
  {
    [Field(1, LengthDelimited(Latin1(e.id)))]
    + (if e.tripUpdate.Some? then [Field(3, LengthDelimited(EncodeUpdate(e.tripUpdate.value)))] else [])
  }

  function EncodeEntity(e: FeedEntity): Bytes
    requires EncodableEntity(e)
  {
    EncodeFields(EntityFields(e))
  }

  /** parse_entity reads an encoded FeedEntity back. */
  lemma EntityRoundTrip(e: FeedEntity)
    requires EncodableEntity(e)
    ensures EntityOf(EncodeEntity(e)) == e
  {
    var fields := EntityFields(e);
    assert forall i :: 0 <= i < |fields| ==> Encodable(fields[i], Nested);
    WalkEncoded(fields, Nested);
    var start := FeedEntity("", None);
    var f1 := Field(1, LengthDelimited(Latin1(e.id)));
    var a := EntityStep(start, f1);
    if e.tripUpdate.Some? {
      var f3 := Field(3, LengthDelimited(EncodeUpdate(e.tripUpdate.value)));
      UpdateRoundTrip(e.tripUpdate.value);
      assert fields == [f1] + [f3];
      FoldFirst(EntityStep, start, f1, [f3]);
      FoldOne(EntityStep, a, f3);
    } else {
      assert fields == [f1];
      FoldOne(EntityStep, start, f1);
    }
  }

  /** The entities of a list that carry a trip update, in order. */
  function WithTripUpdate(es: seq<FeedEntity>): (r: seq<FeedEntity>)
    ensures |r| <= |es|
    ensures forall i :: 0 <= i < |r| ==> r[i].tripUpdate.Some? && r[i] in es
    decreases |es|
  {
    if es == [] then []
    else (if es[0].tripUpdate.Some? then [es[0]] else []) + WithTripUpdate(es[1..])
  }

  /** FeedMessage field 2, once per entity. */
  function FeedFields(es: seq<FeedEntity>): (fs: seq<Field>)
    requires forall i :: 0 <= i < |es| ==> EncodableEntity(es[i])
    ensures forall i :: 0 <= i < |fs| ==> fs[i].payload.LengthDelimited?
    decreases |es|
  {
    if es == [] then []
    else [Field(2, LengthDelimited(EncodeEntity(es[0])))] + FeedFields(es[1..])
  }

  function EncodeFeed(es: seq<FeedEntity>): Bytes
    requires forall i :: 0 <= i < |es| ==> EncodableEntity(es[i])
  {
    EncodeFields(FeedFields(es))
  }

  lemma {:induction false} FeedFieldsFold(acc: seq<FeedEntity>, es: seq<FeedEntity>)
    requires forall i :: 0 <= i < |es| ==> EncodableEntity(es[i])
    ensures FoldFields(FeedStep, acc, FeedFields(es)) == acc + WithTripUpdate(es)
    decreases |es|
  {
    if es == [] {
      assert acc + [] == acc;
    } else {
      var b := EncodeEntity(es[0]);
      EntityRoundTrip(es[0]);
      var head := Field(2, LengthDelimited(b));
      var keep := if es[0].tripUpdate.Some? then [es[0]] else [];
      assert FeedStep(acc, head) == acc + keep;
      assert FeedFields(es) == [head] + FeedFields(es[1..]);
      FoldFirst(FeedStep, acc, head, FeedFields(es[1..]));
      FeedFieldsFold(acc + keep, es[1..]);
      assert WithTripUpdate(es) == keep + WithTripUpdate(es[1..]);
      AppendAssoc(acc, keep, WithTripUpdate(es[1..]));
    }
  }

  /** parse_gtfs_protobuf reads an encoded feed back as its entities that carry
      a trip update, in feed order; the others are dropped. */
  lemma FeedRoundTrip(es: seq<FeedEntity>)
    requires forall i :: 0 <= i < |es| ==> EncodableEntity(es[i])
    ensures TripFeed(EncodeFeed(es)) == WithTripUpdate(es)
  {
    var fields := FeedFields(es);
    assert forall i :: 0 <= i < |fields| ==> Encodable(fields[i], FeedLevel);
    WalkEncoded(fields, FeedLevel);
    FeedFieldsFold([], es);
    assert [] + WithTripUpdate(es) == WithTripUpdate(es);
  }
}
