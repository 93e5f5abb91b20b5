/** fetch_metra_alerts (main.py) after the response has been read: the decoded
    alerts feed turned into the board's alert records, keeping only alerts
    that say something. */
module Alerts {

  import opened Optional
  import opened Wire
  import opened AlertDecoder

  /** The record the board keeps per alert: header, description, routes. */
  datatype AlertRecord = AlertRecord(header: string, description: string, routes: seq<string>)

  /** An alert is worth showing when its header or its description is not empty. */
  predicate Meaningful(a: Alert) {
    a.headerText != "" || a.descriptionText != ""
  }

  /** The records of the meaningful alerts, in feed order: at most one per
      entity, and none with both texts empty. */
  function MetraAlerts(entities: seq<AlertEntity>): (records: seq<AlertRecord>)
    ensures |records| <= |entities|
    ensures forall r :: r in records ==> r.header != "" || r.description != ""
    decreases |entities|
  {
    if entities == [] then []
    else
      var rest := MetraAlerts(entities[..|entities| - 1]);
      var e := entities[|entities| - 1];
      if e.alert.Some? && Meaningful(e.alert.value) then
        rest + [AlertRecord(e.alert.value.headerText, e.alert.value.descriptionText, e.alert.value.informedRoutes)]
      else rest
  }

  /** fetch_metra_alerts: `response` is the body of a 200 response, or None when
      the request did not succeed (an empty list results). */
  method FetchMetraAlerts(response: Option<Bytes>) returns (alerts: seq<AlertRecord>)
    ensures response.None? ==> alerts == []
    ensures response.Some? ==> alerts == MetraAlerts(AlertFeed(response.value))
  {
    alerts := [];
    if response.None? {
      return;
    }
    var entities := ParseGtfsAlertsProtobuf(response.value);
    for k := 0 to |entities|
      invariant alerts == MetraAlerts(entities[..k])
    {
      assert entities[..k + 1][..k] == entities[..k];
      assert entities[k] in entities;
      var alertData := entities[k].alert.value;
      var header := alertData.headerText;
      var description := alertData.descriptionText;
      var affectedRoutes := alertData.informedRoutes;
      if header != "" || description != "" {
        alerts := alerts + [AlertRecord(header, description, affectedRoutes)];
      }
    }
    assert entities[..|entities|] == entities;
  }

  /** Every record has a header or a description, and only non-empty routes. */
  lemma {:induction false} MetraAlertsMeaningful(entities: seq<AlertEntity>)
    requires forall e :: e in entities ==> RoutesNonEmpty(e)
    ensures forall a :: a in MetraAlerts(entities) ==>
              (a.header != "" || a.description != "") && forall r :: r in a.routes ==> r != ""
    decreases |entities|
  {
    if entities != [] {
      var init := entities[..|entities| - 1];
      assert forall e :: e in init ==> e in entities;
      MetraAlertsMeaningful(init);
      assert entities[|entities| - 1] in entities;
    }
  }

  /** An alert entity whose alert has only non-empty routes. */
  predicate RoutesNonEmpty(e: AlertEntity) {
    e.alert.Some? ==> forall r :: r in e.alert.value.informedRoutes ==> r != ""
  }

  /** The records fetched from any response satisfy the above. */
  lemma FetchedAlertsMeaningful(data: Bytes)
    ensures forall a :: a in MetraAlerts(AlertFeed(data)) ==>
              (a.header != "" || a.description != "") && forall r :: r in a.routes ==> r != ""
  {
    FeedFoldRoutes([], Walk(data, 0, FeedLevel));
    MetraAlertsMeaningful(AlertFeed(data));
  }

  lemma {:induction false} FeedFoldRoutes(acc: seq<AlertEntity>, fields: seq<Field>)
    requires forall e :: e in acc ==> RoutesNonEmpty(e)
    ensures forall e :: e in FoldFields(FeedStep, acc, fields) ==> RoutesNonEmpty(e)
    decreases |fields|
  {
    if fields != [] {
      var next := FeedStep(acc, fields[0]);
      if fields[0].payload.LengthDelimited? {
        EntityAlertRoutes(fields[0].payload.bytes);
      }
      FeedFoldRoutes(next, fields[1..]);
      assert FoldFields(FeedStep, acc, fields) == FoldFields(FeedStep, next, fields[1..]);
    }
  }

  /** The alert of a decoded entity has only non-empty routes. */
  lemma {:induction false} EntityFoldAlert(acc: AlertEntity, fields: seq<Field>)
    requires RoutesNonEmpty(acc)
    ensures RoutesNonEmpty(FoldFields(EntityStep, acc, fields))
    decreases |fields|
  {
    if fields != [] {
      var next := EntityStep(acc, fields[0]);
      if IsDelimited(fields[0], 2) {
        AlertRoutesNonEmpty(fields[0].payload.bytes);
      }
      EntityFoldAlert(next, fields[1..]);
      assert FoldFields(EntityStep, acc, fields) == FoldFields(EntityStep, next, fields[1..]);
    }
  }

  lemma EntityAlertRoutes(b: Bytes)
    ensures RoutesNonEmpty(EntityOf(b))
  {
    EntityFoldAlert(AlertEntity("", None), Walk(b, 0, NestedNoFixed));
  }
}
