/** parse_gtfs_alerts_protobuf (main.py): the GTFS-Realtime service-alerts
    decoder. FeedMessage -> FeedEntity -> Alert -> TranslatedString /
    EntitySelector, TranslatedString -> Translation. The sub-message loops know
    only wire types 0 and 2 and stop at any other (the `NestedNoFixed`
    dialect); the FeedMessage loop also skips fixed fields and steps one byte
    over an unknown wire type. */
module AlertDecoder {

  import opened Optional
  import opened Wire

  /** The source's alert dict: header_text, description_text and the route ids
      of its informed_entity selectors. */
  datatype Alert = Alert(headerText: string, descriptionText: string, informedRoutes: seq<string>)

  datatype AlertEntity = AlertEntity(id: string, alert: Option<Alert>)

  // ---------------------------------------------------------------------
  // The records each message denotes

  /** A length-delimited field with the given number. */
  predicate IsDelimited(f: Field, number: nat) {
    f.number == number && f.payload.LengthDelimited?
  }

  /** Translation: field 1 is the text; the last one read wins. */
  function TranslationStep(text: string, f: Field): string {
    if IsDelimited(f, 1) then Text(f.payload.bytes) else text
  }

  function TranslationText(data: Bytes): string {
    FoldFields(TranslationStep, "", Walk(data, 0, NestedNoFixed))
  }

  /** TranslatedString: the texts of its translations (field 1) that are not
      empty, in message order. */
  function TranslationsStep(texts: seq<string>, f: Field): seq<string> {
    if IsDelimited(f, 1) && TranslationText(f.payload.bytes) != "" then
      texts + [TranslationText(f.payload.bytes)]
    else texts
  }

  function Translations(data: Bytes): seq<string> {
    FoldFields(TranslationsStep, [], Walk(data, 0, NestedNoFixed))
  }

  /** The text a TranslatedString resolves to: its first non-empty translation,
      or "" when it has none. */
  function TranslatedString(data: Bytes): string {
    var texts := Translations(data);
    if texts == [] then "" else texts[0]
  }

  /** EntitySelector: field 4 is the route id; the last one read wins. */
  function SelectorStep(route: string, f: Field): string {
    if IsDelimited(f, 4) then Text(f.payload.bytes) else route
  }

  function SelectorRoute(data: Bytes): string {
    FoldFields(SelectorStep, "", Walk(data, 0, NestedNoFixed))
  }

  const NoAlert := Alert("", "", [])

  /** Alert: 5 informed_entity (kept when its route id is not empty),
      10 header_text and 11 description_text (TranslatedString). */
  function AlertStep(alert: Alert, f: Field): Alert {
    match f.payload
    case LengthDelimited(b) =>
      if f.number == 5 then
        (if SelectorRoute(b) != "" then alert.(informedRoutes := alert.informedRoutes + [SelectorRoute(b)]) else alert)
      else if f.number == 10 then alert.(headerText := TranslatedString(b))
      else if f.number == 11 then alert.(descriptionText := TranslatedString(b))
      else alert
    case _ => alert
  }

  function AlertOf(data: Bytes): Alert {
    FoldFields(AlertStep, NoAlert, Walk(data, 0, NestedNoFixed))
  }

  /** FeedEntity: 1 id (string), 2 alert (Alert). */
  function EntityStep(entity: AlertEntity, f: Field): AlertEntity {
    if IsDelimited(f, 1) then entity.(id := Text(f.payload.bytes))
    else if IsDelimited(f, 2) then entity.(alert := Some(AlertOf(f.payload.bytes)))
    else entity
  }

  function EntityOf(data: Bytes): AlertEntity {
    FoldFields(EntityStep, AlertEntity("", None), Walk(data, 0, NestedNoFixed))
  }

  /** FeedMessage: each field 2 (FeedEntity) that holds an alert is kept, in
      feed order. The source tests `entity.get("alert")`, and a decoded alert
      is a non-empty dict, so holding one is the whole test. */
  function FeedStep(entities: seq<AlertEntity>, f: Field): seq<AlertEntity> {
    match f.payload
    case LengthDelimited(b) =>
      if f.number == 2 && EntityOf(b).alert.Some? then entities + [EntityOf(b)] else entities
    case _ => entities
  }

  function AlertFeed(data: Bytes): (entities: seq<AlertEntity>)
    ensures forall e :: e in entities ==> e.alert.Some?
  {
    FeedFoldKeepsAlerts([], Walk(data, 0, FeedLevel));
    FoldFields(FeedStep, [], Walk(data, 0, FeedLevel))
  }

  // ---------------------------------------------------------------------
  // The message loops

  /** parse_translation. */
  method ParseTranslation(data: Bytes) returns (text: string)
    ensures text == TranslationText(data)
  {
    var pos := 0;
    text := "";
    ghost var whole := FoldFields(TranslationStep, "", Walk(data, 0, NestedNoFixed));
    while pos < |data|
      invariant FoldFields(TranslationStep, text, Walk(data, pos, NestedNoFixed)) == whole
      decreases |data| - pos
    {
      ghost var here, before := pos, text;
      var tag, p := ReadVarint(data, pos);
      var fieldNum, wireType := tag / 8, tag % 8;
      if fieldNum == 1 && wireType == 2 {
        text, pos := ReadString(data, p);
      } else if wireType == 0 {
        var skipped;
        skipped, pos := ReadVarint(data, p);
      } else if wireType == 2 {
        var skipped;
        skipped, pos := ReadBytes(data, p);
      } else {
        WalkStops(data, here, tag, NestedNoFixed);
        break;
      }
      WalkStep(TranslationStep, before, data, here, tag, p, pos, NestedNoFixed);
    }
  }

  /** parse_translated_string: collects the non-empty translations and returns
      the first. */
  method ParseTranslatedString(data: Bytes) returns (text: string)
    ensures text == TranslatedString(data)
  {
    var pos := 0;
    var translations: seq<string> := [];
    ghost var whole := FoldFields(TranslationsStep, [], Walk(data, 0, NestedNoFixed));
    while pos < |data|
      invariant FoldFields(TranslationsStep, translations, Walk(data, pos, NestedNoFixed)) == whole
      decreases |data| - pos
    {
      ghost var here, before := pos, translations;
      var tag, p := ReadVarint(data, pos);
      var fieldNum, wireType := tag / 8, tag % 8;
      if fieldNum == 1 && wireType == 2 {
        var transData;
        transData, pos := ReadBytes(data, p);
        var t := ParseTranslation(transData);
        if t != "" {
          translations := translations + [t];
        }
      } else if wireType == 0 {
        var skipped;
        skipped, pos := ReadVarint(data, p);
      } else if wireType == 2 {
        var skipped;
        skipped, pos := ReadBytes(data, p);
      } else {
        WalkStops(data, here, tag, NestedNoFixed);
        break;
      }
      WalkStep(TranslationsStep, before, data, here, tag, p, pos, NestedNoFixed);
    }
    text := if translations != [] then translations[0] else "";
  }

  /** parse_entity_selector. */
  method ParseEntitySelector(data: Bytes) returns (route: string)
    ensures route == SelectorRoute(data)
  {
    var pos := 0;
    route := "";
    ghost var whole := FoldFields(SelectorStep, "", Walk(data, 0, NestedNoFixed));
    while pos < |data|
      invariant FoldFields(SelectorStep, route, Walk(data, pos, NestedNoFixed)) == whole
      decreases |data| - pos
    {
      ghost var here, before := pos, route;
      var tag, p := ReadVarint(data, pos);
      var fieldNum, wireType := tag / 8, tag % 8;
      if fieldNum == 4 && wireType == 2 {
        route, pos := ReadString(data, p);
      } else if wireType == 0 {
        var skipped;
        skipped, pos := ReadVarint(data, p);
      } else if wireType == 2 {
        var skipped;
        skipped, pos := ReadBytes(data, p);
      } else {
        WalkStops(data, here, tag, NestedNoFixed);
        break;
      }
      WalkStep(SelectorStep, before, data, here, tag, p, pos, NestedNoFixed);
    }
  }

  /** parse_alert. */
  method ParseAlert(data: Bytes) returns (alert: Alert)
    ensures alert == AlertOf(data)
  {
    var pos := 0;
    alert := NoAlert;
    ghost var whole := FoldFields(AlertStep, NoAlert, Walk(data, 0, NestedNoFixed));
    while pos < |data|
      invariant FoldFields(AlertStep, alert, Walk(data, pos, NestedNoFixed)) == whole
      decreases |data| - pos
    {
      ghost var here, before := pos, alert;
      var tag, p := ReadVarint(data, pos);
      var fieldNum, wireType := tag / 8, tag % 8;
      if fieldNum == 5 && wireType == 2 {
        var entityData;
        entityData, pos := ReadBytes(data, p);
        var route := ParseEntitySelector(entityData);
        if route != "" {
          alert := alert.(informedRoutes := alert.informedRoutes + [route]);
        }
      } else if fieldNum == 10 && wireType == 2 {
        var headerData;
        headerData, pos := ReadBytes(data, p);
        var header := ParseTranslatedString(headerData);
        alert := alert.(headerText := header);
      } else if fieldNum == 11 && wireType == 2 {
        var descData;
        descData, pos := ReadBytes(data, p);
        var description := ParseTranslatedString(descData);
        alert := alert.(descriptionText := description);
      } else if wireType == 0 {
        var skipped;
        skipped, pos := ReadVarint(data, p);
      } else if wireType == 2 {
        var skipped;
        skipped, pos := ReadBytes(data, p);
      } else {
        WalkStops(data, here, tag, NestedNoFixed);
        break;
      }
      WalkStep(AlertStep, before, data, here, tag, p, pos, NestedNoFixed);
    }
  }

  /** parse_entity (alerts feed). */
  method ParseEntity(data: Bytes) returns (entity: AlertEntity)
    ensures entity == EntityOf(data)
  {
    var pos := 0;
    entity := AlertEntity("", None);
    ghost var whole := FoldFields(EntityStep, AlertEntity("", None), Walk(data, 0, NestedNoFixed));
    while pos < |data|
      invariant FoldFields(EntityStep, entity, Walk(data, pos, NestedNoFixed)) == whole
      decreases |data| - pos
    {
      ghost var here, before := pos, entity;
      var tag, p := ReadVarint(data, pos);
      var fieldNum, wireType := tag / 8, tag % 8;
      if fieldNum == 1 && wireType == 2 {
        var id;
        id, pos := ReadString(data, p);
        entity := entity.(id := id);
      } else if fieldNum == 2 && wireType == 2 {
        var alertData;
        alertData, pos := ReadBytes(data, p);
        var alert := ParseAlert(alertData);
        entity := entity.(alert := Some(alert));
      } else if wireType == 0 {
        var skipped;
        skipped, pos := ReadVarint(data, p);
      } else if wireType == 2 {
        var skipped;
        skipped, pos := ReadBytes(data, p);
      } else {
        WalkStops(data, here, tag, NestedNoFixed);
        break;
      }
      WalkStep(EntityStep, before, data, here, tag, p, pos, NestedNoFixed);
    }
  }

  /** parse_gtfs_alerts_protobuf: the FeedMessage loop. */
  method ParseGtfsAlertsProtobuf(data: Bytes) returns (entities: seq<AlertEntity>)
    ensures entities == AlertFeed(data)
  {
    var pos := 0;
    entities := [];
    ghost var whole := FoldFields(FeedStep, [], Walk(data, 0, FeedLevel));
    while pos < |data|
      invariant FoldFields(FeedStep, entities, Walk(data, pos, FeedLevel)) == whole
      decreases |data| - pos
    {
      ghost var here, before := pos, entities;
      var tag, p := ReadVarint(data, pos);
      var fieldNum, wireType := tag / 8, tag % 8;
      if fieldNum == 2 && wireType == 2 {
        var entityData;
        entityData, pos := ReadBytes(data, p);
        var entity := ParseEntity(entityData);
        if entity.alert.Some? {
          entities := entities + [entity];
        }
        FeedEntityField(data, here, tag, p, entityData, pos, before, entity, entities);
      } else if wireType == 0 {
        var skipped;
        skipped, pos := ReadVarint(data, p);
        FeedOtherField(data, here, tag, p, pos, before);
      } else if wireType == 2 {
        var skipped;
        skipped, pos := ReadBytes(data, p);
        FeedOtherField(data, here, tag, p, pos, before);
      } else if wireType == 1 {
        pos := p + 8;
        FeedOtherField(data, here, tag, p, pos, before);
      } else if wireType == 5 {
        pos := p + 4;
        FeedOtherField(data, here, tag, p, pos, before);
      } else {
        pos := p + 1;
        FeedOtherField(data, here, tag, p, pos, before);
      }
    }
  }

  /** The feed loop over an entity field (field 2, wire type 2) decodes the
      entity bytes, keeps the entity when it holds a alert and moves past it. */
  lemma FeedEntityField(data: Bytes, here: nat, tag: nat, p: nat, b: Bytes, next: nat,
                        before: seq<AlertEntity>, entity: AlertEntity, after: seq<AlertEntity>)
    requires here < |data| && Varint(data, here) == (tag, p) && tag / 8 == 2 && tag % 8 == 2
    requires Delimited(data, p) == (b, next) && entity == EntityOf(b)
    requires after == if entity.alert.Some? then before + [entity] else before
    ensures FoldFields(FeedStep, before, Walk(data, here, FeedLevel))
         == FoldFields(FeedStep, after, Walk(data, next, FeedLevel))
  {
    WalkStep(FeedStep, before, data, here, tag, p, next, FeedLevel);
    assert FieldAt(data, here) == Field(2, LengthDelimited(b));
  }

  /** The feed loop over any other field it consumes, or over a byte it skips,
      leaves the entities as they are. */
  lemma FeedOtherField(data: Bytes, here: nat, tag: nat, p: nat, next: nat, before: seq<AlertEntity>)
    requires here < |data| && Varint(data, here) == (tag, p)
    requires !(tag / 8 == 2 && tag % 8 == 2)
    requires || (tag % 8 == 0 && next == Varint(data, p).1)
             || (tag % 8 == 2 && next == Delimited(data, p).1)
             || (tag % 8 == 1 && next == p + 8)
             || (tag % 8 == 5 && next == p + 4)
             || (tag % 8 !in {0, 1, 2, 5} && next == p + 1)
    ensures FoldFields(FeedStep, before, Walk(data, here, FeedLevel))
         == FoldFields(FeedStep, before, Walk(data, next, FeedLevel))
  {
    if tag % 8 in {0, 1, 2, 5} {
      WalkStep(FeedStep, before, data, here, tag, p, next, FeedLevel);
      assert FeedStep(before, FieldAt(data, here)) == before;
    } else {
      WalkSkipsByte(data, here, tag, p);
    }
  }

  // ---------------------------------------------------------------------
  // Properties of the decoded alerts

  /** A translation field whose text is not empty. */
  predicate IsUsableTranslation(f: Field) {
    IsDelimited(f, 1) && TranslationText(f.payload.bytes) != ""
  }

  /** The translations fold keeps only non-empty texts, never changes its first
      element once it has one, and stays empty exactly while no usable
      translation comes by. */
  lemma {:induction false} TranslationsFold(acc: seq<string>, fields: seq<Field>)
    requires forall t :: t in acc ==> t != ""
    ensures forall t :: t in FoldFields(TranslationsStep, acc, fields) ==> t != ""
    ensures acc != [] ==> FoldFields(TranslationsStep, acc, fields) != []
                          && FoldFields(TranslationsStep, acc, fields)[0] == acc[0]
    ensures FoldFields(TranslationsStep, acc, fields) == []
        <==> acc == [] && forall f :: f in fields ==> !IsUsableTranslation(f)
    decreases |fields|
  {
    if fields != [] {
      var next := TranslationsStep(acc, fields[0]);
      TranslationsFold(next, fields[1..]);
      assert FoldFields(TranslationsStep, acc, fields) == FoldFields(TranslationsStep, next, fields[1..]);
      assert fields == [fields[0]] + fields[1..];
      if next != acc {
        assert IsUsableTranslation(fields[0]) && fields[0] in fields;
        assert next == acc + [TranslationText(fields[0].payload.bytes)];
        assert next != [] && (acc != [] ==> next[0] == acc[0]);
      }
    }
  }

  /** header_text and description_text are "" exactly when no translation
      has a non-empty text. */
  lemma TranslatedStringEmpty(data: Bytes)
    ensures TranslatedString(data) == ""
        <==> forall f :: f in Walk(data, 0, NestedNoFixed) ==> !IsUsableTranslation(f)
  {
    TranslationsFold([], Walk(data, 0, NestedNoFixed));
    var texts := Translations(data);
    if texts != [] {
      assert texts[0] in texts;
    }
  }

  /** A TranslatedString resolves to its first usable translation. */
  lemma TranslatedStringFirst(data: Bytes, k: nat)
    requires k < |Walk(data, 0, NestedNoFixed)|
    requires IsUsableTranslation(Walk(data, 0, NestedNoFixed)[k])
    requires forall j :: 0 <= j < k ==> !IsUsableTranslation(Walk(data, 0, NestedNoFixed)[j])
    ensures TranslatedString(data) == TranslationText(Walk(data, 0, NestedNoFixed)[k].payload.bytes)
  {
    FirstUsable(Walk(data, 0, NestedNoFixed), k);
  }

  /** The translations fold of a field list starts with its first usable translation. */
  lemma {:induction false} FirstUsable(fields: seq<Field>, k: nat)
    requires k < |fields| && IsUsableTranslation(fields[k])
    requires forall j :: 0 <= j < k ==> !IsUsableTranslation(fields[j])
    ensures FoldFields(TranslationsStep, [], fields) != []
    ensures FoldFields(TranslationsStep, [], fields)[0] == TranslationText(fields[k].payload.bytes)
    decreases k
  {
    assert FoldFields(TranslationsStep, [], fields)
        == FoldFields(TranslationsStep, TranslationsStep([], fields[0]), fields[1..]);
    if k == 0 {
      var t := TranslationText(fields[0].payload.bytes);
      assert TranslationsStep([], fields[0]) == [t];
      TranslationsFold([t], fields[1..]);
    } else {
      assert TranslationsStep([], fields[0]) == [];
      forall j | 0 <= j < k - 1 ensures !IsUsableTranslation(fields[1..][j]) {
        assert fields[1..][j] == fields[j + 1];
      }
      FirstUsable(fields[1..], k - 1);
    }
  }

  /** Route ids collected by the Alert fold are never empty. */
  lemma {:induction false} AlertFoldRoutes(acc: Alert, fields: seq<Field>)
    requires forall r :: r in acc.informedRoutes ==> r != ""
    ensures forall r :: r in FoldFields(AlertStep, acc, fields).informedRoutes ==> r != ""
    decreases |fields|
  {
    if fields != [] {
      var next := AlertStep(acc, fields[0]);
      AlertFoldRoutes(next, fields[1..]);
      assert FoldFields(AlertStep, acc, fields) == FoldFields(AlertStep, next, fields[1..]);
    }
  }

  /** Every informed route of a decoded alert is a non-empty route id. */
  lemma AlertRoutesNonEmpty(data: Bytes)
    ensures forall r :: r in AlertOf(data).informedRoutes ==> r != ""
  {
    AlertFoldRoutes(NoAlert, Walk(data, 0, NestedNoFixed));
  }

  lemma {:induction false} FeedFoldKeepsAlerts(acc: seq<AlertEntity>, fields: seq<Field>)
    requires forall e :: e in acc ==> e.alert.Some?
    ensures forall e :: e in FoldFields(FeedStep, acc, fields) ==> e.alert.Some?
    decreases |fields|
  {
    if fields != [] {
      var next := FeedStep(acc, fields[0]);
      FeedFoldKeepsAlerts(next, fields[1..]);
      assert FoldFields(FeedStep, acc, fields) == FoldFields(FeedStep, next, fields[1..]);
    }
  }

  /** Every entity parse_gtfs_alerts_protobuf returns holds an alert. */
  // ---------------------------------------------------------------------
  // Encoding partners

  function EncodeTranslation(text: string): Bytes
    requires IsLatin1(text)
  {
    EncodeFields([Field(1, LengthDelimited(Latin1(text)))])
  }

  lemma TranslationRoundTrip(text: string)
    requires IsLatin1(text)
    ensures TranslationText(EncodeTranslation(text)) == text
  {
    var only := Field(1, LengthDelimited(Latin1(text)));
    WalkEncoded([only], NestedNoFixed);
    FoldOne(TranslationStep, "", only);
  }

  /** A TranslatedString with a single translation. */
  function EncodeTranslated(text: string): Bytes
    requires IsLatin1(text)
  {
    EncodeFields([Field(1, LengthDelimited(EncodeTranslation(text)))])
  }

  /** A single translation is what the TranslatedString resolves to, the empty
      text included. */
  lemma TranslatedRoundTrip(text: string)
    requires IsLatin1(text)
    ensures TranslatedString(EncodeTranslated(text)) == text
  {
    var only := Field(1, LengthDelimited(EncodeTranslation(text)));
    WalkEncoded([only], NestedNoFixed);
    TranslationRoundTrip(text);
    FoldOne(TranslationsStep, [], only);
  }

  function EncodeSelector(route: string): Bytes
    requires IsLatin1(route)
  {
    EncodeFields([Field(4, LengthDelimited(Latin1(route)))])
  }

  lemma SelectorRoundTrip(route: string)
    requires IsLatin1(route)
    ensures SelectorRoute(EncodeSelector(route)) == route
  {
    var only := Field(4, LengthDelimited(Latin1(route)));
    WalkEncoded([only], NestedNoFixed);
    FoldOne(SelectorStep, "", only);
  }

  /** Alerts the encoder writes so that they read back unchanged: Latin-1 texts
      and route ids, none of them empty (empty ones are dropped by the decoder). */
  predicate EncodableAlert(a: Alert) {
    && IsLatin1(a.headerText) && IsLatin1(a.descriptionText)
    && forall i :: 0 <= i < |a.informedRoutes| ==> IsLatin1(a.informedRoutes[i]) && a.informedRoutes[i] != ""
  }

  /** Field 5 of an Alert, once per route. */
  function RouteFields(routes: seq<string>): (fs: seq<Field>)
    requires forall i :: 0 <= i < |routes| ==> IsLatin1(routes[i])
    ensures forall i :: 0 <= i < |fs| ==> fs[i].payload.LengthDelimited?
    decreases |routes|
  {
    if routes == [] then []
    else [Field(5, LengthDelimited(EncodeSelector(routes[0])))] + RouteFields(routes[1..])
  }

  lemma {:induction false} RouteFieldsFold(acc: Alert, routes: seq<string>)
    requires forall i :: 0 <= i < |routes| ==> IsLatin1(routes[i]) && routes[i] != ""
    ensures FoldFields(AlertStep, acc, RouteFields(routes))
         == acc.(informedRoutes := acc.informedRoutes + routes)
    decreases |routes|
  {
    if routes == [] {
      assert acc.informedRoutes + routes == acc.informedRoutes;
    } else {
      var b := EncodeSelector(routes[0]);
      SelectorRoundTrip(routes[0]);
      var head := Field(5, LengthDelimited(b));
      var next := acc.(informedRoutes := acc.informedRoutes + [routes[0]]);
      assert AlertStep(acc, head) == next;
      assert RouteFields(routes) == [head] + RouteFields(routes[1..]);
      FoldFirst(AlertStep, acc, head, RouteFields(routes[1..]));
      RouteFieldsFold(next, routes[1..]);
      AppendFirst(acc.informedRoutes, routes);
    }
  }

  function AlertFields(a: Alert): (fs: seq<Field>)
    requires EncodableAlert(a)
    ensures forall i :: 0 <= i < |fs| ==> fs[i].payload.LengthDelimited?
  {
    [Field(10, LengthDelimited(EncodeTranslated(a.headerText)))]
    + ([Field(11, LengthDelimited(EncodeTranslated(a.descriptionText)))] + RouteFields(a.informedRoutes))
  }

  function EncodeAlert(a: Alert): Bytes
    requires EncodableAlert(a)
  {
    EncodeFields(AlertFields(a))
  }

  /** parse_alert reads an encoded Alert back. */
  lemma AlertRoundTrip(a: Alert)
    requires EncodableAlert(a)
    ensures AlertOf(EncodeAlert(a)) == a
  {
    var fields := AlertFields(a);
    assert forall i :: 0 <= i < |fields| ==> Encodable(fields[i], NestedNoFixed);
    WalkEncoded(fields, NestedNoFixed);
    var h := Field(10, LengthDelimited(EncodeTranslated(a.headerText)));
    var d := Field(11, LengthDelimited(EncodeTranslated(a.descriptionText)));
    var routes := RouteFields(a.informedRoutes);
    TranslatedRoundTrip(a.headerText);
    TranslatedRoundTrip(a.descriptionText);
    assert fields == [h] + ([d] + routes);
    var afterH := NoAlert.(headerText := a.headerText);
    var afterD := afterH.(descriptionText := a.descriptionText);
    assert AlertStep(NoAlert, h) == afterH;
    assert AlertStep(afterH, d) == afterD;
    FoldFirst(AlertStep, NoAlert, h, [d] + routes);
    FoldFirst(AlertStep, afterH, d, routes);
    RouteFieldsFold(afterD, a.informedRoutes);
    assert [] + a.informedRoutes == a.informedRoutes;
  }

  predicate EncodableEntity(e: AlertEntity) {
    IsLatin1(e.id) && (e.alert.Some? ==> EncodableAlert(e.alert.value))
  }

  function EntityFields(e: AlertEntity): (fs: seq<Field>)
    requires EncodableEntity(e)
    ensures forall i :: 0 <= i < |fs| ==> fs[i].payload.LengthDelimited?
  {
    [Field(1, LengthDelimited(Latin1(e.id)))]
    + (if e.alert.Some? then [Field(2, LengthDelimited(EncodeAlert(e.alert.value)))] else [])
  }

  function EncodeEntity(e: AlertEntity): Bytes
    requires EncodableEntity(e)
  {
    EncodeFields(EntityFields(e))
  }

  /** parse_entity reads an encoded alert FeedEntity back. */
  lemma EntityRoundTrip(e: AlertEntity)
    requires EncodableEntity(e)
    ensures EntityOf(EncodeEntity(e)) == e
  {
    var fields := EntityFields(e);
    assert forall i :: 0 <= i < |fields| ==> Encodable(fields[i], NestedNoFixed);
    WalkEncoded(fields, NestedNoFixed);
    var start := AlertEntity("", None);
    var f1 := Field(1, LengthDelimited(Latin1(e.id)));
    var a := EntityStep(start, f1);
    if e.alert.Some? {
      var f2 := Field(2, LengthDelimited(EncodeAlert(e.alert.value)));
      AlertRoundTrip(e.alert.value);
      assert fields == [f1] + [f2];
      FoldFirst(EntityStep, start, f1, [f2]);
      FoldOne(EntityStep, a, f2);
    } else {
      assert fields == [f1];
      FoldOne(EntityStep, start, f1);
    }
  }

  /** The entities of a list that hold an alert, in order. */
  function WithAlert(es: seq<AlertEntity>): (r: seq<AlertEntity>)
    ensures |r| <= |es|
    ensures forall e :: e in r ==> e.alert.Some? && e in es
    decreases |es|
  {
    if es == [] then []
    else (if es[0].alert.Some? then [es[0]] else []) + WithAlert(es[1..])
  }

  function FeedFields(es: seq<AlertEntity>): (fs: seq<Field>)
    requires forall i :: 0 <= i < |es| ==> EncodableEntity(es[i])
    ensures forall i :: 0 <= i < |fs| ==> fs[i].payload.LengthDelimited?
    decreases |es|
  {
    if es == [] then []
    else [Field(2, LengthDelimited(EncodeEntity(es[0])))] + FeedFields(es[1..])
  }

  function EncodeFeed(es: seq<AlertEntity>): Bytes
    requires forall i :: 0 <= i < |es| ==> EncodableEntity(es[i])
  {
    EncodeFields(FeedFields(es))
  }

  lemma {:induction false} FeedFieldsFold(acc: seq<AlertEntity>, es: seq<AlertEntity>)
    requires forall i :: 0 <= i < |es| ==> EncodableEntity(es[i])
    ensures FoldFields(FeedStep, acc, FeedFields(es)) == acc + WithAlert(es)
    decreases |es|
  {
    if es == [] {
      assert acc + [] == acc;
    } else {
      var b := EncodeEntity(es[0]);
      EntityRoundTrip(es[0]);
      var head := Field(2, LengthDelimited(b));
      var keep := if es[0].alert.Some? then [es[0]] else [];
      assert FeedStep(acc, head) == acc + keep;
      assert FeedFields(es) == [head] + FeedFields(es[1..]);
      FoldFirst(FeedStep, acc, head, FeedFields(es[1..]));
      FeedFieldsFold(acc + keep, es[1..]);
      assert WithAlert(es) == keep + WithAlert(es[1..]);
      AppendAssoc(acc, keep, WithAlert(es[1..]));
    }
  }

  /** parse_gtfs_alerts_protobuf reads an encoded feed back as its entities
      that hold an alert, in feed order. */
  lemma FeedRoundTrip(es: seq<AlertEntity>)
    requires forall i :: 0 <= i < |es| ==> EncodableEntity(es[i])
    ensures AlertFeed(EncodeFeed(es)) == WithAlert(es)
  {
    var fields := FeedFields(es);
    assert forall i :: 0 <= i < |fields| ==> Encodable(fields[i], FeedLevel);
    WalkEncoded(fields, FeedLevel);
    FeedFieldsFold([], es);
    assert [] + WithAlert(es) == WithAlert(es);
  }
}
