/**
 * `POST /api/report`: validates a JSON body, builds the `reports` row, inserts it once and
 * maps the outcome to 400, 500 or 201.
 *
 * The body is a JSON object (a map from property names to values; a property that is not
 * there reads as `undefined`). The haversine distance is an uninterpreted function of the
 * four coordinates as they were submitted; the insert is an oracle.
 */
module ReportRoute {
  import opened JsValues
  import opened Store

  /** The 400 body's message ("required field missing") and the 201 body's ("report registered"). */
  const MissingFieldsMessage := "필수 필드 누락"
  const CreatedMessage := "제보 등록 성공"

  /** `const { user_id, type, ... } = body`: each property, `undefined` when not sent. */
  datatype ReportRequest = ReportRequest(
    user_id: Value, reportType: Value, title: Value, content: Value,
    category: Value, media_urls: Value,
    missing_name: Value, missing_age: Value, missing_gender: Value,
    user_lat: Value, user_lng: Value, report_lat: Value, report_lng: Value,
    missing_lat: Value, missing_lng: Value)

  function Destructure(body: Object): (req: ReportRequest)
    ensures req.user_id == Get(body, "user_id") && req.reportType == Get(body, "type")
    ensures req.title == Get(body, "title") && req.content == Get(body, "content")
    ensures req.category == Get(body, "category") && req.media_urls == Get(body, "media_urls")
    ensures req.missing_name == Get(body, "missing_name") && req.missing_age == Get(body, "missing_age")
    ensures req.missing_gender == Get(body, "missing_gender")
    ensures req.user_lat == Get(body, "user_lat") && req.user_lng == Get(body, "user_lng")
    ensures req.report_lat == Get(body, "report_lat") && req.report_lng == Get(body, "report_lng")
    ensures req.missing_lat == Get(body, "missing_lat") && req.missing_lng == Get(body, "missing_lng")
    ensures body == map[] ==> MissingRequired(req)
  {
    ReportRequest(
      Get(body, "user_id"), Get(body, "type"), Get(body, "title"), Get(body, "content"),
      Get(body, "category"), Get(body, "media_urls"),
      Get(body, "missing_name"), Get(body, "missing_age"), Get(body, "missing_gender"),
      Get(body, "user_lat"), Get(body, "user_lng"), Get(body, "report_lat"), Get(body, "report_lng"),
      Get(body, "missing_lat"), Get(body, "missing_lng"))
  }

  /** The five fields a missing-person row adds. */
  datatype MissingPerson = MissingPerson(
    missing_name: Value, missing_age: Value, missing_gender: Value,
    missing_lat: Value, missing_lng: Value)

  /** The `reportData` object handed to the store; `missing` is None when the fields are not set. */
  datatype ReportData = ReportData(
    user_id: Value, reportType: Value, title: Value, content: Value,
    category: Value, media_urls: Value,
    user_lat: Value, user_lng: Value, report_lat: Value, report_lng: Value,
    distance_m: JsNumber, status: string,
    missing: Option<MissingPerson>)

  /** `getDistanceInMeters(user_lat, user_lng, report_lat, report_lng)`, left uninterpreted. */
  type Haversine = (Value, Value, Value, Value) -> JsNumber

  /** The guard at lines 47-50: a falsy text field, or a coordinate that is `== null`. */
  predicate MissingRequired(req: ReportRequest)
    ensures !Truthy(req.title) || req.report_lat == Undefined ==> MissingRequired(req)
    ensures Truthy(req.user_id) && Truthy(req.reportType) && Truthy(req.title) && Truthy(req.content)
      && req.user_lat.Num? && req.user_lng.Num? && req.report_lat.Num? && req.report_lng.Num?
      ==> !MissingRequired(req)
  {
    !Truthy(req.user_id) || !Truthy(req.reportType) || !Truthy(req.title) || !Truthy(req.content)
    || IsNullish(req.user_lat) || IsNullish(req.user_lng)
    || IsNullish(req.report_lat) || IsNullish(req.report_lng)
  }

  /**
   * What every row the route hands to the store satisfies: required text fields truthy,
   * coordinates not null, optional fields either truthy or their default, status
   * "pending", and the missing-person fields present exactly on a missing-person report,
   * each a truthy value or `null`.
   */
  predicate IsNewReport(row: ReportData) {
    Truthy(row.user_id) && Truthy(row.reportType) && Truthy(row.title) && Truthy(row.content)
    && !IsNullish(row.user_lat) && !IsNullish(row.user_lng)
    && !IsNullish(row.report_lat) && !IsNullish(row.report_lng)
    && (row.category == Null || Truthy(row.category))
    && Truthy(row.media_urls)
    && row.status == "pending"
    && (row.missing.Some? <==> IsMissingPerson(row.reportType))
    && (row.missing.Some? ==>
          var m := row.missing.value;
          (m.missing_name == Null || Truthy(m.missing_name))
          && (m.missing_age == Null || Truthy(m.missing_age))
          && (m.missing_gender == Null || Truthy(m.missing_gender))
          && (m.missing_lat == Null || Truthy(m.missing_lat))
          && (m.missing_lng == Null || Truthy(m.missing_lng)))
  }

  datatype PostResponse =
    | RejectedMissingFields(error: string)
    | StoreFailed(error: string)
    | Created(message: string, data: Value)
  {
    function Status(): (code: int) {
      match this
      case RejectedMissingFields(_) => 400
      case StoreFailed(_) => 500
      case Created(_, _) => 201
    }
  }

  /** Lines 89-95: the store's error becomes a 500 with its message, success a 201 with the rows. */
  function InsertResponse(res: InsertResult): (resp: PostResponse)
    ensures res.InsertFailed? <==> resp.Status() == 500
    ensures res.InsertFailed? ==> resp == StoreFailed(res.message)
    ensures res.Inserted? <==> resp.Status() == 201
    ensures res.Inserted? ==> resp == Created(CreatedMessage, res.data)
  {
    match res
    case InsertFailed(m) => StoreFailed(m)
    case Inserted(data) => Created(CreatedMessage, data)
  }

  /**
   * The handler. `inserted` is the row handed to the store, `None` when no insert was
   * attempted. The row is built as the source builds it: the object literal first, then
   * the missing-person fields added when `type === 'missing'`.
   */
  method PostReport(body: Object, haversine: Haversine, insert: ReportData -> InsertResult)
    returns (resp: PostResponse, inserted: Option<ReportData>)
    ensures var req := Destructure(body);
      (inserted == None <==> MissingRequired(req))
      && (inserted == None ==> resp == RejectedMissingFields(MissingFieldsMessage))
      && (inserted.Some? ==> resp == InsertResponse(insert(inserted.value)))
    ensures inserted.Some? ==> IsNewReport(inserted.value)
    ensures var req := Destructure(body);
      inserted.Some? ==>
        var row := inserted.value;
        row.user_id == req.user_id && row.reportType == req.reportType
        && row.title == req.title && row.content == req.content
        && row.user_lat == req.user_lat && row.user_lng == req.user_lng
        && row.report_lat == req.report_lat && row.report_lng == req.report_lng
        && (Truthy(req.category) ==> row.category == req.category)
        && (!Truthy(req.category) ==> row.category == Null)
        && (Truthy(req.media_urls) ==> row.media_urls == req.media_urls)
        && (!Truthy(req.media_urls) ==> row.media_urls == Arr([]))
        && row.distance_m == haversine(req.user_lat, req.user_lng, req.report_lat, req.report_lng)
    ensures var req := Destructure(body);
      inserted.Some? && inserted.value.missing.Some? ==>
        var m := inserted.value.missing.value;
        m.missing_name == OrNull(req.missing_name) && m.missing_age == OrNull(req.missing_age)
        && m.missing_gender == OrNull(req.missing_gender)
        && m.missing_lat == OrNull(req.missing_lat) && m.missing_lng == OrNull(req.missing_lng)
  {
    var req := Destructure(body);
    if MissingRequired(req) {
      return RejectedMissingFields(MissingFieldsMessage), None;
    }
    var distance := haversine(req.user_lat, req.user_lng, req.report_lat, req.report_lng);
    var reportData := ReportData(
      req.user_id, req.reportType, req.title, req.content,
      OrNull(req.category), Or(req.media_urls, Arr([])),
      req.user_lat, req.user_lng, req.report_lat, req.report_lng,
      distance, "pending",
      None);
    if IsMissingPerson(req.reportType) {
      reportData := reportData.(missing := Some(MissingPerson(
        OrNull(req.missing_name), OrNull(req.missing_age), OrNull(req.missing_gender),
        OrNull(req.missing_lat), OrNull(req.missing_lng))));
    }
    inserted := Some(reportData);
    resp := InsertResponse(insert(reportData));
  }

  /** A coordinate of 0 passes the guard: coordinates are checked with `== null`, not for truthiness. */
  lemma ZeroCoordinatesPass(req: ReportRequest)
    requires Truthy(req.user_id) && Truthy(req.reportType) && Truthy(req.title) && Truthy(req.content)
    requires req.user_lat == req.user_lng == req.report_lat == req.report_lng == Num(Finite(0.0))
    ensures !MissingRequired(req)
  {
  }
}
