/**
 * The server actions of `app/actions.ts` that decide something: `postAction` (the form
 * variant of report submission), `getMyReportsAction` (the listing with `distance_m ?? null`)
 * and `getReportsForMap` (the map-eligibility filter).
 *
 * `FormData` is the sequence of submitted entries in order. `parseFloat`, `parseInt`, the
 * haversine distance and the relative-time formatter are parameters: their string and
 * floating-point details are not modelled.
 */
module Actions {
  import opened JsValues
  import opened Store

  // ---------------------------------------------------------------------------
  // FormData
  // ---------------------------------------------------------------------------

  /** An entry's value: a string or an uploaded file. */
  datatype FormValue = Text(text: string) | File(fileName: string)

  datatype FormEntry = FormEntry(name: string, value: FormValue)

  type FormData = seq<FormEntry>

  /** `value.toString()`. */
  function ToText(v: FormValue): (t: string)
    ensures v.Text? ==> t == v.text
    ensures v.File? ==> t == "[object File]"
  {
    match v
    case Text(t) => t
    case File(_) => "[object File]"
  }

  /** `formData.get(name)`: the first entry with that name, `null` (None) if there is none. */
  function FormGet(form: FormData, name: string): (r: Option<FormValue>)
    ensures r.None? <==> forall i :: 0 <= i < |form| ==> form[i].name != name
    ensures r.Some? ==> exists i :: 0 <= i < |form| && form[i] == FormEntry(name, r.value)
  {
    if form == [] then None
    else if form[0].name == name then Some(form[0].value)
    else FormGet(form[1..], name)
  }

  /** `formData.getAll(name)`: every entry with that name, in submission order. */
  function FormGetAll(form: FormData, name: string): (r: seq<FormValue>)
    ensures |r| <= |form|
    ensures forall v :: v in r <==> FormEntry(name, v) in form
  {
    if form == [] then []
    else if form[0].name == name then [form[0].value] + FormGetAll(form[1..], name)
    else FormGetAll(form[1..], name)
  }

  /** Entries submitted earlier come first: `getAll` of a concatenation is the concatenation. */
  lemma {:induction false} GetAllAppend(a: FormData, b: FormData, name: string)
    ensures FormGetAll(a + b, name) == FormGetAll(a, name) + FormGetAll(b, name)
  {
    if a == [] {
      assert a + b == b;
    } else {
      assert (a + b)[0] == a[0] && (a + b)[1..] == a[1..] + b;
      GetAllAppend(a[1..], b, name);
    }
  }

  /** `get` is the first value of `getAll`. */
  lemma {:induction false} GetIsFirstOfGetAll(form: FormData, name: string)
    ensures FormGet(form, name) == if FormGetAll(form, name) == [] then None else Some(FormGetAll(form, name)[0])
  {
    if form != [] && form[0].name != name {
      GetIsFirstOfGetAll(form[1..], name);
    }
  }

  /** `formData.get(name)?.toString()`: `undefined` when there is no such entry. */
  function OptionalText(form: FormData, name: string): (v: Value)
    ensures FormGet(form, name).None? <==> v == Undefined
    ensures FormGet(form, name).Some? ==> v == Str(ToText(FormGet(form, name).value))
  {
    match FormGet(form, name)
    case None => Undefined
    case Some(v) => Str(ToText(v))
  }

  /**
   * `formData.get(name) as string` where it becomes a string: the cast changes nothing at
   * run time, so a missing entry (`null`) reaches `parseFloat`/`parseInt` as "null".
   */
  function AsString(form: FormData, name: string): (s: string)
    ensures FormGet(form, name).None? ==> s == "null"
    ensures FormGet(form, name).Some? ==> s == ToText(FormGet(form, name).value)
  {
    match FormGet(form, name)
    case None => "null"
    case Some(v) => ToText(v)
  }

  /** No entry with that name, or the first one's text is empty: `formData.get(name)?.toString()` is falsy. */
  predicate Blank(form: FormData, name: string) {
    FormGet(form, name).None? || ToText(FormGet(form, name).value) == ""
  }

  /** `formData.get(name)?.toString() || fallback`. */
  function TextOr(form: FormData, name: string, fallback: string): (s: string)
    ensures fallback != "" ==> s != ""
    ensures FormGet(form, name).None? ==> s == fallback
    ensures FormGet(form, name).Some? ==> s == if ToText(FormGet(form, name).value) == "" then fallback else ToText(FormGet(form, name).value)
  {
    match FormGet(form, name)
    case None => fallback
    case Some(v) => if ToText(v) == "" then fallback else ToText(v)
  }

  // ---------------------------------------------------------------------------
  // postAction
  // ---------------------------------------------------------------------------

  /** The object `postAction` inserts into `reports`. */
  datatype FormReport = FormReport(
    title: Value, content: Value, reportType: string, category: string,
    media_urls: seq<string>,
    user_lat: JsNumber, user_lng: JsNumber, report_lat: JsNumber, report_lng: JsNumber,
    distance_m: JsNumber, status: string,
    missing_name: Value, missing_age: Value, missing_gender: Value)

  /** `parseFloat` and `parseInt` applied to a string. */
  type Parse = string -> JsNumber

  /** `getDistanceInMeters` on the four parsed coordinates, left uninterpreted. */
  type Haversine = (JsNumber, JsNumber, JsNumber, JsNumber) -> JsNumber

  /** Line 141: the type defaults to "incident" when absent or empty. */
  function FormType(form: FormData): (t: string)
    ensures t != ""
    ensures Blank(form, "type") ==> t == "incident"
    ensures !Blank(form, "type") ==> t == ToText(FormGet(form, "type").value)
  {
    TextOr(form, "type", "incident")
  }

  /** Lines 142-147: the category defaults to "incident"; a missing-person report forces "missing". */
  function FormCategory(form: FormData): (c: string)
    ensures c != ""
    ensures FormType(form) == "missing" ==> c == "missing"
    ensures FormType(form) != "missing" && Blank(form, "category") ==> c == "incident"
    ensures FormType(form) != "missing" && !Blank(form, "category") ==> c == ToText(FormGet(form, "category").value)
  {
    if FormType(form) == "missing" then "missing" else TextOr(form, "category", "incident")
  }

  /** `formData.get(name)?.toString() || null`. */
  function TextOrNull(form: FormData, name: string): (v: Value)
    ensures v == Null || (v.Str? && v.s != "")
    ensures v == Null <==> FormGet(form, name).None? || ToText(FormGet(form, name).value) == ""
    ensures v != Null ==> v == Str(ToText(FormGet(form, name).value))
  {
    match FormGet(form, name)
    case None => Null
    case Some(x) => if ToText(x) == "" then Null else Str(ToText(x))
  }

  /** Lines 139-158 and 178: the record `postAction` hands to `insert`. */
  function FormRecord(form: FormData, parseFloat: Parse, parseInt: Parse, haversine: Haversine): (rec: FormReport)
    ensures rec.status == "pending"
    ensures FormGet(form, "title").None? <==> rec.title == Undefined
    ensures FormGet(form, "title").Some? ==> rec.title == Str(ToText(FormGet(form, "title").value))
    ensures FormGet(form, "content").None? <==> rec.content == Undefined
    ensures FormGet(form, "content").Some? ==> rec.content == Str(ToText(FormGet(form, "content").value))
    ensures rec.reportType != "" && rec.category != ""
    ensures Blank(form, "type") ==> rec.reportType == "incident"
    ensures !Blank(form, "type") ==> rec.reportType == ToText(FormGet(form, "type").value)
    ensures rec.reportType == "missing" ==> rec.category == "missing"
    ensures rec.reportType != "missing" && Blank(form, "category") ==> rec.category == "incident"
    ensures rec.reportType != "missing" && !Blank(form, "category") ==>
      rec.category == ToText(FormGet(form, "category").value)
    ensures |rec.media_urls| == |FormGetAll(form, "media_urls")|
    ensures forall i :: 0 <= i < |rec.media_urls| ==> rec.media_urls[i] == ToText(FormGetAll(form, "media_urls")[i])
    ensures rec.distance_m == haversine(rec.user_lat, rec.user_lng, rec.report_lat, rec.report_lng)
    ensures rec.user_lat == parseFloat(AsString(form, "user_lat")) && rec.user_lng == parseFloat(AsString(form, "user_lng"))
    ensures rec.report_lat == parseFloat(AsString(form, "report_lat")) && rec.report_lng == parseFloat(AsString(form, "report_lng"))
    ensures rec.missing_name == Null <==> Blank(form, "missing_name")
    ensures !Blank(form, "missing_name") ==> rec.missing_name == Str(ToText(FormGet(form, "missing_name").value))
    ensures rec.missing_gender == Null <==> Blank(form, "missing_gender")
    ensures !Blank(form, "missing_gender") ==> rec.missing_gender == Str(ToText(FormGet(form, "missing_gender").value))
    ensures rec.missing_age == Null <==> !NumberTruthy(parseInt(AsString(form, "missing_age")))
    ensures rec.missing_age != Null ==> rec.missing_age == Num(parseInt(AsString(form, "missing_age")))
  {
    var userLat := parseFloat(AsString(form, "user_lat"));
    var userLng := parseFloat(AsString(form, "user_lng"));
    var reportLat := parseFloat(AsString(form, "report_lat"));
    var reportLng := parseFloat(AsString(form, "report_lng"));
    FormReport(
      OptionalText(form, "title"), OptionalText(form, "content"),
      FormType(form), FormCategory(form),
      MapText(FormGetAll(form, "media_urls")),
      userLat, userLng, reportLat, reportLng,
      haversine(userLat, userLng, reportLat, reportLng),
      "pending",
      TextOrNull(form, "missing_name"),
      NumberOrNull(parseInt(AsString(form, "missing_age"))),
      TextOrNull(form, "missing_gender"))
  }

  /** `.map((url) => url.toString())`. */
  function MapText(vs: seq<FormValue>): (r: seq<string>)
    ensures |r| == |vs|
    ensures forall i :: 0 <= i < |vs| ==> r[i] == ToText(vs[i])
  {
    if vs == [] then [] else [ToText(vs[0])] + MapText(vs[1..])
  }

  /** What `postAction` ends in: an `Error` thrown with the store's message, or the redirect. */
  datatype ActionOutcome = Threw(message: string) | Redirected(path: string)

  const DonePath := "/report/done"

  /** Lines 196-208: one insert; its error is thrown, success redirects to the confirmation page. */
  function PostAction(form: FormData, parseFloat: Parse, parseInt: Parse, haversine: Haversine,
                      insert: FormReport -> InsertResult): (o: ActionOutcome)
    ensures var res := insert(FormRecord(form, parseFloat, parseInt, haversine));
      (res.InsertFailed? <==> o.Threw?)
      && (res.InsertFailed? ==> o == Threw(res.message))
      && (res.Inserted? ==> o == Redirected(DonePath))
  {
    match insert(FormRecord(form, parseFloat, parseInt, haversine))
    case InsertFailed(m) => Threw(m)
    case Inserted(_) => Redirected(DonePath)
  }

  /**
   * `postAction` validates nothing: a form without a title still reaches the store, with
   * `title: undefined`, where the JSON route would answer 400 (its guard requires a
   * truthy title).
   */
  lemma PostActionDoesNotRequireTitle(form: FormData, parseFloat: Parse, parseInt: Parse, haversine: Haversine)
    requires forall i :: 0 <= i < |form| ==> form[i].name != "title"
    ensures FormRecord(form, parseFloat, parseInt, haversine).title == Undefined
  {
  }

  // ---------------------------------------------------------------------------
  // getMyReportsAction
  // ---------------------------------------------------------------------------

  /** `{...item, created_at: formatRelativeTimeKST(item.created_at), distance_m: item.distance_m ?? null}`. */
  function ListedRow(row: ReportRow, format: Value -> Value): (r: ReportRow)
    ensures r.reportType == row.reportType && r.rest == row.rest
    ensures r.created_at == format(row.created_at)
    ensures r.distance_m != Absent
    ensures r.distance_m == NullValue <==> !row.distance_m.Present?
    ensures row.distance_m.Present? ==> r.distance_m == row.distance_m
  {
    row.(created_at := format(row.created_at), distance_m := CoalesceNull(row.distance_m))
  }

  /** Lines 236-254: the fetched rows in order, or no rows on a fetch error. */
  function MyReports(fetch: FetchResult, format: Value -> Value): (r: seq<ReportRow>)
    ensures fetch.FetchFailed? ==> r == []
    ensures fetch.Fetched? ==> |r| == |fetch.rows|
    ensures fetch.Fetched? ==> forall i :: 0 <= i < |r| ==>
      r[i].reportType == fetch.rows[i].reportType && r[i].rest == fetch.rows[i].rest
      && r[i].created_at == format(fetch.rows[i].created_at)
      && r[i].distance_m != Absent
      && (r[i].distance_m == NullValue <==> !fetch.rows[i].distance_m.Present?)
      && (fetch.rows[i].distance_m.Present? ==> r[i].distance_m == fetch.rows[i].distance_m)
  {
    match fetch
    case FetchFailed(_) => []
    case Fetched(rows) => seq(|rows|, i requires 0 <= i < |rows| => ListedRow(rows[i], format))
  }

  // ---------------------------------------------------------------------------
  // getReportsForMap
  // ---------------------------------------------------------------------------

  /** Line 276-278: `item.type === 'missing' || (item.distance_m !== null && item.distance_m <= 100)`. */
  predicate ShouldRender(row: ReportRow)
    ensures ShouldRender(row) && !IsMissingPerson(row.reportType) ==> row.distance_m.Present?
  {
    IsMissingPerson(row.reportType) || (row.distance_m != NullValue && AtMost(row.distance_m, 100.0))
  }

  /**
   * The rule in plain terms: a missing-person report, or a report whose distance is a
   * number of at most 100 m. An absent distance fails `<= 100` (it converts to NaN), and a
   * `null` one, which would pass `<= 100` as 0, is excluded by the `!== null` test.
   */
  lemma ShouldRenderIff(row: ReportRow)
    ensures ShouldRender(row) <==>
      IsMissingPerson(row.reportType)
      || (row.distance_m.Present? && match row.distance_m.value
                                     case Finite(r) => r <= 100.0
                                     case Infinity(negative) => negative
                                     case NaN => false)
    ensures row.distance_m == NullValue ==> AtMost(row.distance_m, 100.0)
  {
  }

  /** `b` contains `a` in order, possibly with other elements in between. */
  predicate IsSubsequence<T(==)>(a: seq<T>, b: seq<T>)
    decreases |b|
  {
    if a == [] then true
    else if b == [] then false
    else if a[0] == b[0] then IsSubsequence(a[1..], b[1..])
    else IsSubsequence(a, b[1..])
  }

  /** `data.filter(...)`. */
  function FilterRendered(rows: seq<ReportRow>): (r: seq<ReportRow>)
    ensures IsSubsequence(r, rows)
    ensures forall x :: x in r <==> x in rows && ShouldRender(x)
    ensures forall x :: multiset(r)[x] == if ShouldRender(x) then multiset(rows)[x] else 0
  {
    if rows == [] then []
    else
      assert rows == [rows[0]] + rows[1..];
      var rest := FilterRendered(rows[1..]);
      if ShouldRender(rows[0]) then [rows[0]] + rest else rest
  }

  /** Lines 258-289: the rows to show on the map, or none on a fetch error. */
  function ReportsForMap(fetch: FetchResult): (r: seq<ReportRow>)
    ensures fetch.FetchFailed? ==> r == []
    ensures fetch.Fetched? ==> IsSubsequence(r, fetch.rows)
    ensures fetch.Fetched? ==> forall x :: x in r <==> x in fetch.rows && ShouldRender(x)
    ensures fetch.Fetched? ==> forall x :: multiset(r)[x] == if ShouldRender(x) then multiset(fetch.rows)[x] else 0
  {
    match fetch
    case FetchFailed(_) => []
    case Fetched(rows) => FilterRendered(rows)
  }

  /** Three cases: a missing person 5 km away is shown, an incident at 150 m is not, one at 50 m is. */
  lemma MapEligibilityExamples(rest: Object, created: Value)
    ensures ShouldRender(ReportRow(Str("missing"), Present(Finite(5000.0)), created, rest))
    ensures !ShouldRender(ReportRow(Str("incident"), Present(Finite(150.0)), created, rest))
    ensures ShouldRender(ReportRow(Str("incident"), Present(Finite(50.0)), created, rest))
  {
  }

  /** `?? null` in the listing never changes whether a row would be shown on the map. */
  lemma ListingKeepsMapEligibility(row: ReportRow, format: Value -> Value)
    ensures ShouldRender(ListedRow(row, format)) == ShouldRender(row)
  {
  }
}
