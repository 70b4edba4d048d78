# civo report handlers, modelled in Dafny

civo is a civic-reporting web app. Citizens file reports of incidents, damage or missing
persons, and a map shows reports near the viewer. This project models the parts of its
server code that decide something:

- **`GET /api/report/nearby-reports`**: the expanding-radius search. The route checks that
  `lat` and `lng` are usable. It then calls the database procedure
  `get_reports_within_radius` at 100 m, 200 m, ... up to 30 000 m. It stops at the first
  radius that yields at least 20 reports, keeps the last result otherwise, and aborts on the
  first procedure error. Each kept row gets a `lat`/`lng` pair chosen by report type, and
  the rows are sorted by distance (`jsvalues.dfy`, `nearby_reports.dfy`).
- **`POST /api/report`**: the JSON submission route. It checks the required fields and
  builds the `reports` row with its defaults. It adds the missing-person fields only for
  `type === 'missing'`, inserts the row and maps the outcome to 400, 500 or 201
  (`report_route.dfy`).
- **The server actions** (`actions.dfy`):
  - `postAction`, the form variant of submission, with its type and category defaults and
    null-collapsed optional fields;
  - `getMyReportsAction`, the report listing with `distance_m ?? null`;
  - `getReportsForMap`, the map-eligibility filter.

JavaScript values are modelled explicitly (`JsValues`): `undefined`, `null`, numbers with
NaN and the infinities, truthiness, `x || d`, `x ?? null`, `x == null`, and `<=` against
`undefined` and `null`.

Some parts are parameters of the model, and nothing is assumed about them:

- the database procedure and the insert, as oracles;
- the haversine distance;
- `parseFloat` and `parseInt`;
- the relative-time formatter.

The search loop is an imperative `method` proved against a recursive specification
(`Expand`, `Queries`). Its ghost trace of procedure calls lets the lemmas state exactly
which calls are made. The POST handler is a `method` because the source builds the row
and then adds fields to it. The post-processing and the actions are functions, as in the
source.

The sort `(a, b) => a.distance_m - b.distance_m` is modelled as a stable insertion sort.
`StableSortIsUnique` proves that every sorted result that keeps equally distant rows in
their original order is this one. Since `Array.prototype.sort` is stable, the model's
result is the engine's.

Unlike the JSON route, `postAction` validates nothing: a form with no title still reaches
the store (`PostActionDoesNotRequireTitle`), where the JSON route answers 400.

## Model

| member | source | states |
|---|---|---|
| JsValues.Get | civo/app/api/report/route.ts:27-43 | reading a property the object does not have gives `undefined`; otherwise its value |
| JsValues.NumberTruthy | civo/app/api/report/nearby-reports/route.ts:12 | a number is falsy exactly when it is NaN or 0, the two values `!lat \|\| !lng` rejects |
| JsValues.Truthy | civo/app/api/report/route.ts:48 | arrays and objects are always truthy; a string is truthy exactly when non-empty; a number exactly when neither NaN nor 0 |
| JsValues.IsNullish | civo/app/api/report/route.ts:49 | `v == null` holds exactly for `undefined` and `null`, and implies `v` is falsy |
| JsValues.IsMissingPerson | civo/app/api/report/route.ts:74 | `type === 'missing'`; such a type is always truthy and never `== null`, so it passes the guard's type test |
| JsValues.Or | civo/app/api/report/route.ts:64 | `v \|\| d` is `v` when it is truthy and `d` otherwise, as in `media_urls \|\| []` |
| JsValues.OrNull | civo/app/api/report/route.ts:63 | `v \|\| null` is `null` exactly when `v` is falsy, and `v` itself otherwise |
| JsValues.NumberOrNull | civo/app/actions.ts:157 | `n \|\| null` on a number is `null` exactly when `n` is NaN or 0, and the number itself otherwise |
| JsValues.AtMost | civo/app/actions.ts:277 | `c <= bound` never holds for `undefined` (NaN); for `null` it compares 0 with the bound; for a number it holds only for a finite value at most the bound or for minus infinity |
| JsValues.CoalesceNull | civo/app/actions.ts:252 | `c ?? null` is never `undefined`; it is `null` exactly when `c` was `undefined` or `null`, and otherwise `c` unchanged |
| NearbyReports.ParseCoordinate | civo/app/api/report/nearby-reports/route.ts:9-10 | an absent parameter reads as "0", whose number is falsy; a given parameter is its parsed number |
| NearbyReports.Decisive | civo/app/api/report/nearby-reports/route.ts:32-44 | a call that does not end the loop returned rows, and fewer than 20 of them |
| NearbyReports.OutcomeOf | civo/app/api/report/nearby-reports/route.ts:32-44 | the search ends aborted exactly when the deciding call returned an error |
| NearbyReports.Expand | civo/app/api/report/nearby-reports/route.ts:18-51 | the loop entered at a radius: past the ceiling it keeps `found`; it aborts only after making a call; entered on the 100 m grid, an outcome of fewer than 20 rows is what the call at 30 000 m returned |
| NearbyReports.Queries | civo/app/api/report/nearby-reports/route.ts:23-30 | the loop makes a call exactly when a radius is left; the first is at the entry radius; every call is at the query point with a radius in [entry radius, 30000] |
| NearbyReports.SearchResult | civo/app/api/report/nearby-reports/route.ts:18-51 | a search that ends with fewer than 20 rows returns the rows of the call at 30 000 m |
| NearbyReports.Calls | civo/app/api/report/nearby-reports/route.ts:26-30 | the search always makes a call, and the first is at 100 m |
| NearbyReports.Search | civo/app/api/report/nearby-reports/route.ts:18-51 | the while loop's outcome is the specified search result, and the calls it makes are the specified call sequence |
| NearbyReports.LoopTurn | civo/app/api/report/nearby-reports/route.ts:26-48 | one turn at a radius: an error or at least 20 rows ends the search with that result after one more call; fewer rows continue at the next radius with `found` set to them |
| NearbyReports.QueriesCount | civo/app/api/report/nearby-reports/route.ts:18-23 | entered at the i-th radius, the loop makes at most `300 - i` calls, and at least one if a radius is left |
| NearbyReports.QueriesAreRadii | civo/app/api/report/nearby-reports/route.ts:26-30 | entered at the i-th radius, its j-th call uses radius `100 + 100 (i + j)` at the query point |
| NearbyReports.QueriesBeforeLastInsufficient | civo/app/api/report/nearby-reports/route.ts:32-48 | every call but the last returned fewer than 20 rows and no error |
| NearbyReports.ExpandIsLastCall | civo/app/api/report/nearby-reports/route.ts:40-51 | the loop's outcome is its last call's result; that call failed, returned 20 rows or was at the last radius |
| NearbyReports.CallsAreRadii | civo/app/api/report/nearby-reports/route.ts:18-30 | the search makes between 1 and 300 calls, and the j-th is at radius `100 + 100 j` |
| NearbyReports.LastCallDecides | civo/app/api/report/nearby-reports/route.ts:23-51 | all calls but the last are non-decisive; the last failed, returned at least 20 rows or was at 30 000 m; the outcome is its result |
| NearbyReports.RadiiIncrease | civo/app/api/report/nearby-reports/route.ts:26-30 | successive radii strictly increase, all lie within [100, 30000], and every call uses the query point |
| NearbyReports.StopsAtFirstDecisive | civo/app/api/report/nearby-reports/route.ts:40-44 | if the k-th radius is the first to fail or to yield 20 rows, exactly k+1 calls are made and that call's result is the outcome; no larger radius is queried |
| NearbyReports.ExhaustsAllRadii | civo/app/api/report/nearby-reports/route.ts:47-48 | if no radius fails or yields 20 rows, all 300 radii are tried and the rows found at 30 000 m (fewer than 20) are kept |
| NearbyReports.AbortedOnlyByError | civo/app/api/report/nearby-reports/route.ts:32-35 | the search aborts if and only if some call failed, and then with the message of the last call, which is the failing one |
| NearbyReports.Normalize | civo/app/api/report/nearby-reports/route.ts:55-63 | a row keeps every field, and gets `missing_lat`/`missing_lng` for a missing-person report, `report_lat`/`report_lng` otherwise |
| NearbyReports.NormalizeAll | civo/app/api/report/nearby-reports/route.ts:54-64 | same length; every row kept unchanged; `lat`/`lng` are `missing_lat`/`missing_lng` for a missing-person row and `report_lat`/`report_lng` otherwise |
| NearbyReports.AtDistance | civo/app/api/report/nearby-reports/route.ts:65 | the rows at one distance are rows of the input, and there are no more of them than input rows |
| NearbyReports.Insert | civo/app/api/report/nearby-reports/route.ts:65 | inserting into a sorted sequence keeps it sorted and adds exactly the one element |
| NearbyReports.InsertFurther | civo/app/api/report/nearby-reports/route.ts:65 | a row nearer than the inserted one may lead the result: sortedness and contents are kept |
| NearbyReports.PrependSorted | civo/app/api/report/nearby-reports/route.ts:65 | a row no farther than every row of a sorted sequence may lead it |
| NearbyReports.SortByDistance | civo/app/api/report/nearby-reports/route.ts:65 | the result is sorted non-decreasing by `distance_m` and is a permutation of the input |
| NearbyReports.InsertKeepsTies | civo/app/api/report/nearby-reports/route.ts:65 | insertion puts the new row first among the rows at its own distance, and leaves the rows at every other distance alone |
| NearbyReports.SortIsStable | civo/app/api/report/nearby-reports/route.ts:65 | the rows at any one distance keep their relative order |
| NearbyReports.SortedHeadIsNearest | civo/app/api/report/nearby-reports/route.ts:65 | the first row of a sorted sequence is no farther than any of its rows |
| NearbyReports.SortedWithSameTiesAreEqual | civo/app/api/report/nearby-reports/route.ts:65 | two sorted sequences with the same rows in the same order at every distance are equal |
| NearbyReports.StableSortIsUnique | civo/app/api/report/nearby-reports/route.ts:65 | any stable sort by distance gives the model's result |
| NearbyReports.NearbyReportsGet | civo/app/api/report/nearby-reports/route.ts:6-75 | 400 with "위도/경도 누락" if and only if `lat` or `lng` is absent, 0 or NaN, with no call made; otherwise the specified calls, 500 with the message if and only if the search aborted, else 200 with the normalised rows sorted by distance |
| NearbyReports.ResultsArePermutationOfFound | civo/app/api/report/nearby-reports/route.ts:54-65 | a 200 response holds exactly the normalised found rows: same length, same multiset, and each item is its row with the type's coordinates |
| ReportRoute.Destructure | civo/app/api/report/route.ts:27-43 | each destructured field is the body's property of that name, `undefined` when not sent (the `type` property for the report type); an empty body fails the guard |
| ReportRoute.MissingRequired | civo/app/api/report/route.ts:47-50 | a falsy title or an absent report latitude fails the guard; truthy text fields with numeric coordinates, 0 included, pass it |
| ReportRoute.InsertResponse | civo/app/api/report/route.ts:89-95 | an insert error is 500 with the store's message; success is 201 with "제보 등록 성공" and the returned data |
| ReportRoute.PostReport | civo/app/api/report/route.ts:22-95 | no insert and 400 "필수 필드 누락" if and only if a required text field is falsy or a coordinate is `== null`. Otherwise exactly one insert of a row that is a new report, whose response is mapped from the insert's result. The row: status "pending", the haversine of the submitted coordinates, `category \|\| null`, `media_urls \|\| []`, and the five missing-person fields (each `x \|\| null`) present if and only if `type === 'missing'` |
| ReportRoute.ZeroCoordinatesPass | civo/app/api/report/route.ts:47-50 | coordinates equal to 0 pass the guard, which tests `== null` rather than truthiness |
| Actions.ToText | civo/app/actions.ts:139-158 | `.toString()` of a text entry is its text; a file entry reads as "[object File]", so an uploaded file among `media_urls` is stored as that string |
| Actions.FormGet | civo/app/actions.ts:139-142 | `formData.get` is `null` if and only if no entry has that name, and otherwise the value of an entry with that name |
| Actions.FormGetAll | civo/app/actions.ts:149 | `formData.getAll` holds exactly the values submitted under that name |
| Actions.GetAllAppend | civo/app/actions.ts:149 | `getAll` keeps submission order: entries submitted earlier come first |
| Actions.GetIsFirstOfGetAll | civo/app/actions.ts:139-149 | `get` is the first value `getAll` returns, or `null` when there is none |
| Actions.OptionalText | civo/app/actions.ts:139-140 | `get(name)?.toString()` is `undefined` exactly when no entry has the name, and otherwise the first entry's text |
| Actions.AsString | civo/app/actions.ts:151-154 | `get(name) as string` reaches the parser as the text "null" when the entry is missing, and otherwise as the entry's text |
| Actions.TextOr | civo/app/actions.ts:141-142 | `get(name)?.toString() \|\| fallback` is the fallback when the entry is absent or empty, otherwise the entry's text; never empty for a non-empty fallback |
| Actions.TextOrNull | civo/app/actions.ts:156-158 | `get(name)?.toString() \|\| null` is `null` exactly when the entry is absent or empty, and otherwise the entry's own (non-empty) text |
| Actions.FormType | civo/app/actions.ts:141 | the type is never empty: "incident" when absent or empty, otherwise the submitted text |
| Actions.FormCategory | civo/app/actions.ts:142-147 | the category is never empty: "missing" for a missing-person report whatever was submitted, otherwise "incident" when absent or empty, and the submitted text otherwise |
| Actions.MapText | civo/app/actions.ts:149 | `.map((url) => url.toString())` keeps length and order, mapping each value to its text |
| Actions.FormRecord | civo/app/actions.ts:138-200 | status "pending"; title and content `undefined` exactly when not submitted, and otherwise their text; type defaults to "incident"; category defaults to "incident" and is forced to "missing" for a missing-person report; `media_urls` are all submitted values in order; coordinates are parsed; distance is the haversine of them; an empty `missing_name`/`missing_gender` and a `missing_age` parsing to NaN or 0 become `null` |
| Actions.PostAction | civo/app/actions.ts:183-208 | an insert error is thrown with the store's message; success redirects to "/report/done" |
| Actions.PostActionDoesNotRequireTitle | civo/app/actions.ts:139 | a form without a title is still inserted, with `title` undefined |
| Actions.ListedRow | civo/app/actions.ts:250-252 | a listed row keeps its type and other columns, has `created_at` formatted, and has `distance_m` `null` exactly when it was undefined or null, unchanged otherwise |
| Actions.MyReports | civo/app/actions.ts:236-254 | a fetch error gives `[]`; otherwise the same rows in the same order, with `created_at` formatted and `distance_m` `null` exactly when it was undefined or null |
| Actions.ShouldRender | civo/app/actions.ts:276-278 | the map rule; a shown row that is not a missing-person report has a distance that is present, neither undefined nor null |
| Actions.ShouldRenderIff | civo/app/actions.ts:276-278 | a row is shown on the map if and only if it is a missing-person report or its distance is a number at most 100; a `null` distance, which `<= 100` would let through, is excluded |
| Actions.FilterRendered | civo/app/actions.ts:275-284 | the result is an order-preserving subsequence, holds exactly the eligible rows, and keeps each eligible row's multiplicity |
| Actions.ReportsForMap | civo/app/actions.ts:258-289 | a fetch error gives `[]`; otherwise an order-preserving subsequence of the fetched rows holding exactly the eligible ones, each as often as it was fetched |
| Actions.MapEligibilityExamples | civo/app/actions.ts:276-278 | a missing person 5 km away is shown, an incident at 150 m is not, one at 50 m is |
| Actions.ListingKeepsMapEligibility | civo/app/actions.ts:249-253 | the listing's `?? null` never changes whether a row would be shown on the map |

## Left out

- The auth actions (`signUpAction`, `signInAction`, `forgotPasswordAction`, `resetPasswordAction`, `signOutAction`) are not modelled: they are thin wrappers over the hosted auth service and redirects.
- `getNewListAction` is not modelled: it calls a news crawler and formatter whose code is not part of this model.
- The haversine bodies (`getDistanceInMeters` in both files) are uninterpreted parameters: they are floating-point trigonometry.
- `parseFloat`, `parseInt` and the relative-time formatter are parameters: their string-parsing and clock details are not modelled.
- `createClient`, the query builders, `NextResponse`, `URL` and `request.json()` plumbing are left out. The model starts from the parsed query parameters, the request body as an object, the form entries, and the store's results.
- Malformed JSON (`request.json()` throws) and a JSON `null` body (the destructuring throws) are not modelled. Any other non-object JSON value destructures to all-`undefined` fields and behaves as the empty object, which the model covers (`Destructure` of an empty body fails the guard).
- NearbyReports.ParseCoordinate: an empty `lat=` parameter is folded into `Missing`. Both read as "0", because `"" || "0"` is "0".
- Logging (`console.log`/`console.error`), including the `toFixed(1)` loop over the results, is left out: it changes nothing observable to the caller.
- The geospatial computation inside `get_reports_within_radius` is left out: it runs in the database. The model takes the procedure's results as given.
- NearbyReports.NearbyRow: `distance_m` from the procedure is a real number. A NaN or non-numeric distance, which would make the sort comparator inconsistent, is not modelled.
- NearbyReports.SortByDistance: the engine's sorting algorithm is not modelled, only its result. `StableSortIsUnique` shows every stable sort by distance gives that result.
- The order of properties in the JavaScript objects built with `{...item, lat, lng}` and the like is not modelled: the new fields are kept beside the row.
- The `rest` column map of a row (`Store.ReportRow`, `NearbyReports.NearbyRow`) is taken to hold none of the typed columns (`type`, `distance_m`, `created_at`, the coordinates) nor the added `lat`/`lng`. In the source such keys would be overwritten by the spread objects (`{...item, lat, lng}`, `{...item, created_at, distance_m}`); the model keeps `rest` as it came.
- The `order('created_at', ...)` of the fetches is the store's business: the model takes the fetched rows in the order they arrive.
