/**
 * `GET /api/report/nearby-reports?lat=..&lng=..`: the expanding-radius search.
 *
 * The route asks the store's `get_reports_within_radius` procedure for the reports within
 * 100 m of the query point, then 200 m, 300 m, ... up to 30 000 m, and stops at the first
 * radius that yields at least 20 rows (or after 30 000 m with whatever that radius gave).
 * A failing call aborts the request. The rows finally kept get a `lat`/`lng` pair chosen by
 * report type and are sorted by the distance the procedure computed.
 *
 * The procedure is an oracle `rpc` from its named arguments to an error or a sequence of rows.
 */
module NearbyReports {
  import opened JsValues

  /** The first radius tried, the increment and the ceiling, in metres. */
  const Start := 100
  const Step := 100
  const MaxRadius := 30000
  /** A radius that yields at least this many rows ends the search. */
  const Target := 20
  /** How many radii the loop can try: 100, 200, ..., 30000. */
  const Steps := (MaxRadius - Start) / Step + 1

  /** The 400 body's message ("latitude/longitude missing"). */
  const MissingCoordinates := "위도/경도 누락"

  /** A query-string parameter: absent (or empty), or the number `parseFloat` reads from it. */
  datatype QueryParam = Missing | Given(parsed: JsNumber)

  /** `parseFloat(searchParams.get(k) || "0")`. */
  function ParseCoordinate(p: QueryParam): (n: JsNumber)
    ensures p.Missing? ==> !NumberTruthy(n)
    ensures p.Given? ==> n == p.parsed
  {
    match p
    case Missing => Finite(0.0)
    case Given(n) => n
  }

  /** The named arguments of one `get_reports_within_radius` call. */
  datatype RadiusQuery = RadiusQuery(lat_input: JsNumber, lng_input: JsNumber, radius_m: int)

  /**
   * A row returned by the procedure: the report's columns that the route reads, the
   * distance from the query point the procedure computed, and every other column in `rest`.
   */
  datatype NearbyRow = NearbyRow(
    reportType: Value,  // the `type` column
    distance_m: real,
    report_lat: Value,
    report_lng: Value,
    missing_lat: Value,
    missing_lng: Value,
    rest: Object)

  datatype RpcResult = RpcError(message: string) | RpcRows(rows: seq<NearbyRow>)

  type Rpc = RadiusQuery -> RpcResult

  /** What the loop leaves behind: an error message, or the rows it kept in `found`. */
  datatype SearchOutcome = Aborted(message: string) | Found(rows: seq<NearbyRow>)

  /** A call result that ends the loop: an error, or enough rows. */
  predicate Decisive(res: RpcResult)
    ensures !Decisive(res) ==> res.RpcRows? && |res.rows| < Target
  {
    res.RpcError? || |res.rows| >= Target
  }

  /** The search outcome when the loop ends on the call that returned `res`. */
  function OutcomeOf(res: RpcResult): (o: SearchOutcome)
    ensures o.Aborted? <==> res.RpcError?
  {
    match res
    case RpcError(m) => Aborted(m)
    case RpcRows(rows) => Found(rows)
  }

  // ---------------------------------------------------------------------------
  // The loop as a recursive specification
  // ---------------------------------------------------------------------------

  /**
   * The outcome of the loop entered with `radius` and `found == last`: with no radius left,
   * `last`; an abort only after a call; and, entered on the 100 m grid, an outcome of fewer
   * than 20 rows is what the call at 30 000 m returned.
   */
  function Expand(rpc: Rpc, lat: JsNumber, lng: JsNumber, radius: int, last: seq<NearbyRow>): (o: SearchOutcome)
    ensures radius > MaxRadius ==> o == Found(last)
    ensures o.Aborted? ==> radius <= MaxRadius
    ensures o.Found? && |o.rows| < Target && radius <= MaxRadius && (MaxRadius - radius) % Step == 0 ==>
      rpc(RadiusQuery(lat, lng, MaxRadius)) == RpcRows(o.rows)
    decreases MaxRadius + Step - radius
  {
    if radius > MaxRadius then Found(last)
    else
      match rpc(RadiusQuery(lat, lng, radius))
      case RpcError(m) => Aborted(m)
      case RpcRows(rows) =>
        if |rows| >= Target then Found(rows) else Expand(rpc, lat, lng, radius + Step, rows)
  }

  /**
   * The calls the loop makes when entered with `radius`, in order: the first at `radius`
   * itself if it is within the ceiling, all at the query point and within [radius, 30000].
   */
  function Queries(rpc: Rpc, lat: JsNumber, lng: JsNumber, radius: int): (qs: seq<RadiusQuery>)
    ensures radius <= MaxRadius <==> qs != []
    ensures qs != [] ==> qs[0] == RadiusQuery(lat, lng, radius)
    ensures forall j :: 0 <= j < |qs| ==>
      qs[j].lat_input == lat && qs[j].lng_input == lng && radius <= qs[j].radius_m <= MaxRadius
    decreases MaxRadius + Step - radius
  {
    if radius > MaxRadius then []
    else
      var q := RadiusQuery(lat, lng, radius);
      [q] + if Decisive(rpc(q)) then [] else Queries(rpc, lat, lng, radius + Step)
  }

  /**
   * The whole search: the loop entered with `radius = 100` and `found = []`. If it ends
   * with fewer than 20 rows, they are the rows the call at 30 000 m returned.
   */
  function SearchResult(rpc: Rpc, lat: JsNumber, lng: JsNumber): (o: SearchOutcome)
    ensures o.Found? && |o.rows| < Target ==> rpc(RadiusQuery(lat, lng, MaxRadius)) == RpcRows(o.rows)
  {
    Expand(rpc, lat, lng, Start, [])
  }

  /** The calls of the whole search: the first is at 100 m. */
  function Calls(rpc: Rpc, lat: JsNumber, lng: JsNumber): (qs: seq<RadiusQuery>)
    ensures qs != [] && qs[0] == RadiusQuery(lat, lng, Start)
  {
    Queries(rpc, lat, lng, Start)
  }

  /** The `i`-th call the search can make (counting from 0). */
  function QueryAt(lat: JsNumber, lng: JsNumber, i: nat): (q: RadiusQuery) {
    RadiusQuery(lat, lng, Start + i * Step)
  }

  // ---------------------------------------------------------------------------
  // What the search does, independently of how the loop is written
  // ---------------------------------------------------------------------------

  /** Entered at the `i`-th radius, the loop makes at most `Steps - i` calls, at least one if any radius is left. */
  lemma {:induction false} QueriesCount(rpc: Rpc, lat: JsNumber, lng: JsNumber, i: nat, radius: int)
    requires i <= Steps && radius == Start + i * Step
    ensures |Queries(rpc, lat, lng, radius)| <= Steps - i
    ensures i < Steps ==> 1 <= |Queries(rpc, lat, lng, radius)|
    decreases Steps - i
  {
    if i < Steps {
      QueriesCount(rpc, lat, lng, i + 1, radius + Step);
    }
  }

  /** Entered at the `i`-th radius, the `j`-th call of the loop is at the `(i + j)`-th radius. */
  lemma {:induction false} QueriesAreRadii(rpc: Rpc, lat: JsNumber, lng: JsNumber, i: nat, radius: int)
    requires i <= Steps && radius == Start + i * Step
    ensures forall j :: 0 <= j < |Queries(rpc, lat, lng, radius)| ==>
      Queries(rpc, lat, lng, radius)[j] == QueryAt(lat, lng, i + j)
    decreases Steps - i
  {
    if i < Steps {
      var q := QueryAt(lat, lng, i);
      assert q == RadiusQuery(lat, lng, radius);
      var qs := Queries(rpc, lat, lng, radius);
      if Decisive(rpc(q)) {
        assert qs == [q];
      } else {
        QueriesAreRadii(rpc, lat, lng, i + 1, radius + Step);
        var rest := Queries(rpc, lat, lng, radius + Step);
        assert qs == [q] + rest;
        forall j | 0 <= j < |qs| ensures qs[j] == QueryAt(lat, lng, i + j) {
          if j > 0 { assert qs[j] == rest[j - 1]; }
        }
      }
    }
  }

  /** Every call but the last returned fewer than 20 rows. */
  lemma {:induction false} QueriesBeforeLastInsufficient(rpc: Rpc, lat: JsNumber, lng: JsNumber, radius: int)
    ensures forall j :: 0 <= j < |Queries(rpc, lat, lng, radius)| - 1 ==>
      !Decisive(rpc(Queries(rpc, lat, lng, radius)[j]))
    decreases MaxRadius + Step - radius
  {
    if radius <= MaxRadius {
      var q := RadiusQuery(lat, lng, radius);
      if !Decisive(rpc(q)) {
        QueriesBeforeLastInsufficient(rpc, lat, lng, radius + Step);
        var qs, rest := Queries(rpc, lat, lng, radius), Queries(rpc, lat, lng, radius + Step);
        assert qs == [q] + rest;
        forall j | 0 <= j < |qs| - 1 ensures !Decisive(rpc(qs[j])) {
          if j > 0 { assert qs[j] == rest[j - 1]; }
        }
      }
    }
  }

  /** The loop's outcome is what its last call returned; that call decided, or no radius was left. */
  lemma {:induction false} ExpandIsLastCall(rpc: Rpc, lat: JsNumber, lng: JsNumber, radius: int, last: seq<NearbyRow>)
    requires radius <= MaxRadius
    ensures var qs := Queries(rpc, lat, lng, radius);
      qs != []
      && (Decisive(rpc(qs[|qs| - 1])) || qs[|qs| - 1].radius_m + Step > MaxRadius)
      && Expand(rpc, lat, lng, radius, last) == OutcomeOf(rpc(qs[|qs| - 1]))
    decreases MaxRadius + Step - radius
  {
    var q := RadiusQuery(lat, lng, radius);
    var qs, rest := Queries(rpc, lat, lng, radius), Queries(rpc, lat, lng, radius + Step);
    if Decisive(rpc(q)) {
      assert qs == [q];
    } else if radius + Step > MaxRadius {
      assert rest == [] && qs == [q] + rest;
    } else {
      ExpandIsLastCall(rpc, lat, lng, radius + Step, rpc(q).rows);
      assert qs == [q] + rest;
      assert qs[|qs| - 1] == rest[|rest| - 1];
    }
  }

  /** The search makes between 1 and 300 calls, at 100 m, 200 m, 300 m, ... in that order. */
  lemma CallsAreRadii(rpc: Rpc, lat: JsNumber, lng: JsNumber)
    ensures 1 <= |Calls(rpc, lat, lng)| <= Steps
    ensures forall j :: 0 <= j < |Calls(rpc, lat, lng)| ==> Calls(rpc, lat, lng)[j] == QueryAt(lat, lng, j)
  {
    QueriesCount(rpc, lat, lng, 0, Start);
    QueriesAreRadii(rpc, lat, lng, 0, Start);
  }

  /**
   * Every call but the last returned fewer than 20 rows without error, the last call failed
   * or returned 20 rows unless it was the one at 30 000 m, and the outcome is what it returned.
   */
  lemma LastCallDecides(rpc: Rpc, lat: JsNumber, lng: JsNumber)
    ensures Calls(rpc, lat, lng) != []
    ensures forall j :: 0 <= j < |Calls(rpc, lat, lng)| - 1 ==> !Decisive(rpc(Calls(rpc, lat, lng)[j]))
    ensures var qs := Calls(rpc, lat, lng);
      qs != []
      && (Decisive(rpc(qs[|qs| - 1])) || qs[|qs| - 1].radius_m == MaxRadius)
      && SearchResult(rpc, lat, lng) == OutcomeOf(rpc(qs[|qs| - 1]))
  {
    QueriesBeforeLastInsufficient(rpc, lat, lng, Start);
    ExpandIsLastCall(rpc, lat, lng, Start, []);
    CallsAreRadii(rpc, lat, lng);
    var qs := Calls(rpc, lat, lng);
    var l := |qs| - 1;
    assert qs[l] == QueryAt(lat, lng, l) && l < Steps;
  }

  /** Successive calls use strictly increasing radii, all within [100, 30000], at the query point. */
  lemma RadiiIncrease(rpc: Rpc, lat: JsNumber, lng: JsNumber)
    ensures var qs := Calls(rpc, lat, lng);
      (forall j, k :: 0 <= j < k < |qs| ==> qs[j].radius_m < qs[k].radius_m)
      && (forall j :: 0 <= j < |qs| ==>
            Start <= qs[j].radius_m <= MaxRadius && qs[j].lat_input == lat && qs[j].lng_input == lng)
  {
    CallsAreRadii(rpc, lat, lng);
  }

  /**
   * If the call at the `k`-th radius is the first to fail or to yield 20 rows, the search
   * ends there with that call's result, and no larger radius is queried.
   */
  lemma StopsAtFirstDecisive(rpc: Rpc, lat: JsNumber, lng: JsNumber, k: nat)
    requires k < Steps && Decisive(rpc(QueryAt(lat, lng, k)))
    requires forall j :: 0 <= j < k ==> !Decisive(rpc(QueryAt(lat, lng, j)))
    ensures |Calls(rpc, lat, lng)| == k + 1
    ensures forall j :: 0 <= j <= k ==> Calls(rpc, lat, lng)[j] == QueryAt(lat, lng, j)
    ensures SearchResult(rpc, lat, lng) == OutcomeOf(rpc(QueryAt(lat, lng, k)))
  {
    CallsAreRadii(rpc, lat, lng);
    LastCallDecides(rpc, lat, lng);
  }

  /** If no radius yields 20 rows or fails, all 300 radii are tried and the rows at 30000 m win. */
  lemma ExhaustsAllRadii(rpc: Rpc, lat: JsNumber, lng: JsNumber)
    requires forall j :: 0 <= j < Steps ==> !Decisive(rpc(QueryAt(lat, lng, j)))
    ensures |Calls(rpc, lat, lng)| == Steps
    ensures forall j :: 0 <= j < Steps ==> Calls(rpc, lat, lng)[j] == QueryAt(lat, lng, j)
    ensures SearchResult(rpc, lat, lng) == OutcomeOf(rpc(RadiusQuery(lat, lng, MaxRadius)))
    ensures SearchResult(rpc, lat, lng).Found? && |SearchResult(rpc, lat, lng).rows| < Target
  {
    CallsAreRadii(rpc, lat, lng);
    LastCallDecides(rpc, lat, lng);
    var qs := Calls(rpc, lat, lng);
    assert qs[|qs| - 1] == QueryAt(lat, lng, |qs| - 1);
  }

  /** The search never aborts unless some call failed, and then with that call's message. */
  lemma AbortedOnlyByError(rpc: Rpc, lat: JsNumber, lng: JsNumber)
    ensures SearchResult(rpc, lat, lng).Aborted? <==>
      exists j :: 0 <= j < |Calls(rpc, lat, lng)| && rpc(Calls(rpc, lat, lng)[j]).RpcError?
    ensures SearchResult(rpc, lat, lng).Aborted? ==>
      rpc(Calls(rpc, lat, lng)[|Calls(rpc, lat, lng)| - 1]) == RpcError(SearchResult(rpc, lat, lng).message)
  {
    LastCallDecides(rpc, lat, lng);
  }

  // ---------------------------------------------------------------------------
  // The loop itself
  // ---------------------------------------------------------------------------

  /**
   * One turn of the loop at `radius`: given the loop invariant before the call, what the
   * outcome and the call trace are after it, on each of the three ways the turn can end.
   */
  lemma LoopTurn(rpc: Rpc, lat: JsNumber, lng: JsNumber, radius: int, found: seq<NearbyRow>, calls: seq<RadiusQuery>)
    requires radius <= MaxRadius
    requires Expand(rpc, lat, lng, radius, found) == SearchResult(rpc, lat, lng)
    requires calls + Queries(rpc, lat, lng, radius) == Calls(rpc, lat, lng)
    ensures var q := RadiusQuery(lat, lng, radius);
      var res := rpc(q);
      (Decisive(res) ==> OutcomeOf(res) == SearchResult(rpc, lat, lng) && calls + [q] == Calls(rpc, lat, lng))
      && (!Decisive(res) ==>
            Expand(rpc, lat, lng, radius + Step, res.rows) == SearchResult(rpc, lat, lng)
            && (calls + [q]) + Queries(rpc, lat, lng, radius + Step) == Calls(rpc, lat, lng))
  {
    var q := RadiusQuery(lat, lng, radius);
    var later := if Decisive(rpc(q)) then [] else Queries(rpc, lat, lng, radius + Step);
    assert Queries(rpc, lat, lng, radius) == [q] + later;
    assert (calls + [q]) + later == calls + ([q] + later);
  }

  /**
   * Lines 18-51 of the route: the `while (radius <= maxRadius)` loop. `calls` records the
   * procedure calls made, in order.
   */
  method Search(lat: JsNumber, lng: JsNumber, rpc: Rpc) returns (outcome: SearchOutcome, ghost calls: seq<RadiusQuery>)
    ensures outcome == SearchResult(rpc, lat, lng)
    ensures calls == Calls(rpc, lat, lng)
  {
    var radius := Start;
    var found: seq<NearbyRow> := [];
    calls := [];
    while radius <= MaxRadius
      invariant Start <= radius <= MaxRadius + Step
      invariant Expand(rpc, lat, lng, radius, found) == SearchResult(rpc, lat, lng)
      invariant calls + Queries(rpc, lat, lng, radius) == Calls(rpc, lat, lng)
      decreases MaxRadius - radius
    {
      var q := RadiusQuery(lat, lng, radius);
      var res := rpc(q);
      LoopTurn(rpc, lat, lng, radius, found, calls);
      calls := calls + [q];
      if res.RpcError? {
        outcome := Aborted(res.message);
        return;
      }
      if |res.rows| >= Target {
        found := res.rows;
        break;
      }
      found := res.rows;
      radius := radius + Step;
    }
    if radius > MaxRadius {
      assert Queries(rpc, lat, lng, radius) == [];
    }
    outcome := Found(found);
  }

  // ---------------------------------------------------------------------------
  // Post-processing: coordinates by type, then the sort by distance
  // ---------------------------------------------------------------------------

  /** `{...item, lat, lng}`: the row with the coordinate pair the map shows. */
  datatype NearbyResult = NearbyResult(row: NearbyRow, lat: Value, lng: Value) {
    function Distance(): (d: real) { row.distance_m }
  }

  /** One row of the `map`: the row itself, its distance unchanged, and the pair for its type. */
  function Normalize(row: NearbyRow): (r: NearbyResult)
    ensures r.row == row
    ensures IsMissingPerson(row.reportType) ==> r.lat == row.missing_lat && r.lng == row.missing_lng
    ensures !IsMissingPerson(row.reportType) ==> r.lat == row.report_lat && r.lng == row.report_lng
  {
    if IsMissingPerson(row.reportType) then NearbyResult(row, row.missing_lat, row.missing_lng)
    else NearbyResult(row, row.report_lat, row.report_lng)
  }

  /** `found.map(...)`: every row keeps all its fields and gains `lat`/`lng` chosen by type. */
  function NormalizeAll(rows: seq<NearbyRow>): (r: seq<NearbyResult>)
    ensures |r| == |rows|
    ensures forall i :: 0 <= i < |rows| ==> r[i].row == rows[i]
    ensures forall i :: 0 <= i < |rows| && IsMissingPerson(rows[i].reportType) ==>
      r[i].lat == rows[i].missing_lat && r[i].lng == rows[i].missing_lng
    ensures forall i :: 0 <= i < |rows| && !IsMissingPerson(rows[i].reportType) ==>
      r[i].lat == rows[i].report_lat && r[i].lng == rows[i].report_lng
  {
    if rows == [] then [] else [Normalize(rows[0])] + NormalizeAll(rows[1..])
  }

  predicate SortedByDistance(s: seq<NearbyResult>) {
    forall i, j :: 0 <= i < j < |s| ==> s[i].Distance() <= s[j].Distance()
  }

  /** The elements of `s` at distance `d`, in their order in `s`. */
  function AtDistance(s: seq<NearbyResult>, d: real): (r: seq<NearbyResult>)
    ensures |r| <= |s|
    ensures forall x :: x in r ==> x in s && x.Distance() == d
  {
    if s == [] then []
    else if s[0].Distance() == d then [s[0]] + AtDistance(s[1..], d)
    else AtDistance(s[1..], d)
  }

  /** Inserts `x` before the first element farther than or as far as `x`. */
  function Insert(x: NearbyResult, s: seq<NearbyResult>): (r: seq<NearbyResult>)
    requires SortedByDistance(s)
    ensures SortedByDistance(r)
    ensures multiset(r) == multiset(s) + multiset{x}
    ensures forall y :: y in r ==> y == x || y in s
  {
    if s == [] || x.Distance() <= s[0].Distance() then [x] + s
    else
      var t := Insert(x, s[1..]);
      InsertFurther(x, s, t);
      [s[0]] + t
  }

  /** The recursive case of Insert: `x` goes after the head of `s`, into the tail `t`. */
  lemma InsertFurther(x: NearbyResult, s: seq<NearbyResult>, t: seq<NearbyResult>)
    requires SortedByDistance(s) && s != [] && s[0].Distance() < x.Distance()
    requires SortedByDistance(t)
    requires multiset(t) == multiset(s[1..]) + multiset{x}
    requires forall y :: y in t ==> y == x || y in s[1..]
    ensures SortedByDistance([s[0]] + t)
    ensures multiset([s[0]] + t) == multiset(s) + multiset{x}
    ensures forall y :: y in [s[0]] + t ==> y == x || y in s
  {
    assert s == [s[0]] + s[1..];
    assert multiset([s[0]] + t) == multiset{s[0]} + multiset(t);
    forall y | y in t ensures s[0].Distance() <= y.Distance() {
      if y != x {
        var i :| 0 <= i < |s[1..]| && s[1..][i] == y;
        assert s[i + 1] == y;
      }
    }
    PrependSorted(s[0], t);
  }

  lemma PrependSorted(x: NearbyResult, s: seq<NearbyResult>)
    requires SortedByDistance(s)
    requires forall y :: y in s ==> x.Distance() <= y.Distance()
    ensures SortedByDistance([x] + s)
  {
    forall i, j | 0 <= i < j < |[x] + s| ensures ([x] + s)[i].Distance() <= ([x] + s)[j].Distance() {
      if i > 0 {
        assert ([x] + s)[i] == s[i - 1];
      }
      assert ([x] + s)[j] == s[j - 1];
    }
  }

  /**
   * `.sort((a, b) => a.distance_m - b.distance_m)`: Array.prototype.sort is stable, so the
   * result is the stable sort by distance (insertion sort here; see StableSortIsUnique).
   */
  function SortByDistance(s: seq<NearbyResult>): (r: seq<NearbyResult>)
    ensures SortedByDistance(r)
    ensures multiset(r) == multiset(s)
  {
    if s == [] then []
    else
      assert s == [s[0]] + s[1..];
      Insert(s[0], SortByDistance(s[1..]))
  }

  lemma {:induction false} InsertKeepsTies(x: NearbyResult, s: seq<NearbyResult>, d: real)
    requires SortedByDistance(s)
    ensures AtDistance(Insert(x, s), d) == if x.Distance() == d then [x] + AtDistance(s, d) else AtDistance(s, d)
  {
    if s == [] || x.Distance() <= s[0].Distance() {
      assert Insert(x, s) == [x] + s;
      assert ([x] + s)[1..] == s;
    } else {
      var t := Insert(x, s[1..]);
      assert Insert(x, s) == [s[0]] + t;
      assert ([s[0]] + t)[1..] == t;
      InsertKeepsTies(x, s[1..], d);
      if x.Distance() == d {
        // s[0] is strictly nearer than x, so it is not at distance d.
        assert s[0].Distance() < d;
      }
    }
  }

  /** The sort is stable: the rows at any one distance keep their relative order. */
  lemma {:induction false} SortIsStable(s: seq<NearbyResult>, d: real)
    ensures AtDistance(SortByDistance(s), d) == AtDistance(s, d)
  {
    if s != [] {
      SortIsStable(s[1..], d);
      InsertKeepsTies(s[0], SortByDistance(s[1..]), d);
    }
  }

  lemma SortedHeadIsNearest(t: seq<NearbyResult>, y: NearbyResult)
    requires SortedByDistance(t) && y in t
    ensures t[0].Distance() <= y.Distance()
  {
    var i :| 0 <= i < |t| && t[i] == y;
  }

  /** The rows of `s` at its first row's distance begin with that row. */
  lemma AtHeadDistance(s: seq<NearbyResult>, d: real)
    requires s != []
    ensures AtDistance(s, d) == if s[0].Distance() == d then [s[0]] + AtDistance(s[1..], d) else AtDistance(s[1..], d)
  {
  }

  lemma {:induction false} SortedWithSameTiesAreEqual(r: seq<NearbyResult>, t: seq<NearbyResult>)
    requires SortedByDistance(r) && SortedByDistance(t)
    requires forall d :: AtDistance(r, d) == AtDistance(t, d)
    ensures r == t
  {
    if r == [] {
      if t != [] {
        AtHeadDistance(t, t[0].Distance());
      }
    } else if t == [] {
      AtHeadDistance(r, r[0].Distance());
    } else {
      var a, b := r[0].Distance(), t[0].Distance();
      AtHeadDistance(r, a);
      AtHeadDistance(t, b);
      assert AtDistance(t, a) == AtDistance(r, a);
      assert AtDistance(r, b) == AtDistance(t, b);
      SortedHeadIsNearest(t, AtDistance(t, a)[0]);
      SortedHeadIsNearest(r, AtDistance(r, b)[0]);
      assert a == b;
      AtHeadDistance(t, a);
      assert r[0] == t[0];
      forall d ensures AtDistance(r[1..], d) == AtDistance(t[1..], d) {
        AtHeadDistance(r, d);
        AtHeadDistance(t, d);
        assert AtDistance(r, d) == AtDistance(t, d);
        if d == a {
          assert ([r[0]] + AtDistance(r[1..], d))[1..] == AtDistance(r[1..], d);
          assert ([t[0]] + AtDistance(t[1..], d))[1..] == AtDistance(t[1..], d);
        }
      }
      SortedWithSameTiesAreEqual(r[1..], t[1..]);
    }
  }

  /**
   * Any sequence that is sorted by distance and keeps the relative order of equally distant
   * rows of `s` is SortByDistance(s): every stable sort with this comparator gives this result.
   */
  lemma StableSortIsUnique(s: seq<NearbyResult>, t: seq<NearbyResult>)
    requires SortedByDistance(t)
    requires forall d :: AtDistance(t, d) == AtDistance(s, d)
    ensures t == SortByDistance(s)
  {
    forall d ensures AtDistance(SortByDistance(s), d) == AtDistance(t, d) {
      SortIsStable(s, d);
    }
    SortedWithSameTiesAreEqual(SortByDistance(s), t);
  }

  // ---------------------------------------------------------------------------
  // The route handler
  // ---------------------------------------------------------------------------

  datatype NearbyResponse =
    | BadQuery(error: string)
    | QueryFailed(error: string)
    | Results(items: seq<NearbyResult>)
  {
    function Status(): (code: int) {
      match this
      case BadQuery(_) => 400
      case QueryFailed(_) => 500
      case Results(_) => 200
    }
  }

  /**
   * The `GET` handler: a falsy latitude or longitude (absent, 0 or NaN) is a 400 before any
   * call; a failing call is a 500 with its message; otherwise the rows the search kept,
   * normalised and sorted by distance.
   */
  method NearbyReportsGet(latParam: QueryParam, lngParam: QueryParam, rpc: Rpc)
    returns (resp: NearbyResponse, ghost calls: seq<RadiusQuery>)
    ensures var lat, lng := ParseCoordinate(latParam), ParseCoordinate(lngParam);
      (resp.BadQuery? <==> !NumberTruthy(lat) || !NumberTruthy(lng))
      && (resp.BadQuery? ==> resp.error == MissingCoordinates && calls == [])
      && (!resp.BadQuery? ==>
            calls == Calls(rpc, lat, lng)
            && (resp.QueryFailed? <==> SearchResult(rpc, lat, lng).Aborted?))
      && (resp.QueryFailed? ==> resp.error == SearchResult(rpc, lat, lng).message)
      && (resp.Results? ==>
            SearchResult(rpc, lat, lng).Found?
            && resp.items == SortByDistance(NormalizeAll(SearchResult(rpc, lat, lng).rows)))
    ensures resp.Results? ==> SortedByDistance(resp.items)
  {
    var lat := ParseCoordinate(latParam);
    var lng := ParseCoordinate(lngParam);
    if !NumberTruthy(lat) || !NumberTruthy(lng) {
      return BadQuery(MissingCoordinates), [];
    }
    var outcome;
    outcome, calls := Search(lat, lng, rpc);
    match outcome
    case Aborted(m) =>
      resp := QueryFailed(m);
    case Found(found) =>
      resp := Results(SortByDistance(NormalizeAll(found)));
  }

  /**
   * The rows of a 200 response, `SortByDistance(NormalizeAll(found))`, are exactly the
   * normalised rows the search kept: the same multiset, so nothing is dropped or duplicated,
   * and each with its type's coordinates.
   */
  lemma ResultsArePermutationOfFound(found: seq<NearbyRow>, x: NearbyResult)
    ensures var items := SortByDistance(NormalizeAll(found));
      |items| == |found|
      && multiset(items) == multiset(NormalizeAll(found))
      && (x in items ==> x.row in found && x == Normalize(x.row))
  {
    var n := NormalizeAll(found);
    var items := SortByDistance(n);
    assert |items| == |multiset(items)| == |multiset(n)| == |n|;
    if x in items {
      assert x in multiset(n);
      var i :| 0 <= i < |n| && n[i] == x;
    }
  }
}
