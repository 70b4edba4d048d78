/**
 * What the handlers get back from the hosted database client: the result of an insert
 * into `reports`, and the result of `select('*')` on `reports` ordered by `created_at`.
 * The client itself, the SQL and the ordering are the store's business; the model sees
 * only these results.
 */
module Store {
  import opened JsValues

  /** `{ data, error }` of `insert([...]).select()` or of a bare `insert([...])`. */
  datatype InsertResult = InsertFailed(message: string) | Inserted(data: Value)

  /**
   * A row of the `reports` table: the columns the list actions read (`type`,
   * `distance_m`, `created_at`) and every other column in `rest`.
   */
  datatype ReportRow = ReportRow(
    reportType: Value,  // the `type` column
    distance_m: Nullable<JsNumber>,
    created_at: Value,
    rest: Object)

  /** `{ data, error }` of a `select('*')`. */
  datatype FetchResult = FetchFailed(message: string) | Fetched(rows: seq<ReportRow>)
}
