/** The shared query helper of the API: a query that selects no rows is
    reported as a failure ("No query matches.") rather than as an empty
    result, whatever the query was. */
module Query {

  datatype QueryResult<T> = Rows(rows: seq<T>) | NoMatches

  function ExecuteDbQuery<T>(selected: seq<T>): (r: QueryResult<T>)
    ensures r.NoMatches? <==> |selected| == 0
    ensures r.Rows? ==> r.rows == selected && |r.rows| > 0
  {
    if |selected| == 0 then NoMatches else Rows(selected)
  }
}
