/**
 * What `$DB->get_records_sql($sql)` hands back to the controller. The data layer
 * itself (connection, SQL execution) is not part of this model: its answer is an
 * input value.
 */
module DataSource {

  /**
   * One record: `key` is the value of its first column, which the data layer uses
   * as the record's array key; `fields` are its named properties.
   */
  datatype Row = Row(key: string, fields: map<string, string>)

  /** The call throws (a `dml_exception` with its message) or returns the records in order. */
  datatype QueryOutcome = DbError(message: string) | Records(rows: seq<Row>)
}
