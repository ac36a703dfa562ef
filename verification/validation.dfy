/**
 * `config_form_validation` of field_controller.php: checks the submitted query
 * and default value in a fixed order and reports at most one error, keyed by the
 * form element it belongs to. The error messages (`get_string` lookups) are
 * represented by their kind and arguments.
 */
module Validation {
  import opened Wrappers
  import opened PhpStrings
  import opened DataSource
  import opened Sanitizer

  /** The message chosen, by its language-string identifier and arguments. */
  datatype ErrorKind =
    | Required                        // 'err_required' (core form strings)
    | QueryFalse                      // 'queryerrorfalse'
    | QueryEmpty                      // 'queryerrorempty'
    | IdMissing                       // 'queryerroridmissing'
    | DataMissing                     // 'queryerrordatamissing'
    | MultipleDefault(count: nat)     // 'queryerrormulipledefault', with the number of values
    | DefaultMissing(value: string)   // 'queryerrordefaultmissing', with the default value
    | SqlError(message: string)       // 'sqlerror' . ': ' . the exception message

  /**
   * The `configdata` part of the submitted form: the query and the default value
   * (`None` when unset or null) and the multiselect checkbox (0 or 1).
   */
  datatype ConfigData = ConfigData(dynamicsql: Option<string>, defaultvalue: Option<string>, multiselect: int)

  /** The form elements an error can be attached to. */
  datatype FormElement = QueryField | DefaultField
  {
    /** The element's name in the form, the key of the returned array. */
    function Name(): string
    {
      match this
      case QueryField => "configdata[dynamicsql]"
      case DefaultField => "configdata[defaultvalue]"
    }
  }

  /**
   * The two elements have different names, so an error map keyed by element is the
   * PHP array keyed by name.
   */
  lemma NameInjective(a: FormElement, b: FormElement)
    ensures a.Name() == b.Name() <==> a == b
  {
    if a != b {
      assert a.Name()[12] != b.Name()[12];
    }
  }

  /**
   * `array_column($rows, column, indexKey)`: for each record that has both
   * properties, its `indexKey` value maps to its `column` value; a later record
   * overwrites an earlier one with the same index value.
   */
  function ArrayColumn(rows: seq<Row>, column: string, indexKey: string): (m: map<string, string>)
    ensures forall k :: k in m <==>
              exists i :: 0 <= i < |rows| && column in rows[i].fields && indexKey in rows[i].fields
                          && rows[i].fields[indexKey] == k
  {
    if rows == [] then map[]
    else
      var f := rows[|rows| - 1].fields;
      var m := ArrayColumn(rows[..|rows| - 1], column, indexKey);
      if column in f && indexKey in f then m[f[indexKey] := f[column]] else m
  }

  /** `config_form_validation`, with `db` standing for what the data layer returns for the query. */
  function ConfigFormValidation(data: ConfigData, db: QueryOutcome): (err: map<FormElement, ErrorKind>)
    ensures |err| <= 1
    ensures DefaultField in err ==> data.multiselect == 0 && err[DefaultField] != Required
  {
    var sql := data.dynamicsql;
    if sql.None? || sql.value == "" then
      map[QueryField := Required]
    else if !IsSafeSql(sql.value) then
      map[QueryField := QueryFalse]
    else if db.DbError? then
      // the exception thrown by the data layer, caught at the end of the method
      map[QueryField := SqlError(db.message)]
    else if |db.rows| == 0 then
      // an empty result array is falsy
      map[QueryField := QueryFalse]
    else if |db.rows| == 0 then
      map[QueryField := QueryEmpty]
    else if "id" !in db.rows[0].fields then
      map[QueryField := IdMissing]
    else if "data" !in db.rows[0].fields then
      map[QueryField := DataMissing]
    else if PhpEmpty(data.defaultvalue) then
      map[]
    else
      var defaultvalue := data.defaultvalue.value;
      var options := ArrayColumn(db.rows, "data", "id");
      var values := Explode(defaultvalue);
      if data.multiselect == 0 && |values| > 1 then
        map[DefaultField := MultipleDefault(|values|)]
      else if data.multiselect == 0 && defaultvalue !in options then
        map[DefaultField := DefaultMissing(defaultvalue)]
      else
        map[]
  }

  /** The query passes every check of the query stage: set, non-empty, safe, and its first record has `id` and `data`. */
  predicate QueryPasses(data: ConfigData, db: QueryOutcome)
  {
    && data.dynamicsql.Some? && data.dynamicsql.value != ""
    && IsSafeSql(data.dynamicsql.value)
    && db.Records? && |db.rows| > 0
    && "id" in db.rows[0].fields && "data" in db.rows[0].fields
  }

  // ---------------------------------------------------------------------------
  // The stages, in the order they are tried

  /** An unset or empty query gives only the "required" error, whatever else was submitted. */
  lemma MissingQueryRequired(data: ConfigData, db: QueryOutcome)
    requires data.dynamicsql.None? || data.dynamicsql.value == ""
    ensures ConfigFormValidation(data, db) == map[QueryField := Required]
  {
  }

  /**
   * A query the filter rejects gives only `QueryFalse`, and the outcome does not
   * depend on the data layer's answer: the query is never run.
   */
  lemma UnsafeQueryNotRun(data: ConfigData, db1: QueryOutcome, db2: QueryOutcome)
    requires data.dynamicsql.Some? && data.dynamicsql.value != ""
    requires !IsSafeSql(data.dynamicsql.value)
    ensures ConfigFormValidation(data, db1) == map[QueryField := QueryFalse]
    ensures ConfigFormValidation(data, db1) == ConfigFormValidation(data, db2)
  {
  }

  /** A failing query is reported as an SQL error carrying the exception's message. */
  lemma DbErrorReported(data: ConfigData, msg: string)
    requires data.dynamicsql.Some? && data.dynamicsql.value != "" && IsSafeSql(data.dynamicsql.value)
    ensures ConfigFormValidation(data, DbError(msg)) == map[QueryField := SqlError(msg)]
  {
  }

  /** An empty result is reported as `QueryFalse`; the "empty result" message is never produced. */
  lemma EmptyResultIsQueryFalse(data: ConfigData, db: QueryOutcome)
    requires data.dynamicsql.Some? && data.dynamicsql.value != "" && IsSafeSql(data.dynamicsql.value)
    requires db == Records([])
    ensures ConfigFormValidation(data, db) == map[QueryField := QueryFalse]
  {
  }

  lemma QueryEmptyUnreachable(data: ConfigData, db: QueryOutcome)
    ensures QueryEmpty !in ConfigFormValidation(data, db).Values
  {
  }

  /**
   * Only the first record is inspected: a missing `id` there gives `IdMissing`
   * (even if `data` is missing too), a missing `data` alone gives `DataMissing`.
   */
  lemma FirstRecordChecked(data: ConfigData, rows: seq<Row>)
    requires data.dynamicsql.Some? && data.dynamicsql.value != "" && IsSafeSql(data.dynamicsql.value)
    requires |rows| > 0
    ensures "id" !in rows[0].fields ==> ConfigFormValidation(data, Records(rows)) == map[QueryField := IdMissing]
    ensures "id" in rows[0].fields && "data" !in rows[0].fields ==>
              ConfigFormValidation(data, Records(rows)) == map[QueryField := DataMissing]
  {
  }

  /** Any error on the query field stops validation: the default value is then never looked at. */
  lemma QueryErrorExcludesDefault(data: ConfigData, db: QueryOutcome)
    requires QueryField in ConfigFormValidation(data, db)
    ensures DefaultField !in ConfigFormValidation(data, db)
    ensures !QueryPasses(data, db)
  {
  }

  // ---------------------------------------------------------------------------
  // The default value

  /** A default that is empty in PHP's sense (unset, `''` or `'0'`) is not checked. */
  lemma EmptyDefaultSkipped(data: ConfigData, db: QueryOutcome)
    requires QueryPasses(data, db) && PhpEmpty(data.defaultvalue)
    ensures ConfigFormValidation(data, db) == map[]
  {
  }

  /** With multiselect on, no error about the default value is ever produced. */
  lemma MultiselectDefaultUnchecked(data: ConfigData, db: QueryOutcome)
    requires data.multiselect != 0
    ensures DefaultField !in ConfigFormValidation(data, db)
  {
  }

  /** For a single-select field, a default holding commas is refused, with the number of values. */
  lemma SeveralDefaultsRefused(data: ConfigData, db: QueryOutcome)
    requires QueryPasses(data, db) && !PhpEmpty(data.defaultvalue) && data.multiselect == 0
    requires ',' in data.defaultvalue.value
    ensures ConfigFormValidation(data, db) ==
            map[DefaultField := MultipleDefault(multiset(data.defaultvalue.value)[','] + 1)]
  {
    ExplodeSeveral(data.defaultvalue.value);
    ExplodeCount(data.defaultvalue.value);
  }

  /**
   * For a single-select field, a single default value is refused exactly when no
   * record has that value as its `id` (and has a `data` property).
   */
  lemma SingleDefaultMustExist(data: ConfigData, rows: seq<Row>)
    requires QueryPasses(data, Records(rows)) && !PhpEmpty(data.defaultvalue) && data.multiselect == 0
    requires ',' !in data.defaultvalue.value
    ensures var d := data.defaultvalue.value;
            ConfigFormValidation(data, Records(rows)) ==
              if exists i :: 0 <= i < |rows| && "data" in rows[i].fields && "id" in rows[i].fields
                             && rows[i].fields["id"] == d
              then map[]
              else map[DefaultField := DefaultMissing(d)]
  {
    ExplodeSeveral(data.defaultvalue.value);
  }

  /**
   * The configuration is accepted (no error) exactly when the query passes every
   * check and the default value is empty, or multiselect is on, or it is a single
   * value that is the `id` of some record.
   */
  lemma AcceptedExactly(data: ConfigData, db: QueryOutcome)
    ensures ConfigFormValidation(data, db) == map[] <==>
              && QueryPasses(data, db)
              && (|| PhpEmpty(data.defaultvalue)
                  || data.multiselect != 0
                  || (&& ',' !in data.defaultvalue.value
                      && exists i :: 0 <= i < |db.rows| && "data" in db.rows[i].fields && "id" in db.rows[i].fields
                                     && db.rows[i].fields["id"] == data.defaultvalue.value))
  {
    if QueryPasses(data, db) && !PhpEmpty(data.defaultvalue) && data.multiselect == 0 {
      if ',' in data.defaultvalue.value {
        SeveralDefaultsRefused(data, db);
      } else {
        SingleDefaultMustExist(data, db.rows);
      }
    }
  }
}
