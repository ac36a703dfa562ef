/**
 * `get_options_array` of field_controller.php: runs the configured query (when
 * the setting is truthy), maps each record's formatted first-column value to its
 * formatted `data` property, and puts the `'' => choose` placeholder in front with
 * the array union operator. `format` stands for Moodle's `format_string` and
 * `choose` for the localised "Choose..." label.
 */
module Options {
  import opened Wrappers
  import opened PhpStrings
  import opened PhpArrays
  import opened DataSource

  /** The formatted label of a record: its `data` property, or the empty string when it has none. */
  function Label(row: Row, format: string -> string): string
  {
    format(if "data" in row.fields then row.fields["data"] else "")
  }

  /**
   * The label that the last record whose formatted key is `k` gives, or `None` when
   * no record's key formats to `k`.
   */
  function Latest(rows: seq<Row>, format: string -> string, k: string): (v: Option<string>)
    ensures v.Some? <==> exists i :: 0 <= i < |rows| && format(rows[i].key) == k
    ensures v.Some? ==> exists i :: 0 <= i < |rows| && format(rows[i].key) == k && v.value == Label(rows[i], format)
                                    && forall j :: i < j < |rows| ==> format(rows[j].key) != k
  {
    if rows == [] then None
    else
      var last := rows[|rows| - 1];
      if format(last.key) == k then Some(Label(last, format))
      else Latest(rows[..|rows| - 1], format, k)
  }

  /** No two records' keys format to the same string, and none formats to the placeholder key. */
  predicate DistinctKeys(rows: seq<Row>, format: string -> string)
  {
    && (forall i, j :: 0 <= i < j < |rows| ==> format(rows[i].key) != format(rows[j].key))
    && (forall i :: 0 <= i < |rows| ==> format(rows[i].key) != "")
  }

  /** Reading one more record updates the label of its formatted key only. */
  lemma LatestStep(rows: seq<Row>, i: nat, format: string -> string, k: string)
    requires i < |rows|
    ensures Latest(rows[..i + 1], format, k) ==
            if format(rows[i].key) == k then Some(Label(rows[i], format)) else Latest(rows[..i], format, k)
  {
    assert rows[..i + 1][..i] == rows[..i];
  }

  /** With distinct keys, a record's key has not been seen among the records before it. */
  lemma LatestFresh(rows: seq<Row>, i: nat, format: string -> string)
    requires DistinctKeys(rows, format) && i < |rows|
    ensures Latest(rows[..i], format, format(rows[i].key)).None?
  {
    forall j | 0 <= j < i ensures format(rows[..i][j].key) != format(rows[i].key) {
      assert rows[..i][j] == rows[j];
    }
  }

  /** The formatted first-column values of the records, in order. */
  function FormattedKeys(rows: seq<Row>, format: string -> string): (ks: seq<string>)
    ensures |ks| == |rows|
  {
    seq(|rows|, i requires 0 <= i < |rows| => format(rows[i].key))
  }

  /** One entry per record, formatted key to formatted label, in the records' order. */
  function Entries(rows: seq<Row>, format: string -> string): (e: OrderedMap)
    ensures |e| == |rows|
  {
    seq(|rows|, i requires 0 <= i < |rows| => (format(rows[i].key), Label(rows[i], format)))
  }

  /** Reading one more record adds its formatted key at the end. */
  lemma FormattedKeysStep(rows: seq<Row>, i: nat, format: string -> string)
    requires i < |rows|
    ensures FormattedKeys(rows[..i + 1], format) == FormattedKeys(rows[..i], format) + [format(rows[i].key)]
  {
    var x, y := FormattedKeys(rows[..i + 1], format), FormattedKeys(rows[..i], format) + [format(rows[i].key)];
    forall j | 0 <= j < i + 1 ensures x[j] == y[j] {
      assert rows[..i + 1][j] == rows[j];
      if j < i {
        assert rows[..i][j] == rows[j];
      }
    }
  }

  /** Reading one more record adds its entry at the end. */
  lemma EntriesStep(rows: seq<Row>, i: nat, format: string -> string)
    requires i < |rows|
    ensures Entries(rows[..i + 1], format) == Entries(rows[..i], format) + [(format(rows[i].key), Label(rows[i], format))]
  {
    var x, y := Entries(rows[..i + 1], format), Entries(rows[..i], format) + [(format(rows[i].key), Label(rows[i], format))];
    forall j | 0 <= j < i + 1 ensures x[j] == y[j] {
      assert rows[..i + 1][j] == rows[j];
      if j < i {
        assert rows[..i][j] == rows[j];
      }
    }
  }

  /**
   * The strings of `ks` without repetitions, each at the place where it first
   * occurs: the key order of an array filled by assigning the keys `ks` in turn.
   */
  function FirstOccurrences(ks: seq<string>): (d: seq<string>)
    ensures forall x :: x in d <==> x in ks
    ensures forall i, j :: 0 <= i < j < |d| ==> d[i] != d[j]
  {
    if ks == [] then []
    else
      var d := FirstOccurrences(ks[..|ks| - 1]);
      assert ks == ks[..|ks| - 1] + [ks[|ks| - 1]];
      if ks[|ks| - 1] in d then d else d + [ks[|ks| - 1]]
  }

  /** One more string is kept only when it has not occurred before. */
  lemma FirstOccurrencesSnoc(ks: seq<string>, x: string)
    ensures FirstOccurrences(ks + [x]) == if x in FirstOccurrences(ks) then FirstOccurrences(ks) else FirstOccurrences(ks) + [x]
  {
    assert (ks + [x])[..|ks|] == ks;
  }

  /** Without repetitions nothing is dropped and the order is that of `ks`. */
  lemma {:induction false} FirstOccurrencesDistinct(ks: seq<string>)
    requires forall i, j :: 0 <= i < j < |ks| ==> ks[i] != ks[j]
    ensures FirstOccurrences(ks) == ks
  {
    if ks != [] {
      var init := ks[..|ks| - 1];
      FirstOccurrencesDistinct(init);
      assert ks[|ks| - 1] !in init;
      FirstOccurrencesSnoc(init, ks[|ks| - 1]);
      assert init + [ks[|ks| - 1]] == ks;
    }
  }

  /** With distinct keys, the records' entries have unique keys. */
  lemma EntriesUnique(rows: seq<Row>, format: string -> string)
    requires DistinctKeys(rows, format)
    ensures UniqueKeys(Entries(rows, format))
    ensures forall i :: 0 <= i < |rows| ==> Entries(rows, format)[i].0 != ""
  {
  }

  /**
   * The placeholder in front of the options built from all records: the properties
   * of the final union of `get_options_array`.
   */
  lemma SentinelFirst(options: OrderedMap, rows: seq<Row>, format: string -> string, choose: string)
    requires UniqueKeys(options)
    requires forall k :: Get(options, k) == Latest(rows, format, k)
    ensures |Union([("", choose)], options)| >= 1
    ensures Union([("", choose)], options)[0] == ("", choose)
    ensures forall k :: k != "" ==> Get(Union([("", choose)], options), k) == Latest(rows, format, k)
    ensures Keys(Union([("", choose)], options)) == [""] + Without(Keys(options), [""])
  {
    assert Keys([("", choose)]) == [""] by {
      assert [("", choose)][1..] == [];
    }
  }

  /**
   * When the records' formatted keys are distinct and not empty, the union puts the
   * placeholder in front of one entry per record, in the records' order.
   */
  lemma SentinelDistinct(rows: seq<Row>, format: string -> string, choose: string)
    requires DistinctKeys(rows, format)
    ensures UniqueKeys(Entries(rows, format))
    ensures Union([("", choose)], Entries(rows, format)) == [("", choose)] + Entries(rows, format)
  {
    var e := Entries(rows, format);
    EntriesUnique(rows, format);
    forall i | 0 <= i < |e| ensures Get([("", choose)], e[i].0).None? {
      assert e[i].0 == format(rows[i].key);
    }
  }

  /**
   * The `foreach` of `get_options_array`: `$options[format_string($key)] =
   * format_string($option->data)` for each record in order.
   */
  method FillOptions(rows: seq<Row>, format: string -> string) returns (options: OrderedMap)
    ensures UniqueKeys(options)
    ensures forall k :: Get(options, k) == Latest(rows, format, k)
    ensures Keys(options) == FirstOccurrences(FormattedKeys(rows, format))
    ensures DistinctKeys(rows, format) ==> options == Entries(rows, format)
    ensures DistinctKeys(rows, format) ==> |options| == |rows|
  {
    options := [];
    var i := 0;
    while i < |rows|
      invariant 0 <= i <= |rows|
      invariant UniqueKeys(options)
      invariant forall k :: Get(options, k) == Latest(rows[..i], format, k)
      invariant Keys(options) == FirstOccurrences(FormattedKeys(rows[..i], format))
      invariant DistinctKeys(rows, format) ==> options == Entries(rows[..i], format)
    {
      var key, text := format(rows[i].key), Label(rows[i], format);
      ghost var before := options;
      assert DistinctKeys(rows, format) ==> Get(options, key).None? by {
        if DistinctKeys(rows, format) {
          LatestFresh(rows, i, format);
        }
      }
      PutUnique(options, key, text);
      options := Put(options, key, text);
      forall k ensures Get(options, k) == Latest(rows[..i + 1], format, k) {
        LatestStep(rows, i, format, k);
      }
      assert Keys(options) == FirstOccurrences(FormattedKeys(rows[..i + 1], format)) by {
        PutKeys(before, key, text);
        GetKeys(before, key);
        FormattedKeysStep(rows, i, format);
        FirstOccurrencesSnoc(FormattedKeys(rows[..i], format), key);
      }
      assert DistinctKeys(rows, format) ==> options == Entries(rows[..i + 1], format) by {
        if DistinctKeys(rows, format) {
          PutAbsent(before, key, text);
          EntriesStep(rows, i, format);
        }
      }
      i := i + 1;
    }
    assert rows[..i] == rows;
  }

  /**
   * `get_options_array`. A failing query makes it throw (`Err`), since
   * `get_options_array` does not catch it. The query is run as configured, without
   * passing through the safety filter.
   */
  method GetOptionsArray(dynamicsql: Option<string>, db: QueryOutcome, format: string -> string, choose: string)
    returns (r: Result<OrderedMap, string>)
    ensures PhpEmpty(dynamicsql) ==> r == Ok([("", choose)])
    ensures !PhpEmpty(dynamicsql) && db.DbError? ==> r == Err(db.message)
    ensures r.Ok? ==> UniqueKeys(r.value) && |r.value| >= 1 && r.value[0] == ("", choose)
    ensures !PhpEmpty(dynamicsql) && db.Records? ==>
              && r.Ok?
              && forall k :: k != "" ==> Get(r.value, k) == Latest(db.rows, format, k)
    ensures !PhpEmpty(dynamicsql) && db.Records? ==>
              r.Ok? && Keys(r.value) == [""] + Without(FirstOccurrences(FormattedKeys(db.rows, format)), [""])
    ensures !PhpEmpty(dynamicsql) && db.Records? && DistinctKeys(db.rows, format) ==>
              r == Ok([("", choose)] + Entries(db.rows, format))
    ensures !PhpEmpty(dynamicsql) && db.Records? && DistinctKeys(db.rows, format) ==>
              r.Ok? && |r.value| == |db.rows| + 1
  {
    var options: OrderedMap := [];
    if PhpEmpty(dynamicsql) {
      assert Union([("", choose)], options) == [("", choose)];
      return Ok(Union([("", choose)], options));
    }
    if db.DbError? {
      return Err(db.message);
    }
    options := FillOptions(db.rows, format);
    SentinelFirst(options, db.rows, format, choose);
    if DistinctKeys(db.rows, format) {
      SentinelDistinct(db.rows, format, choose);
    }
    r := Ok(Union([("", choose)], options));
  }
}
