/**
 The model-metrics table kept by `save_model_metrics_csv`: a file of rows keyed
 by the "Model" column, updated by filter (overwrite by name), duplicate check
 with early return, and append.
 */
module MetricsTable {

  datatype Option<T> = None | Some(value: T)

  /** A metric value as stored in the table (a score rounded to four decimals).
      The table logic only ever compares these for equality. */
  type Score(==, !new)

  /** One record of the metrics file: the "Model" key and its five scores,
      one field per column. `==` on `Row` compares all six fields, as the
      comparison of the new record against the stored records does. */
  datatype Row = Row(
    model: string,
    accuracy: Score,
    precision: Score,
    recall: Score,
    f1: Score,
    rocAuc: Score)

  /** What one save does: return early without writing, or write these rows. */
  datatype Outcome = Skipped | Written(rows: seq<Row>)

  /** The rows in the file, an absent file read as no rows. */
  function Contents(stored: Option<seq<Row>>): seq<Row> {
    if stored.Some? then stored.value else []
  }

  /** Number of rows whose "Model" is `name`. */
  function CountModel(rows: seq<Row>, name: string): (k: nat)
    ensures k <= |rows|
    ensures k == 0 <==> forall i :: 0 <= i < |rows| ==> rows[i].model != name
  {
    if rows == [] then 0
    else (if rows[0].model == name then 1 else 0) + CountModel(rows[1..], name)
  }

  /** `a` is `b` with some elements left out, the rest in their order. */
  predicate IsSubsequence(a: seq<Row>, b: seq<Row>) {
    if a == [] then true
    else if b == [] then false
    else if a[0] == b[0] then IsSubsequence(a[1..], b[1..])
    else IsSubsequence(a, b[1..])
  }

  /** The rows whose "Model" differs from `name`, in their original order
      (the frame filter on `df["Model"] != model_name`). The result is a
      subsequence of `rows` made of other-model rows only, and as long as
      the number of other-model rows, so it keeps every such row once and
      in place. */
  function WithoutModel(rows: seq<Row>, name: string): (kept: seq<Row>)
    ensures |kept| == |rows| - CountModel(rows, name)
    ensures forall r :: r in kept <==> r in rows && r.model != name
    ensures IsSubsequence(kept, rows)
  {
    if rows == [] then []
    else if rows[0].model == name then WithoutModel(rows[1..], name)
    else [rows[0]] + WithoutModel(rows[1..], name)
  }

  /** The specification of one save of `row` into the file `stored`. */
  function Save(stored: Option<seq<Row>>, row: Row, overwrite: bool): (o: Outcome)
    // The early return fires exactly for a duplicate row when overwrite is off.
    ensures o.Skipped? <==> stored.Some? && !overwrite && row in stored.value
    ensures o.Written? ==> |o.rows| > 0 && o.rows[|o.rows| - 1] == row
  {
    match stored
    case None => Written([row])
    case Some(rows) =>
      var kept := if overwrite then WithoutModel(rows, row.model) else rows;
      if row in kept then Skipped else Written(kept + [row])
  }

  /** Filtering a table that has no row for `name` keeps it as it is. */
  lemma {:induction false} WithoutAbsentModel(rows: seq<Row>, name: string)
    requires forall r :: r in rows ==> r.model != name
    ensures WithoutModel(rows, name) == rows
  {
    if rows != [] {
      assert rows[0] in rows;
      WithoutAbsentModel(rows[1..], name);
      assert rows == [rows[0]] + rows[1..];
    }
  }

  /** The filter and the count both distribute over concatenation. */
  lemma {:induction false} WithoutModelAppend(a: seq<Row>, b: seq<Row>, name: string)
    ensures WithoutModel(a + b, name) == WithoutModel(a, name) + WithoutModel(b, name)
    ensures CountModel(a + b, name) == CountModel(a, name) + CountModel(b, name)
  {
    if a == [] {
      assert a + b == b;
    } else {
      assert (a + b)[0] == a[0];
      assert (a + b)[1..] == a[1..] + b;
      WithoutModelAppend(a[1..], b, name);
    }
  }

  /** Filtering twice is filtering once. */
  lemma WithoutModelIdempotent(rows: seq<Row>, name: string)
    ensures WithoutModel(WithoutModel(rows, name), name) == WithoutModel(rows, name)
  {
    WithoutAbsentModel(WithoutModel(rows, name), name);
  }

  /** A new table holds exactly the new row (the `None` case of `Save`,
      unfolded). */
  lemma SaveCreatesTable(row: Row, overwrite: bool)
    ensures Save(None, row, overwrite) == Written([row])
  {
  }

  /** With overwrite on, the save always writes; afterwards exactly one row
      carries the model name, it is the new row, and it is the last row. */
  lemma OverwriteLeavesOneRow(stored: Option<seq<Row>>, row: Row)
    ensures Save(stored, row, true).Written?
    ensures var t := Save(stored, row, true).rows;
      && CountModel(t, row.model) == 1
      && t[|t| - 1] == row
      && forall i :: 0 <= i < |t| - 1 ==> t[i].model != row.model
  {
    if stored.Some? {
      var kept := WithoutModel(stored.value, row.model);
      WithoutModelAppend(kept, [row], row.model);
      assert CountModel(kept, row.model) == 0;
      var t := kept + [row];
      assert forall i :: 0 <= i < |t| - 1 ==> t[i] == kept[i] && t[i] in kept;
    }
  }

  /** Rows of every other model survive a save unchanged and in their
      original relative order; a save adds no row but the new one. */
  lemma OtherModelsUntouched(stored: Option<seq<Row>>, row: Row, overwrite: bool)
    requires Save(stored, row, overwrite).Written?
    ensures var t := Save(stored, row, overwrite).rows;
      && WithoutModel(t, row.model) == WithoutModel(Contents(stored), row.model)
      && forall r :: r in t ==> r in Contents(stored) || r == row
  {
    var n := row.model;
    if stored.Some? {
      var s := stored.value;
      var kept := if overwrite then WithoutModel(s, n) else s;
      WithoutModelAppend(kept, [row], n);
      assert WithoutModel([row], n) == [];
      if overwrite {
        WithoutModelIdempotent(s, n);
      }
    } else {
      assert WithoutModel([row], n) == [];
    }
  }

  /** Only rows carrying the model name can disappear in a save. */
  lemma OnlyNamedRowsRemoved(stored: Option<seq<Row>>, row: Row, overwrite: bool)
    requires Save(stored, row, overwrite).Written?
    ensures forall r ::
              r in Contents(stored) && r !in Save(stored, row, overwrite).rows ==> r.model == row.model
  {
  }

  /** Without overwrite a save either changes nothing or appends the row
      (the `Some` case of `Save` with overwrite off, unfolded). */
  lemma NoOverwriteAppends(rows: seq<Row>, row: Row)
    ensures Save(Some(rows), row, false) == if row in rows then Skipped else Written(rows + [row])
  {
  }

  /** A save that writes stores the (filtered) old table followed by the new
      row (the writing branches of `Save`, unfolded); the length clause is a
      corollary of the first. */
  lemma WrittenLength(stored: Option<seq<Row>>, row: Row, overwrite: bool)
    requires Save(stored, row, overwrite).Written?
    ensures var kept := if overwrite then WithoutModel(Contents(stored), row.model) else Contents(stored);
      && Save(stored, row, overwrite).rows == kept + [row]
      && |Save(stored, row, overwrite).rows| == |kept| + 1
  {
  }

  /** Saving the same row again is harmless: with overwrite on it rewrites the
      same table, with overwrite off it is skipped. */
  lemma SaveTwice(stored: Option<seq<Row>>, row: Row, overwrite: bool)
    requires Save(stored, row, overwrite).Written?
    ensures var t := Save(stored, row, overwrite).rows;
      Save(Some(t), row, overwrite) == if overwrite then Written(t) else Skipped
  {
    var t := Save(stored, row, overwrite).rows;
    if overwrite {
      var kept := WithoutModel(Contents(stored), row.model);
      WrittenLength(stored, row, overwrite);
      WithoutModelAppend(kept, [row], row.model);
      WithoutModelIdempotent(Contents(stored), row.model);
      assert WithoutModel([row], row.model) == [];
      assert WithoutModel(t, row.model) == kept;
    } else {
      assert row in t;
    }
  }

  /** The metrics file at one path. */
  class MetricsFile {
    /** The file's rows, or None when no file exists at the path. */
    var table: Option<seq<Row>>

    constructor (existing: Option<seq<Row>>)
      ensures table == existing
    {
      table := existing;
    }

    /** Saves the metrics of `modelName` to the file; `written` is false
        exactly when the call returns early without writing the file. */
    method SaveModelMetrics(modelName: string, accuracy: Score, precision: Score, recall: Score,
                            f1: Score, rocAuc: Score, overwrite: bool) returns (written: bool)
      modifies this
      ensures var row := Row(modelName, accuracy, precision, recall, f1, rocAuc);
        && (written <==> Save(old(table), row, overwrite).Written?)
        && table == if written then Some(Save(old(table), row, overwrite).rows) else old(table)
    {
      var row := Row(modelName, accuracy, precision, recall, f1, rocAuc);
      if table.None? {
        table := Some([row]);
        written := true;
        return;
      }
      var df := table.value;
      if overwrite && exists r :: r in df && r.model == modelName {
        df := WithoutModel(df, modelName);
      } else if overwrite {
        WithoutAbsentModel(df, modelName);
      }
      if row in df {
        written := false;
        return;
      }
      df := df + [row];
      table := Some(df);
      written := true;
    }
  }
}
