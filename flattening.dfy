/** What `FlattenedDataFrame.flatten` and the constructor of
    `FlattenedDataFrame` compute, as functions on tables: passes repeat while
    some column is classified `dict` or `list`; the constructor then stamps the
    snapshot date. */
module Flattening {
  import opened Json
  import opened Outcomes
  import opened Tables
  import opened Flatten
  import opened Measure

  /** The table `flatten` leaves behind, or the error that stops it. */
  function Flattened(t: Table): (r: Result<Table, Error>)
    requires Valid(t)
    ensures r.Ok? ==> Valid(r.value) && !HasNested(r.value)
    ensures !HasNested(t) ==> r == Ok(t)
    decreases Weight(t)
  {
    if !HasNested(t) then Ok(t)
    else
      match Step(t)
      case Err(e) => Err(e)
      case Ok(next) =>
        StepDecreases(t);
        Flattened(next)
  }

  /** One pass does not change where flattening ends. */
  lemma FlattenedStep(t: Table)
    requires Valid(t) && HasNested(t) && Step(t).Ok?
    ensures Valid(Step(t).value) && Flattened(Step(t).value) == Flattened(t)
  {
    StepDecreases(t);
  }

  /** Flattening a flat table changes nothing: `flatten` is idempotent. */
  lemma FlattenedIdempotent(t: Table)
    requires Valid(t) && Flattened(t).Ok?
    ensures Flattened(Flattened(t).value) == Flattened(t)
  {
  }

  /** Flattening never loses a row: a mapping pass keeps the row count and a
      list pass keeps each row at least once. */
  lemma {:induction false} FlattenedRows(t: Table)
    requires Valid(t) && Flattened(t).Ok?
    ensures |Flattened(t).value.rows| >= |t.rows|
    decreases Weight(t)
  {
    if HasNested(t) {
      var c := PassColumn(t);
      StepDecreases(t);
      var next := Step(t).value;
      if ColumnType(t, c) == "dict" {
        assert next == ExpandDict(t, c).value;
        ExpandDictKept(t, c);
      } else {
        assert next == ExpandList(t, c).value;
        ExpandListShape(t, c);
      }
      FlattenedRows(next);
    }
  }

  /** Flattening stops with `NotImplementedError` exactly when a pass meets a
      first non-scalar column that is neither a mapping nor a list column. */
  lemma StepNotImplemented(t: Table)
    requires HasNested(t)
    ensures var c := PassColumn(t);
      Step(t).Err? && Step(t).error.NotImplemented? <==> ColumnType(t, c) !in {"dict", "list"}
    ensures var c := PassColumn(t);
      ColumnType(t, c) !in {"dict", "list"} ==> Step(t) == Err(NotImplemented(ColumnType(t, c), c))
  {
  }

  /** The constructor: flatten, then add the snapshot date. */
  function Construct(data: Table, today: Date): (r: Result<Table, Error>)
    requires Valid(data)
    ensures r.Ok? ==> Valid(r.value) && Flattened(data).Ok?
    ensures r.Ok? ==> r.value == Stamp(Flattened(data).value, today)
    ensures r.Err? ==> Flattened(data).Err? && r.error == Flattened(data).error
  {
    match Flattened(data)
    case Err(e) => Err(e)
    case Ok(flat) =>
      StampSpec(flat, today);
      Ok(Stamp(flat, today))
  }

  /** The constructed table has no nested column besides the date, the date
      column appears once, and every row carries the same `YYYY-MM-DD`
      string. */
  lemma ConstructSpec(data: Table, today: Date)
    requires Valid(data) && Construct(data, today).Ok?
    ensures var r := Construct(data, today).value;
      var flat := Flattened(data).value;
      && Valid(r)
      && |r.rows| == |flat.rows| >= |data.rows|
      && (if "snapshot_date" in flat.cols then r.cols == flat.cols else r.cols == flat.cols + ["snapshot_date"])
      && (forall i :: 0 <= i < |r.rows| ==> r.rows[i]["snapshot_date"] == Str(FormatDate(today)))
      && (forall i, x :: 0 <= i < |r.rows| && x != "snapshot_date" ==> Cell(r.rows[i], x) == Cell(flat.rows[i], x))
  {
    StampSpec(Flattened(data).value, today);
    FlattenedRows(data);
  }
}
