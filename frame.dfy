/** `FlattenedDataFrame`: a data frame that flattens itself when it is built.
    Its columns and rows are fields that `flatten` re-initialises pass after
    pass, as `re_inititialize_super_class` does. Each method is proved
    against the functions of `Tables`, `Flatten` and `Flattening`. */
module Frame {
  import opened Json
  import opened Outcomes
  import opened Tables
  import opened Flatten
  import opened Measure
  import opened Flattening

  class FlattenedDataFrame {
    var cols: seq<string>
    var rows: seq<Row>
    /** `self.columns` as the data arrived, before any flattening. */
    var originalColumns: seq<string>

    function Contents(): Table
      reads this
    {
      Table(cols, rows)
    }

    /** `pd.DataFrame.__init__` on the data, remembering its columns. */
    constructor Load(data: Table)
      ensures Contents() == data && originalColumns == data.cols
    {
      cols, rows := data.cols, data.rows;
      originalColumns := data.cols;
    }

    /** `FlattenedDataFrame(data)`: load, flatten, then stamp the date. */
    static method New(data: Table, today: Date) returns (r: Result<FlattenedDataFrame, Error>)
      requires Tables.Valid(data)
      ensures r.Ok? ==> fresh(r.value) && Construct(data, today).Ok? && Construct(data, today).value == r.value.Contents()
      ensures r.Ok? ==> r.value.originalColumns == data.cols
      ensures r.Err? ==> Construct(data, today).Err? && Construct(data, today).error == r.error
    {
      var frame := new FlattenedDataFrame.Load(data);
      var err := frame.Flatten();
      if err.Some? {
        return Err(err.value);
      }
      frame.Snapshot(today);
      return Ok(frame);
    }

    /** `self.loc[:, c].first_valid_index()`. */
    method FirstValidIndex(c: string) returns (r: Option<nat>)
      ensures r == FirstValid(rows, c)
      ensures r.Some? ==> r.value < |rows| && Cell(rows[r.value], c) != Null
    {
      var i := 0;
      while i < |rows| && Cell(rows[i], c) == Null
        invariant 0 <= i <= |rows|
        invariant FirstValidFrom(rows, c, i) == FirstValid(rows, c)
      {
        i := i + 1;
      }
      r := if i < |rows| then Some(i) else None;
    }

    /** `get_dtypes`: every column with the type name of its first non-null
        value, `NoneType` for a column that is null everywhere. */
    method GetDtypes() returns (types: seq<(string, string)>)
      ensures |types| == |cols|
      ensures forall i :: 0 <= i < |cols| ==> types[i] == (cols[i], ColumnType(Contents(), cols[i]))
    {
      types := [];
      for k := 0 to |cols|
        invariant |types| == k
        invariant forall i :: 0 <= i < k ==> types[i] == (cols[i], ColumnType(Contents(), cols[i]))
      {
        var c := cols[k];
        var index := FirstValidIndex(c);
        if index.Some? {
          types := types + [(c, TypeName(Cell(rows[index.value], c)))];
        } else {
          types := types + [(c, "NoneType")];
        }
      }
    }

    /** `check_dtypes`: some column is classified `list` or `dict`. */
    method CheckDtypes() returns (nested: bool)
      ensures nested <==> HasNested(Contents())
    {
      var types := GetDtypes();
      nested := false;
      for k := 0 to |types|
        invariant nested <==> exists i :: 0 <= i < k && types[i].1 in {"dict", "list"}
      {
        if types[k].1 == "list" || types[k].1 == "dict" {
          nested := true;
        }
      }
    }

    /** `_flatten_dict`: rewrites the null cells of column `c` in place, then
        builds the replacement columns. */
    method FlattenDict(c: string) returns (r: Result<Table, Error>)
      requires ColumnType(Contents(), c) == "dict"
      modifies this
      ensures old(FillNulls(Contents(), c)).Err? ==> r == old(FillNulls(Contents(), c))
      ensures old(FillNulls(Contents(), c)).Ok? ==>
                Contents() == old(FillNulls(Contents(), c)).value && r == DictReplacement(Contents(), c)
      ensures originalColumns == old(originalColumns)
    {
      ghost var t0 := Contents();
      var anyNull := false;
      for k := 0 to |rows|
        invariant Contents() == t0 && originalColumns == old(originalColumns)
        invariant anyNull <==> exists i :: 0 <= i < k && Cell(rows[i], c) == Null
      {
        if Cell(rows[k], c) == Null {
          anyNull := true;
        }
      }
      if anyNull {
        var index := FirstValidIndex(c);
        var first := Cell(rows[index.value], c);
        assert index == FirstValid(t0.rows, c);
        assert !(forall i :: 0 <= i < |t0.rows| ==> Cell(t0.rows[i], c) != Null);
        if !first.Obj? {
          return Err(NotAMapping(c));
        }
        if |first.fields| == 0 {
          return Err(NoKeyForNulls(c));
        }
        var key := first.fields[0].0;
        ghost var before := rows;
        for k := 0 to |rows|
          invariant cols == t0.cols && originalColumns == old(originalColumns)
          invariant |rows| == |before|
          invariant rows[..k] == FillRows(before, c, key)[..k]
          invariant rows[k..] == before[k..]
        {
          ghost var prev := rows;
          if Cell(rows[k], c) == Null {
            rows := rows[k := rows[k][c := Obj([(key, Null)])]];
          }
          assert rows[..k + 1] == rows[..k] + [rows[k]];
          assert before[k] == before[k..][0];
          assert rows[k + 1..] == prev[k + 1..] == prev[k..][1..] == before[k..][1..] == before[k + 1..];
        }
        assert rows == FillRows(before, c, key);
        assert before == t0.rows;
        assert FillNulls(t0, c) == Ok(Table(t0.cols, FillRows(t0.rows, c, key)));
      } else {
        assert FillNulls(t0, c) == Ok(t0);
      }
      r := DictReplacement(Contents(), c);
    }

    /** `_flatten_list`: for every row whose cell in column `c` is a list,
        its index with the list's elements; `pd.concat` of nothing fails. */
    method FlattenList(c: string) returns (r: Result<seq<(nat, seq<Value>)>, Error>)
      ensures ListParts(rows, c) == [] ==> r == Err(NothingToConcatenate(c))
      ensures ListParts(rows, c) != [] ==> r == Ok(ListParts(rows, c))
    {
      var parts := [];
      for k := 0 to |rows|
        invariant parts == ListParts(rows[..k], c)
      {
        assert rows[..k + 1][..k] == rows[..k];
        if Cell(rows[k], c).Arr? {
          parts := parts + [(k, Cell(rows[k], c).items)];
        }
      }
      assert rows[..|rows|] == rows;
      if |parts| == 0 {
        return Err(NothingToConcatenate(c));
      }
      return Ok(parts);
    }

    /** A mapping pass: `_flatten_dict`, then the replacement concatenated
        in place of column `c`. */
    method ExpandDictPass(c: string) returns (err: Option<Error>)
      requires ColumnType(Contents(), c) == "dict"
      modifies this
      ensures old(ExpandDict(Contents(), c)).Ok? ==> err == None && Contents() == old(ExpandDict(Contents(), c)).value
      ensures old(ExpandDict(Contents(), c)).Err? ==> err == Some(old(ExpandDict(Contents(), c)).error)
      ensures originalColumns == old(originalColumns)
    {
      var repl := FlattenDict(c);
      if repl.Err? {
        return Some(repl.error);
      }
      var joined := ConcatColumns(Contents(), c, repl.value);
      if joined.Err? {
        return Some(joined.error);
      }
      cols, rows := joined.value.cols, joined.value.rows;
      return None;
    }

    /** A list pass: `_flatten_list`, then the left join in place of column
        `c`. */
    method ExpandListPass(c: string) returns (err: Option<Error>)
      modifies this
      ensures old(ExpandList(Contents(), c)).Ok? ==> err == None && Contents() == old(ExpandList(Contents(), c)).value
      ensures old(ExpandList(Contents(), c)).Err? ==> err == Some(old(ExpandList(Contents(), c)).error)
      ensures originalColumns == old(originalColumns)
    {
      var parts := FlattenList(c);
      if parts.Err? {
        return Some(parts.error);
      }
      var joined := JoinList(Contents(), c, parts.value);
      if joined.Err? {
        return Some(joined.error);
      }
      cols, rows := joined.value.cols, joined.value.rows;
      return None;
    }

    /** One round of the `for` loop of `flatten`, up to its `break`: expand
        the first column that is not a scalar one, or raise
        `NotImplementedError` when it is neither a mapping nor a list column. */
    method Pass() returns (err: Option<Error>)
      requires HasNested(Contents())
      modifies this
      ensures old(Step(Contents())).Ok? ==> err == None && Contents() == old(Step(Contents())).value
      ensures old(Step(Contents())).Err? ==> err == Some(old(Step(Contents())).error)
      ensures originalColumns == old(originalColumns)
    {
      ghost var t := Contents();
      var types := GetDtypes();
      var i := 0;
      while i < |types| && types[i].1 in ScalarTypes
        invariant 0 <= i <= |types|
        invariant forall j :: 0 <= j < i ==> types[j].1 in ScalarTypes
      {
        i := i + 1;
      }
      assert i < |types|;
      FirstUnflattenedAt(t, 0, i);
      var c, ty := types[i].0, types[i].1;
      assert c == PassColumn(t) && ty == ColumnType(t, c);
      if ty == "dict" {
        err := ExpandDictPass(c);
      } else if ty == "list" {
        err := ExpandListPass(c);
      } else {
        err := Some(NotImplemented(ty, c));
      }
    }

    /** `flatten`: while some column is classified `dict` or `list`, run one
        pass; stop with the pass's error. */
    method Flatten() returns (err: Option<Error>)
      requires Tables.Valid(Contents())
      modifies this
      ensures old(Flattened(Contents())).Ok? ==> err == None && Contents() == old(Flattened(Contents())).value
      ensures old(Flattened(Contents())).Err? ==> err == Some(old(Flattened(Contents())).error)
      ensures originalColumns == old(originalColumns)
    {
      ghost var goal := Flattened(Contents());
      var nested := CheckDtypes();
      while nested
        invariant Tables.Valid(Contents())
        invariant nested <==> HasNested(Contents())
        invariant Flattened(Contents()) == goal
        invariant originalColumns == old(originalColumns)
        decreases Weight(Contents())
      {
        ghost var t := Contents();
        var passErr := Pass();
        if passErr.Some? {
          return passErr;
        }
        FlattenedStep(t);
        StepDecreases(t);
        nested := CheckDtypes();
      }
      return None;
    }

    /** `self["snapshot_date"] = today` in the `YYYY-MM-DD` format. */
    method Snapshot(today: Date)
      modifies this
      ensures Contents() == Stamp(old(Contents()), today)
      ensures originalColumns == old(originalColumns)
    {
      var stamped := Stamp(Contents(), today);
      cols, rows := stamped.cols, stamped.rows;
    }
  }
}
