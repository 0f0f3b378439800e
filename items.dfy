/** What `ItemDataFrame` computes: a flattened table of workbooks or data
    sources, each row given the root project of its project, and only the
    rows whose project is known kept. */
module Items {
  import opened Json
  import opened Outcomes
  import opened Tables
  import opened Flatten
  import opened Flattening
  import opened Frame
  import opened Projects

  /** `safe_at`: the root project recorded for `project` in the projects
      table, or null when no project has that id or the column is absent
      (the `KeyError` the method catches). */
  function SafeAt(projects: Table, project: Value): (r: Result<Value, ProjectError>)
    ensures r.Ok? <==> |RowsWith(projects.rows, "id", project, 0)| <= 1
    ensures r.Err? ==> r.error == DuplicateId(project)
    ensures project !in Ids(projects) ==> r == Ok(Null)
    ensures r.Ok? && project in Ids(projects) ==>
              forall i :: 0 <= i < |projects.rows| && Cell(projects.rows[i], "id") == project ==>
                r.value == Cell(projects.rows[i], "rootParentProjectId")
  {
    var found := RowsWith(projects.rows, "id", project, 0);
    if |found| == 0 then
      assert project !in Ids(projects);
      Ok(Null)
    else if |found| > 1 then
      assert found[0] != found[1];
      Err(DuplicateId(project))
    else
      Ok(Cell(projects.rows[found[0]], "rootParentProjectId"))
  }

  /** `self.apply(lambda row: self.safe_at(row["project_id"]), axis=1)`, row
      by row. */
  function RootLookups(t: Table, projects: Table): (r: seq<Result<Value, ProjectError>>)
    ensures |r| == |t.rows|
  {
    seq(|t.rows|, i requires 0 <= i < |t.rows| => SafeAt(projects, Cell(t.rows[i], "project_id")))
  }

  /** The positions of the rows whose column `c` is not null, in order, from
      row `from` on: the mask `notna()` selects. */
  function PresentFrom(rows: seq<Row>, c: string, from: nat): (r: seq<nat>)
    requires from <= |rows|
    ensures forall k :: 0 <= k < |r| ==> from <= r[k] < |rows| && Cell(rows[r[k]], c) != Null
    ensures forall i :: from <= i < |rows| && Cell(rows[i], c) != Null ==> i in r
    ensures forall k, l :: 0 <= k < l < |r| ==> r[k] < r[l]
    decreases |rows| - from
  {
    if from == |rows| then []
    else if Cell(rows[from], c) != Null then [from] + PresentFrom(rows, c, from + 1)
    else PresentFrom(rows, c, from + 1)
  }

  /** `self.loc[self[c].notna(), :]`: the rows with a value in `c`, in their
      order, under the same columns. */
  function KeepPresent(t: Table, c: string): (r: Table)
    ensures r.cols == t.cols
    ensures Valid(t) ==> Valid(r)
    ensures forall k :: 0 <= k < |r.rows| ==> Cell(r.rows[k], c) != Null
  {
    var kept := PresentFrom(t.rows, c, 0);
    Table(t.cols, seq(|kept|, k requires 0 <= k < |kept| => t.rows[kept[k]]))
  }

  /** The rows kept are exactly the rows with a value in `c`: each kept row
      is an original row with a value, rows keep their relative order, and no
      row with a value is dropped. */
  lemma KeepPresentSpec(t: Table, c: string)
    ensures var r := KeepPresent(t, c);
      var kept := PresentFrom(t.rows, c, 0);
      && |r.rows| == |kept|
      && (forall k :: 0 <= k < |kept| ==> kept[k] < |t.rows| && r.rows[k] == t.rows[kept[k]] && Cell(r.rows[k], c) != Null)
      && (forall k, l :: 0 <= k < l < |kept| ==> kept[k] < kept[l])
      && (forall i :: 0 <= i < |t.rows| && Cell(t.rows[i], c) != Null ==> exists k :: 0 <= k < |kept| && kept[k] == i)
  {
    var kept := PresentFrom(t.rows, c, 0);
    forall i | 0 <= i < |t.rows| && Cell(t.rows[i], c) != Null
      ensures exists k :: 0 <= k < |kept| && kept[k] == i
    {
      assert i in kept;
    }
  }

  /** The constructor after flattening: look up each row's root project and
      drop the rows without one. */
  function AttachRoots(flat: Table, projects: Table): (r: Result<Table, ProjectError>)
    requires Valid(flat)
    ensures r.Ok? ==> Valid(r.value)
    ensures r.Ok? ==> forall i :: 0 <= i < |r.value.rows| ==> Cell(r.value.rows[i], "rootParentProjectId") != Null
    ensures r.Err? ==> r.error in {MissingColumn("id"), MissingColumn("project_id")}
                       || exists i :: 0 <= i < |flat.rows| && SafeAt(projects, Cell(flat.rows[i], "project_id")).Err?
                                          && SafeAt(projects, Cell(flat.rows[i], "project_id")).error == r.error
    ensures (r.Err? && r.error == MissingColumn("id")) <==> "id" !in projects.cols
    ensures (r.Err? && r.error == MissingColumn("project_id")) <==> "id" in projects.cols && "project_id" !in flat.cols
    ensures r.Ok? <==> && "id" in projects.cols && "project_id" in flat.cols
                       && forall i :: 0 <= i < |flat.rows| ==> SafeAt(projects, Cell(flat.rows[i], "project_id")).Ok?
  {
    if "id" !in projects.cols then Err(MissingColumn("id"))
    else if "project_id" !in flat.cols then Err(MissingColumn("project_id"))
    else
      match Collect(RootLookups(flat, projects))
      case Err(e) => Err(e)
      case Ok(roots) =>
        Ok(KeepPresent(SetColumn(flat, "rootParentProjectId", roots), "rootParentProjectId"))
  }

  /** `ItemDataFrame(data, project_dataframe)`: flatten and stamp, then attach
      the roots. */
  function ItemTable(data: Table, projects: Table, today: Date): (r: Result<Table, ProjectError>)
    requires Valid(data)
    ensures Construct(data, today).Err? ==> r == Err(FlattenFailed(Construct(data, today).error))
    ensures Construct(data, today).Ok? ==> r == AttachRoots(Construct(data, today).value, projects)
  {
    match Construct(data, today)
    case Err(e) => Err(FlattenFailed(e))
    case Ok(flat) => AttachRoots(flat, projects)
  }

  /** The lookup for row `i` found a project with a root. */
  predicate HasRoot(lookups: seq<Result<Value, ProjectError>>, i: nat)
    requires i < |lookups|
  {
    lookups[i].Ok? && lookups[i].value != Null
  }

  /** Row `i` with the root its lookup found. */
  function WithRoot(rows: seq<Row>, lookups: seq<Result<Value, ProjectError>>, i: nat): Row
    requires i < |rows| == |lookups| && HasRoot(lookups, i)
  {
    rows[i]["rootParentProjectId" := lookups[i].value]
  }

  /** Setting a column and keeping the rows where it has a value keeps only
      rows given a value, each with that value... */
  lemma KeepSetColumnSound(t: Table, name: string, vals: seq<Value>)
    requires |vals| == |t.rows|
    ensures var r := KeepPresent(SetColumn(t, name, vals), name);
      forall k :: 0 <= k < |r.rows| ==>
        exists i :: 0 <= i < |t.rows| && vals[i] != Null && r.rows[k] == t.rows[i][name := vals[i]]
  {
    var t2 := SetColumn(t, name, vals);
    var r := KeepPresent(t2, name);
    var kept := PresentFrom(t2.rows, name, 0);
    assert forall k :: 0 <= k < |kept| ==> kept[k] < |t.rows| && r.rows[k] == t2.rows[kept[k]];
    assert forall i :: 0 <= i < |t.rows| ==> t2.rows[i] == t.rows[i][name := vals[i]];
    assert forall i :: 0 <= i < |t.rows| ==> Cell(t2.rows[i], name) == vals[i];
    forall k | 0 <= k < |r.rows|
      ensures exists i :: 0 <= i < |t.rows| && vals[i] != Null && r.rows[k] == t.rows[i][name := vals[i]]
    {
      var i := kept[k];
      assert vals[i] != Null && r.rows[k] == t.rows[i][name := vals[i]];
    }
  }

  /** ...and keeps every row given a value. */
  lemma KeepSetColumnComplete(t: Table, name: string, vals: seq<Value>)
    requires |vals| == |t.rows|
    ensures var r := KeepPresent(SetColumn(t, name, vals), name);
      forall i :: 0 <= i < |t.rows| && vals[i] != Null ==>
        exists k :: 0 <= k < |r.rows| && r.rows[k] == t.rows[i][name := vals[i]]
  {
    var t2 := SetColumn(t, name, vals);
    var r := KeepPresent(t2, name);
    var kept := PresentFrom(t2.rows, name, 0);
    assert forall k :: 0 <= k < |kept| ==> kept[k] < |t.rows| && r.rows[k] == t2.rows[kept[k]];
    assert forall i :: 0 <= i < |t.rows| ==> t2.rows[i] == t.rows[i][name := vals[i]];
    assert forall i :: 0 <= i < |t.rows| ==> Cell(t2.rows[i], name) == vals[i];
    forall i | 0 <= i < |t.rows| && vals[i] != Null
      ensures exists k :: 0 <= k < |r.rows| && r.rows[k] == t.rows[i][name := vals[i]]
    {
      assert i in kept;
      var k :| 0 <= k < |kept| && kept[k] == i;
      assert r.rows[k] == t.rows[i][name := vals[i]];
    }
  }

  /** Every row of `r` is a row whose lookup found a project with a root,
      with that root added... */
  ghost predicate OnlyRooted(rows: seq<Row>, lookups: seq<Result<Value, ProjectError>>, r: Table)
    requires |rows| == |lookups|
  {
    forall k :: 0 <= k < |r.rows| ==> IsRootedRow(rows, lookups, r.rows[k])
  }

  /** `row` is some row whose lookup found a project with a root, with that
      root added. */
  ghost predicate IsRootedRow(rows: seq<Row>, lookups: seq<Result<Value, ProjectError>>, row: Row)
    requires |rows| == |lookups|
  {
    exists i :: 0 <= i < |rows| && HasRoot(lookups, i) && row == WithRoot(rows, lookups, i)
  }

  /** ...and each such row is a row of `r`. */
  ghost predicate AllRooted(rows: seq<Row>, lookups: seq<Result<Value, ProjectError>>, r: Table)
    requires |rows| == |lookups|
  {
    forall i :: 0 <= i < |rows| && HasRoot(lookups, i) ==>
      exists k :: 0 <= k < |r.rows| && r.rows[k] == WithRoot(rows, lookups, i)
  }

  /** The rows of `r` are exactly the rows whose lookup found a project with
      a root, each with that root added. */
  ghost predicate RootedItems(rows: seq<Row>, lookups: seq<Result<Value, ProjectError>>, r: Table)
    requires |rows| == |lookups|
  {
    OnlyRooted(rows, lookups, r) && AllRooted(rows, lookups, r)
  }

  /** Attaching the looked-up roots keeps only rows with a rooted
      project... */
  lemma KeptRootedSound(rows: seq<Row>, lookups: seq<Result<Value, ProjectError>>, t: Table, roots: seq<Value>)
    requires t.rows == rows && |lookups| == |rows| == |roots|
    requires forall i :: 0 <= i < |lookups| ==> lookups[i].Ok? && lookups[i].value == roots[i]
    ensures OnlyRooted(rows, lookups, KeepPresent(SetColumn(t, "rootParentProjectId", roots), "rootParentProjectId"))
  {
    var name := "rootParentProjectId";
    var r := KeepPresent(SetColumn(t, name, roots), name);
    KeepSetColumnSound(t, name, roots);
    forall k | 0 <= k < |r.rows|
      ensures IsRootedRow(rows, lookups, r.rows[k])
    {
      var i :| 0 <= i < |rows| && roots[i] != Null && r.rows[k] == rows[i][name := roots[i]];
      assert HasRoot(lookups, i) && r.rows[k] == WithRoot(rows, lookups, i);
    }
  }

  /** ...and every one of them. */
  lemma KeptRootedComplete(rows: seq<Row>, lookups: seq<Result<Value, ProjectError>>, t: Table, roots: seq<Value>)
    requires t.rows == rows && |lookups| == |rows| == |roots|
    requires forall i :: 0 <= i < |lookups| ==> lookups[i].Ok? && lookups[i].value == roots[i]
    ensures AllRooted(rows, lookups, KeepPresent(SetColumn(t, "rootParentProjectId", roots), "rootParentProjectId"))
  {
    var name := "rootParentProjectId";
    KeepSetColumnComplete(t, name, roots);
    forall i | 0 <= i < |rows| && HasRoot(lookups, i)
      ensures roots[i] != Null && WithRoot(rows, lookups, i) == rows[i][name := roots[i]]
    {
      assert lookups[i].Ok? && lookups[i].value == roots[i];
    }
  }

  lemma KeptRooted(rows: seq<Row>, lookups: seq<Result<Value, ProjectError>>, t: Table, roots: seq<Value>)
    requires t.rows == rows && |lookups| == |rows| == |roots|
    requires forall i :: 0 <= i < |lookups| ==> lookups[i].Ok? && lookups[i].value == roots[i]
    ensures RootedItems(rows, lookups, KeepPresent(SetColumn(t, "rootParentProjectId", roots), "rootParentProjectId"))
  {
    KeptRootedSound(rows, lookups, t, roots);
    KeptRootedComplete(rows, lookups, t, roots);
  }

  /** The positions of the rows whose lookup found a project with a root, in
      order: the rows `ItemDataFrame` keeps. */
  function RootedPositions(lookups: seq<Result<Value, ProjectError>>): (r: seq<nat>)
    ensures forall k :: 0 <= k < |r| ==> r[k] < |lookups| && HasRoot(lookups, r[k])
    ensures forall i :: 0 <= i < |lookups| && HasRoot(lookups, i) ==> i in r
    ensures forall k, l :: 0 <= k < l < |r| ==> r[k] < r[l]
  {
    SetPositions(seq(|lookups|, i requires 0 <= i < |lookups| => HasRoot(lookups, i)), 0)
  }

  /** The `notna()` mask selects the positions of the flags it sets. */
  lemma {:induction false} PresentPositions(rows: seq<Row>, c: string, flags: seq<bool>, from: nat)
    requires |flags| == |rows| && from <= |rows|
    requires forall i :: 0 <= i < |rows| ==> flags[i] == (Cell(rows[i], c) != Null)
    ensures PresentFrom(rows, c, from) == SetPositions(flags, from)
    decreases |rows| - from
  {
    if from < |rows| {
      PresentPositions(rows, c, flags, from + 1);
    }
  }

  /** Setting the looked-up roots and keeping the rows that have one keeps
      the rooted positions, in order, each row with its root added. */
  lemma KeptInOrder(t: Table, lookups: seq<Result<Value, ProjectError>>, roots: seq<Value>)
    requires |lookups| == |t.rows| == |roots|
    requires forall i :: 0 <= i < |lookups| ==> lookups[i].Ok? && lookups[i].value == roots[i]
    ensures var r := KeepPresent(SetColumn(t, "rootParentProjectId", roots), "rootParentProjectId");
      var kept := RootedPositions(lookups);
      && |r.rows| == |kept|
      && forall k :: 0 <= k < |kept| ==> r.rows[k] == WithRoot(t.rows, lookups, kept[k])
  {
    var name := "rootParentProjectId";
    var t2 := SetColumn(t, name, roots);
    var flags := seq(|lookups|, i requires 0 <= i < |lookups| => HasRoot(lookups, i));
    assert forall i :: 0 <= i < |t2.rows| ==> flags[i] == (Cell(t2.rows[i], name) != Null);
    PresentPositions(t2.rows, name, flags, 0);
    KeepPresentSpec(t2, name);
    var kept := RootedPositions(lookups);
    forall k | 0 <= k < |kept|
      ensures KeepPresent(t2, name).rows[k] == WithRoot(t.rows, lookups, kept[k])
    {
      assert t2.rows[kept[k]] == t.rows[kept[k]][name := roots[kept[k]]];
    }
  }

  /** Attaching the roots keeps exactly the items whose `project_id` names a
      project with a root: once each, in their order, each with its root
      added and its other cells unchanged. */
  lemma AttachRootsSpec(flat: Table, projects: Table)
    requires Valid(flat) && AttachRoots(flat, projects).Ok?
    ensures RootedItems(flat.rows, RootLookups(flat, projects), AttachRoots(flat, projects).value)
    ensures var r := AttachRoots(flat, projects).value;
      var lookups := RootLookups(flat, projects);
      var kept := RootedPositions(lookups);
      && r.cols == flat.cols + (if "rootParentProjectId" in flat.cols then [] else ["rootParentProjectId"])
      && |r.rows| == |kept|
      && forall k :: 0 <= k < |kept| ==> r.rows[k] == WithRoot(flat.rows, lookups, kept[k])
  {
    var lookups := RootLookups(flat, projects);
    var roots := Collect(lookups).value;
    KeptRooted(flat.rows, lookups, flat, roots);
    KeptInOrder(flat, lookups, roots);
  }

  /** The constructor keeps exactly the items whose `project_id` names a
      project with a root: once each, in their order, each with its root
      added. */
  lemma ItemTableSpec(data: Table, projects: Table, today: Date)
    requires Valid(data) && ItemTable(data, projects, today).Ok?
    ensures var flat := Construct(data, today).value;
      RootedItems(flat.rows, RootLookups(flat, projects), ItemTable(data, projects, today).value)
    ensures var flat := Construct(data, today).value;
      var r := ItemTable(data, projects, today).value;
      var lookups := RootLookups(flat, projects);
      var kept := RootedPositions(lookups);
      && |r.rows| == |kept|
      && forall k :: 0 <= k < |kept| ==> r.rows[k] == WithRoot(flat.rows, lookups, kept[k])
  {
    AttachRootsSpec(Construct(data, today).value, projects);
  }

  /** `ItemDataFrame`: the flattened items, the projects table it looks roots
      up in, and the constructor's row-by-row lookup. */
  class ItemDataFrame {
    var cols: seq<string>
    var rows: seq<Row>
    /** `self._project_dataframe`. */
    var projects: Table

    function Contents(): Table
      reads this
    {
      Table(cols, rows)
    }

    constructor Load(t: Table, projectTable: Table)
      ensures Contents() == t && projects == projectTable
    {
      cols, rows := t.cols, t.rows;
      projects := projectTable;
    }

    static method New(data: Table, projectTable: Table, today: Date) returns (r: Result<ItemDataFrame, ProjectError>)
      requires Tables.Valid(data)
      ensures r.Ok? ==> fresh(r.value) && ItemTable(data, projectTable, today).Ok?
                        && ItemTable(data, projectTable, today).value == r.value.Contents()
      ensures r.Err? ==> ItemTable(data, projectTable, today).Err? && ItemTable(data, projectTable, today).error == r.error
    {
      var flat := FlattenedDataFrame.New(data, today);
      if flat.Err? {
        return Err(FlattenFailed(flat.error));
      }
      if "id" !in projectTable.cols {
        return Err(MissingColumn("id"));
      }
      var frame := new ItemDataFrame.Load(flat.value.Contents(), projectTable);
      if "project_id" !in frame.cols {
        return Err(MissingColumn("project_id"));
      }
      var err := frame.AddRoots();
      if err.Some? {
        return Err(err.value);
      }
      var kept := KeepPresent(frame.Contents(), "rootParentProjectId");
      frame.cols, frame.rows := kept.cols, kept.rows;
      return Ok(frame);
    }

    /** `self["rootParentProjectId"] = self.apply(...)`: looks up every row's
        project in turn and stops at the first lookup that fails. */
    method AddRoots() returns (err: Option<ProjectError>)
      modifies this
      ensures projects == old(projects)
      ensures Collect(RootLookups(old(Contents()), projects)).Err? ==>
                err == Some(Collect(RootLookups(old(Contents()), projects)).error) && Contents() == old(Contents())
      ensures Collect(RootLookups(old(Contents()), projects)).Ok? ==>
                err == None
                && Contents() == SetColumn(old(Contents()), "rootParentProjectId",
                                           Collect(RootLookups(old(Contents()), projects)).value)
    {
      ghost var lookups := RootLookups(Contents(), projects);
      var roots: seq<Value> := [];
      for i := 0 to |rows|
        invariant |roots| == i
        invariant forall k :: 0 <= k < i ==> lookups[k].Ok? && lookups[k].value == roots[k]
      {
        var root := SafeAt(projects, Cell(rows[i], "project_id"));
        if root.Err? {
          assert lookups[i] == root;
          return Some(root.error);
        }
        roots := roots + [root.value];
      }
      var stamped := SetColumn(Contents(), "rootParentProjectId", roots);
      cols, rows := stamped.cols, stamped.rows;
      return None;
    }
  }
}
