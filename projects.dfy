/** What `ProjectDataFrame` computes from the flattened projects table: the
    root project of every project, found by following `parentProjectId`, the
    content permissions of that root, joined on, and the kept columns. */
module Projects {
  import opened Json
  import opened Outcomes
  import opened Tables
  import opened Flatten
  import opened Flattening
  import opened Helpers
  import opened Frame

  /** `ProjectDataFrame.COLUMNS_TO_KEEP`. */
  const ColumnsToKeep: seq<string> :=
    ["snapshot_date", "id", "name", "parentProjectId", "rootParentProjectId", "rootParentContentPermissions"]

  datatype ProjectError =
    /** The `FlattenedDataFrame` constructor failed. */
    | FlattenFailed(cause: Error)
    /** `KeyError`: a column the code reads is not in the table. */
    | MissingColumn(name: string)
    /** `KeyError` from `self.at`: no project has this id. */
    | UnknownProject(id: Value)
    /** `self.at` on an id that labels several rows does not give one value. */
    | DuplicateId(id: Value)
    /** `RecursionError`: following parents from this project comes back to
        it. */
    | Cycle(id: Value)
    /** The merge would have to rename a column that is already there. */
    | ColumnClash(name: string)

  // ------------------------------------------------------------ lookup by id

  /** The positions of the rows whose column `c` holds `x`, in order, from row
      `from` on. */
  function RowsWith(rows: seq<Row>, c: string, x: Value, from: nat): (r: seq<nat>)
    requires from <= |rows|
    ensures forall k :: 0 <= k < |r| ==> from <= r[k] < |rows| && Cell(rows[r[k]], c) == x
    ensures forall i :: from <= i < |rows| && Cell(rows[i], c) == x ==> i in r
    ensures forall k, l :: 0 <= k < l < |r| ==> r[k] < r[l]
    decreases |rows| - from
  {
    if from == |rows| then []
    else if Cell(rows[from], c) == x then [from] + RowsWith(rows, c, x, from + 1)
    else RowsWith(rows, c, x, from + 1)
  }

  /** The ids of the table's projects. */
  function Ids(t: Table): set<Value> {
    set i | 0 <= i < |t.rows| :: Cell(t.rows[i], "id")
  }

  /** `self.at[project_id, 'parentProjectId']` with the index set to `id`. */
  function ParentOf(t: Table, x: Value): (r: Result<Value, ProjectError>)
    ensures r.Ok? ==> x in Ids(t)
    ensures r.Ok? <==> |RowsWith(t.rows, "id", x, 0)| == 1
    ensures r.Ok? ==> forall i :: 0 <= i < |t.rows| && Cell(t.rows[i], "id") == x ==>
                        r.value == Cell(t.rows[i], "parentProjectId")
    ensures r == Err(UnknownProject(x)) <==> x !in Ids(t)
    ensures r.Err? ==> r.error in {UnknownProject(x), DuplicateId(x)}
  {
    var found := RowsWith(t.rows, "id", x, 0);
    if |found| == 0 then
      Err(UnknownProject(x))
    else if |found| > 1 then
      assert found[0] != found[1];
      Err(DuplicateId(x))
    else
      Ok(Cell(t.rows[found[0]], "parentProjectId"))
  }

  /** `isinstance(parent_id, float)`: a missing parent reads as NaN, which is
      a float. */
  predicate IsRoot(parent: Value) {
    parent.Null? || parent.Float?
  }

  // ------------------------------------------------------------ root walk

  /** `find_root_project`, remembering the projects already passed so that a
      cycle stops the walk instead of exhausting the stack. */
  function Walk(t: Table, x: Value, visited: set<Value>): (r: Result<Value, ProjectError>)
    requires visited <= Ids(t)
    ensures r.Ok? ==> r.value in Ids(t) && ParentOf(t, r.value).Ok? && IsRoot(ParentOf(t, r.value).value)
    decreases |Ids(t) - visited|
  {
    match ParentOf(t, x)
    case Err(e) => Err(e)
    case Ok(p) =>
      if IsRoot(p) then Ok(x)
      else if x in visited then Err(Cycle(x))
      else
        assert Ids(t) - (visited + {x}) < Ids(t) - visited;
        Walk(t, p, visited + {x})
  }

  /** The root project of `x`. */
  function FindRoot(t: Table, x: Value): Result<Value, ProjectError> {
    Walk(t, x, {})
  }

  /** Where the walk succeeds, what was already visited does not matter. */
  lemma {:induction false} WalkVisited(t: Table, x: Value, visited: set<Value>, fewer: set<Value>)
    requires fewer <= visited <= Ids(t) && Walk(t, x, visited).Ok?
    ensures Walk(t, x, fewer) == Walk(t, x, visited)
    decreases |Ids(t) - visited|
  {
    var p := ParentOf(t, x).value;
    if !IsRoot(p) {
      assert Ids(t) - (visited + {x}) < Ids(t) - visited;
      WalkVisited(t, p, visited + {x}, fewer + {x});
    }
  }

  /** The recursion of `find_root_project`: a project whose parent is a
      float is its own root, and otherwise its root is its parent's. */
  lemma RootRecursion(t: Table, x: Value)
    requires ParentOf(t, x).Ok?
    ensures IsRoot(ParentOf(t, x).value) ==> FindRoot(t, x) == Ok(x)
    ensures !IsRoot(ParentOf(t, x).value) && FindRoot(t, x).Ok? ==>
              FindRoot(t, x) == FindRoot(t, ParentOf(t, x).value)
  {
    var p := ParentOf(t, x).value;
    if !IsRoot(p) && FindRoot(t, x).Ok? {
      assert FindRoot(t, x) == Walk(t, p, {} + {x});
      assert {} + {x} == {x};
      WalkVisited(t, p, {x}, {});
    }
  }

  /** The root of a root is itself. */
  lemma RootIdempotent(t: Table, x: Value)
    requires FindRoot(t, x).Ok?
    ensures FindRoot(t, FindRoot(t, x).value) == FindRoot(t, x)
  {
    RootRecursion(t, FindRoot(t, x).value);
  }

  /** A project that is its own parent never reaches a root. */
  lemma SelfParentCycle(t: Table, x: Value)
    requires ParentOf(t, x) == Ok(x) && !IsRoot(x)
    ensures FindRoot(t, x) == Err(Cycle(x))
  {
    assert Walk(t, x, {}) == Walk(t, x, {x});
  }

  /** Ids are unique and every parent that is not a root is a project of
      lower rank: the hierarchy is a forest. */
  ghost predicate Ranked(t: Table, rank: map<Value, nat>) {
    && Ids(t) <= rank.Keys
    && forall i :: 0 <= i < |t.rows| ==>
         && |RowsWith(t.rows, "id", Cell(t.rows[i], "id"), 0)| == 1
         && var p := Cell(t.rows[i], "parentProjectId");
            !IsRoot(p) ==> p in Ids(t) && rank[p] < rank[Cell(t.rows[i], "id")]
  }

  /** In a forest every project has a root. */
  lemma {:induction false} WalkRanked(t: Table, rank: map<Value, nat>, x: Value, visited: set<Value>)
    requires Ranked(t, rank) && x in Ids(t) && visited <= Ids(t)
    requires forall v :: v in visited ==> rank[v] > rank[x]
    ensures Walk(t, x, visited).Ok?
    decreases rank[x]
  {
    var i :| 0 <= i < |t.rows| && Cell(t.rows[i], "id") == x;
    var p := ParentOf(t, x).value;
    if !IsRoot(p) {
      assert p == Cell(t.rows[i], "parentProjectId");
      WalkRanked(t, rank, p, visited + {x});
    }
  }

  lemma FindRootRanked(t: Table, rank: map<Value, nat>, x: Value)
    requires Ranked(t, rank) && x in Ids(t)
    ensures FindRoot(t, x).Ok?
  {
    WalkRanked(t, rank, x, {});
  }

  /** All the values, or the first failure in order: what an `apply` whose
      function raises on some row gives. */
  function Collect<T, E>(rs: seq<Result<T, E>>): (r: Result<seq<T>, E>)
    ensures r.Ok? <==> forall i :: 0 <= i < |rs| ==> rs[i].Ok?
    ensures r.Ok? ==> |r.value| == |rs| && forall i :: 0 <= i < |rs| ==> rs[i].value == r.value[i]
    ensures r.Err? ==> exists i :: (0 <= i < |rs| && rs[i].Err? && rs[i].error == r.error && forall j :: 0 <= j < i ==> rs[j].Ok?)
  {
    if |rs| == 0 then Ok([])
    else if rs[0].Err? then Err(rs[0].error)
    else
      var rest := Collect(rs[1..]);
      assert forall i :: 1 <= i < |rs| ==> rs[1..][i - 1] == rs[i];
      if rest.Ok? then Ok([rs[0].value] + rest.value)
      else
        assert exists i :: (1 <= i < |rs| && rs[i].Err? && rs[i].error == rest.error && forall j :: 0 <= j < i ==> rs[j].Ok?) by {
          var i :| 0 <= i < |rs[1..]| && rs[1..][i].Err? && rs[1..][i].error == rest.error && forall j :: 0 <= j < i ==> rs[1..][j].Ok?;
          assert rs[i + 1] == rs[1..][i];
        }
        Err(rest.error)
  }

  /** `Collect` fails with the first failure: the one at `i` when every
      entry before it succeeded. */
  lemma {:induction false} CollectFirstErr<T, E>(rs: seq<Result<T, E>>, i: nat)
    requires i < |rs| && rs[i].Err?
    requires forall k :: 0 <= k < i ==> rs[k].Ok?
    ensures Collect(rs) == Err(rs[i].error)
  {
    if i > 0 {
      assert forall k :: 0 <= k < i - 1 ==> rs[1..][k] == rs[k + 1];
      CollectFirstErr(rs[1..], i - 1);
    }
  }

  /** `Collect` of entries that all succeeded holds their values in order. */
  lemma {:induction false} CollectAllOk<T, E>(rs: seq<Result<T, E>>, vs: seq<T>)
    requires |rs| == |vs|
    requires forall k :: 0 <= k < |rs| ==> rs[k] == Ok(vs[k])
    ensures Collect(rs) == Ok(vs)
  {
    if |rs| > 0 {
      assert forall k :: 0 <= k < |rs| - 1 ==> rs[1..][k] == rs[k + 1];
      CollectAllOk(rs[1..], vs[1..]);
      assert vs == [vs[0]] + vs[1..];
    }
  }

  /** `self.apply(lambda row: self.find_root_project(row['id']), axis=1)`,
      row by row. */
  function RootWalks(t: Table): (r: seq<Result<Value, ProjectError>>)
    ensures |r| == |t.rows|
  {
    seq(|t.rows|, i requires 0 <= i < |t.rows| => FindRoot(t, Cell(t.rows[i], "id")))
  }

  // ------------------------------------------------------------ permissions

  /** `root_projects`: for each row whose parent is missing (`isna`), its
      root id and its content permissions, in row order. */
  function RootEntries(rows: seq<Row>): (r: seq<(Value, Value)>)
    ensures |r| <= |rows|
  {
    if |rows| == 0 then []
    else if Cell(rows[0], "parentProjectId") == Null
    then [(Cell(rows[0], "rootParentProjectId"), Cell(rows[0], "contentPermissions"))] + RootEntries(rows[1..])
    else RootEntries(rows[1..])
  }

  /** `e` is the root id and the permissions of a row with a missing
      parent. */
  ghost predicate FromRootRow(rows: seq<Row>, e: (Value, Value)) {
    exists i :: 0 <= i < |rows| && Cell(rows[i], "parentProjectId") == Null
                && e == (Cell(rows[i], "rootParentProjectId"), Cell(rows[i], "contentPermissions"))
  }

  /** The root entries are exactly the rows with a missing parent. */
  lemma {:induction false} RootEntriesSpec(rows: seq<Row>)
    ensures forall k :: 0 <= k < |RootEntries(rows)| ==> FromRootRow(rows, RootEntries(rows)[k])
    ensures forall i :: 0 <= i < |rows| && Cell(rows[i], "parentProjectId") == Null ==>
              (Cell(rows[i], "rootParentProjectId"), Cell(rows[i], "contentPermissions")) in RootEntries(rows)
  {
    if |rows| > 0 {
      var r, rest := RootEntries(rows), RootEntries(rows[1..]);
      var e0 := (Cell(rows[0], "rootParentProjectId"), Cell(rows[0], "contentPermissions"));
      var root0 := Cell(rows[0], "parentProjectId") == Null;
      var d := if root0 then 1 else 0;
      assert r == (if root0 then [e0] else []) + rest;
      RootEntriesSpec(rows[1..]);
      forall k | 0 <= k < |r| ensures FromRootRow(rows, r[k]) {
        if k < d {
          assert r[k] == e0;
        } else {
          assert r[k] == rest[k - d];
          var i :| 0 <= i < |rows[1..]| && Cell(rows[1..][i], "parentProjectId") == Null
                   && rest[k - d] == (Cell(rows[1..][i], "rootParentProjectId"), Cell(rows[1..][i], "contentPermissions"));
          assert rows[1..][i] == rows[i + 1];
        }
      }
      forall i | 0 <= i < |rows| && Cell(rows[i], "parentProjectId") == Null
        ensures (Cell(rows[i], "rootParentProjectId"), Cell(rows[i], "contentPermissions")) in r
      {
        if i > 0 {
          assert rows[i] == rows[1..][i - 1];
        }
      }
    }
  }

  /** The rows an inner merge makes of one left row: one per root entry with
      the same key, in the entries' order. */
  function MergeRow(row: Row, entries: seq<(Value, Value)>): (r: seq<Row>)
    ensures |r| <= |entries|
    ensures forall k :: 0 <= k < |r| ==>
              exists j :: (0 <= j < |entries| && entries[j].0 == Cell(row, "rootParentProjectId")
                           && r[k] == row["rootParentContentPermissions" := entries[j].1])
  {
    if |entries| == 0 then []
    else
      var rest := MergeRow(row, entries[1..]);
      assert forall j :: 1 <= j < |entries| ==> entries[1..][j - 1] == entries[j];
      if entries[0].0 == Cell(row, "rootParentProjectId")
      then [row["rootParentContentPermissions" := entries[0].1]] + rest
      else rest
  }

  /** `self.merge(root_projects, how="inner", on="rootParentProjectId")`:
      left rows in order, each repeated once per matching root entry. */
  function MergeRows(rows: seq<Row>, entries: seq<(Value, Value)>): seq<Row> {
    if |rows| == 0 then [] else MergeRow(rows[0], entries) + MergeRows(rows[1..], entries)
  }

  /** With one entry per root id, a row meets at most its root's entry: it is
      kept once with that root's permissions, or dropped when its root has no
      entry. */
  lemma {:induction false} MergeRowUnique(row: Row, entries: seq<(Value, Value)>)
    requires Distinct(KeyList(entries))
    ensures var key := Cell(row, "rootParentProjectId");
      MergeRow(row, entries)
        == match Lookup(entries, key)
           case None => []
           case Some(perm) => [row["rootParentContentPermissions" := perm]]
  {
    if |entries| > 0 {
      var ks := KeyList(entries);
      assert KeyList(entries[1..]) == ks[1..];
      assert forall j :: 1 <= j < |entries| ==> entries[1..][j - 1] == entries[j];
      MergeRowUnique(row, entries[1..]);
      if entries[0].0 == Cell(row, "rootParentProjectId") {
        assert forall j :: 1 <= j < |entries| ==> ks[j] != ks[0];
        assert Lookup(entries[1..], entries[0].0).None?;
      }
    }
  }

  /** Every left row whose root has exactly one entry appears exactly once,
      in its place, with the permissions of its root. */
  lemma {:induction false} MergeRowsAll(rows: seq<Row>, entries: seq<(Value, Value)>)
    requires Distinct(KeyList(entries))
    requires forall i :: 0 <= i < |rows| ==> Lookup(entries, Cell(rows[i], "rootParentProjectId")).Some?
    ensures |MergeRows(rows, entries)| == |rows|
    ensures forall i :: 0 <= i < |rows| ==>
              MergeRows(rows, entries)[i]
                == rows[i]["rootParentContentPermissions" := Lookup(entries, Cell(rows[i], "rootParentProjectId")).value]
  {
    if |rows| > 0 {
      MergeRowUnique(rows[0], entries);
      assert forall i :: 1 <= i < |rows| ==> rows[1..][i - 1] == rows[i];
      MergeRowsAll(rows[1..], entries);
    }
  }

  /** `find_root_content_permissions`: the inner merge of the projects with
      the root rows' permissions, under the new column
      `rootParentContentPermissions`. */
  function RootPermissions(t: Table): (r: Result<Table, ProjectError>)
    ensures r.Err? <==> "contentPermissions" !in t.cols || "rootParentContentPermissions" in t.cols
    ensures r.Err? && "contentPermissions" !in t.cols ==> r.error == MissingColumn("contentPermissions")
    ensures r.Err? && "contentPermissions" in t.cols ==> r.error == ColumnClash("rootParentContentPermissions")
    ensures r.Ok? ==> r.value.cols == t.cols + ["rootParentContentPermissions"]
  {
    if "contentPermissions" !in t.cols then Err(MissingColumn("contentPermissions"))
    else if "rootParentContentPermissions" in t.cols then Err(ColumnClash("rootParentContentPermissions"))
    else Ok(Table(t.cols + ["rootParentContentPermissions"], MergeRows(t.rows, RootEntries(t.rows))))
  }

  /** `m` is row `i` of `rows` given the permissions of a root entry whose
      key is that row's root. */
  ghost predicate MergedFrom(rows: seq<Row>, entries: seq<(Value, Value)>, m: Row) {
    exists i, j :: && 0 <= i < |rows| && 0 <= j < |entries|
                   && entries[j].0 == Cell(rows[i], "rootParentProjectId")
                   && m == rows[i]["rootParentContentPermissions" := entries[j].1]
  }

  /** Every row of the inner merge comes from a left row and a root entry
      with the same key. */
  lemma {:induction false} MergeRowsSound(rows: seq<Row>, entries: seq<(Value, Value)>)
    ensures forall k :: 0 <= k < |MergeRows(rows, entries)| ==> MergedFrom(rows, entries, MergeRows(rows, entries)[k])
  {
    if |rows| > 0 {
      var head, rest := MergeRow(rows[0], entries), MergeRows(rows[1..], entries);
      var both: seq<Row> := head + rest;
      MergeRowsSound(rows[1..], entries);
      forall k | 0 <= k < |both|
        ensures MergedFrom(rows, entries, both[k])
      {
        if k < |head| {
          assert head[k] == MergeRow(rows[0], entries)[k];
          var j :| (0 <= j < |entries| && entries[j].0 == Cell(rows[0], "rootParentProjectId")
                    && head[k] == rows[0]["rootParentContentPermissions" := entries[j].1]);
          assert both[k] == head[k];
        } else {
          assert both[k] == rest[k - |head|];
          assert MergedFrom(rows[1..], entries, rest[k - |head|]);
          var i, j :| && 0 <= i < |rows[1..]| && 0 <= j < |entries|
                      && entries[j].0 == Cell(rows[1..][i], "rootParentProjectId")
                      && rest[k - |head|] == rows[1..][i]["rootParentContentPermissions" := entries[j].1];
          assert rows[1..][i] == rows[i + 1];
        }
      }
    }
  }

  /** `m` is row `i` of `rows` with the `contentPermissions` of a row `j`
      that has no parent and the same root. */
  ghost predicate PermittedFrom(rows: seq<Row>, m: Row) {
    exists i, j :: && 0 <= i < |rows| && 0 <= j < |rows|
                   && Cell(rows[j], "parentProjectId") == Null
                   && Cell(rows[j], "rootParentProjectId") == Cell(rows[i], "rootParentProjectId")
                   && m == rows[i]["rootParentContentPermissions" := Cell(rows[j], "contentPermissions")]
  }

  /** Every row `find_root_content_permissions` returns is a project with the
      permissions of a parentless project that has the same root. */
  lemma RootPermissionsSound(t: Table)
    requires RootPermissions(t).Ok?
    ensures forall k :: 0 <= k < |RootPermissions(t).value.rows| ==> PermittedFrom(t.rows, RootPermissions(t).value.rows[k])
  {
    var entries := RootEntries(t.rows);
    var merged := MergeRows(t.rows, entries);
    MergeRowsSound(t.rows, entries);
    RootEntriesSpec(t.rows);
    forall k | 0 <= k < |merged|
      ensures PermittedFrom(t.rows, merged[k])
    {
      assert MergedFrom(t.rows, entries, merged[k]);
      var i, j :| && 0 <= i < |t.rows| && 0 <= j < |entries|
                  && entries[j].0 == Cell(t.rows[i], "rootParentProjectId")
                  && merged[k] == t.rows[i]["rootParentContentPermissions" := entries[j].1];
      assert FromRootRow(t.rows, entries[j]);
    }
  }

  // ------------------------------------------------------------ projection

  /** The first label of `keep` that is not a column, if any. */
  function FirstMissing(cols: seq<string>, keep: seq<string>): (r: Option<string>)
    ensures r.None? <==> forall x :: x in keep ==> x in cols
    ensures r.Some? ==> r.value in keep && r.value !in cols
  {
    if |keep| == 0 then None
    else if keep[0] !in cols then Some(keep[0])
    else FirstMissing(cols, keep[1..])
  }

  /** `self[keep]`: only the listed columns, in the listed order. */
  function Project(t: Table, keep: seq<string>): (r: Result<Table, ProjectError>)
    ensures r.Err? <==> exists x :: x in keep && x !in t.cols
    ensures r.Err? ==> exists x :: x in keep && x !in t.cols && r.error == MissingColumn(x)
    ensures r.Ok? ==> r.value.cols == keep && |r.value.rows| == |t.rows|
    ensures r.Ok? ==> forall i :: 0 <= i < |t.rows| ==>
              r.value.rows[i].Keys <= ColSet(keep)
              && forall x :: x in keep ==> Cell(r.value.rows[i], x) == Cell(t.rows[i], x)
    ensures r.Ok? && Valid(t) && Distinct(keep) ==> Valid(r.value)
  {
    match FirstMissing(t.cols, keep)
    case Some(x) => Err(MissingColumn(x))
    case None =>
      Ok(Table(keep, seq(|t.rows|, i requires 0 <= i < |t.rows| =>
                           map x | x in t.rows[i] && x in keep :: t.rows[i][x])))
  }

  lemma ColumnsToKeepDistinct()
    ensures Distinct(ColumnsToKeep)
  {
  }

  // ------------------------------------------------------------ constructor

  /** `ProjectDataFrame(data)`: flatten and stamp, add each project's root,
      join the roots' permissions, keep `COLUMNS_TO_KEEP`. */
  function ProjectTable(data: Table, today: Date): (r: Result<Table, ProjectError>)
    requires Valid(data)
    ensures r.Ok? ==> r.value.cols == ColumnsToKeep && Valid(r.value)
    ensures Construct(data, today).Err? ==> r == Err(FlattenFailed(Construct(data, today).error))
  {
    match Construct(data, today)
    case Err(e) => Err(FlattenFailed(e))
    case Ok(flat) =>
      if "id" !in flat.cols then Err(MissingColumn("id"))
      else if "parentProjectId" !in flat.cols then Err(MissingColumn("parentProjectId"))
      else
        match Collect(RootWalks(flat))
        case Err(e) => Err(e)
        case Ok(roots) =>
          match RootPermissions(SetColumn(flat, "rootParentProjectId", roots))
          case Err(e) => Err(e)
          case Ok(merged) =>
            ColumnsToKeepDistinct();
            MergedValid(SetColumn(flat, "rootParentProjectId", roots), merged);
            Project(merged, ColumnsToKeep)
  }

  /** Every merged row holds the left row's labels and the new one. */
  lemma {:induction false} MergeRowsKeys(rows: seq<Row>, entries: seq<(Value, Value)>, labels: set<string>)
    requires forall i :: 0 <= i < |rows| ==> rows[i].Keys == labels
    ensures forall k :: 0 <= k < |MergeRows(rows, entries)| ==>
              MergeRows(rows, entries)[k].Keys == labels + {"rootParentContentPermissions"}
  {
    if |rows| > 0 {
      var head, rest := MergeRow(rows[0], entries), MergeRows(rows[1..], entries);
      var both: seq<Row> := head + rest;
      assert forall i :: 1 <= i < |rows| ==> rows[1..][i - 1] == rows[i];
      MergeRowsKeys(rows[1..], entries, labels);
      forall k | 0 <= k < |both|
        ensures both[k].Keys == labels + {"rootParentContentPermissions"}
      {
        if k >= |head| {
          assert both[k] == rest[k - |head|];
        }
      }
    }
  }

  /** The merge keeps the table well formed. */
  lemma MergedValid(t: Table, merged: Table)
    requires Valid(t) && RootPermissions(t) == Ok(merged)
    ensures Valid(merged)
  {
    AppendDistinct(t.cols, "rootParentContentPermissions");
    MergeRowsKeys(t.rows, RootEntries(t.rows), ColSet(t.cols));
    assert ColSet(merged.cols) == ColSet(t.cols) + {"rootParentContentPermissions"};
  }

  // ------------------------------------------------------------ the merge, row by row

  /** No two rows share an id. */
  ghost predicate UniqueIds(rows: seq<Row>) {
    forall i, j :: 0 <= i < j < |rows| ==> Cell(rows[i], "id") != Cell(rows[j], "id")
  }

  /** Every row with a missing parent is its own root. */
  ghost predicate RootsSelf(rows: seq<Row>) {
    forall i :: 0 <= i < |rows| && Cell(rows[i], "parentProjectId") == Null ==>
      Cell(rows[i], "rootParentProjectId") == Cell(rows[i], "id")
  }

  lemma IdsUnique(t: Table, rank: map<Value, nat>)
    requires Ranked(t, rank)
    ensures UniqueIds(t.rows)
  {
    forall i, j | 0 <= i < j < |t.rows| ensures Cell(t.rows[i], "id") != Cell(t.rows[j], "id") {
      var r := RowsWith(t.rows, "id", Cell(t.rows[i], "id"), 0);
      assert i in r && |r| == 1;
    }
  }

  /** With unique ids, the root entries have one key per root row. */
  lemma {:induction false} RootEntriesKeys(rows: seq<Row>)
    requires UniqueIds(rows) && RootsSelf(rows)
    ensures Distinct(KeyList(RootEntries(rows)))
  {
    if |rows| > 0 {
      var rest := RootEntries(rows[1..]);
      assert forall i :: 1 <= i < |rows| ==> rows[1..][i - 1] == rows[i];
      RootEntriesKeys(rows[1..]);
      if Cell(rows[0], "parentProjectId") == Null {
        var ks := KeyList(RootEntries(rows));
        var rks := KeyList(rest);
        RootEntriesSpec(rows[1..]);
        forall k | 0 <= k < |rks| ensures rks[k] != Cell(rows[0], "id") {
          assert FromRootRow(rows[1..], rest[k]);
          var i :| 0 <= i < |rows[1..]| && Cell(rows[1..][i], "parentProjectId") == Null
                   && rest[k] == (Cell(rows[1..][i], "rootParentProjectId"), Cell(rows[1..][i], "contentPermissions"));
          assert rows[1..][i] == rows[i + 1];
        }
        assert forall k :: 1 <= k < |ks| ==> ks[k] == rks[k - 1];
      } else {
        assert KeyList(RootEntries(rows)) == KeyList(rest);
      }
    }
  }

  /** With unique ids, the root entry for `x` exists exactly when a row with
      a missing parent has id `x`, and holds that row's permissions. */
  lemma RootEntriesLookup(rows: seq<Row>, x: Value)
    requires UniqueIds(rows) && RootsSelf(rows)
    ensures Lookup(RootEntries(rows), x).Some? <==>
              exists j :: 0 <= j < |rows| && Cell(rows[j], "parentProjectId") == Null && Cell(rows[j], "id") == x
    ensures forall j :: 0 <= j < |rows| && Cell(rows[j], "parentProjectId") == Null && Cell(rows[j], "id") == x ==>
              Lookup(RootEntries(rows), x) == Some(Cell(rows[j], "contentPermissions"))
  {
    var entries := RootEntries(rows);
    RootEntriesSpec(rows);
    match Lookup(entries, x)
    case None =>
      forall j | 0 <= j < |rows| && Cell(rows[j], "parentProjectId") == Null
        ensures Cell(rows[j], "id") != x
      {
        var e := (Cell(rows[j], "rootParentProjectId"), Cell(rows[j], "contentPermissions"));
        var k :| 0 <= k < |entries| && entries[k] == e;
      }
    case Some(v) =>
      var k :| 0 <= k < |entries| && entries[k] == (x, v);
      assert FromRootRow(rows, entries[k]);
      var i :| 0 <= i < |rows| && Cell(rows[i], "parentProjectId") == Null
               && entries[k] == (Cell(rows[i], "rootParentProjectId"), Cell(rows[i], "contentPermissions"));
      forall j | 0 <= j < |rows| && Cell(rows[j], "parentProjectId") == Null && Cell(rows[j], "id") == x
        ensures v == Cell(rows[j], "contentPermissions")
      {
        assert i == j;
      }
  }

  /** The positions, from `from` on, of the flags that are set, in order. */
  function SetPositions(flags: seq<bool>, from: nat): (r: seq<nat>)
    requires from <= |flags|
    ensures forall k :: 0 <= k < |r| ==> from <= r[k] < |flags| && flags[r[k]]
    ensures forall i :: from <= i < |flags| && flags[i] ==> i in r
    ensures forall k, l :: 0 <= k < l < |r| ==> r[k] < r[l]
    decreases |flags| - from
  {
    if from == |flags| then []
    else if flags[from] then [from] + SetPositions(flags, from + 1)
    else SetPositions(flags, from + 1)
  }

  /** Which rows the inner merge meets with an entry. */
  function Matches(rows: seq<Row>, entries: seq<(Value, Value)>): (r: seq<bool>)
    ensures |r| == |rows|
  {
    seq(|rows|, i requires 0 <= i < |rows| => Lookup(entries, Cell(rows[i], "rootParentProjectId")).Some?)
  }

  /** A row given the permissions of its root's entry, if there is one. */
  function WithPermissions(row: Row, entries: seq<(Value, Value)>): Row {
    match Lookup(entries, Cell(row, "rootParentProjectId"))
    case None => row
    case Some(perm) => row["rootParentContentPermissions" := perm]
  }

  /** Adding row `from` in front: its output is kept exactly when its flag is
      set. */
  lemma {:induction false} PositionsStep<T>(flags: seq<bool>, outs: seq<T>, from: nat, m: seq<T>, rest: seq<T>)
    requires |outs| == |flags| && from < |flags|
    requires m == (if flags[from] then [outs[from]] else []) + rest
    requires var q := SetPositions(flags, from + 1);
      |rest| == |q| && forall k :: 0 <= k < |q| ==> rest[k] == outs[q[k]]
    ensures var p := SetPositions(flags, from);
      |m| == |p| && forall k :: 0 <= k < |p| ==> m[k] == outs[p[k]]
  {
    var p, q := SetPositions(flags, from), SetPositions(flags, from + 1);
    if flags[from] {
      assert p == [from] + q;
      assert m == [outs[from]] + rest;
      forall k | 0 <= k < |p| ensures m[k] == outs[p[k]] {
        if k > 0 {
          assert m[k] == rest[k - 1] && p[k] == q[k - 1];
        }
      }
    } else {
      assert m == rest && p == q;
    }
  }

  /** With one entry per key, the inner merge keeps, in order, exactly the
      rows whose root has an entry, each once with that entry's
      permissions. */
  lemma {:induction false} MergeRowsMatched(rows: seq<Row>, entries: seq<(Value, Value)>, from: nat)
    requires Distinct(KeyList(entries)) && from <= |rows|
    ensures var m := MergeRows(rows[from..], entries);
      var p := SetPositions(Matches(rows, entries), from);
      && |m| == |p|
      && forall k :: 0 <= k < |p| ==> m[k] == WithPermissions(rows[p[k]], entries)
    decreases |rows| - from
  {
    var outs := seq(|rows|, i requires 0 <= i < |rows| => WithPermissions(rows[i], entries));
    if from < |rows| {
      var flags := Matches(rows, entries);
      var row := rows[from];
      MergeRowsMatched(rows, entries, from + 1);
      MergeRowUnique(row, entries);
      MergeRowsFrom(rows, entries, from);
      assert MergeRow(row, entries) == if flags[from] then [outs[from]] else [];
      PositionsStep(flags, outs, from, MergeRows(rows[from..], entries), MergeRows(rows[from + 1..], entries));
    }
  }

  lemma MergeRowsFrom(rows: seq<Row>, entries: seq<(Value, Value)>, from: nat)
    requires from < |rows|
    ensures MergeRows(rows[from..], entries) == MergeRow(rows[from], entries) + MergeRows(rows[from + 1..], entries)
  {
    assert rows[from..][0] == rows[from] && rows[from..][1..] == rows[from + 1..];
  }

  /** The root of the project in row `i` was found and has no parent at all
      (a float parent also ends the walk, but such a root has no entry). */
  predicate UnderParentlessRoot(t: Table, i: nat)
    requires i < |t.rows|
  {
    var root := FindRoot(t, Cell(t.rows[i], "id"));
    root.Ok? && ParentOf(t, root.value).Ok? && ParentOf(t, root.value).value == Null
  }

  /** The positions of the projects under a parentless root, in order: the
      rows `ProjectDataFrame` keeps. */
  function KeptProjects(t: Table): (r: seq<nat>)
    ensures forall k :: 0 <= k < |r| ==> r[k] < |t.rows| && UnderParentlessRoot(t, r[k])
    ensures forall i :: 0 <= i < |t.rows| && UnderParentlessRoot(t, i) ==> i in r
    ensures forall k, l :: 0 <= k < l < |r| ==> r[k] < r[l]
  {
    SetPositions(seq(|t.rows|, i requires 0 <= i < |t.rows| => UnderParentlessRoot(t, i)), 0)
  }

  /** In a forest every walk succeeds, and a project with a missing parent is
      its own root. */
  lemma RootsRanked(t: Table, rank: map<Value, nat>)
    requires Ranked(t, rank)
    ensures Collect(RootWalks(t)).Ok?
    ensures forall i :: 0 <= i < |t.rows| ==>
              FindRoot(t, Cell(t.rows[i], "id")).Ok? && Collect(RootWalks(t)).value[i] == FindRoot(t, Cell(t.rows[i], "id")).value
    ensures forall i :: 0 <= i < |t.rows| && Cell(t.rows[i], "parentProjectId") == Null ==>
              Collect(RootWalks(t)).value[i] == Cell(t.rows[i], "id")
  {
    forall i | 0 <= i < |t.rows| ensures FindRoot(t, Cell(t.rows[i], "id")).Ok? {
      assert Cell(t.rows[i], "id") in Ids(t);
      FindRootRanked(t, rank, Cell(t.rows[i], "id"));
    }
    forall i | 0 <= i < |t.rows| && Cell(t.rows[i], "parentProjectId") == Null
      ensures FindRoot(t, Cell(t.rows[i], "id")) == Ok(Cell(t.rows[i], "id"))
    {
      RootRecursion(t, Cell(t.rows[i], "id"));
    }
  }

  /** Row `i` of the projects, given its root and that root's permissions. */
  ghost predicate MergedRowOf(t: Table, i: nat, m: Row)
    requires i < |t.rows|
  {
    && FindRoot(t, Cell(t.rows[i], "id")).Ok?
    && (forall x :: x != "rootParentProjectId" && x != "rootParentContentPermissions" ==> Cell(m, x) == Cell(t.rows[i], x))
    && Cell(m, "rootParentProjectId") == FindRoot(t, Cell(t.rows[i], "id")).value
    && forall j :: 0 <= j < |t.rows| && Cell(t.rows[j], "id") == Cell(m, "rootParentProjectId") ==>
         Cell(m, "rootParentContentPermissions") == Cell(t.rows[j], "contentPermissions")
  }

  /** A root has an entry exactly when it has no parent at all. */
  lemma RootHasEntry(t: Table, s: Table, i: nat)
    requires UniqueIds(s.rows) && RootsSelf(s.rows) && |s.rows| == |t.rows| && i < |t.rows|
    requires forall j, x :: 0 <= j < |t.rows| && x != "rootParentProjectId" ==> Cell(s.rows[j], x) == Cell(t.rows[j], x)
    requires FindRoot(t, Cell(t.rows[i], "id")).Ok?
    requires Cell(s.rows[i], "rootParentProjectId") == FindRoot(t, Cell(t.rows[i], "id")).value
    ensures var root := FindRoot(t, Cell(t.rows[i], "id")).value;
      && (Lookup(RootEntries(s.rows), root).Some? <==> UnderParentlessRoot(t, i))
      && (UnderParentlessRoot(t, i) ==> forall j :: 0 <= j < |t.rows| && Cell(t.rows[j], "id") == root ==>
            Lookup(RootEntries(s.rows), root) == Some(Cell(t.rows[j], "contentPermissions")))
  {
    var root := FindRoot(t, Cell(t.rows[i], "id")).value;
    RootEntriesLookup(s.rows, root);
    var j :| 0 <= j < |t.rows| && Cell(t.rows[j], "id") == root;
    assert ParentOf(t, root).value == Cell(t.rows[j], "parentProjectId");
  }

  /** The projects with their roots set: ids still unique, and every
      project with a missing parent its own root. */
  lemma StampedRoots(t: Table, rank: map<Value, nat>)
    requires Ranked(t, rank)
    ensures Collect(RootWalks(t)).Ok?
    ensures var s := SetColumn(t, "rootParentProjectId", Collect(RootWalks(t)).value);
      && UniqueIds(s.rows) && RootsSelf(s.rows)
      && forall i :: 0 <= i < |t.rows| ==>
           FindRoot(t, Cell(t.rows[i], "id")).Ok?
           && Cell(s.rows[i], "rootParentProjectId") == FindRoot(t, Cell(t.rows[i], "id")).value
  {
    RootsRanked(t, rank);
    IdsUnique(t, rank);
  }

  /** A kept row of the merge is its project with its root and the root's
      permissions. */
  lemma MergedRowAt(t: Table, s: Table, i: nat)
    requires UniqueIds(s.rows) && RootsSelf(s.rows) && |s.rows| == |t.rows| && i < |t.rows|
    requires forall j, x :: 0 <= j < |t.rows| && x != "rootParentProjectId" ==> Cell(s.rows[j], x) == Cell(t.rows[j], x)
    requires FindRoot(t, Cell(t.rows[i], "id")).Ok?
    requires Cell(s.rows[i], "rootParentProjectId") == FindRoot(t, Cell(t.rows[i], "id")).value
    requires UnderParentlessRoot(t, i)
    ensures MergedRowOf(t, i, WithPermissions(s.rows[i], RootEntries(s.rows)))
  {
    RootHasEntry(t, s, i);
  }

  /** In a forest, `find_root_content_permissions` keeps, in order, exactly
      the projects under a parentless root, each once, with its root and the
      root's permissions. */
  lemma MergedRanked(t: Table, rank: map<Value, nat>)
    requires Ranked(t, rank) && "contentPermissions" in t.cols && "rootParentContentPermissions" !in t.cols
    ensures Collect(RootWalks(t)).Ok?
    ensures var s := SetColumn(t, "rootParentProjectId", Collect(RootWalks(t)).value);
      var kept := KeptProjects(t);
      && RootPermissions(s).Ok?
      && |RootPermissions(s).value.rows| == |kept|
      && forall k :: 0 <= k < |kept| ==> MergedRowOf(t, kept[k], RootPermissions(s).value.rows[k])
  {
    StampedRoots(t, rank);
    var s := SetColumn(t, "rootParentProjectId", Collect(RootWalks(t)).value);
    assert RootPermissions(s).Ok? by {
      assert "contentPermissions" in s.cols && "rootParentContentPermissions" !in s.cols;
    }
    var entries := RootEntries(s.rows);
    RootEntriesKeys(s.rows);
    forall i | 0 <= i < |s.rows|
      ensures Matches(s.rows, entries)[i] == UnderParentlessRoot(t, i)
    {
      RootHasEntry(t, s, i);
    }
    assert Matches(s.rows, entries) == seq(|t.rows|, i requires 0 <= i < |t.rows| => UnderParentlessRoot(t, i));
    MergeRowsMatched(s.rows, entries, 0);
    assert s.rows[0..] == s.rows;
    var kept := KeptProjects(t);
    var m := RootPermissions(s).value.rows;
    forall k | 0 <= k < |kept| ensures MergedRowOf(t, kept[k], m[k]) {
      MergedRowAt(t, s, kept[k]);
    }
  }

  /** Row `i` of the flattened projects as `ProjectDataFrame` keeps it. */
  ghost predicate KeptRowOf(t: Table, today: Date, i: nat, out: Row)
    requires i < |t.rows|
  {
    && out.Keys == ColSet(ColumnsToKeep)
    && Cell(out, "snapshot_date") == Str(FormatDate(today))
    && Cell(out, "id") == Cell(t.rows[i], "id")
    && Cell(out, "name") == Cell(t.rows[i], "name")
    && Cell(out, "parentProjectId") == Cell(t.rows[i], "parentProjectId")
    && FindRoot(t, Cell(t.rows[i], "id")).Ok?
    && Cell(out, "rootParentProjectId") == FindRoot(t, Cell(t.rows[i], "id")).value
    && forall j :: 0 <= j < |t.rows| && Cell(t.rows[j], "id") == Cell(out, "rootParentProjectId") ==>
         Cell(out, "rootParentContentPermissions") == Cell(t.rows[j], "contentPermissions")
  }

  /** The steps of `ProjectDataFrame(data)` once flattening, the walks and
      the merge have succeeded. */
  lemma ProjectTableSteps(data: Table, today: Date)
    requires Valid(data) && Construct(data, today).Ok?
    requires var flat := Construct(data, today).value;
      && "id" in flat.cols && "parentProjectId" in flat.cols && Collect(RootWalks(flat)).Ok?
      && RootPermissions(SetColumn(flat, "rootParentProjectId", Collect(RootWalks(flat)).value)).Ok?
    ensures var flat := Construct(data, today).value;
      var merged := RootPermissions(SetColumn(flat, "rootParentProjectId", Collect(RootWalks(flat)).value)).value;
      ProjectTable(data, today) == Project(merged, ColumnsToKeep)
  {
  }

  /** A kept merged row, cut down to the kept columns. */
  lemma KeptRowFrom(t: Table, today: Date, i: nat, m: Row, out: Row)
    requires i < |t.rows| && MergedRowOf(t, i, m)
    requires Cell(t.rows[i], "snapshot_date") == Str(FormatDate(today))
    requires out.Keys == ColSet(ColumnsToKeep)
    requires forall x :: x in ColumnsToKeep ==> Cell(out, x) == Cell(m, x)
    ensures KeptRowOf(t, today, i, out)
  {
    assert Cell(out, "snapshot_date") == Cell(m, "snapshot_date");
    assert Cell(out, "rootParentContentPermissions") == Cell(m, "rootParentContentPermissions");
  }

  /** `ProjectDataFrame(data)` on a forest of projects with unique ids: every
      project under a parentless root appears exactly once, in input order,
      with its root id and the root's content permissions; every other
      project is dropped. */
  lemma ProjectTableSpec(data: Table, today: Date, rank: map<Value, nat>)
    requires Valid(data) && Construct(data, today).Ok?
    requires var flat := Construct(data, today).value;
      && "id" in flat.cols && "name" in flat.cols && "parentProjectId" in flat.cols
      && "contentPermissions" in flat.cols && "rootParentContentPermissions" !in flat.cols
      && Ranked(flat, rank)
    ensures var flat := Construct(data, today).value;
      var kept := KeptProjects(flat);
      var r := ProjectTable(data, today);
      && r.Ok? && |r.value.rows| == |kept|
      && forall k :: 0 <= k < |kept| ==> KeptRowOf(flat, today, kept[k], r.value.rows[k])
  {
    var flat := Construct(data, today).value;
    ConstructSpec(data, today);
    MergedRanked(flat, rank);
    var s := SetColumn(flat, "rootParentProjectId", Collect(RootWalks(flat)).value);
    var merged := RootPermissions(s).value;
    ProjectTableSteps(data, today);
    MergedValid(s, merged);
    ColumnsToKeepDistinct();
    assert forall x :: x in ColumnsToKeep ==> x in merged.cols;
    var out := Project(merged, ColumnsToKeep).value;
    var kept := KeptProjects(flat);
    forall k | 0 <= k < |kept| ensures KeptRowOf(flat, today, kept[k], out.rows[k]) {
      KeptRowFrom(flat, today, kept[k], merged.rows[k], out.rows[k]);
    }
  }

  // ------------------------------------------------------------ the class

  /** `ProjectDataFrame`: a flattened projects table whose constructor adds
      each project's root and the root's permissions, then keeps
      `COLUMNS_TO_KEEP`. */
  class ProjectDataFrame {
    var cols: seq<string>
    var rows: seq<Row>

    function Contents(): Table
      reads this
    {
      Table(cols, rows)
    }

    constructor Load(t: Table)
      ensures Contents() == t
    {
      cols, rows := t.cols, t.rows;
    }

    static method New(data: Table, today: Date) returns (r: Result<ProjectDataFrame, ProjectError>)
      requires Tables.Valid(data)
      ensures r.Ok? ==> fresh(r.value) && ProjectTable(data, today).Ok? && ProjectTable(data, today).value == r.value.Contents()
      ensures r.Err? ==> ProjectTable(data, today).Err? && ProjectTable(data, today).error == r.error
    {
      var flat := FlattenedDataFrame.New(data, today);
      if flat.Err? {
        return Err(FlattenFailed(flat.error));
      }
      var frame := new ProjectDataFrame.Load(flat.value.Contents());
      if "id" !in frame.cols {
        return Err(MissingColumn("id"));
      }
      if "parentProjectId" !in frame.cols {
        return Err(MissingColumn("parentProjectId"));
      }
      var err := frame.AddRoots();
      if err.Some? {
        return Err(err.value);
      }
      var merged := RootPermissions(frame.Contents());
      if merged.Err? {
        return Err(merged.error);
      }
      frame.cols, frame.rows := merged.value.cols, merged.value.rows;
      var kept := Project(frame.Contents(), ColumnsToKeep);
      if kept.Err? {
        return Err(kept.error);
      }
      frame.cols, frame.rows := kept.value.cols, kept.value.rows;
      return Ok(frame);
    }

    /** `self["rootParentProjectId"] = self.apply(...)`: walks up from every
        row in turn and stops at the first walk that fails. */
    method AddRoots() returns (err: Option<ProjectError>)
      modifies this
      ensures Collect(RootWalks(old(Contents()))).Err? ==>
                err == Some(Collect(RootWalks(old(Contents()))).error) && Contents() == old(Contents())
      ensures Collect(RootWalks(old(Contents()))).Ok? ==>
                err == None
                && Contents() == SetColumn(old(Contents()), "rootParentProjectId", Collect(RootWalks(old(Contents()))).value)
    {
      ghost var walks := RootWalks(Contents());
      var roots: seq<Value> := [];
      for i := 0 to |rows|
        invariant |roots| == i
        invariant forall k :: 0 <= k < i ==> walks[k] == Ok(roots[k])
      {
        var root := FindRoot(Contents(), Cell(rows[i], "id"));
        assert walks[i] == root;
        if root.Err? {
          CollectFirstErr(walks, i);
          return Some(root.error);
        }
        roots := roots + [root.value];
      }
      CollectAllOk(walks, roots);
      var stamped := SetColumn(Contents(), "rootParentProjectId", roots);
      cols, rows := stamped.cols, stamped.rows;
      return None;
    }
  }
}
