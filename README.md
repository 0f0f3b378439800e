# Flattened data frames of the Tableau metadata exports

This project models the data-shaping core of the Tableau export scripts in Dafny. It covers three parts.

- **`FlattenedDataFrame`** turns nested JSON records into flat columns. Mapping columns become `<column>_<key>` columns. List columns become one row per element.
- **`ProjectDataFrame`** finds every project's root project and joins on the root's content permissions. **`ItemDataFrame`** tags workbooks and data sources with the root of their project.
- **The helpers** unwrap an API response, look up the message for a response status, and build the file name an export gets when it is archived.

A data frame is a `Table`: an ordered list of column labels and a sequence of rows. Each row is a map from label to a JSON-like `Value`. The pandas row index is the row's position. pandas failures are error outcomes (`Result`), never preconditions.

Imperative parts stay imperative. `FlattenedDataFrame`, `ProjectDataFrame` and `ItemDataFrame` are classes whose `cols` and `rows` fields are reassigned in place, as `re_inititialize_super_class` does. Each method is proved against a pure specification function:

- `Flattening.Flattened` and `Flattening.Construct` specify flattening and the constructor;
- `Projects.ProjectTable` specifies the projects frame;
- `Items.ItemTable` specifies the items frame.

The properties the source relies on are proved about those functions:

- flattening terminates and is idempotent;
- each pass keeps the other cells;
- a root walk ends at a parentless project;
- the walk is idempotent and every project of a forest has a root;
- with unique ids and no cycle, the projects frame holds exactly the projects under a parentless root, once each and in input order, each with its root id and that root's permissions;
- exactly the items whose project has a root are kept;
- unpacking inverts wrapping;
- the archive name reads back as name, date and extension.

Files:

- `outcomes.dfy`: `Option`, `Result`.
- `json.dfy`: values and the mapping view of an object.
- `tables.dfy`: tables, `get_dtypes` classification, column update and the date stamp.
- `flatten.dfy`: one mapping or list pass.
- `measure.dfy`: the termination measure of `flatten`.
- `flattening.dfy`: the whole `flatten` and the constructor.
- `frame.dfy`: the `FlattenedDataFrame` class.
- `projects.dfy`: `ProjectDataFrame`.
- `items.dfy`: `ItemDataFrame`.
- `helpers.dfy`: `unpack_response`, `lookup_error` and the archive name.

The clock (`pd.to_datetime('today')`, a file's creation time) is a `Date` parameter.

Three behaviours of the code are easy to misread; the model follows the code:

- A row of a list column whose cell is null, not a list, or an empty list is kept once, with null element columns. `_flatten_list` gives such a row no part in `pd.concat(list_dfs)`, and the join on the row index is `how="left"`.
- `NotImplementedError` for an unsupported type is raised only while some mapping or list column remains. The `while` guard checks `check_dtypes` first, and the `for` loop stops at the first column that is not a scalar.
- A parent id that is a float counts as "no parent" for `find_root_project` (`isinstance(parent_id, float)`). Only a missing parent counts for the permission join (`isna()`). A project whose parent id is a non-missing float is therefore its own root, yet contributes no permissions.

## Model

| member | source | states |
|---|---|---|
| Tables.FirstValidFrom | tableau_api/utils/flattened_dataframe.py:68 | the first row from `from` on whose cell in the column is not null, every earlier one null; none when all are null |
| Tables.FirstValid | tableau_api/utils/flattened_dataframe.py:68 | `first_valid_index()`: no contract of its own; it is `Tables.FirstValidFrom` from the first row, whose contract states the first non-null row |
| Tables.ColumnType | tableau_api/utils/flattened_dataframe.py:67-73 | `get_dtypes` for one column: no contract of its own; `Tables.ColumnTypeSpec` states the classification |
| Tables.HasNested | tableau_api/utils/flattened_dataframe.py:76-78 | `check_dtypes`: some column is classified `dict` or `list`; `Frame.FlattenedDataFrame.CheckDtypes` is proved to return it |
| Tables.ColumnTypeSpec | tableau_api/utils/flattened_dataframe.py:67-73 | a column is classified by the type name of its first non-null value, and is `NoneType` exactly when it is null everywhere (or that value's type is named so) |
| Tables.Without | tableau_api/utils/flattened_dataframe.py:28 | `self.columns != columnname`: exactly the other labels, still distinct |
| Tables.SetColumn | tableau_api/utils/flattened_dataframe.py:107 | assigning a column gives every row the new value under the label, keeps every other cell, adds the label at the end when new and keeps the table well formed |
| Tables.Pad | tableau_api/utils/flattened_dataframe.py:17 | a zero-padded field has exactly the requested width |
| Tables.FormatDate | tableau_api/utils/flattened_dataframe.py:17 | `%Y-%m-%d` is ten characters with dashes at positions 4 and 7 |
| Tables.PadRoundTrip | tableau_api/utils/flattened_dataframe.py:17 | reading the padded digits back gives the number |
| Tables.FormatDateRoundTrip | tableau_api/utils/flattened_dataframe.py:17 | the stamp reads back as year, month and day |
| Tables.StampSpec | tableau_api/utils/flattened_dataframe.py:17 | `self["snapshot_date"] = today` gives every row the formatted date, keeps every other cell and the row count, and keeps the table well formed |
| Tables.Stamp | tableau_api/utils/flattened_dataframe.py:17 | `self["snapshot_date"] = today`: no contract of its own; `Tables.StampSpec` states the new cells and `Tables.SetColumn` the column order |
| Json.FieldNames | tableau_api/utils/flattened_dataframe.py:84 | a mapping's keys, each once, exactly those with an entry |
| Json.TypeName | tableau_api/utils/flattened_dataframe.py:71 | `type(value).__name__` per kind of value: no contract of its own; `Tables.ColumnTypeSpec` and `Flattening.StepNotImplemented` state what the names decide |
| Json.Get | tableau_api/utils/flattened_dataframe.py:87 | the value of the mapping's first entry for a key; null when no entry has the key |
| Json.Union | tableau_api/utils/flattened_dataframe.py:87 | keys accumulated in order: the old ones first, then exactly the new ones, no label twice |
| Json.UnionOrder | tableau_api/utils/flattened_dataframe.py:87 | new keys appear in the order of their first appearance, as `pd.DataFrame` of a list of dicts orders its columns |
| Flatten.Names | tableau_api/utils/flattened_dataframe.py:88 | `add_prefix`: each key becomes `<column>_<key>`, position by position |
| Flatten.PrefixedInjective | tableau_api/utils/flattened_dataframe.py:88 | two keys with the same prefixed label are the same key |
| Flatten.NamesDistinct | tableau_api/utils/flattened_dataframe.py:88 | prefixing distinct keys gives distinct labels |
| Flatten.NewCells | tableau_api/utils/flattened_dataframe.py:87-88 | a mapping's new cells: one per key, holding the mapping's value for it or null |
| Flatten.AllKeys | tableau_api/utils/flattened_dataframe.py:87 | the keys seen in the column are exactly the keys of its mappings |
| Flatten.FillRows | tableau_api/utils/flattened_dataframe.py:86 | replacing the null cells keeps the row count |
| Flatten.FillNulls | tableau_api/utils/flattened_dataframe.py:82-86 | a column without nulls is returned unchanged; when a null is present, the first mapping is non-empty and every null cell becomes `{key: null}` for its first key; every other cell is kept |
| Flatten.DictKeys | tableau_api/utils/flattened_dataframe.py:87 | the replacement's column keys, no key twice |
| Flatten.DictKeysSpec | tableau_api/utils/flattened_dataframe.py:87 | the replacement has a column for exactly the keys some mapping of the column holds |
| Flatten.DictKeysOrder | tableau_api/utils/flattened_dataframe.py:87 | those columns come in the order the keys first appear |
| Flatten.DictReplacement | tableau_api/utils/flattened_dataframe.py:87-89 | the replacement frame has one row per row |
| Flatten.ExpandDict | tableau_api/utils/flattened_dataframe.py:28 | a mapping pass fails only on a non-mapping cell, on nulls without a key, or on a label clash (when it succeeds: `Flatten.ExpandDictSucceeds`) |
| Flatten.ExpandDictSteps | tableau_api/utils/flattened_dataframe.py:28 | the pass is the other columns followed by the prefixed keys, each row its other cells plus its mapping's cells |
| Flatten.FilledGet | tableau_api/utils/flattened_dataframe.py:86 | a stand-in `{key: null}` reads as null for every key, like a missing mapping |
| Flatten.KeptCell | tableau_api/utils/flattened_dataframe.py:28 | a cell outside the expanded column and the new labels is unchanged |
| Flatten.ExpandDictKept | tableau_api/utils/flattened_dataframe.py:28 | a mapping pass keeps every other column's cells, row by row |
| Flatten.ExpandDictNew | tableau_api/utils/flattened_dataframe.py:28 | after a mapping pass, `<column>_<key>` holds the row's value for the key, or null |
| Flatten.ExpandDictColumns | tableau_api/utils/flattened_dataframe.py:28 | a mapping pass's columns: the others, then the prefixed keys, exactly the keys seen, in first-appearance order |
| Flatten.ExpandDictNeeds | tableau_api/utils/flattened_dataframe.py:80-89 | a mapping pass that succeeds met only mappings and nulls, a key for the nulls, and no prefixed key naming a kept column |
| Flatten.ExpandDictSucceedsWhen | tableau_api/utils/flattened_dataframe.py:80-89 | with only mappings and nulls, a key for the nulls and no such clash, the pass succeeds |
| Flatten.ExpandDictSucceeds | tableau_api/utils/flattened_dataframe.py:80-89 | a mapping pass succeeds exactly when every cell is a mapping or null, a null meets a first mapping that has a key, and no prefixed key names a kept column |
| Flatten.AttachSpec | tableau_api/utils/flattened_dataframe.py:28 | adding the new cells to a row keeps its other cells and gives each new label the mapping's value |
| Flatten.ListParts | tableau_api/utils/flattened_dataframe.py:92-99 | the list cells of a column with their row index, in row order: exactly the rows holding a list |
| Flatten.ItemsKeys | tableau_api/utils/flattened_dataframe.py:97 | the keys of a list's elements are exactly those some element holds |
| Flatten.PartsKeys | tableau_api/utils/flattened_dataframe.py:100 | the keys of all lists are exactly those some list element holds |
| Flatten.Explode | tableau_api/utils/flattened_dataframe.py:34 | a left join gives at least one row for each left row |
| Flatten.ExplodeSpec | tableau_api/utils/flattened_dataframe.py:91-100 | a row with a non-empty list becomes one row per element, any other row one row; every copy lacks the list column, keeps the row's other cells and holds in `<column>_<key>` its element's value for the key, null when the element lacks the key or there is no element |
| Flatten.CopySpec | tableau_api/utils/flattened_dataframe.py:34 | one joined copy lacks the list column, keeps the row's other cells and gives each new label the element's value |
| Flatten.ExplodeRowsSplit | tableau_api/utils/flattened_dataframe.py:34 | the joined rows of a concatenation are the concatenation of the joined rows |
| Flatten.ExplodeRowsAt | tableau_api/utils/flattened_dataframe.py:34 | row `i`'s copies sit together, after those of the earlier rows |
| Flatten.ExplodeRowsCount | tableau_api/utils/flattened_dataframe.py:34 | the join has one row per list element, one for every other row, and never fewer rows than before |
| Flatten.ExplodeRows | tableau_api/utils/flattened_dataframe.py:34 | the left join's rows: no contract of its own; `Flatten.ExplodeRowsAt`, `Flatten.ExplodeRowsCount` and `Flatten.ExplodeRowsCells` state where each copy sits and what it holds |
| Flatten.JoinList | tableau_api/utils/flattened_dataframe.py:34 | the join with `pd.concat(list_dfs)`: no contract of its own; `Flatten.ExpandListSucceeds`, `Flatten.ExpandListShape` and `Flatten.ExpandListCells` state its errors, columns and cells |
| Flatten.ListKeys | tableau_api/utils/flattened_dataframe.py:100 | the list pass's keys, no key twice |
| Flatten.ListKeysOrder | tableau_api/utils/flattened_dataframe.py:100 | they are exactly the element keys, in the order they first appear |
| Flatten.ExpandList | tableau_api/utils/flattened_dataframe.py:34 | a list pass fails only when no cell is a list, on a non-mapping element, or on a label clash (when it succeeds: `Flatten.ExpandListSucceeds`) |
| Flatten.ExpandListSpec | tableau_api/utils/flattened_dataframe.py:34 | a successful list pass is the other columns plus the prefixed keys over the exploded rows |
| Flatten.ExpandListShape | tableau_api/utils/flattened_dataframe.py:34 | the list pass's columns, key order, rows and row count |
| Flatten.ListKeysSpec | tableau_api/utils/flattened_dataframe.py:97-100 | the list pass's keys are exactly the keys of the elements of the column's lists |
| Flatten.HasListParts | tableau_api/utils/flattened_dataframe.py:94-100 | `list_dfs` is non-empty exactly when some cell of the column is a list |
| Flatten.ExpandListNeeds | tableau_api/utils/flattened_dataframe.py:91-100 | a list pass that succeeds met a list, only mapping elements, and no prefixed element key naming a kept column |
| Flatten.ExpandListSucceedsWhen | tableau_api/utils/flattened_dataframe.py:91-100 | with a list, only mapping elements and no such clash, the pass succeeds |
| Flatten.ExpandListSucceeds | tableau_api/utils/flattened_dataframe.py:91-100 | `pd.concat` has nothing to concatenate exactly when no cell is a list; the pass succeeds exactly when some cell is a list, every element is a mapping and no prefixed element key names a kept column |
| Flatten.ExplodedCopyAt | tableau_api/utils/flattened_dataframe.py:34 | copy `j` of row `i` sits right after the copies of the rows before `i`, and is that row joined with element `j` |
| Flatten.ExplodeRowsCells | tableau_api/utils/flattened_dataframe.py:91-100 | cell by cell, that copy lacks the list column, keeps the row's other cells and holds element `j`'s values, or nulls |
| Flatten.ExpandListCells | tableau_api/utils/flattened_dataframe.py:91-100 | after a list pass, copy `j` of row `i` sits after the copies of the earlier rows, keeps the row's other cells and holds in `<column>_<key>` element `j`'s value for the key, null when the element lacks it or the cell is null, not a list or an empty list |
| Flatten.FirstUnflattenedFrom | tableau_api/utils/flattened_dataframe.py:22-24 | the `for` loop stops at the first column whose type is not a scalar one, every earlier one scalar |
| Flatten.PassColumn | tableau_api/utils/flattened_dataframe.py:22-24 | while a nested column exists, the loop stops at a column of the table that is not scalar |
| Flatten.FirstUnflattenedAt | tableau_api/utils/flattened_dataframe.py:22-24 | the loop's stopping column is the first non-scalar one |
| Flatten.Step | tableau_api/utils/flattened_dataframe.py:21-43 | one iteration of the `while` loop: no contract of its own; `Measure.StepDecreases` proves it lowers the weight and `Flattening.StepNotImplemented` when it raises `NotImplementedError` |
| Measure.StepDecreases | tableau_api/utils/flattened_dataframe.py:21-36 | each mapping or list pass lowers the table's weight, so the `while` loop ends |
| Flattening.Flattened | tableau_api/utils/flattened_dataframe.py:19-52 | `flatten` ends with a well-formed table without mapping or list columns, or an error; an already flat table is returned unchanged |
| Flattening.FlattenedStep | tableau_api/utils/flattened_dataframe.py:21-36 | one pass does not change where flattening ends |
| Flattening.FlattenedIdempotent | tableau_api/utils/flattened_dataframe.py:19-52 | flattening a flattened table changes nothing |
| Flattening.FlattenedRows | tableau_api/utils/flattened_dataframe.py:19-52 | flattening never loses rows |
| Flattening.StepNotImplemented | tableau_api/utils/flattened_dataframe.py:38-43 | a pass raises `NotImplementedError` exactly when its column is neither a mapping nor a list column, naming the type and the column |
| Flattening.Construct | tableau_api/utils/flattened_dataframe.py:7-17 | the constructor's table is the flattened data stamped with the date; its error is flattening's |
| Flattening.ConstructSpec | tableau_api/utils/flattened_dataframe.py:7-17 | the constructed frame is well formed, has at least the input's rows, the date in every row and the flattened cells elsewhere |
| Frame.FlattenedDataFrame.Load | tableau_api/utils/flattened_dataframe.py:9-14 | loading keeps the data and remembers its columns |
| Frame.FlattenedDataFrame.New | tableau_api/utils/flattened_dataframe.py:7-17 | a new frame holds exactly `Construct`'s table, or fails with its error |
| Frame.FlattenedDataFrame.FirstValidIndex | tableau_api/utils/flattened_dataframe.py:68 | the loop finds the first row with a value in the column |
| Frame.FlattenedDataFrame.GetDtypes | tableau_api/utils/flattened_dataframe.py:57-74 | one entry per column, in order, with its classification |
| Frame.FlattenedDataFrame.CheckDtypes | tableau_api/utils/flattened_dataframe.py:76-78 | true exactly when some column is classified `dict` or `list` |
| Frame.FlattenedDataFrame.FlattenDict | tableau_api/utils/flattened_dataframe.py:80-89 | the null cells are filled in place as `FillNulls` says, and the replacement is returned |
| Frame.FlattenedDataFrame.FlattenList | tableau_api/utils/flattened_dataframe.py:91-100 | the list cells with their indexes, or the `pd.concat([])` failure when there are none |
| Frame.FlattenedDataFrame.ExpandDictPass | tableau_api/utils/flattened_dataframe.py:25-29 | a mapping pass leaves the frame holding `ExpandDict` of the old table, or reports its error |
| Frame.FlattenedDataFrame.ExpandListPass | tableau_api/utils/flattened_dataframe.py:31-35 | a list pass leaves the frame holding `ExpandList` of the old table, or reports its error |
| Frame.FlattenedDataFrame.Pass | tableau_api/utils/flattened_dataframe.py:21-43 | one round of the `for` loop, up to its `break`, leaves the frame holding `Step` of the old table, or reports its error (`NotImplementedError` included) |
| Frame.FlattenedDataFrame.Flatten | tableau_api/utils/flattened_dataframe.py:19-52 | the loop leaves the frame holding `Flattened` of the old table, or stops with its error |
| Frame.FlattenedDataFrame.Snapshot | tableau_api/utils/flattened_dataframe.py:17 | the frame becomes the stamped table |
| Projects.ColumnsToKeepDistinct | tableau_api/utils/flattened_dataframe.py:103 | `COLUMNS_TO_KEEP` has no label twice |
| Projects.RowsWith | tableau_api/utils/flattened_dataframe.py:112 | the rows whose cell equals the label, each once, in order |
| Projects.ParentOf | tableau_api/utils/flattened_dataframe.py:112 | `self.at[id, 'parentProjectId']`: the parent when exactly one row has the id, `KeyError` exactly when none has it |
| Projects.Walk | tableau_api/utils/flattened_dataframe.py:111-120 | a successful walk ends at a project whose parent is missing or a float |
| Projects.IsRoot | tableau_api/utils/flattened_dataframe.py:115 | `isinstance(parent_id, float)`: a missing parent (NaN) or a float; no contract of its own, used by the contract of `Projects.Walk` |
| Projects.FindRoot | tableau_api/utils/flattened_dataframe.py:111-120 | `find_root_project`: no contract of its own; `Projects.Walk` states that a found root has a missing or float parent, `Projects.RootRecursion` the recursion and `Projects.FindRootRanked` that every project of a forest has a root |
| Projects.WalkVisited | tableau_api/utils/flattened_dataframe.py:111-120 | the cycle guard does not change the result of a walk that succeeds |
| Projects.RootRecursion | tableau_api/utils/flattened_dataframe.py:115-120 | the root of a parentless project is itself; otherwise the root is its parent's root |
| Projects.RootIdempotent | tableau_api/utils/flattened_dataframe.py:111-120 | the root of a root is that root |
| Projects.SelfParentCycle | tableau_api/utils/flattened_dataframe.py:111-120 | a project that is its own parent is the recursion that never ends |
| Projects.WalkRanked | tableau_api/utils/flattened_dataframe.py:111-120 | when parents are ranked below their children, the walk from any project succeeds |
| Projects.FindRootRanked | tableau_api/utils/flattened_dataframe.py:111-120 | in a forest with unique ids every project has a root |
| Projects.Collect | tableau_api/utils/flattened_dataframe.py:107 | `apply` gives every row's value in order, or the first row's failure |
| Projects.CollectFirstErr | tableau_api/utils/flattened_dataframe.py:107 | when every row before `i` succeeds and row `i` fails, `apply` fails with row `i`'s failure |
| Projects.CollectAllOk | tableau_api/utils/flattened_dataframe.py:107 | when every row succeeds, `apply` gives exactly their values, in row order |
| Projects.RootWalks | tableau_api/utils/flattened_dataframe.py:107 | one root walk per row |
| Projects.RootEntries | tableau_api/utils/flattened_dataframe.py:123-124 | at most one root entry per row |
| Projects.RootEntriesSpec | tableau_api/utils/flattened_dataframe.py:123-124 | the root entries are exactly the parentless rows' root and permissions |
| Projects.MergeRow | tableau_api/utils/flattened_dataframe.py:125 | each merged copy of a row carries the permissions of an entry with the row's root |
| Projects.MergeRowUnique | tableau_api/utils/flattened_dataframe.py:125 | with one entry per root a row is kept once with its root's permissions, or dropped when its root has none |
| Projects.MergeRowsAll | tableau_api/utils/flattened_dataframe.py:125 | when every row's root has exactly one entry, the merge keeps every row once, in place, with its root's permissions |
| Projects.MergeRowsSound | tableau_api/utils/flattened_dataframe.py:125 | every merged row is a left row with the permissions of an entry for its root |
| Projects.MergeRows | tableau_api/utils/flattened_dataframe.py:125 | the inner merge: no contract of its own; `Projects.MergeRowsSound` and `Projects.MergeRowsMatched` state which rows it keeps and with what |
| Projects.RootPermissions | tableau_api/utils/flattened_dataframe.py:122-126 | the merge fails exactly when `contentPermissions` is missing (`KeyError`) or `rootParentContentPermissions` is already a column (a clash); otherwise it adds `rootParentContentPermissions` at the end |
| Projects.RootPermissionsSound | tableau_api/utils/flattened_dataframe.py:122-126 | every merged row is a project with the `contentPermissions` of a parentless project that has the same root |
| Projects.MergeRowsKeys | tableau_api/utils/flattened_dataframe.py:125 | every merged row holds the left labels plus the new one |
| Projects.MergedValid | tableau_api/utils/flattened_dataframe.py:122-126 | the merge keeps the table well formed |
| Projects.IdsUnique | tableau_api/utils/flattened_dataframe.py:106-112 | in a forest no two rows share an id |
| Projects.RootEntriesKeys | tableau_api/utils/flattened_dataframe.py:123-124 | with unique ids, `root_projects` has one row per root id |
| Projects.RootEntriesLookup | tableau_api/utils/flattened_dataframe.py:123-125 | with unique ids, a root id meets an entry exactly when a parentless row has that id, and the entry holds that row's permissions |
| Projects.MergeRowsMatched | tableau_api/utils/flattened_dataframe.py:125 | with one entry per key, the inner merge is exactly the rows whose root has an entry, in order, each once with that entry's permissions |
| Projects.KeptProjects | tableau_api/utils/flattened_dataframe.py:122-126 | the positions of the projects under a parentless root, each once, in order |
| Projects.RootsRanked | tableau_api/utils/flattened_dataframe.py:107-120 | in a forest, `apply` of the root walk succeeds on every row, and a parentless project is its own root |
| Projects.StampedRoots | tableau_api/utils/flattened_dataframe.py:107 | after the roots are set, ids are still unique and every parentless project holds its own id as root |
| Projects.RootHasEntry | tableau_api/utils/flattened_dataframe.py:122-125 | a project's root has an entry exactly when the root has no parent at all, and then the entry is the root's permissions |
| Projects.MergedRowAt | tableau_api/utils/flattened_dataframe.py:125 | a kept merged row is its project with its root and the root's permissions |
| Projects.MergedRanked | tableau_api/utils/flattened_dataframe.py:107-126 | in a forest, the merge keeps exactly the projects under a parentless root, once each, in order, with their root and its permissions |
| Projects.FirstMissing | tableau_api/utils/flattened_dataframe.py:109 | the first requested label that is not a column, if any |
| Projects.Project | tableau_api/utils/flattened_dataframe.py:109 | `self[COLUMNS_TO_KEEP]`: `KeyError` exactly when a label is missing; otherwise exactly those columns, in that order, with the same cells |
| Projects.ProjectTable | tableau_api/utils/flattened_dataframe.py:104-109 | the projects frame has exactly `COLUMNS_TO_KEEP` and is well formed; a flattening failure is passed on |
| Projects.ProjectTableSteps | tableau_api/utils/flattened_dataframe.py:104-109 | once flattening, the walks and the merge succeed, the frame is the merge cut to `COLUMNS_TO_KEEP` |
| Projects.KeptRowFrom | tableau_api/utils/flattened_dataframe.py:109 | a kept merged row cut to `COLUMNS_TO_KEEP` keeps the date, id, name, parent, root and root permissions |
| Projects.ProjectTableSpec | tableau_api/utils/flattened_dataframe.py:104-126 | in a forest with unique ids, the projects frame succeeds and holds exactly the projects under a parentless root, once each and in input order; each has the date, its id, name and parent, its root as `rootParentProjectId`, and the root's `contentPermissions` as `rootParentContentPermissions`; every other project is dropped |
| Projects.ProjectDataFrame.Load | tableau_api/utils/flattened_dataframe.py:105 | loading keeps the table |
| Projects.ProjectDataFrame.New | tableau_api/utils/flattened_dataframe.py:104-109 | a new projects frame holds exactly `ProjectTable`'s table, or fails with its error |
| Projects.ProjectDataFrame.AddRoots | tableau_api/utils/flattened_dataframe.py:107 | the loop sets `rootParentProjectId` to every row's root, or leaves the frame as it was and reports the first failing walk |
| Items.SafeAt | tableau_api/utils/flattened_dataframe.py:137-141 | null when no project has the id (the caught `KeyError`); when exactly one has it, that project's `rootParentProjectId`, itself null when the project has none or the column is absent; a failure exactly when several projects have the id |
| Items.RootLookups | tableau_api/utils/flattened_dataframe.py:134 | one lookup per item row |
| Items.PresentFrom | tableau_api/utils/flattened_dataframe.py:135 | the rows with a value in the column, each once, in order |
| Items.KeepPresent | tableau_api/utils/flattened_dataframe.py:135 | `loc[notna()]` keeps the columns and only rows with a value |
| Items.KeepPresentSpec | tableau_api/utils/flattened_dataframe.py:135 | the kept rows are exactly the rows with a value, in their order |
| Items.KeepSetColumnSound | tableau_api/utils/flattened_dataframe.py:134-135 | after setting a column and keeping the non-null rows, every row left is an original row with a non-null new value |
| Items.KeepSetColumnComplete | tableau_api/utils/flattened_dataframe.py:134-135 | and every row given a non-null value is kept |
| Items.KeptRootedSound | tableau_api/utils/flattened_dataframe.py:134-135 | every kept item is an item whose project has a root, with that root attached |
| Items.KeptRootedComplete | tableau_api/utils/flattened_dataframe.py:134-135 | every item whose project has a root is kept |
| Items.KeptRooted | tableau_api/utils/flattened_dataframe.py:134-135 | the kept items are exactly the rooted ones |
| Items.AttachRoots | tableau_api/utils/flattened_dataframe.py:132-135 | every kept item has a root; it fails on a missing `id` column of the projects exactly when that is missing, then on a missing `project_id` column exactly when that is missing, and otherwise exactly when some row's lookup fails, with that failure |
| Items.AttachRootsSpec | tableau_api/utils/flattened_dataframe.py:132-135 | attaching the roots keeps exactly the items whose project has a root, once each and in input order, each with its root added and its other cells unchanged, under the old columns plus `rootParentProjectId` |
| Items.RootedPositions | tableau_api/utils/flattened_dataframe.py:135 | the positions of the items whose lookup found a root, each once, in order: the rows `loc[notna(), :]` keeps |
| Items.PresentPositions | tableau_api/utils/flattened_dataframe.py:135 | the `notna()` mask keeps exactly the positions of the rows with a value, in order |
| Items.KeptInOrder | tableau_api/utils/flattened_dataframe.py:134-135 | setting the looked-up roots and keeping the rows that have one gives the rooted items once each, in order, each with its root added |
| Items.ItemTable | tableau_api/utils/flattened_dataframe.py:130-135 | the items frame is the flattened items with roots attached; a flattening failure is passed on |
| Items.ItemTableSpec | tableau_api/utils/flattened_dataframe.py:130-135 | the items frame holds exactly the flattened items whose project has a root, once each and in input order, each with its root added |
| Items.ItemDataFrame.Load | tableau_api/utils/flattened_dataframe.py:131-132 | loading keeps the table and the projects table |
| Items.ItemDataFrame.New | tableau_api/utils/flattened_dataframe.py:130-135 | a new items frame holds exactly `ItemTable`'s table, or fails with its error |
| Items.ItemDataFrame.AddRoots | tableau_api/utils/flattened_dataframe.py:134 | the loop sets `rootParentProjectId` to every item's looked-up root, or leaves the frame and reports the first failure |
| Helpers.Unpack | tableau_api/utils/helpers.py:54-71 | one key holding a list gives the list; one key holding a scalar is the `TypeError`; any other key count is the "multiple messages" error with the `errors` entry and the keys |
| Helpers.Wrap | tableau_api/utils/helpers.py:54-60 | nesting a list under a path of single-key mappings |
| Helpers.SingleEntry | tableau_api/utils/helpers.py:55-56 | a one-entry mapping has exactly that key and value |
| Helpers.UnpackWrap | tableau_api/utils/helpers.py:54-60 | unpacking a list wrapped in single-key mappings gives the list back |
| Helpers.Lookup | tableau_api/utils/helpers.py:142 | `dict.get`: the value of the first entry with the key; none exactly when no entry has it |
| Json.KeyList | tableau_api/utils/helpers.py:144 | `dict.keys()`: one key per entry, in entry order |
| Helpers.LookupErrorAsWritten | tableau_api/utils/helpers.py:141-150 | as written: a message exactly when the method and the status are both known; on a known method every failure is the `AttributeError` from `None.keys()` |
| Helpers.LookupIn | tableau_api/utils/helpers.py:141-150 | corrected: a message from the method's table; `NotImplementedError` with the known methods exactly when the method is unknown; `ValueNotFoundError` with the method's statuses exactly when the status is unknown |
| Helpers.LookupError | tableau_api/utils/helpers.py:141-150 | corrected `lookup_error` on `LOOKUP_RESPONSES`: no contract of its own; it is `Helpers.LookupIn` on that table, and `Helpers.LookupErrorAgrees` relates it to the code as written |
| Helpers.LookupErrorAgrees | tableau_api/utils/helpers.py:146-148 | the two versions agree except where the written one hits `None.keys()`, exactly where the corrected one reports the unknown status |
| Helpers.LookupSignedIn | tableau_api/utils/helpers.py:21-27 | status 200 of `sign_in` is "Signed in succesfully" |
| Helpers.LookupUnknownMethod | tableau_api/utils/helpers.py:142-144 | an unknown method lists the three known methods |
| Helpers.LookupUnknownStatus | tableau_api/utils/helpers.py:146-148 | status 500 of `sign_in` fails with `None.keys()` as written, and with the list 200, 400, 401, 405 as corrected |
| Helpers.WordEnd | tableau_api/utils/helpers.py:90 | `\w+` taken greedily: the end of the run of word characters |
| Helpers.MatchAt | tableau_api/utils/helpers.py:90 | the name and extension the pattern matches at a position, and no match exactly when none exists there |
| Helpers.ExtensionAt | tableau_api/utils/helpers.py:90 | a backslash, a word run, a dot and `csv` or `xlsx` form a match |
| Helpers.NoMatchAt | tableau_api/utils/helpers.py:90 | without such a run and extension there is no match at the position |
| Helpers.MatchEnd | tableau_api/utils/helpers.py:90 | a match's name is the whole word run and is followed by the dot and the extension |
| Helpers.SearchFrom | tableau_api/utils/helpers.py:96 | `re.search` finds the leftmost match, and none exactly when no position matches |
| Helpers.ArchiveNameSpec | tableau_api/utils/helpers.py:94-97 | a file is skipped exactly when the pattern matches nowhere; otherwise its new name is the leftmost match's name, a dash, the creation date and the extension |
| Helpers.ArchiveNameParts | tableau_api/utils/helpers.py:96-97 | the new name reads back as the name, the ten-character date and the extension |
| Helpers.ArchiveName | tableau_api/utils/helpers.py:94-97 | the new file name: no contract of its own; `Helpers.ArchiveNameSpec` and `Helpers.ArchiveNameParts` state it |

## Left out

- Printing, `breakpoint()` and the warnings filter are not modelled. Neither are the unused `flattened_columns` and `newly_added_columns`, which only feed the printout (flattened_dataframe.py:20, 45-50).
- The pandas index is not modelled; a row's position stands for it. `set_index("id")` is modelled only through lookups by the `id` column.
- `re_inititialize_super_class` rebuilds the frame from `.values`. Here it is the reassignment of `cols` and `rows`: dtypes and the index are not modelled.
- NaN and `None` are both `Null`. A float cell that is not missing is `Float`, typed `float`. numpy scalars are not modelled: a `float64` cell would be typed `'float64'`, which is not in the whitelist at flattened_dataframe.py:23, so the `for` loop would raise `NotImplementedError` on reaching it while a nested column remains.
- `Flatten.ExpandList`: a list element that is not a mapping is the `NotAMapping` error. When the list's first element is a mapping, this is the program's own behaviour: `pd.DataFrame(list_dict, …)` at flattened_dataframe.py:97 then reads the list as records and calls `.keys()` on every element, so a later `None`, string or number raises `AttributeError`. The model departs from pandas only for a list whose first element is not a mapping, where pandas would make positional columns (`<column>_0`, …).
- `Flatten.ExpandDict`: a new label that clashes with an existing column is the `DuplicateColumn` error. `pd.concat(axis=1)` at flattened_dataframe.py:28 would allow the duplicate label. (For `Flatten.ExpandList` the same error is the program's own behaviour: `DataFrame.join` at flattened_dataframe.py:34 has no suffixes, so pandas raises `ValueError` on overlapping columns.)
- `Json.Get`: a mapping with a repeated key is read through its first entry. Python's `json` keeps the last value. Mappings parsed from JSON are assumed free of repeated keys.
- `Projects.ParentOf`: an id held by several rows is `DuplicateId`. pandas' `.at` would not return a single value there.
- `Items.SafeAt`: the same for an id held by several projects.
- `Projects.Walk`: the `RecursionError` of a cyclic parent chain is the `Cycle` error, found through a visited set rather than the stack depth.
- `Projects.RootPermissions`: no loop; the merge is a function over the rows. The row index the merge resets is not modelled.
- `Projects.RootPermissions`: a `rootParentContentPermissions` column that already exists is the `ColumnClash` error. pandas would instead suffix the two columns `_x` and `_y`, and `self[COLUMNS_TO_KEEP]` (flattened_dataframe.py:109) would then raise `KeyError`.
- `Projects.MergeRows`: the inner merge keeps the left rows in their order, as pandas documents from version 2.2. Earlier versions could order an inner merge's rows by key.
- `Projects.ProjectTableSpec`: the full promise is stated for a forest with unique ids (`Ranked`). Otherwise the walk's errors (`UnknownProject`, `DuplicateId`, `Cycle`) apply, as `Projects.ParentOf`, `Projects.SelfParentCycle` and `Projects.ProjectTable` state.
- `Projects.ProjectTable`, `Items.AttachRoots`: the columns `apply` reads are checked up front. On an empty table, pandas would not read them.
- `Helpers.WordEnd`: `\w` is ASCII letters, digits and `_`. Python's `\w` also matches other Unicode letters.
- `Tables.FormatDate`: only years 1000 to 9999 are represented.
- Moving files, listing the folder and creating folders in `move_to_historiek`, `move_file_to`, `create_folder`: file-system I/O. Only the archive name is modelled.
- The rest of helpers.py (credentials prompts, database and server connections, `convert_query`, the Excel export) is I/O and is not part of this model.

## Findings

| source | as written | input that shows it | evidently intended | confidence | as-written member | corrected member |
|---|---|---|---|---|---|---|
| tableau_api/utils/helpers.py:146-148 | on an unknown status, the message calls `.keys()` on `method_status`, which is `None` there, so an `AttributeError` is raised instead of `ValueNotFoundError` | `lookup_error("sign_in", 500)` | raise `ValueNotFoundError` listing the method's status codes (`method_statuses.keys()`) | not executed | Helpers.LookupErrorAsWritten | Helpers.LookupIn |
