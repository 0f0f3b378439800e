/** The value-level specification of `FlattenedDataFrame.flatten`: one pass
    expands the first column classified `dict` (into one column per key) or
    `list` (into one row per element), and passes repeat until no column is
    classified `dict` or `list`. */
module Flatten {
  import opened Json
  import opened Outcomes
  import opened Tables

  /** Why flattening stops without a result. */
  datatype Error =
    /** `NotImplementedError`: the first column `flatten` cannot pass over is
        neither a mapping nor a list column. */
    | NotImplemented(typeName: string, column: string)
    /** A mapping column holds a cell that is not a mapping: pandas fails on
        it (`AttributeError` on `.keys()`); also a list element that is not a
        mapping. */
    | NotAMapping(column: string)
    /** `IndexError`: a mapping column has null cells and its first mapping
        has no key to stand in for them. */
    | NoKeyForNulls(column: string)
    /** `ValueError` of `pd.concat([])`: a list column without any list. */
    | NothingToConcatenate(column: string)
    /** Expanding the column yields a label the table already has. */
    | DuplicateColumn(column: string)

  /** The label `add_prefix(f"{c}_")` gives key `k`. */
  function Prefixed(c: string, k: string): string {
    c + "_" + k
  }

  function Names(c: string, ks: seq<string>): (r: seq<string>)
    ensures |r| == |ks| && forall i :: 0 <= i < |ks| ==> r[i] == Prefixed(c, ks[i])
  {
    if |ks| == 0 then [] else [Prefixed(c, ks[0])] + Names(c, ks[1..])
  }

  lemma PrefixedInjective(c: string, k1: string, k2: string)
    requires Prefixed(c, k1) == Prefixed(c, k2)
    ensures k1 == k2
  {
    assert k1 == Prefixed(c, k1)[|c| + 1..];
    assert k2 == Prefixed(c, k2)[|c| + 1..];
  }

  lemma NamesDistinct(c: string, ks: seq<string>)
    requires Distinct(ks)
    ensures Distinct(Names(c, ks))
  {
    var r := Names(c, ks);
    forall i, j | 0 <= i < j < |r| ensures r[i] != r[j] {
      if r[i] == r[j] {
        PrefixedInjective(c, ks[i], ks[j]);
      }
    }
  }

  /** The mapping a cell stands for: its entries when it is one, none
      otherwise. */
  function FieldsOf(v: Value): seq<(string, Value)> {
    if v.Obj? then v.fields else []
  }

  /** The new cells one mapping contributes: `<c>_<k>` holds its value for key
      `k`, or null when it lacks `k`. */
  function NewCells(c: string, ks: seq<string>, fields: seq<(string, Value)>): (m: Row)
    ensures m.Keys == ColSet(Names(c, ks))
    ensures forall k :: k in ks ==> Prefixed(c, k) in m && m[Prefixed(c, k)] == Get(fields, k)
  {
    var names := Names(c, ks);
    var m := map n | n in names && |c| < |n| :: Get(fields, n[|c| + 1..]);
    assert forall k :: k in ks ==> Prefixed(c, k) in names && Prefixed(c, k)[|c| + 1..] == k;
    m
  }

  /** A row without column `c`, extended with the cells one mapping gives. */
  function Attach(base: Row, c: string, ks: seq<string>, fields: seq<(string, Value)>): Row {
    base + NewCells(c, ks, fields)
  }

  /** The keys of the mappings in column `c`, row after row, repeats included. */
  function AllKeys(rows: seq<Row>, c: string): (r: seq<string>)
    ensures forall k :: k in r <==> exists i :: 0 <= i < |rows| && k in KeyList(FieldsOf(Cell(rows[i], c)))
  {
    if |rows| == 0 then []
    else
      var rest := AllKeys(rows[1..], c);
      assert forall i :: 1 <= i < |rows| ==> rows[1..][i - 1] == rows[i];
      KeyList(FieldsOf(Cell(rows[0], c))) + rest
  }

  // ---------------------------------------------------------------- mappings

  /** A null cell of the mapping column rewritten to `{key: NaN}`. */
  function FillRows(rows: seq<Row>, c: string, key: string): (r: seq<Row>)
    ensures |r| == |rows|
  {
    seq(|rows|, i requires 0 <= i < |rows| =>
      if Cell(rows[i], c) == Null then rows[i][c := Obj([(key, Null)])] else rows[i])
  }

  /** The first step of `_flatten_dict`: when the column has null cells, each
      becomes a mapping from the first key of the first mapping to null. */
  function FillNulls(t: Table, c: string): (r: Result<Table, Error>)
    requires ColumnType(t, c) == "dict"
    ensures (forall i :: 0 <= i < |t.rows| ==> Cell(t.rows[i], c) != Null) ==> r.Ok? && r.value == t
    ensures r.Ok? ==> r.value.cols == t.cols && |r.value.rows| == |t.rows|
    ensures r.Ok? ==> forall i :: 0 <= i < |t.rows| && c in t.rows[i] ==> r.value.rows[i].Keys == t.rows[i].Keys
    ensures r.Ok? ==> forall i, x :: 0 <= i < |t.rows| && x != c ==> Cell(r.value.rows[i], x) == Cell(t.rows[i], x)
    ensures r.Ok? ==> forall i :: 0 <= i < |t.rows| && Cell(t.rows[i], c) != Null
                                 ==> Cell(r.value.rows[i], c) == Cell(t.rows[i], c)
    ensures r.Ok? ==> forall i :: 0 <= i < |t.rows| && Cell(t.rows[i], c) == Null
                                 ==> exists key :: Cell(r.value.rows[i], c) == Obj([(key, Null)])
    ensures r.Ok? && (exists i :: 0 <= i < |t.rows| && Cell(t.rows[i], c) == Null) ==>
              var first := Cell(t.rows[FirstValid(t.rows, c).value], c);
              && first.Obj? && |first.fields| > 0
              && forall i :: 0 <= i < |t.rows| && Cell(t.rows[i], c) == Null
                             ==> Cell(r.value.rows[i], c) == Obj([(first.fields[0].0, Null)])
  {
    if forall i :: 0 <= i < |t.rows| ==> Cell(t.rows[i], c) != Null then Ok(t)
    else
      var first := Cell(t.rows[FirstValid(t.rows, c).value], c);
      if !first.Obj? then Err(NotAMapping(c))
      else if |first.fields| == 0 then Err(NoKeyForNulls(c))
      else Ok(Table(t.cols, FillRows(t.rows, c, first.fields[0].0)))
  }

  /** The keys a mapping pass turns into columns: each key once, in order of
      first appearance. */
  function DictKeys(t: Table, c: string): (ks: seq<string>)
    ensures Distinct(ks)
  {
    assert Distinct<string>([]);
    Union([], AllKeys(t.rows, c))
  }

  /** `pd.DataFrame(column.tolist()).add_prefix(f"{c}_")`: one row per row,
      one column per key in order of first appearance. */
  function DictReplacement(t: Table, c: string): (r: Result<Table, Error>)
    ensures r.Ok? ==> |r.value.rows| == |t.rows|
  {
    if exists i :: 0 <= i < |t.rows| && !Cell(t.rows[i], c).Obj? then Err(NotAMapping(c))
    else
      var ks := DictKeys(t, c);
      Ok(Table(Names(c, ks),
               seq(|t.rows|, i requires 0 <= i < |t.rows| => NewCells(c, ks, FieldsOf(Cell(t.rows[i], c))))))
  }

  /** `pd.concat([df without c, repl], axis=1)`, the two aligned on the row
      index. */
  function ConcatColumns(t: Table, c: string, repl: Table): (r: Result<Table, Error>)
    requires |repl.rows| == |t.rows|
  {
    var others := Without(t.cols, c);
    if exists n :: n in repl.cols && n in others then Err(DuplicateColumn(c))
    else Ok(Table(others + repl.cols,
                  seq(|t.rows|, i requires 0 <= i < |t.rows| => (t.rows[i] - {c}) + repl.rows[i])))
  }

  /** One pass over a column classified `dict`. */
  function ExpandDict(t: Table, c: string): (r: Result<Table, Error>)
    requires ColumnType(t, c) == "dict"
    ensures r.Err? ==> r.error in {NotAMapping(c), NoKeyForNulls(c), DuplicateColumn(c)}
  {
    match FillNulls(t, c)
    case Err(e) => Err(e)
    case Ok(filled) =>
      match DictReplacement(filled, c)
      case Err(e) => Err(e)
      case Ok(repl) => ConcatColumns(filled, c, repl)
  }

  /** A stepping stone that unfolds `ExpandDict` once, so that later lemmas
      need not: when a mapping pass succeeds, every cell of the filled column
      is a mapping, no new label clashes with a kept one, and the result is
      the kept columns followed by one column per key, each row extended with
      its mapping's values. */
  lemma ExpandDictSteps(t: Table, c: string)
    requires ColumnType(t, c) == "dict" && ExpandDict(t, c).Ok?
    ensures FillNulls(t, c).Ok?
    ensures var t1 := FillNulls(t, c).value;
      var ks := DictKeys(t1, c);
      && (forall i :: 0 <= i < |t1.rows| ==> Cell(t1.rows[i], c).Obj?)
      && (forall n :: n in Names(c, ks) ==> n !in Without(t.cols, c))
      && ExpandDict(t, c).value.cols == Without(t.cols, c) + Names(c, ks)
      && |ExpandDict(t, c).value.rows| == |t.rows|
      && forall i :: 0 <= i < |t.rows| ==>
           ExpandDict(t, c).value.rows[i] == Attach(t1.rows[i] - {c}, c, ks, FieldsOf(Cell(t1.rows[i], c)))
  {
  }

  /** A filled null cell reads, key by key, like the null it replaced. */
  lemma FilledGet(key: string, k: string)
    ensures Get([(key, Null)], k) == Get([], k) == Null
  {
  }

  /** The keys a mapping pass turns into columns are those of the column's
      mappings, before or after the null fill. */
  lemma DictKeysSpec(t: Table, c: string)
    requires ColumnType(t, c) == "dict" && FillNulls(t, c).Ok?
    ensures forall k :: k in DictKeys(FillNulls(t, c).value, c) <==>
                          exists i :: 0 <= i < |t.rows| && k in KeyList(FieldsOf(Cell(t.rows[i], c)))
  {
    var t1 := FillNulls(t, c).value;
    forall k | k in AllKeys(t1.rows, c) ensures k in AllKeys(t.rows, c) {
      var i :| 0 <= i < |t1.rows| && k in KeyList(FieldsOf(Cell(t1.rows[i], c)));
      if Cell(t.rows[i], c) == Null {
        var f := FirstValid(t.rows, c).value;
        assert k in KeyList(FieldsOf(Cell(t.rows[f], c)));
      }
    }
  }

  lemma KeptCell(row: Row, c: string, ks: seq<string>, fields: seq<(string, Value)>, x: string)
    requires x != c && x !in Names(c, ks)
    ensures Cell(Attach(row - {c}, c, ks, fields), x) == Cell(row, x)
  {
    AttachSpec(row - {c}, c, ks, fields);
  }

  /** After a mapping pass, every row keeps its cells in the other columns. */
  lemma ExpandDictKept(t: Table, c: string)
    requires ColumnType(t, c) == "dict" && ExpandDict(t, c).Ok?
    ensures var r := ExpandDict(t, c).value;
      && |r.rows| == |t.rows|
      && forall i, x :: 0 <= i < |t.rows| && x in Without(t.cols, c) ==> Cell(r.rows[i], x) == Cell(t.rows[i], x)
  {
    ExpandDictSteps(t, c);
    var t1 := FillNulls(t, c).value;
    var ks := DictKeys(t1, c);
    var r := ExpandDict(t, c).value;
    forall i, x | 0 <= i < |t.rows| && x in Without(t.cols, c)
      ensures Cell(r.rows[i], x) == Cell(t.rows[i], x)
    {
      assert x != c && x !in Names(c, ks);
      KeptCell(t1.rows[i], c, ks, FieldsOf(Cell(t1.rows[i], c)), x);
    }
  }

  /** After a mapping pass, column `<c>_<k>` of every row holds its mapping's
      value for `k`, or null when the mapping lacks `k` or the cell was
      null. */
  lemma ExpandDictNew(t: Table, c: string)
    requires ColumnType(t, c) == "dict" && ExpandDict(t, c).Ok?
    ensures FillNulls(t, c).Ok?
    ensures var r := ExpandDict(t, c).value;
      var ks := DictKeys(FillNulls(t, c).value, c);
      && |r.rows| == |t.rows|
      && forall i, k :: 0 <= i < |t.rows| && k in ks ==>
                          Cell(r.rows[i], Prefixed(c, k)) == Get(FieldsOf(Cell(t.rows[i], c)), k)
  {
    ExpandDictSteps(t, c);
    var t1 := FillNulls(t, c).value;
    var ks := DictKeys(t1, c);
    forall i, k | 0 <= i < |t.rows| && k in ks
      ensures Cell(ExpandDict(t, c).value.rows[i], Prefixed(c, k)) == Get(FieldsOf(Cell(t.rows[i], c)), k)
    {
      AttachSpec(t1.rows[i] - {c}, c, ks, FieldsOf(Cell(t1.rows[i], c)));
      if Cell(t.rows[i], c) == Null {
        var key :| Cell(t1.rows[i], c) == Obj([(key, Null)]);
        FilledGet(key, k);
      }
    }
  }

  /** The keys of a mapping pass, each once, in order of first appearance
      among the keys of the filled column. */
  lemma DictKeysOrder(t: Table, c: string)
    ensures var keys := AllKeys(t.rows, c);
      var ks := DictKeys(t, c);
      forall i, j :: 0 <= i < j < |ks| ==> ks[i] in keys && ks[j] in keys && IndexOf(keys, ks[i]) < IndexOf(keys, ks[j])
  {
    assert Distinct<string>([]);
    UnionOrder([], AllKeys(t.rows, c));
    assert DictKeys(t, c) == Union([], AllKeys(t.rows, c));
  }

  /** A mapping pass drops column `c`, keeps the other columns in their order
      and appends one column `<c>_<k>` per key of the column's mappings, in
      order of first appearance after the null fill. */
  lemma ExpandDictColumns(t: Table, c: string)
    requires ColumnType(t, c) == "dict" && ExpandDict(t, c).Ok?
    ensures FillNulls(t, c).Ok?
    ensures var r := ExpandDict(t, c).value;
      var keys := AllKeys(FillNulls(t, c).value.rows, c);
      var ks := DictKeys(FillNulls(t, c).value, c);
      && r.cols == Without(t.cols, c) + Names(c, ks)
      && (forall k :: k in ks <==> exists i :: 0 <= i < |t.rows| && k in KeyList(FieldsOf(Cell(t.rows[i], c))))
      && (forall i, j :: 0 <= i < j < |ks| ==> ks[i] in keys && ks[j] in keys && IndexOf(keys, ks[i]) < IndexOf(keys, ks[j]))
  {
    ExpandDictSteps(t, c);
    DictKeysSpec(t, c);
    DictKeysOrder(FillNulls(t, c).value, c);
  }

  /** Every cell of column `c` is a mapping or null. */
  ghost predicate MappingsOrNulls(t: Table, c: string) {
    forall i :: 0 <= i < |t.rows| ==> Cell(t.rows[i], c).Obj? || Cell(t.rows[i], c) == Null
  }

  /** When column `c` has a null, its first non-null mapping has a key to
      fill the null with. */
  ghost predicate NullsHaveKey(t: Table, c: string) {
    (exists i :: 0 <= i < |t.rows| && Cell(t.rows[i], c) == Null) ==>
      FirstValid(t.rows, c).Some? && |FieldsOf(Cell(t.rows[FirstValid(t.rows, c).value], c))| > 0
  }

  /** No key of a mapping in column `c` names, prefixed, a column kept beside
      the new ones. */
  ghost predicate PrefixedFree(t: Table, c: string) {
    forall i, k :: 0 <= i < |t.rows| && k in KeyList(FieldsOf(Cell(t.rows[i], c))) ==>
      Prefixed(c, k) !in Without(t.cols, c)
  }

  lemma ExpandDictNeeds(t: Table, c: string)
    requires ColumnType(t, c) == "dict" && ExpandDict(t, c).Ok?
    ensures MappingsOrNulls(t, c) && NullsHaveKey(t, c) && PrefixedFree(t, c)
  {
    ExpandDictSteps(t, c);
    DictKeysSpec(t, c);
    var t1 := FillNulls(t, c).value;
    var ks := DictKeys(t1, c);
    forall i | 0 <= i < |t.rows| ensures Cell(t.rows[i], c).Obj? || Cell(t.rows[i], c) == Null {
      if Cell(t.rows[i], c) != Null {
        assert Cell(t1.rows[i], c) == Cell(t.rows[i], c);
      }
    }
    forall i, k | 0 <= i < |t.rows| && k in KeyList(FieldsOf(Cell(t.rows[i], c)))
      ensures Prefixed(c, k) !in Without(t.cols, c)
    {
      assert k in ks;
      var j :| 0 <= j < |ks| && ks[j] == k;
      assert Names(c, ks)[j] == Prefixed(c, k);
    }
  }

  lemma ExpandDictSucceedsWhen(t: Table, c: string)
    requires ColumnType(t, c) == "dict"
    requires MappingsOrNulls(t, c) && NullsHaveKey(t, c) && PrefixedFree(t, c)
    ensures ExpandDict(t, c).Ok?
  {
    assert FillNulls(t, c).Ok?;
    DictKeysSpec(t, c);
    var t1 := FillNulls(t, c).value;
    var ks := DictKeys(t1, c);
    forall i | 0 <= i < |t1.rows| ensures Cell(t1.rows[i], c).Obj? {
      if Cell(t.rows[i], c) == Null {
        var key :| Cell(t1.rows[i], c) == Obj([(key, Null)]);
      }
    }
    assert DictReplacement(t1, c).Ok?;
    var repl := DictReplacement(t1, c).value;
    forall n | n in repl.cols ensures n !in Without(t.cols, c) {
      var j :| 0 <= j < |ks| && Names(c, ks)[j] == n;
      assert ks[j] in ks;
      var i :| 0 <= i < |t.rows| && ks[j] in KeyList(FieldsOf(Cell(t.rows[i], c)));
    }
  }

  /** A mapping pass fails exactly when some cell is neither a mapping nor
      null, when a null meets a first mapping without keys, or when a
      prefixed key names a kept column. */
  lemma ExpandDictSucceeds(t: Table, c: string)
    requires ColumnType(t, c) == "dict"
    ensures ExpandDict(t, c).Ok? <==> MappingsOrNulls(t, c) && NullsHaveKey(t, c) && PrefixedFree(t, c)
  {
    if ExpandDict(t, c).Ok? {
      ExpandDictNeeds(t, c);
    } else if MappingsOrNulls(t, c) && NullsHaveKey(t, c) && PrefixedFree(t, c) {
      ExpandDictSucceedsWhen(t, c);
    }
  }

  // ------------------------------------------------------------------- lists

  /** What `_flatten_list` collects in `list_dfs`: for every row whose cell is
      a list, the row index with the list's elements. */
  function ListParts(rows: seq<Row>, c: string): (parts: seq<(nat, seq<Value>)>)
    ensures forall p :: p in parts ==> p.0 < |rows| && Cell(rows[p.0], c) == Arr(p.1)
    ensures forall i :: 0 <= i < |rows| && Cell(rows[i], c).Arr? ==> (i, Cell(rows[i], c).items) in parts
    ensures forall k, l :: 0 <= k < l < |parts| ==> parts[k].0 < parts[l].0
  {
    if |rows| == 0 then []
    else
      var n := |rows| - 1;
      var prev := ListParts(rows[..n], c);
      assert forall i :: 0 <= i < n ==> rows[..n][i] == rows[i];
      match Cell(rows[n], c)
      case Arr(items) => prev + [(n, items)]
      case _ => prev
  }

  /** The keys of all list elements, part after part, repeats included. */
  function ItemsKeys(items: seq<Value>): (r: seq<string>)
    ensures forall k :: k in r <==> exists j :: 0 <= j < |items| && k in KeyList(FieldsOf(items[j]))
  {
    if |items| == 0 then []
    else
      assert forall j :: 1 <= j < |items| ==> items[1..][j - 1] == items[j];
      KeyList(FieldsOf(items[0])) + ItemsKeys(items[1..])
  }

  function PartsKeys(parts: seq<(nat, seq<Value>)>): (r: seq<string>)
    ensures forall k :: k in r <==> exists p :: p in parts && k in ItemsKeys(p.1)
  {
    if |parts| == 0 then []
    else
      assert forall p :: p in parts ==> p == parts[0] || p in parts[1..];
      ItemsKeys(parts[0].1) + PartsKeys(parts[1..])
  }

  /** The rows the left join gives one input row: one per element of a
      non-empty list cell, otherwise the row once with nulls in the new
      columns. */
  function Explode(row: Row, c: string, ks: seq<string>): (r: seq<Row>)
    ensures 1 <= |r|
  {
    var v := Cell(row, c);
    seq(Copies(v), j requires 0 <= j < Copies(v) => Attach(row - {c}, c, ks, ItemFields(v, j)))
  }

  /** The fields copy `j` of a row receives: those of the list's element `j`,
      none when the cell is not a non-empty list. */
  function ItemFields(v: Value, j: nat): seq<(string, Value)> {
    if v.Arr? && j < |v.items| then FieldsOf(v.items[j]) else []
  }

  /** A stepping stone that unfolds `Explode` once: the copies it makes, one
      by one. */
  lemma ExplodeCopies(row: Row, c: string, ks: seq<string>)
    ensures var r := Explode(row, c, ks);
      && |r| == Copies(Cell(row, c))
      && forall j :: 0 <= j < |r| ==> r[j] == Attach(row - {c}, c, ks, ItemFields(Cell(row, c), j))
  {
  }

  /** One copy: column `c` gone, the other cells kept, `<c>_<k>` from `fields`. */
  lemma CopySpec(row: Row, c: string, ks: seq<string>, fields: seq<(string, Value)>)
    ensures var r := Attach(row - {c}, c, ks, fields);
      && r.Keys == (row.Keys - {c}) + ColSet(Names(c, ks))
      && Cell(r, c) == Null
      && (forall x :: x != c && x !in Names(c, ks) ==> Cell(r, x) == Cell(row, x))
      && (forall k :: k in ks ==> Cell(r, Prefixed(c, k)) == Get(fields, k))
  {
    AttachSpec(row - {c}, c, ks, fields);
    assert c !in ColSet(Names(c, ks)) by {
      forall n | n in Names(c, ks) ensures n != c {
        assert |n| > |c|;
      }
    }
  }

  lemma ExplodeCount(row: Row, c: string, ks: seq<string>)
    ensures |Explode(row, c, ks)| == Copies(Cell(row, c))
  {
    ExplodeCopies(row, c, ks);
  }

  /** The left join keeps a row once per element of its non-empty list, and
      any other row once. Every copy drops column `c`, keeps the row's other
      cells, and holds in `<c>_<k>` the value its element has for `k`: null
      when the element lacks `k` or the row has no non-empty list. */
  lemma ExplodeSpec(row: Row, c: string, ks: seq<string>)
    ensures var r := Explode(row, c, ks);
      var v := Cell(row, c);
      && |r| == (if v.Arr? && |v.items| > 0 then |v.items| else 1)
      && (forall j :: 0 <= j < |r| ==> r[j].Keys == (row.Keys - {c}) + ColSet(Names(c, ks)) && Cell(r[j], c) == Null)
      && (forall j, x :: 0 <= j < |r| && x != c && x !in Names(c, ks) ==> Cell(r[j], x) == Cell(row, x))
      && (forall j, k :: 0 <= j < |r| && k in ks ==>
            Cell(r[j], Prefixed(c, k)) == if v.Arr? && |v.items| > 0 then Get(FieldsOf(v.items[j]), k) else Null)
  {
    var r := Explode(row, c, ks);
    var v := Cell(row, c);
    ExplodeCopies(row, c, ks);
    forall j | 0 <= j < |r|
      ensures r[j].Keys == (row.Keys - {c}) + ColSet(Names(c, ks)) && Cell(r[j], c) == Null
      ensures forall x :: x != c && x !in Names(c, ks) ==> Cell(r[j], x) == Cell(row, x)
      ensures forall k :: k in ks ==>
                Cell(r[j], Prefixed(c, k)) == if v.Arr? && |v.items| > 0 then Get(FieldsOf(v.items[j]), k) else Null
    {
      CopySpec(row, c, ks, ItemFields(v, j));
    }
  }

  function ExplodeRows(rows: seq<Row>, c: string, ks: seq<string>): seq<Row> {
    if |rows| == 0 then [] else Explode(rows[0], c, ks) + ExplodeRows(rows[1..], c, ks)
  }

  /** `df without c` left-joined with `pd.concat(list_dfs)` on the row index. */
  function JoinList(t: Table, c: string, parts: seq<(nat, seq<Value>)>): Result<Table, Error> {
    if |parts| == 0 then Err(NothingToConcatenate(c))
    else if exists p, x :: p in parts && x in p.1 && !x.Obj? then Err(NotAMapping(c))
    else
      var ks := Union([], PartsKeys(parts));
      var names := Names(c, ks);
      var others := Without(t.cols, c);
      if exists n :: n in names && n in others then Err(DuplicateColumn(c))
      else Ok(Table(others + names, ExplodeRows(t.rows, c, ks)))
  }

  /** The keys a list pass turns into columns: each element key once, in
      order of first appearance. */
  function ListKeys(t: Table, c: string): (ks: seq<string>)
    ensures Distinct(ks)
  {
    assert Distinct<string>([]);
    Union([], PartsKeys(ListParts(t.rows, c)))
  }

  /** One pass over a column classified `list`. */
  function ExpandList(t: Table, c: string): (r: Result<Table, Error>)
    ensures r.Err? ==> r.error in {NothingToConcatenate(c), NotAMapping(c), DuplicateColumn(c)}
  {
    JoinList(t, c, ListParts(t.rows, c))
  }

  /** When a list pass succeeds, some row holds a list, every element is a
      mapping, no new label clashes with a kept one, and the result is the
      kept columns followed by one column per element key, over the exploded
      rows. */
  lemma ExpandListSpec(t: Table, c: string)
    requires ExpandList(t, c).Ok?
    ensures var ks := ListKeys(t, c);
      && (exists i :: 0 <= i < |t.rows| && Cell(t.rows[i], c).Arr?)
      && (forall i :: 0 <= i < |t.rows| && Cell(t.rows[i], c).Arr? ==>
                        forall x :: x in Cell(t.rows[i], c).items ==> x.Obj?)
      && (forall n :: n in Names(c, ks) ==> n !in Without(t.cols, c))
      && ExpandList(t, c).value == Table(Without(t.cols, c) + Names(c, ks), ExplodeRows(t.rows, c, ks))
  {
    var parts := ListParts(t.rows, c);
    assert parts[0] in parts;
    forall i | 0 <= i < |t.rows| && Cell(t.rows[i], c).Arr?
      ensures forall x :: x in Cell(t.rows[i], c).items ==> x.Obj?
    {
      assert (i, Cell(t.rows[i], c).items) in parts;
    }
  }

  /** A row extended by `Attach` keeps its cells outside the new columns and
      holds, in column `<c>_<k>`, the mapping's value for `k` or null. */
  lemma AttachSpec(base: Row, c: string, ks: seq<string>, fields: seq<(string, Value)>)
    ensures var r := Attach(base, c, ks, fields);
      && r.Keys == base.Keys + ColSet(Names(c, ks))
      && (forall x :: x !in ColSet(Names(c, ks)) ==> Cell(r, x) == Cell(base, x))
      && (forall k :: k in ks ==> Cell(r, Prefixed(c, k)) == Get(fields, k))
  {
  }

  lemma {:induction false} ExplodeRowsCons(rows: seq<Row>, c: string, ks: seq<string>)
    requires |rows| > 0
    ensures ExplodeRows(rows, c, ks) == Explode(rows[0], c, ks) + ExplodeRows(rows[1..], c, ks)
  {
  }

  lemma {:induction false} ExplodeRowsSplit(rows: seq<Row>, c: string, ks: seq<string>, i: nat)
    requires i <= |rows|
    ensures ExplodeRows(rows, c, ks) == ExplodeRows(rows[..i], c, ks) + ExplodeRows(rows[i..], c, ks)
  {
    if i > 0 {
      var pre, rest := rows[..i], rows[1..];
      var head := Explode(rows[0], c, ks);
      ExplodeRowsSplit(rest, c, ks, i - 1);
      assert rest[..i - 1] == pre[1..] && rest[i - 1..] == rows[i..] && pre[0] == rows[0];
      var mid := ExplodeRows(pre[1..], c, ks);
      var tail := ExplodeRows(rows[i..], c, ks);
      ExplodeRowsCons(rows, c, ks);
      ExplodeRowsCons(pre, c, ks);
      ConcatAssoc(head, mid, tail);
    } else {
      assert rows[..0] == [] && rows[0..] == rows;
    }
  }

  lemma {:induction false} ExplodeRowsFrom(rows: seq<Row>, c: string, ks: seq<string>, i: nat)
    requires i < |rows|
    ensures ExplodeRows(rows[i..], c, ks) == Explode(rows[i], c, ks) + ExplodeRows(rows[i + 1..], c, ks)
  {
    assert rows[i..][0] == rows[i];
    assert rows[i..][1..] == rows[i + 1..];
  }

  /** In list order: the rows input row `i` becomes sit together in the
      result, after those of the rows before it. */
  lemma {:induction false} ExplodeRowsAt(rows: seq<Row>, c: string, ks: seq<string>, i: nat)
    requires i < |rows|
    ensures var off := |ExplodeRows(rows[..i], c, ks)|;
      var e := Explode(rows[i], c, ks);
      off + |e| <= |ExplodeRows(rows, c, ks)| && ExplodeRows(rows, c, ks)[off..off + |e|] == e
  {
    var a := ExplodeRows(rows[..i], c, ks);
    var e := Explode(rows[i], c, ks);
    var rest := ExplodeRows(rows[i + 1..], c, ks);
    ExplodeRowsSplit(rows, c, ks, i);
    ExplodeRowsFrom(rows, c, ks, i);
    MiddleSlice(a, e, rest);
  }

  lemma ConcatAssoc<T>(a: seq<T>, b: seq<T>, c: seq<T>)
    ensures a + (b + c) == (a + b) + c
  {
    assert forall j :: 0 <= j < |a| + |b| + |c| ==> (a + (b + c))[j] == ((a + b) + c)[j];
  }

  lemma MiddleSlice<T>(a: seq<T>, e: seq<T>, rest: seq<T>)
    ensures |a| + |e| <= |a + (e + rest)| && (a + (e + rest))[|a|..|a| + |e|] == e
  {
    var all := a + (e + rest);
    assert forall j :: 0 <= j < |e| ==> all[|a| + j] == e[j];
  }

  /** How many rows one input row becomes: the length of a non-empty list,
      one otherwise. */
  function Copies(v: Value): nat {
    if v.Arr? && |v.items| > 0 then |v.items| else 1
  }

  function CopiesSum(rows: seq<Row>, c: string): nat {
    if |rows| == 0 then 0 else Copies(Cell(rows[0], c)) + CopiesSum(rows[1..], c)
  }

  lemma {:induction false} ExplodeRowsCount(rows: seq<Row>, c: string, ks: seq<string>)
    ensures |ExplodeRows(rows, c, ks)| == CopiesSum(rows, c) >= |rows|
  {
    if |rows| > 0 {
      ExplodeCopies(rows[0], c, ks);
      ExplodeRowsCount(rows[1..], c, ks);
    }
  }

  /** The keys of a list pass are those of the list elements, each once, in
      order of first appearance. */
  lemma ListKeysOrder(t: Table, c: string)
    ensures var keys := PartsKeys(ListParts(t.rows, c));
      var ks := ListKeys(t, c);
      && (forall k :: k in ks <==> k in keys)
      && forall i, j :: 0 <= i < j < |ks| ==> ks[i] in keys && ks[j] in keys && IndexOf(keys, ks[i]) < IndexOf(keys, ks[j])
  {
    assert Distinct<string>([]);
    UnionOrder([], PartsKeys(ListParts(t.rows, c)));
    assert ListKeys(t, c) == Union([], PartsKeys(ListParts(t.rows, c)));
  }

  /** A list pass drops column `c`, keeps the other columns in their order
      and appends one column `<c>_<k>` per key of the list elements, in order
      of first appearance; each row becomes as many rows as `Copies` says. */
  lemma ExpandListShape(t: Table, c: string)
    requires ExpandList(t, c).Ok?
    ensures var r := ExpandList(t, c).value;
      var keys := PartsKeys(ListParts(t.rows, c));
      var ks := ListKeys(t, c);
      && r.cols == Without(t.cols, c) + Names(c, ks)
      && (forall k :: k in ks <==> k in keys)
      && (forall i, j :: 0 <= i < j < |ks| ==> ks[i] in keys && ks[j] in keys && IndexOf(keys, ks[i]) < IndexOf(keys, ks[j]))
      && r.rows == ExplodeRows(t.rows, c, ks)
      && |r.rows| == CopiesSum(t.rows, c) >= |t.rows|
  {
    ExpandListSpec(t, c);
    ListKeysOrder(t, c);
    ExplodeRowsCount(t.rows, c, ListKeys(t, c));
  }

  /** Some row of column `c` holds a list. */
  ghost predicate HasList(t: Table, c: string) {
    exists i :: 0 <= i < |t.rows| && Cell(t.rows[i], c).Arr?
  }

  /** Every element of every list in column `c` is a mapping. */
  ghost predicate ElementsMappings(t: Table, c: string) {
    forall i, x :: 0 <= i < |t.rows| && Cell(t.rows[i], c).Arr? && x in Cell(t.rows[i], c).items ==> x.Obj?
  }

  /** No key of a list element in column `c` names, prefixed, a column kept
      beside the new ones. */
  ghost predicate ElementKeysFree(t: Table, c: string) {
    forall i, x, k ::
      0 <= i < |t.rows| && Cell(t.rows[i], c).Arr? && x in Cell(t.rows[i], c).items && k in KeyList(FieldsOf(x))
      ==> Prefixed(c, k) !in Without(t.cols, c)
  }

  /** The keys of a list pass are exactly those of the elements of the
      column's lists. */
  lemma ListKeysSpec(t: Table, c: string)
    ensures forall k :: k in ListKeys(t, c) <==>
      exists i, x :: 0 <= i < |t.rows| && Cell(t.rows[i], c).Arr? && x in Cell(t.rows[i], c).items && k in KeyList(FieldsOf(x))
  {
    var parts := ListParts(t.rows, c);
    ListKeysOrder(t, c);
    forall k | k in ListKeys(t, c)
      ensures exists i, x :: 0 <= i < |t.rows| && Cell(t.rows[i], c).Arr? && x in Cell(t.rows[i], c).items && k in KeyList(FieldsOf(x))
    {
      var p :| p in parts && k in ItemsKeys(p.1);
      var j :| 0 <= j < |p.1| && k in KeyList(FieldsOf(p.1[j]));
      assert Cell(t.rows[p.0], c).items[j] == p.1[j];
    }
    forall k, i, x | 0 <= i < |t.rows| && Cell(t.rows[i], c).Arr? && x in Cell(t.rows[i], c).items && k in KeyList(FieldsOf(x))
      ensures k in ListKeys(t, c)
    {
      var items := Cell(t.rows[i], c).items;
      assert (i, items) in parts;
      var j :| 0 <= j < |items| && items[j] == x;
      assert k in ItemsKeys(items);
    }
  }

  lemma HasListParts(t: Table, c: string)
    ensures HasList(t, c) <==> |ListParts(t.rows, c)| > 0
  {
    var parts := ListParts(t.rows, c);
    if HasList(t, c) {
      var i :| 0 <= i < |t.rows| && Cell(t.rows[i], c).Arr?;
      assert (i, Cell(t.rows[i], c).items) in parts;
    }
    if |parts| > 0 {
      assert parts[0] in parts;
    }
  }

  lemma ListKeyOf(t: Table, c: string, i: nat, x: Value, k: string)
    requires i < |t.rows| && Cell(t.rows[i], c).Arr? && x in Cell(t.rows[i], c).items && k in KeyList(FieldsOf(x))
    ensures k in ListKeys(t, c)
  {
    ListKeysSpec(t, c);
  }

  lemma NamesHas(c: string, ks: seq<string>, k: string)
    requires k in ks
    ensures Prefixed(c, k) in Names(c, ks)
  {
    var j :| 0 <= j < |ks| && ks[j] == k;
    assert Names(c, ks)[j] == Prefixed(c, k);
  }

  lemma ExpandListNeeds(t: Table, c: string)
    requires ExpandList(t, c).Ok?
    ensures HasList(t, c) && ElementsMappings(t, c) && ElementKeysFree(t, c)
  {
    ExpandListSpec(t, c);
    forall i, x, k | 0 <= i < |t.rows| && Cell(t.rows[i], c).Arr? && x in Cell(t.rows[i], c).items
                     && k in KeyList(FieldsOf(x))
      ensures Prefixed(c, k) !in Without(t.cols, c)
    {
      ListKeyOf(t, c, i, x, k);
      NamesHas(c, ListKeys(t, c), k);
    }
  }

  lemma ExpandListSucceedsWhen(t: Table, c: string)
    requires HasList(t, c) && ElementsMappings(t, c) && ElementKeysFree(t, c)
    ensures ExpandList(t, c).Ok?
  {
    var parts := ListParts(t.rows, c);
    var ks := ListKeys(t, c);
    HasListParts(t, c);
    ListKeysSpec(t, c);
    forall p, x | p in parts && x in p.1 ensures x.Obj? {
      assert Cell(t.rows[p.0], c).items == p.1;
    }
    forall n | n in Names(c, ks) ensures n !in Without(t.cols, c) {
      var j :| 0 <= j < |ks| && Names(c, ks)[j] == n;
      assert ks[j] in ks;
    }
    JoinListOk(t, c, parts);
  }

  lemma JoinListOk(t: Table, c: string, parts: seq<(nat, seq<Value>)>)
    requires |parts| > 0 && forall p, x :: p in parts && x in p.1 ==> x.Obj?
    requires forall n :: n in Names(c, Union([], PartsKeys(parts))) ==> n !in Without(t.cols, c)
    ensures JoinList(t, c, parts).Ok?
  {
  }

  /** A list pass fails with nothing to concatenate exactly when no row of
      the column holds a list, and succeeds exactly when some row does, every
      element is a mapping and no prefixed element key names a kept column. */
  lemma ExpandListSucceeds(t: Table, c: string)
    ensures (ExpandList(t, c).Err? && ExpandList(t, c).error == NothingToConcatenate(c)) <==> !HasList(t, c)
    ensures ExpandList(t, c).Ok? <==> HasList(t, c) && ElementsMappings(t, c) && ElementKeysFree(t, c)
  {
    HasListParts(t, c);
    if ExpandList(t, c).Ok? {
      ExpandListNeeds(t, c);
    }
    if HasList(t, c) && ElementsMappings(t, c) && ElementKeysFree(t, c) {
      ExpandListSucceedsWhen(t, c);
    }
  }

  /** Copy `j` of input row `i` sits after the copies of the rows before it. */
  lemma {:induction false} ExplodedCopyAt(rows: seq<Row>, c: string, ks: seq<string>, i: nat, j: nat)
    requires i < |rows| && j < Copies(Cell(rows[i], c))
    ensures var off := CopiesSum(rows[..i], c);
      && off + j < |ExplodeRows(rows, c, ks)|
      && ExplodeRows(rows, c, ks)[off + j] == Attach(rows[i] - {c}, c, ks, ItemFields(Cell(rows[i], c), j))
  {
    var all, e := ExplodeRows(rows, c, ks), Explode(rows[i], c, ks);
    var off := CopiesSum(rows[..i], c);
    var a := Attach(rows[i] - {c}, c, ks, ItemFields(Cell(rows[i], c), j));
    assert j < |e| && e[j] == a by {
      ExplodeCopies(rows[i], c, ks);
    }
    assert off + |e| <= |all| && all[off..off + |e|] == e by {
      ExplodeRowsCount(rows[..i], c, ks);
      ExplodeRowsAt(rows, c, ks, i);
    }
    SliceAt(all, off, e, j);
  }

  lemma SliceAt<T>(all: seq<T>, off: nat, e: seq<T>, j: nat)
    requires off + |e| <= |all| && all[off..off + |e|] == e && j < |e|
    ensures all[off + j] == e[j]
  {
    assert all[off..off + |e|][j] == all[off + j];
  }

  lemma ExpandListRows(t: Table, c: string)
    requires ExpandList(t, c).Ok?
    ensures ExpandList(t, c).value.rows == ExplodeRows(t.rows, c, ListKeys(t, c))
    ensures forall x :: x in Without(t.cols, c) ==> x != c && x !in Names(c, ListKeys(t, c))
  {
    ExpandListSpec(t, c);
  }

  /** Copy `j` of row `i` among the exploded rows, cell by cell. */
  lemma ExplodeRowsCells(rows: seq<Row>, c: string, ks: seq<string>, i: nat, j: nat)
    requires i < |rows| && j < Copies(Cell(rows[i], c))
    ensures var all := ExplodeRows(rows, c, ks);
      var off := CopiesSum(rows[..i], c);
      var v := Cell(rows[i], c);
      && off + j < |all|
      && Cell(all[off + j], c) == Null
      && (forall x :: x != c && x !in Names(c, ks) ==> Cell(all[off + j], x) == Cell(rows[i], x))
      && (forall k :: k in ks ==>
            Cell(all[off + j], Prefixed(c, k)) == if v.Arr? && |v.items| > 0 then Get(FieldsOf(v.items[j]), k) else Null)
  {
    var v := Cell(rows[i], c);
    var fields := ItemFields(v, j);
    ExplodedCopyAt(rows, c, ks, i, j);
    CopySpec(rows[i], c, ks, fields);
    assert fields == if v.Arr? && |v.items| > 0 then FieldsOf(v.items[j]) else [];
  }

  /** Cell by cell: copy `j` of input row `i` sits after the copies of the
      rows before it; it has no column `c`, keeps the row's other cells, and
      holds in `<c>_<k>` the value element `j` of the row's list has for `k`,
      null when the element lacks `k` or the row's cell is null, not a list
      or an empty list. */
  lemma ExpandListCells(t: Table, c: string, i: nat, j: nat)
    requires ExpandList(t, c).Ok?
    requires i < |t.rows| && j < Copies(Cell(t.rows[i], c))
    ensures var r := ExpandList(t, c).value;
      var off := CopiesSum(t.rows[..i], c);
      var v := Cell(t.rows[i], c);
      && off + j < |r.rows|
      && Cell(r.rows[off + j], c) == Null
      && (forall x :: x in Without(t.cols, c) ==> Cell(r.rows[off + j], x) == Cell(t.rows[i], x))
      && (forall k :: k in ListKeys(t, c) ==>
            Cell(r.rows[off + j], Prefixed(c, k)) == if v.Arr? && |v.items| > 0 then Get(FieldsOf(v.items[j]), k) else Null)
  {
    ExpandListRows(t, c);
    ExplodeRowsCells(t.rows, c, ListKeys(t, c), i, j);
  }

  // ----------------------------------------------------------------- passes

  /** The position of the first column whose type name is not a scalar one:
      where the `for` loop of `flatten` stops. */
  function FirstUnflattenedFrom(t: Table, from: nat): (r: Option<nat>)
    requires from <= |t.cols|
    ensures r.Some? ==> from <= r.value < |t.cols| && ColumnType(t, t.cols[r.value]) !in ScalarTypes
    ensures r.Some? ==> forall j :: from <= j < r.value ==> ColumnType(t, t.cols[j]) in ScalarTypes
    ensures r.None? ==> forall j :: from <= j < |t.cols| ==> ColumnType(t, t.cols[j]) in ScalarTypes
    decreases |t.cols| - from
  {
    if from == |t.cols| then None
    else if ColumnType(t, t.cols[from]) !in ScalarTypes then Some(from)
    else FirstUnflattenedFrom(t, from + 1)
  }

  /** The column a pass of `flatten` works on: the first one whose type name
      is not a scalar one. */
  function PassColumn(t: Table): (c: string)
    requires HasNested(t)
    ensures c in t.cols && ColumnType(t, c) !in ScalarTypes
  {
    t.cols[FirstUnflattenedFrom(t, 0).value]
  }

  /** The `for` loop of `flatten` stops at column `i` when the columns before
      it are scalar ones and it is not. */
  lemma {:induction false} FirstUnflattenedAt(t: Table, from: nat, i: nat)
    requires from <= i < |t.cols|
    requires forall j :: from <= j < i ==> ColumnType(t, t.cols[j]) in ScalarTypes
    requires ColumnType(t, t.cols[i]) !in ScalarTypes
    ensures FirstUnflattenedFrom(t, from) == Some(i)
    decreases i - from
  {
    if from < i {
      FirstUnflattenedAt(t, from + 1, i);
    }
  }

  /** One pass of the `while` loop of `flatten`. */
  function Step(t: Table): Result<Table, Error>
    requires HasNested(t)
  {
    var c := PassColumn(t);
    var ty := ColumnType(t, c);
    if ty == "dict" then ExpandDict(t, c)
    else if ty == "list" then ExpandList(t, c)
    else Err(NotImplemented(ty, c))
  }
}
