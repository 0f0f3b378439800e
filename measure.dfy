/** Why the `while` loop of `flatten` ends: every pass keeps the table well
    formed and strictly lowers `Weight`, the sum over rows of two to the power
    of the row's nesting size. A mapping pass shrinks rows; a list pass
    replaces a row by rows whose weights add up to less than its own. */
module Measure {
  import opened Json
  import opened Outcomes
  import opened Tables
  import opened Flatten

  /** Number of mapping and list nodes in the cells of `cols`. */
  ghost function RowSize(cols: seq<string>, row: Row): nat {
    if |cols| == 0 then 0 else Size(Cell(row, cols[0])) + RowSize(cols[1..], row)
  }

  ghost function Pow2(n: nat): (r: nat)
    ensures 1 <= r
  {
    if n == 0 then 1 else 2 * Pow2(n - 1)
  }

  ghost function RowsWeight(cols: seq<string>, rows: seq<Row>): nat {
    if |rows| == 0 then 0 else Pow2(RowSize(cols, rows[0])) + RowsWeight(cols, rows[1..])
  }

  /** The termination measure of `flatten`. */
  ghost function Weight(t: Table): nat {
    RowsWeight(t.cols, t.rows)
  }

  /** The nesting size a mapping hands on to the columns named by `ks`. */
  ghost function KeySum(fields: seq<(string, Value)>, ks: seq<string>): nat {
    if |ks| == 0 then 0 else Size(Get(fields, ks[0])) + KeySum(fields, ks[1..])
  }

  // ------------------------------------------------------------ arithmetic

  lemma {:induction false} Pow2Monotone(a: nat, b: nat)
    requires a <= b
    ensures Pow2(a) <= Pow2(b)
    decreases b
  {
    if a < b {
      Pow2Monotone(a, b - 1);
    }
  }

  ghost function ItemsWeight(a: nat, items: seq<Value>): nat {
    if |items| == 0 then 0 else Pow2(a + Size(items[0])) + ItemsWeight(a, items[1..])
  }

  /** Rows of sizes `a + s_j`, each `s_j >= 1`, weigh less than one row of
      size `a + 1 + sum s_j`. */
  lemma {:induction false} PowSum(a: nat, items: seq<Value>)
    requires forall j :: 0 <= j < |items| ==> 1 <= Size(items[j])
    ensures ItemsWeight(a, items) < Pow2(a + 1 + ItemsSize(items))
  {
    if |items| > 0 {
      var s0, rest := Size(items[0]), ItemsSize(items[1..]);
      PowSum(a, items[1..]);
      Pow2Monotone(a + s0, a + s0 + rest);
      Pow2Monotone(a + 1 + rest, a + s0 + rest);
      assert Pow2(a + 1 + s0 + rest) == 2 * Pow2(a + s0 + rest);
    }
  }

  // ------------------------------------------------------------- row sizes

  lemma {:induction false} RowSizeConcat(a: seq<string>, b: seq<string>, row: Row)
    ensures RowSize(a + b, row) == RowSize(a, row) + RowSize(b, row)
  {
    if |a| == 0 {
      assert a + b == b;
    } else {
      assert (a + b)[1..] == a[1..] + b;
      RowSizeConcat(a[1..], b, row);
    }
  }

  lemma {:induction false} RowSizeWithout(cols: seq<string>, c: string, row: Row)
    requires Distinct(cols)
    ensures RowSize(cols, row) == RowSize(Without(cols, c), row) + (if c in cols then Size(Cell(row, c)) else 0)
  {
    if |cols| > 0 {
      RowSizeWithout(cols[1..], c, row);
      assert cols[0] !in cols[1..];
      if cols[0] != c {
        assert Without(cols, c) == [cols[0]] + Without(cols[1..], c);
        assert ([cols[0]] + Without(cols[1..], c))[1..] == Without(cols[1..], c);
      }
    }
  }

  lemma {:induction false} RowSizeAgree(cols: seq<string>, r1: Row, r2: Row)
    requires forall x :: x in cols ==> Cell(r1, x) == Cell(r2, x)
    ensures RowSize(cols, r1) == RowSize(cols, r2)
  {
    if |cols| > 0 {
      RowSizeAgree(cols[1..], r1, r2);
    }
  }

  lemma {:induction false} RowSizeNames(c: string, ks: seq<string>, fields: seq<(string, Value)>, row: Row)
    requires forall k :: k in ks ==> Cell(row, Prefixed(c, k)) == Get(fields, k)
    ensures RowSize(Names(c, ks), row) == KeySum(fields, ks)
  {
    if |ks| > 0 {
      RowSizeNames(c, ks[1..], fields, row);
      assert Names(c, ks)[1..] == Names(c, ks[1..]);
    }
  }

  lemma {:induction false} KeySumStep(k0: string, v0: Value, rest: seq<(string, Value)>, ks: seq<string>)
    requires Distinct(ks)
    ensures KeySum([(k0, v0)] + rest, ks) <= (if k0 in ks then Size(v0) else 0) + KeySum(rest, ks)
  {
    var f := [(k0, v0)] + rest;
    assert f[1..] == rest;
    if |ks| > 0 {
      KeySumStep(k0, v0, rest, ks[1..]);
      assert ks[0] !in ks[1..];
    }
  }

  /** A mapping hands on at most its own nesting, whatever distinct keys are
      asked of it. */
  lemma {:induction false} KeySumBound(fields: seq<(string, Value)>, ks: seq<string>)
    requires Distinct(ks)
    ensures KeySum(fields, ks) <= FieldsSize(fields)
  {
    if |fields| > 0 {
      assert fields == [(fields[0].0, fields[0].1)] + fields[1..];
      KeySumStep(fields[0].0, fields[0].1, fields[1..], ks);
      KeySumBound(fields[1..], ks);
    } else {
      KeySumEmpty(ks);
    }
  }

  lemma {:induction false} KeySumEmpty(ks: seq<string>)
    ensures KeySum([], ks) == 0
  {
    if |ks| > 0 {
      KeySumEmpty(ks[1..]);
    }
  }

  /** The size of a row after column `c` gave way to the columns of `ks`. */
  lemma {:induction false} AttachSize(cols: seq<string>, c: string, ks: seq<string>, row: Row, fields: seq<(string, Value)>)
    requires forall n :: n in Names(c, ks) ==> n !in Without(cols, c)
    ensures RowSize(Without(cols, c) + Names(c, ks), Attach(row - {c}, c, ks, fields))
            == RowSize(Without(cols, c), row) + KeySum(fields, ks)
  {
    var base := row - {c};
    var r := Attach(base, c, ks, fields);
    var others := Without(cols, c);
    AttachSpec(base, c, ks, fields);
    RowSizeConcat(others, Names(c, ks), r);
    forall x | x in others ensures Cell(r, x) == Cell(row, x) {
      assert x !in ColSet(Names(c, ks));
      assert Cell(r, x) == Cell(base, x);
    }
    RowSizeAgree(others, r, row);
    RowSizeNames(c, ks, fields, r);
  }

  // ---------------------------------------------------------- row weights

  lemma {:induction false} RowsWeightConcat(cols: seq<string>, a: seq<Row>, b: seq<Row>)
    ensures RowsWeight(cols, a + b) == RowsWeight(cols, a) + RowsWeight(cols, b)
  {
    if |a| == 0 {
      assert a + b == b;
    } else {
      assert (a + b)[1..] == a[1..] + b;
      RowsWeightConcat(cols, a[1..], b);
    }
  }

  /** Rows that each shrink weigh no more; one that shrinks strictly makes the
      whole weigh strictly less. */
  lemma {:induction false} RowsWeightPointwise(cols1: seq<string>, rows1: seq<Row>, cols2: seq<string>, rows2: seq<Row>)
    requires |rows1| == |rows2|
    requires forall i :: 0 <= i < |rows1| ==> RowSize(cols2, rows2[i]) <= RowSize(cols1, rows1[i])
    ensures RowsWeight(cols2, rows2) <= RowsWeight(cols1, rows1)
    ensures (exists i :: 0 <= i < |rows1| && RowSize(cols2, rows2[i]) < RowSize(cols1, rows1[i]))
            ==> RowsWeight(cols2, rows2) < RowsWeight(cols1, rows1)
  {
    if |rows1| > 0 {
      RowsWeightPointwise(cols1, rows1[1..], cols2, rows2[1..]);
      Pow2Monotone(RowSize(cols2, rows2[0]), RowSize(cols1, rows1[0]));
      if RowSize(cols2, rows2[0]) < RowSize(cols1, rows1[0]) {
        Pow2Monotone(RowSize(cols2, rows2[0]) + 1, RowSize(cols1, rows1[0]));
      }
      if exists i :: 0 <= i < |rows1| && RowSize(cols2, rows2[i]) < RowSize(cols1, rows1[i]) {
        var i :| 0 <= i < |rows1| && RowSize(cols2, rows2[i]) < RowSize(cols1, rows1[i]);
        if i > 0 {
          assert RowSize(cols2, rows2[1..][i - 1]) < RowSize(cols1, rows1[1..][i - 1]);
        }
      }
    }
  }

  lemma {:induction false} GroupBound(cols: seq<string>, rs: seq<Row>, a: nat, items: seq<Value>)
    requires |rs| == |items|
    requires forall j :: 0 <= j < |rs| ==> RowSize(cols, rs[j]) <= a + Size(items[j])
    ensures RowsWeight(cols, rs) <= ItemsWeight(a, items)
  {
    if |rs| > 0 {
      Pow2Monotone(RowSize(cols, rs[0]), a + Size(items[0]));
      GroupBound(cols, rs[1..], a, items[1..]);
    }
  }

  // -------------------------------------------------------------- one pass

  lemma DistinctConcat(a: seq<string>, b: seq<string>)
    requires Distinct(a) && Distinct(b)
    requires forall x :: x in b ==> x !in a
    ensures Distinct(a + b)
  {
    var s := a + b;
    forall i, j | 0 <= i < j < |s| ensures s[i] != s[j] {
      if j < |a| {
        assert s[i] == a[i] && s[j] == a[j];
      } else if |a| <= i {
        assert s[i] == b[i - |a|] && s[j] == b[j - |a|];
      } else {
        assert s[i] == a[i] && s[j] == b[j - |a|] && s[j] in b;
      }
    }
  }

  lemma ColSetConcat(a: seq<string>, b: seq<string>)
    ensures ColSet(a + b) == ColSet(a) + ColSet(b)
  {
  }

  /** A copy of a row carrying one element's values is no larger than the row
      without its list plus that element. */
  lemma ItemRowSize(cols: seq<string>, c: string, ks: seq<string>, row: Row, v: Value)
    requires Distinct(ks)
    requires forall n :: n in Names(c, ks) ==> n !in Without(cols, c)
    ensures RowSize(Without(cols, c) + Names(c, ks), Attach(row - {c}, c, ks, FieldsOf(v)))
            <= RowSize(Without(cols, c), row) + Size(v)
  {
    AttachSize(cols, c, ks, row, FieldsOf(v));
    KeySumBound(FieldsOf(v), ks);
  }

  /** The copies of a row, one per element, weigh at most what rows of the
      row's other nesting plus each element's would. */
  lemma ExplodeItemsBound(cols: seq<string>, c: string, ks: seq<string>, row: Row)
    requires Distinct(ks)
    requires forall n :: n in Names(c, ks) ==> n !in Without(cols, c)
    requires Cell(row, c).Arr? && |Cell(row, c).items| > 0
    ensures RowsWeight(Without(cols, c) + Names(c, ks), Explode(row, c, ks))
            <= ItemsWeight(RowSize(Without(cols, c), row), Cell(row, c).items)
  {
    var cols2 := Without(cols, c) + Names(c, ks);
    var o := RowSize(Without(cols, c), row);
    var items := Cell(row, c).items;
    var rs := Explode(row, c, ks);
    ExplodeCopies(row, c, ks);
    forall j | 0 <= j < |rs| ensures RowSize(cols2, rs[j]) <= o + Size(items[j]) {
      ItemRowSize(cols, c, ks, row, items[j]);
    }
    GroupBound(cols2, rs, o, items);
  }

  /** A list of mappings weighs more, as one cell, than its elements spread
      over one row each. */
  lemma ListCellWeight(cols: seq<string>, c: string, row: Row)
    requires Distinct(cols) && c in cols
    requires Cell(row, c).Arr?
    requires forall x :: x in Cell(row, c).items ==> x.Obj?
    ensures ItemsWeight(RowSize(Without(cols, c), row), Cell(row, c).items) < Pow2(RowSize(cols, row))
  {
    var o := RowSize(Without(cols, c), row);
    var items := Cell(row, c).items;
    forall j | 0 <= j < |items| ensures 1 <= Size(items[j]) {
      assert items[j] in items;
    }
    PowSum(o, items);
    RowSizeWithout(cols, c, row);
  }

  lemma {:induction false} SingleWeight(cols: seq<string>, c: string, ks: seq<string>, row: Row)
    requires forall n :: n in Names(c, ks) ==> n !in Without(cols, c)
    ensures RowsWeight(Without(cols, c) + Names(c, ks), [Attach(row - {c}, c, ks, [])])
            == Pow2(RowSize(Without(cols, c), row))
  {
    var cols2 := Without(cols, c) + Names(c, ks);
    var r := Attach(row - {c}, c, ks, []);
    AttachSize(cols, c, ks, row, []);
    KeySumEmpty(ks);
    assert RowSize(cols2, r) == RowSize(Without(cols, c), row);
    assert [r][1..] == [];
    assert RowsWeight(cols2, [r]) == Pow2(RowSize(cols2, r)) + RowsWeight(cols2, []);
  }

  lemma {:induction false} ExplodeSingle(cols: seq<string>, c: string, ks: seq<string>, row: Row)
    requires forall n :: n in Names(c, ks) ==> n !in Without(cols, c)
    requires !(Cell(row, c).Arr? && |Cell(row, c).items| > 0)
    ensures RowsWeight(Without(cols, c) + Names(c, ks), Explode(row, c, ks)) == Pow2(RowSize(Without(cols, c), row))
  {
    assert Explode(row, c, ks) == [Attach(row - {c}, c, ks, [])];
    SingleWeight(cols, c, ks, row);
  }

  /** Dropping a cell that is not a non-empty list costs the row its
      nesting, which is one at least for an empty list. */
  lemma {:induction false} DropCellWeight(cols: seq<string>, c: string, row: Row)
    requires Distinct(cols) && c in cols
    ensures Pow2(RowSize(Without(cols, c), row)) <= Pow2(RowSize(cols, row))
    ensures Cell(row, c).Arr? ==> Pow2(RowSize(Without(cols, c), row)) < Pow2(RowSize(cols, row))
  {
    var o := RowSize(Without(cols, c), row);
    var n := RowSize(cols, row);
    RowSizeWithout(cols, c, row);
    assert n == o + Size(Cell(row, c));
    Pow2Monotone(o, n);
    if Cell(row, c).Arr? {
      assert 1 <= Size(Cell(row, c));
      Pow2Monotone(o + 1, n);
      assert Pow2(o + 1) == 2 * Pow2(o);
    }
  }

  /** The rows one input row becomes in a list pass weigh no more than it,
      and strictly less when its cell is a list. */
  lemma ExplodeWeight(cols: seq<string>, c: string, ks: seq<string>, row: Row)
    requires Distinct(cols) && c in cols && Distinct(ks)
    requires forall n :: n in Names(c, ks) ==> n !in Without(cols, c)
    requires Cell(row, c).Arr? ==> forall x :: x in Cell(row, c).items ==> x.Obj?
    ensures RowsWeight(Without(cols, c) + Names(c, ks), Explode(row, c, ks)) <= Pow2(RowSize(cols, row))
    ensures Cell(row, c).Arr? ==>
              RowsWeight(Without(cols, c) + Names(c, ks), Explode(row, c, ks)) < Pow2(RowSize(cols, row))
  {
    if Cell(row, c).Arr? && |Cell(row, c).items| > 0 {
      ExplodeItemsBound(cols, c, ks, row);
      ListCellWeight(cols, c, row);
    } else {
      ExplodeSingle(cols, c, ks, row);
      DropCellWeight(cols, c, row);
    }
  }

  lemma {:induction false} ExplodeRowsWeight(cols: seq<string>, c: string, ks: seq<string>, rows: seq<Row>)
    requires Distinct(cols) && c in cols && Distinct(ks)
    requires forall n :: n in Names(c, ks) ==> n !in Without(cols, c)
    requires forall i :: 0 <= i < |rows| && Cell(rows[i], c).Arr? ==>
                           forall x :: x in Cell(rows[i], c).items ==> x.Obj?
    ensures RowsWeight(Without(cols, c) + Names(c, ks), ExplodeRows(rows, c, ks)) <= RowsWeight(cols, rows)
    ensures (exists i :: 0 <= i < |rows| && Cell(rows[i], c).Arr?) ==>
              RowsWeight(Without(cols, c) + Names(c, ks), ExplodeRows(rows, c, ks)) < RowsWeight(cols, rows)
  {
    if |rows| > 0 {
      var cols2 := Without(cols, c) + Names(c, ks);
      RowsWeightConcat(cols2, Explode(rows[0], c, ks), ExplodeRows(rows[1..], c, ks));
      ExplodeWeight(cols, c, ks, rows[0]);
      ExplodeRowsWeight(cols, c, ks, rows[1..]);
      if exists i :: 0 <= i < |rows| && Cell(rows[i], c).Arr? {
        var i :| 0 <= i < |rows| && Cell(rows[i], c).Arr?;
        if i > 0 {
          assert Cell(rows[1..][i - 1], c).Arr?;
        }
      }
    }
  }

  lemma {:induction false} ExplodeRowsKeys(rows: seq<Row>, c: string, ks: seq<string>, keys: set<string>)
    requires forall i :: 0 <= i < |rows| ==> rows[i].Keys == keys
    ensures forall r :: r in ExplodeRows(rows, c, ks) ==> r.Keys == (keys - {c}) + ColSet(Names(c, ks))
  {
    if |rows| > 0 {
      ExplodeRowsKeys(rows[1..], c, ks, keys);
    }
  }

  /** A row whose mapping cell is spread over one column per key is smaller
      than before, unless the cell was null. */
  lemma SpreadRowSize(cols: seq<string>, c: string, ks: seq<string>, r0: Row, r1: Row)
    requires Distinct(cols) && c in cols && Distinct(ks)
    requires forall n :: n in Names(c, ks) ==> n !in Without(cols, c)
    requires forall x :: x != c ==> Cell(r1, x) == Cell(r0, x)
    requires Cell(r1, c).Obj?
    requires Cell(r0, c) == Null ==> FieldsSize(Cell(r1, c).fields) == 0
    requires Cell(r0, c) != Null ==> Cell(r1, c) == Cell(r0, c)
    ensures RowSize(Without(cols, c) + Names(c, ks), Attach(r1 - {c}, c, ks, FieldsOf(Cell(r1, c))))
            <= RowSize(cols, r0)
    ensures Cell(r0, c) != Null ==>
              RowSize(Without(cols, c) + Names(c, ks), Attach(r1 - {c}, c, ks, FieldsOf(Cell(r1, c))))
              < RowSize(cols, r0)
  {
    var f1 := FieldsOf(Cell(r1, c));
    AttachSize(cols, c, ks, r1, f1);
    RowSizeAgree(Without(cols, c), r1, r0);
    RowSizeWithout(cols, c, r0);
    KeySumBound(f1, ks);
  }

  /** A filled null cell is a one-entry mapping to null: no nesting below it. */
  lemma FilledCellSize(key: string)
    ensures FieldsSize([(key, Null)]) == 0
  {
    var f := [(key, Null)];
    assert f[1..] == [];
    assert EntrySize(f[0]) == 0;
  }

  /** A mapping pass keeps the table well formed and lowers its weight. */
  lemma DictPassDecreases(t: Table, c: string)
    requires Valid(t) && c in t.cols && ColumnType(t, c) == "dict" && ExpandDict(t, c).Ok?
    ensures Valid(ExpandDict(t, c).value) && Weight(ExpandDict(t, c).value) < Weight(t)
  {
    ExpandDictSteps(t, c);
    var t1 := FillNulls(t, c).value;
    var ks := DictKeys(t1, c);
    var t2 := ExpandDict(t, c).value;
    var others := Without(t.cols, c);
    var names := Names(c, ks);
    NamesDistinct(c, ks);
    DistinctConcat(others, names);
    ColSetConcat(others, names);
    assert ColSet(others) == ColSet(t.cols) - {c};
    forall i | 0 <= i < |t.rows|
      ensures t2.rows[i].Keys == ColSet(t2.cols)
      ensures RowSize(t2.cols, t2.rows[i]) <= RowSize(t.cols, t.rows[i])
      ensures Cell(t.rows[i], c) != Null ==> RowSize(t2.cols, t2.rows[i]) < RowSize(t.cols, t.rows[i])
    {
      assert c in t.rows[i];
      if Cell(t.rows[i], c) == Null {
        var key :| Cell(t1.rows[i], c) == Obj([(key, Null)]);
        FilledCellSize(key);
      }
      SpreadRowSize(t.cols, c, ks, t.rows[i], t1.rows[i]);
    }
    RowsWeightPointwise(t.cols, t.rows, t2.cols, t2.rows);
    var i0 := FirstValid(t.rows, c).value;
    assert RowSize(t2.cols, t2.rows[i0]) < RowSize(t.cols, t.rows[i0]);
  }

  /** Exploding a list column of a well-formed table by distinct, clash-free
      keys gives a well-formed table that weighs less. */
  lemma ExplodedTable(t: Table, c: string, ks: seq<string>)
    requires Valid(t) && c in t.cols && Distinct(ks)
    requires forall n :: n in Names(c, ks) ==> n !in Without(t.cols, c)
    requires forall i :: 0 <= i < |t.rows| && Cell(t.rows[i], c).Arr? ==>
                           forall x :: x in Cell(t.rows[i], c).items ==> x.Obj?
    requires exists i :: 0 <= i < |t.rows| && Cell(t.rows[i], c).Arr?
    ensures var t2 := Table(Without(t.cols, c) + Names(c, ks), ExplodeRows(t.rows, c, ks));
      Valid(t2) && Weight(t2) < Weight(t)
  {
    var others := Without(t.cols, c);
    var names := Names(c, ks);
    NamesDistinct(c, ks);
    DistinctConcat(others, names);
    ColSetConcat(others, names);
    ExplodeRowsKeys(t.rows, c, ks, ColSet(t.cols));
    assert ColSet(others) == ColSet(t.cols) - {c};
    ExplodeRowsWeight(t.cols, c, ks, t.rows);
  }

  /** A list pass keeps the table well formed and lowers its weight. */
  lemma ListPassDecreases(t: Table, c: string)
    requires Valid(t) && c in t.cols && ExpandList(t, c).Ok?
    ensures Valid(ExpandList(t, c).value) && Weight(ExpandList(t, c).value) < Weight(t)
  {
    ExpandListSpec(t, c);
    ExplodedTable(t, c, ListKeys(t, c));
  }

  /** Every pass of `flatten` keeps the table well formed and lowers its
      weight, so the loop ends. */
  lemma StepDecreases(t: Table)
    requires Valid(t) && HasNested(t) && Step(t).Ok?
    ensures Valid(Step(t).value) && Weight(Step(t).value) < Weight(t)
  {
    var c := PassColumn(t);
    if ColumnType(t, c) == "dict" {
      assert Step(t) == ExpandDict(t, c);
      DictPassDecreases(t, c);
    } else {
      assert Step(t) == ExpandList(t, c);
      ListPassDecreases(t, c);
    }
  }

}
