/** A data frame as the flattener sees it: an ordered list of column labels and
    a sequence of rows, each row a mapping from label to cell value. The row
    index pandas keeps is the row's position here. */
module Tables {
  import opened Json
  import opened Outcomes

  type Row = map<string, Value>

  datatype Table = Table(cols: seq<string>, rows: seq<Row>)

  function ColSet(cols: seq<string>): set<string> {
    set c | c in cols
  }

  /** Column labels are unique and every row holds exactly the table's
      columns. */
  ghost predicate Valid(t: Table) {
    && Distinct(t.cols)
    && forall i :: 0 <= i < |t.rows| ==> t.rows[i].Keys == ColSet(t.cols)
  }

  /** The value in column `c` of a row; a label the row lacks reads as null. */
  function Cell(row: Row, c: string): Value {
    if c in row then row[c] else Null
  }

  /** pandas' `first_valid_index()` on column `c`, counting from row `from`. */
  function FirstValidFrom(rows: seq<Row>, c: string, from: nat): (r: Option<nat>)
    requires from <= |rows|
    ensures r.Some? ==> from <= r.value < |rows| && Cell(rows[r.value], c) != Null
    ensures r.Some? ==> forall j :: from <= j < r.value ==> Cell(rows[j], c) == Null
    ensures r.None? ==> forall j :: from <= j < |rows| ==> Cell(rows[j], c) == Null
    decreases |rows| - from
  {
    if from == |rows| then None
    else if Cell(rows[from], c) != Null then Some(from)
    else FirstValidFrom(rows, c, from + 1)
  }

  function FirstValid(rows: seq<Row>, c: string): Option<nat> {
    FirstValidFrom(rows, c, 0)
  }

  /** The classification `get_dtypes` gives column `c`: the type name of its
      first non-null value, or `NoneType` when every value is null. */
  function ColumnType(t: Table, c: string): string {
    match FirstValid(t.rows, c)
    case Some(i) => TypeName(Cell(t.rows[i], c))
    case None => "NoneType"
  }

  /** The type names `flatten` passes over without expanding. */
  const ScalarTypes: set<string> :=
    {"str", "int", "float", "NoneType", "bool", "numpy.bool_", "bool_", "int64", "Series"}

  /** `check_dtypes`: some column is classified `dict` or `list`. */
  predicate HasNested(t: Table) {
    exists i :: 0 <= i < |t.cols| && ColumnType(t, t.cols[i]) in {"dict", "list"}
  }

  lemma {:induction false} ColumnTypeSpec(t: Table, c: string)
    ensures ColumnType(t, c) == "NoneType" <==>
              (forall j :: 0 <= j < |t.rows| ==> Cell(t.rows[j], c) == Null)
              || (exists j :: 0 <= j < |t.rows| && Cell(t.rows[j], c) == Opaque("NoneType")
                              && forall q :: 0 <= q < j ==> Cell(t.rows[q], c) == Null)
    ensures forall j :: 0 <= j < |t.rows| && Cell(t.rows[j], c) != Null
                        && (forall q :: 0 <= q < j ==> Cell(t.rows[q], c) == Null)
                        ==> ColumnType(t, c) == TypeName(Cell(t.rows[j], c))
  {
    var f := FirstValid(t.rows, c);
    forall j | 0 <= j < |t.rows| && Cell(t.rows[j], c) != Null
                && (forall q :: 0 <= q < j ==> Cell(t.rows[q], c) == Null)
      ensures f == Some(j)
    {
    }
  }

  /** The labels of `cols` other than `c`, in order. */
  function Without(cols: seq<string>, c: string): (r: seq<string>)
    ensures forall x :: x in r <==> x in cols && x != c
    ensures Distinct(cols) ==> Distinct(r)
    ensures |r| <= |cols|
  {
    if |cols| == 0 then []
    else if cols[0] == c then Without(cols[1..], c)
    else
      assert Distinct(cols) ==> cols[0] !in cols[1..];
      [cols[0]] + Without(cols[1..], c)
  }

  /** `df[name] = vals`: an existing column is overwritten where it stands, a
      new one is appended at the end. */
  function SetColumn(t: Table, name: string, vals: seq<Value>): (r: Table)
    requires |vals| == |t.rows|
    ensures |r.rows| == |t.rows|
    ensures Valid(t) ==> Valid(r)
    ensures r.cols == if name in t.cols then t.cols else t.cols + [name]
    ensures name in r.cols && forall x :: x in t.cols ==> x in r.cols
    ensures forall x :: x in r.cols ==> x in t.cols || x == name
    ensures forall i :: 0 <= i < |r.rows| ==> Cell(r.rows[i], name) == vals[i]
    ensures forall i, x :: 0 <= i < |r.rows| && x != name ==> Cell(r.rows[i], x) == Cell(t.rows[i], x)
  {
    var cols := if name in t.cols then t.cols else t.cols + [name];
    var r := Table(cols, seq(|t.rows|, i requires 0 <= i < |t.rows| => t.rows[i][name := vals[i]]));
    assert Valid(t) ==> Distinct(cols);
    r
  }

  /** A calendar date as `pd.to_datetime('today')` or a file's creation time
      supplies it; the clock itself is not modelled. */
  datatype DateParts = DateParts(year: nat, month: nat, day: nat)

  type Date = d: DateParts | 1000 <= d.year <= 9999 && 1 <= d.month <= 12 && 1 <= d.day <= 31
    witness DateParts(2000, 1, 1)

  function Digit(n: nat): char
    requires n < 10
  {
    ('0' as int + n) as char
  }

  function Pow10(w: nat): nat {
    if w == 0 then 1 else 10 * Pow10(w - 1)
  }

  /** The last `w` decimal digits of `n`, zero-padded. */
  function Pad(n: nat, w: nat): (r: string)
    ensures |r| == w
  {
    if w == 0 then "" else Pad(n / 10, w - 1) + [Digit(n % 10)]
  }

  /** `strftime('%Y-%m-%d')`, also what `str()` gives for a date. */
  function FormatDate(d: Date): (r: string)
    ensures |r| == 10 && r[4] == '-' && r[7] == '-'
  {
    Pad(d.year, 4) + "-" + Pad(d.month, 2) + "-" + Pad(d.day, 2)
  }

  predicate IsDigit(ch: char) {
    '0' <= ch <= '9'
  }

  /** The number a string of decimal digits spells. */
  function DigitsValue(s: string): nat
    requires forall i :: 0 <= i < |s| ==> IsDigit(s[i])
  {
    if |s| == 0 then 0 else DigitsValue(s[..|s| - 1]) * 10 + DigitValue(s[|s| - 1])
  }

  function DigitValue(ch: char): nat
    requires IsDigit(ch)
  {
    ch as int - '0' as int
  }

  lemma {:induction false} PadRoundTrip(n: nat, w: nat)
    requires n < Pow10(w)
    ensures |Pad(n, w)| == w
    ensures forall i :: 0 <= i < w ==> IsDigit(Pad(n, w)[i])
    ensures DigitsValue(Pad(n, w)) == n
  {
    if w > 0 {
      PadRoundTrip(n / 10, w - 1);
      var s := Pad(n, w);
      assert s[..|s| - 1] == Pad(n / 10, w - 1);
    }
  }

  /** The snapshot date string has the form YYYY-MM-DD and spells the date. */
  lemma FormatDateRoundTrip(d: Date)
    ensures var s := FormatDate(d);
      && |s| == 10 && s[4] == '-' && s[7] == '-'
      && (forall i :: 0 <= i < 10 && i != 4 && i != 7 ==> IsDigit(s[i]))
      && DigitsValue(s[..4]) == d.year
      && DigitsValue(s[5..7]) == d.month
      && DigitsValue(s[8..]) == d.day
  {
    PadRoundTrip(d.year, 4);
    PadRoundTrip(d.month, 2);
    PadRoundTrip(d.day, 2);
    var s := FormatDate(d);
    assert s[..4] == Pad(d.year, 4);
    assert s[5..7] == Pad(d.month, 2);
    assert s[8..] == Pad(d.day, 2);
  }

  /** `self["snapshot_date"] = today`: one more column, the same date string in
      every row. */
  function Stamp(t: Table, today: Date): Table {
    SetColumn(t, "snapshot_date", seq(|t.rows|, _ => Str(FormatDate(today))))
  }

  lemma StampSpec(t: Table, today: Date)
    requires Valid(t)
    ensures var r := Stamp(t, today);
      && Valid(r)
      && |r.rows| == |t.rows|
      && (if "snapshot_date" in t.cols then r.cols == t.cols else r.cols == t.cols + ["snapshot_date"])
      && (forall i :: 0 <= i < |r.rows| ==> r.rows[i]["snapshot_date"] == Str(FormatDate(today)))
      && (forall i, x :: 0 <= i < |r.rows| && x != "snapshot_date" ==> Cell(r.rows[i], x) == Cell(t.rows[i], x))
  {
    var r := Stamp(t, today);
    forall i | 0 <= i < |r.rows| ensures r.rows[i]["snapshot_date"] == Str(FormatDate(today)) {
      assert "snapshot_date" in r.rows[i].Keys;
      assert Cell(r.rows[i], "snapshot_date") == Str(FormatDate(today));
    }
  }
}
