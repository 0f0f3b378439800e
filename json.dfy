/** JSON-like values, as the Tableau REST and GraphQL responses deliver them
    and as they sit in the cells of a data frame. */
module Json {

  /** One cell value. `Null` stands for Python's `None` and for pandas' `NaN`
      alike (both are "not valid" to pandas). `Obj` is a Python `dict` with its
      entries in insertion order; `Arr` is a Python `list`. `Opaque` is any
      other Python object, known only by the name of its type (`numpy.bool_`,
      `int64`, `bytes`, ...). */
  datatype Value =
    | Null
    | Str(s: string)
    | Int(i: int)
    | Float(f: real)
    | Bool(b: bool)
    | Obj(fields: seq<(string, Value)>)
    | Arr(items: seq<Value>)
    | Opaque(typeName: string)

  /** Python's `type(v).__name__`. */
  function TypeName(v: Value): string {
    match v
    case Null => "NoneType"
    case Str(_) => "str"
    case Int(_) => "int"
    case Float(_) => "float"
    case Bool(_) => "bool"
    case Obj(_) => "dict"
    case Arr(_) => "list"
    case Opaque(name) => name
  }

  /** Number of mapping and list nodes in a value: 0 for every scalar. */
  function Size(v: Value): nat
    decreases v
  {
    match v
    case Obj(fields) => 1 + FieldsSize(fields)
    case Arr(items) => 1 + ItemsSize(items)
    case _ => 0
  }

  function FieldsSize(fields: seq<(string, Value)>): nat
    decreases fields
  {
    if |fields| == 0 then 0 else EntrySize(fields[0]) + FieldsSize(fields[1..])
  }

  function EntrySize(entry: (string, Value)): nat
    decreases entry
  {
    Size(entry.1)
  }

  function ItemsSize(items: seq<Value>): nat
    decreases items
  {
    if |items| == 0 then 0 else Size(items[0]) + ItemsSize(items[1..])
  }

  ghost predicate Distinct<T>(s: seq<T>) {
    forall i, j :: 0 <= i < j < |s| ==> s[i] != s[j]
  }

  /** The keys of a mapping's entries, in order, duplicates included: also
      `d.keys()` of a dictionary. */
  function KeyList<K, V>(fields: seq<(K, V)>): (r: seq<K>)
    ensures |r| == |fields| && forall i :: 0 <= i < |r| ==> r[i] == fields[i].0
  {
    if |fields| == 0 then [] else [fields[0].0] + KeyList(fields[1..])
  }

  /** `acc` followed by the elements of `ks` it does not hold yet, in order of
      first appearance: how pandas unions column labels. */
  function Union(acc: seq<string>, ks: seq<string>): (r: seq<string>)
    ensures |acc| <= |r| && r[..|acc|] == acc
    ensures forall x :: x in r <==> x in acc || x in ks
    ensures Distinct(acc) ==> Distinct(r)
    decreases ks
  {
    if |ks| == 0 then acc
    else Union(if ks[0] in acc then acc else acc + [ks[0]], ks[1..])
  }

  /** The position of the first occurrence of `x` in `s`. */
  function IndexOf(s: seq<string>, x: string): (i: nat)
    requires x in s
    ensures i < |s| && s[i] == x && x !in s[..i]
  {
    if s[0] == x then 0 else 1 + IndexOf(s[1..], x)
  }

  /** What `Union` appends comes from `ks` and was not in `acc`. */
  lemma UnionTail(acc: seq<string>, ks: seq<string>)
    requires Distinct(acc)
    ensures var r := Union(acc, ks);
      forall i :: |acc| <= i < |r| ==> r[i] !in acc && r[i] in ks
  {
    var r := Union(acc, ks);
    assert forall k :: 0 <= k < |acc| ==> r[k] == acc[k];
  }

  lemma AppendDistinct(acc: seq<string>, x: string)
    requires Distinct(acc) && x !in acc
    ensures Distinct(acc + [x])
  {
    var s := acc + [x];
    forall i, j | 0 <= i < j < |s| ensures s[i] != s[j] {
      if j == |acc| {
        assert s[i] in acc;
      }
    }
  }

  /** The labels `Union` appends come in the order in which they first occur
      in `ks`. */
  lemma {:induction false} UnionOrder(acc: seq<string>, ks: seq<string>)
    requires Distinct(acc)
    ensures var r := Union(acc, ks);
      forall i, j :: |acc| <= i < j < |r| ==> r[i] in ks && r[j] in ks && IndexOf(ks, r[i]) < IndexOf(ks, r[j])
    decreases ks
  {
    var r := Union(acc, ks);
    UnionTail(acc, ks);
    if |ks| > 0 {
      var acc' := if ks[0] in acc then acc else acc + [ks[0]];
      if ks[0] !in acc {
        AppendDistinct(acc, ks[0]);
      }
      assert Distinct(acc');
      UnionOrder(acc', ks[1..]);
      UnionTail(acc', ks[1..]);
      assert r == Union(acc', ks[1..]);
      assert r[..|acc'|] == acc';
      forall i | |acc'| <= i < |r|
        ensures r[i] in ks && IndexOf(ks, r[i]) == 1 + IndexOf(ks[1..], r[i])
      {
        assert r[i] !in acc';
      }
      forall i, j | |acc| <= i < j < |r|
        ensures r[i] in ks && r[j] in ks && IndexOf(ks, r[i]) < IndexOf(ks, r[j])
      {
        if i < |acc'| {
          assert r[i] == ks[0] && IndexOf(ks, r[i]) == 0;
          assert r[j] != r[i];
        }
      }
    }
  }

  /** The keys of a mapping, each once, in insertion order. */
  function FieldNames(fields: seq<(string, Value)>): (r: seq<string>)
    ensures Distinct(r)
    ensures forall k :: k in r <==> exists i :: 0 <= i < |fields| && fields[i].0 == k
  {
    var ks := KeyList(fields);
    var r := Union([], ks);
    assert forall k :: k in ks <==> exists i :: 0 <= i < |fields| && fields[i].0 == k by {
      forall k | k in ks ensures exists i :: 0 <= i < |fields| && fields[i].0 == k {
        var i :| 0 <= i < |ks| && ks[i] == k;
      }
    }
    r
  }

  /** The value a mapping holds under key `k` (its first entry with that key),
      or `Null` when it holds none: how a pandas constructor fills a missing
      key with `NaN`. */
  function Get(fields: seq<(string, Value)>, k: string): (r: Value)
    ensures r == Null || exists i :: 0 <= i < |fields| && fields[i] == (k, r)
    ensures (forall i :: 0 <= i < |fields| ==> fields[i].0 != k) ==> r == Null
    ensures forall i :: 0 <= i < |fields| && fields[i].0 == k && (forall j :: 0 <= j < i ==> fields[j].0 != k) ==>
              r == fields[i].1
    ensures Size(r) <= FieldsSize(fields)
  {
    if |fields| == 0 then Null
    else if fields[0].0 == k then fields[0].1
    else
      var r := Get(fields[1..], k);
      assert forall i :: 1 <= i < |fields| && fields[i].0 == k && (forall j :: 0 <= j < i ==> fields[j].0 != k) ==>
               r == fields[i].1 by {
        forall i | 1 <= i < |fields| && fields[i].0 == k && (forall j :: 0 <= j < i ==> fields[j].0 != k)
          ensures r == fields[i].1
        {
          assert fields[1..][i - 1] == fields[i];
          assert forall j :: 0 <= j < i - 1 ==> fields[1..][j].0 != k;
        }
      }
      r
  }

  /** The dictionary size `len(d)` of a mapping. */
  function Len(fields: seq<(string, Value)>): nat {
    |FieldNames(fields)|
  }
}
