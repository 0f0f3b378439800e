/** The pure helpers of `tableau_api/utils/helpers.py`: unwrapping an API
    response down to its list of records, looking up the message for a
    response status, and the file name an export gets when it is archived. */
module Helpers {
  import opened Json
  import opened Outcomes
  import opened Tables

  // ------------------------------------------------------------ unpacking

  datatype UnpackError =
    /** `TypeError`: the single value is neither a mapping nor a list. */
    | NotAListOrMapping(key: string, value: Value)
    /** `Exception("response contained multiple messages ...")`: the mapping
        does not have exactly one key; the message shows the `errors` entry
        (or an empty string) and the keys. */
    | MultipleMessages(errors: Value, keys: seq<string>)

  /** `d.get('errors', '')`. */
  function ErrorsEntry(fields: seq<(string, Value)>): Value {
    if "errors" in FieldNames(fields) then Get(fields, "errors") else Str("")
  }

  /** `unpack_response`: descend through mappings with a single key until a
      list is reached. */
  function Unpack(fields: seq<(string, Value)>): (r: Result<seq<Value>, UnpackError>)
    ensures Len(fields) != 1 ==> r == Err(MultipleMessages(ErrorsEntry(fields), FieldNames(fields)))
    ensures Len(fields) == 1 && Get(fields, FieldNames(fields)[0]).Arr? ==>
              r == Ok(Get(fields, FieldNames(fields)[0]).items)
    ensures Len(fields) == 1 && !Get(fields, FieldNames(fields)[0]).Arr? && !Get(fields, FieldNames(fields)[0]).Obj? ==>
              r == Err(NotAListOrMapping(FieldNames(fields)[0], Get(fields, FieldNames(fields)[0])))
    decreases FieldsSize(fields)
  {
    if Len(fields) != 1 then Err(MultipleMessages(ErrorsEntry(fields), FieldNames(fields)))
    else
      var k := FieldNames(fields)[0];
      var v := Get(fields, k);
      match v
      case Obj(inner) => Unpack(inner)
      case Arr(items) => Ok(items)
      case _ => Err(NotAListOrMapping(k, v))
  }

  /** A list wrapped in one single-key mapping per key of `path`, outermost
      first: the shape of a GraphQL or REST response. */
  function Wrap(path: seq<string>, items: seq<Value>): (v: Value)
    ensures |path| > 0 ==> v.Obj? && v.fields == [(path[0], Wrap(path[1..], items))]
  {
    if |path| == 0 then Arr(items) else Obj([(path[0], Wrap(path[1..], items))])
  }

  lemma SingleEntry(k: string, v: Value)
    ensures FieldNames([(k, v)]) == [k] && Len([(k, v)]) == 1 && Get([(k, v)], k) == v
  {
    assert KeyList([(k, v)]) == [k];
    assert Union([], [k]) == Union([k], []) == [k];
  }

  /** Unwrapping undoes wrapping: whatever single-key path a response nests
      its list under, `unpack_response` returns that list unchanged. */
  lemma {:induction false} UnpackWrap(path: seq<string>, items: seq<Value>)
    requires |path| > 0
    ensures Unpack(Wrap(path, items).fields) == Ok(items)
  {
    var fs := Wrap(path, items).fields;
    SingleEntry(path[0], Wrap(path[1..], items));
    if |path| > 1 {
      UnpackWrap(path[1..], items);
    }
  }

  // ------------------------------------------------------- status lookup

  /** `LOOKUP_RESPONSES`: for each REST method, its known status codes with
      their messages, in the order written. */
  const LookupResponses: seq<(string, seq<(int, string)>)> := [
    ("sign_in", [
      (200, "Signed in succesfully"),
      (400, "Bad Request: The content of the request body is missing or incomplete, or contains malformed XML."),
      (401, "Login error: Invalid credentials. Make sure the provided Personal Access Token (PAT) is correct."),
      (405, "Invalid request method: method was not POST")]),
    ("download_workbook", [
      (400, "There was a problem downloading or querying this file"),
      (401, "The authentication token for the request is missing, invalid, or expired"),
      (403, "A user attempted to download a .xlsx file without Read and/or ExportData permissions for the workbook or view, and is not an administrator."),
      (404, "The site or view specified in the request could not be found."),
      (405, "Request type was not GET.")]),
    ("download_data_source", [
      (403, "A non-administrator user attempted to download a data source, but the caller doesn't have Read permission."),
      (404, "The data source ID in the URI doesn't correspond to an existing data source."),
      (405, "Request type was not GET.")])]

  /** `d.get(k)` on an ordered dictionary: the value of the first entry with
      key `k`. */
  function Lookup<K(==), V>(entries: seq<(K, V)>, k: K): (r: Option<V>)
    ensures r.None? <==> forall i :: 0 <= i < |entries| ==> entries[i].0 != k
    ensures r.Some? ==> exists i :: 0 <= i < |entries| && entries[i] == (k, r.value)
                                    && forall j :: 0 <= j < i ==> entries[j].0 != k
  {
    if |entries| == 0 then None
    else if entries[0].0 == k then Some(entries[0].1)
    else
      var r := Lookup(entries[1..], k);
      assert forall i :: 1 <= i < |entries| ==> entries[1..][i - 1] == entries[i];
      r
  }

  datatype LookupFailure =
    /** `NotImplementedError`, listing the methods that are known. */
    | MethodNotImplemented(api: string, apis: seq<string>)
    /** `ValueNotFoundError`, listing the statuses known for the API method. */
    | ValueNotFound(status: int, api: string, statuses: seq<int>)
    /** `AttributeError`: `.keys()` called on `None`. */
    | NoneHasNoKeys

  /** `lookup_error` as written: for a known API method and an unknown status,
      building the `ValueNotFoundError` message calls `.keys()` on the missing
      status entry, which is `None`. */
  function LookupErrorAsWritten(api: string, status: int): (r: Result<string, LookupFailure>)
    ensures r.Ok? <==> Lookup(LookupResponses, api).Some?
                       && Lookup(Lookup(LookupResponses, api).value, status).Some?
    ensures r.Err? && Lookup(LookupResponses, api).Some? ==> r.error == NoneHasNoKeys
  {
    match Lookup(LookupResponses, api)
    case None => Err(MethodNotImplemented(api, KeyList(LookupResponses)))
    case Some(statuses) =>
      match Lookup(statuses, status)
      case None => Err(NoneHasNoKeys)
      case Some(message) => Ok(message)
  }

  /** The lookup of `lookup_error` as intended, over any table of methods
      and statuses: an unknown status raises `ValueNotFoundError` listing the
      method's statuses. */
  function LookupIn(table: seq<(string, seq<(int, string)>)>, api: string, status: int)
    : (r: Result<string, LookupFailure>)
    ensures r.Ok? <==> Lookup(table, api).Some? && Lookup(Lookup(table, api).value, status).Some?
    ensures r.Ok? ==> exists i, j :: 0 <= i < |table| && table[i].0 == api
                                    && 0 <= j < |table[i].1| && table[i].1[j] == (status, r.value)
    ensures (forall i :: 0 <= i < |table| ==> table[i].0 != api) <==>
              r == Err(MethodNotImplemented(api, KeyList(table)))
    ensures forall i :: 0 <= i < |table| && table[i].0 == api && (forall j :: 0 <= j < i ==> table[j].0 != api) ==>
              ((forall j :: 0 <= j < |table[i].1| ==> table[i].1[j].0 != status) <==>
               r == Err(ValueNotFound(status, api, KeyList(table[i].1))))
  {
    match Lookup(table, api)
    case None => Err(MethodNotImplemented(api, KeyList(table)))
    case Some(statuses) =>
      match Lookup(statuses, status)
      case None => Err(ValueNotFound(status, api, KeyList(statuses)))
      case Some(message) => Ok(message)
  }

  /** `lookup_error` as intended, on `LOOKUP_RESPONSES`. */
  function LookupError(api: string, status: int): (r: Result<string, LookupFailure>)
  {
    LookupIn(LookupResponses, api, status)
  }

  /** The two agree wherever the code as written does not fail on `None`. */
  lemma LookupErrorAgrees(api: string, status: int)
    ensures LookupErrorAsWritten(api, status) != Err(NoneHasNoKeys) ==>
              LookupErrorAsWritten(api, status) == LookupError(api, status)
    ensures LookupErrorAsWritten(api, status) == Err(NoneHasNoKeys) <==>
              LookupError(api, status).Err? && LookupError(api, status).error.ValueNotFound?
  {
  }

  /** Example: the message for a successful sign-in. */
  lemma LookupSignedIn()
    ensures LookupError("sign_in", 200) == Ok("Signed in succesfully")
  {
  }

  /** Example: a method missing from `LOOKUP_RESPONSES` lists the three
      that are there. */
  lemma LookupUnknownMethod()
    ensures LookupError("sign_out", 200)
            == Err(MethodNotImplemented("sign_out", ["sign_in", "download_workbook", "download_data_source"]))
  {
    var ks := KeyList(LookupResponses);
    assert ks == ["sign_in", "download_workbook", "download_data_source"];
    assert forall i :: 0 <= i < |ks| ==> ks[i] != "sign_out";
    assert Lookup(LookupResponses, "sign_out") == None;
  }

  /** A known method with an unknown status: the code as written fails with
      `AttributeError` instead of the `ValueNotFoundError` it builds. */
  lemma LookupUnknownStatus()
    ensures LookupErrorAsWritten("sign_in", 500) == Err(NoneHasNoKeys)
    ensures LookupError("sign_in", 500) == Err(ValueNotFound(500, "sign_in", [200, 400, 401, 405]))
  {
    assert KeyList(LookupResponses[0].1) == [200, 400, 401, 405];
  }

  // ------------------------------------------------------ archive names

  /** `\w` over ASCII: a letter, a digit or the underscore. */
  predicate IsWordChar(ch: char) {
    'a' <= ch <= 'z' || 'A' <= ch <= 'Z' || '0' <= ch <= '9' || ch == '_'
  }

  /** The end of the run of word characters that starts at `s`. */
  function WordEnd(path: string, s: nat): (e: nat)
    requires s <= |path|
    ensures s <= e <= |path|
    ensures forall i :: s <= i < e ==> IsWordChar(path[i])
    ensures e == |path| || !IsWordChar(path[e])
    decreases |path| - s
  {
    if s < |path| && IsWordChar(path[s]) then WordEnd(path, s + 1) else s
  }

  /** `(?<=\\)\w+\.(csv|xlsx)` matches at `s` with name `w` and extension
      `ext`. */
  ghost predicate MatchesAt(path: string, s: nat, w: string, ext: string) {
    && 1 <= s && s + |w| + 1 + |ext| <= |path|
    && path[s - 1] == '\\'
    && |w| > 0 && (forall i :: 0 <= i < |w| ==> IsWordChar(w[i]))
    && path[s..s + |w|] == w
    && path[s + |w|] == '.'
    && ext in {"csv", "xlsx"}
    && path[s + |w| + 1..s + |w| + 1 + |ext|] == ext
  }

  /** The name and extension the pattern matches at `s`, if it does. */
  function MatchAt(path: string, s: nat): (r: Option<(string, string)>)
    requires s <= |path|
    ensures r.Some? ==> MatchesAt(path, s, r.value.0, r.value.1)
    ensures r.None? ==> forall w, ext :: !MatchesAt(path, s, w, ext)
  {
    var e := WordEnd(path, s);
    if 1 <= s && path[s - 1] == '\\' && e > s && e + 4 <= |path| && path[e..e + 4] == ".csv" then
      ExtensionAt(path, s, e, "csv");
      Some((path[s..e], "csv"))
    else if 1 <= s && path[s - 1] == '\\' && e > s && e + 5 <= |path| && path[e..e + 5] == ".xlsx" then
      ExtensionAt(path, s, e, "xlsx");
      Some((path[s..e], "xlsx"))
    else
      NoMatchAt(path, s);
      None
  }

  lemma ExtensionAt(path: string, s: nat, e: nat, ext: string)
    requires 1 <= s < e && e + 1 + |ext| <= |path| && e == WordEnd(path, s) && path[s - 1] == '\\'
    requires ext in {"csv", "xlsx"} && path[e..e + 1 + |ext|] == "." + ext
    ensures MatchesAt(path, s, path[s..e], ext)
  {
    var w := path[s..e];
    assert |w| == e - s;
    forall i | 0 <= i < |w| ensures IsWordChar(w[i]) {
      assert w[i] == path[s + i];
    }
    assert path[e] == path[e..e + 1 + |ext|][0];
    assert path[e + 1..e + 1 + |ext|] == path[e..e + 1 + |ext|][1..];
  }

  lemma NoMatchAt(path: string, s: nat)
    requires s <= |path|
    requires var e := WordEnd(path, s);
      !(1 <= s && path[s - 1] == '\\' && e > s && e + 4 <= |path| && path[e..e + 4] == ".csv")
    requires var e := WordEnd(path, s);
      !(1 <= s && path[s - 1] == '\\' && e > s && e + 5 <= |path| && path[e..e + 5] == ".xlsx")
    ensures forall w, ext :: !MatchesAt(path, s, w, ext)
  {
    forall w, ext | MatchesAt(path, s, w, ext) ensures false {
      MatchEnd(path, s, w, ext);
    }
  }

  lemma MatchEnd(path: string, s: nat, w: string, ext: string)
    requires MatchesAt(path, s, w, ext)
    ensures s + |w| == WordEnd(path, s)
    ensures path[s + |w|..s + |w| + 1 + |ext|] == "." + ext
  {
    forall i | s <= i < s + |w| ensures IsWordChar(path[i]) {
      assert path[i] == path[s..s + |w|][i - s] == w[i - s];
    }
    assert !IsWordChar('.');
    var tail := path[s + |w|..s + |w| + 1 + |ext|];
    assert tail[0] == '.';
    assert tail[1..] == ext;
  }

  /** `re.search`: the leftmost match at or after `s`. */
  function SearchFrom(path: string, s: nat): (r: Option<(nat, string, string)>)
    requires s <= |path|
    ensures r.Some? ==> s <= r.value.0 <= |path| && MatchesAt(path, r.value.0, r.value.1, r.value.2)
    ensures r.Some? ==> forall q, w, ext :: s <= q < r.value.0 ==> !MatchesAt(path, q, w, ext)
    ensures r.None? ==> forall q, w, ext :: s <= q <= |path| ==> !MatchesAt(path, q, w, ext)
    decreases |path| - s
  {
    match MatchAt(path, s)
    case Some(m) => Some((s, m.0, m.1))
    case None => if s == |path| then None else SearchFrom(path, s + 1)
  }

  /** The rename rule of `move_to_historiek`: `<word>.<ext>` becomes
      `<word>-<creation date>.<ext>`; a path without a match is skipped. */
  function ArchiveName(path: string, created: Date): (r: Option<string>)
  {
    match SearchFrom(path, 0)
    case None => None
    case Some(m) => Some(m.1 + "-" + FormatDate(created) + "." + m.2)
  }

  /** A path gets a new name exactly when the pattern matches somewhere in
      it; the name is built from the leftmost match, and keeps its word, the
      date and the extension apart. */
  lemma ArchiveNameSpec(path: string, created: Date)
    ensures ArchiveName(path, created).None? <==> forall q: nat, w, ext :: q <= |path| ==> !MatchesAt(path, q, w, ext)
    ensures ArchiveName(path, created).Some? ==>
              exists q: nat, w, ext ::
                && MatchesAt(path, q, w, ext)
                && (forall q': nat, w', ext' :: q' < q ==> !MatchesAt(path, q', w', ext'))
                && ArchiveName(path, created).value == w + "-" + FormatDate(created) + "." + ext
  {
    var m := SearchFrom(path, 0);
    if m.Some? {
      var q, w, ext := m.value.0, m.value.1, m.value.2;
      assert MatchesAt(path, q, w, ext);
    }
  }

  /** From the new name one reads back the word, the date and the
      extension. */
  lemma ArchiveNameParts(path: string, created: Date)
    requires ArchiveName(path, created).Some?
    ensures var n := ArchiveName(path, created).value;
      var m := SearchFrom(path, 0).value;
      && n[..|m.1|] == m.1
      && n[|m.1|] == '-'
      && n[|m.1| + 1..|m.1| + 11] == FormatDate(created)
      && n[|m.1| + 11] == '.'
      && n[|m.1| + 12..] == m.2
      && m.2 in {"csv", "xlsx"}
  {
    FormatDateRoundTrip(created);
  }
}
