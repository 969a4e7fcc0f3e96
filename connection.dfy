/** The decision logic inside `DBConnection` of vtpy.py, with the database
    driver replaced by abstract inputs: the column names a cursor reports,
    the set of identity values already stored, and a map from table name to
    the rows a full scan returns. Statements are produced as values instead
    of being executed. */
module Connection {
  import opened Wrappers
  import opened Strings
  import opened Tags

  /** What escapes a call: an `Exception` raised with a message, Python's
      `IndexError`, or an error of the driver for a failing query. */
  datatype Failure = Raised(message: string) | IndexError | DriverError(table: string)

  /** A parameterised SQL statement handed to the cursor: the table, the
      columns it names and its parameters; `Sql` gives its text. */
  datatype Statement =
    | Insert(table: string, columns: seq<string>, params: seq<Value>)
    | Update(table: string, columns: seq<string>, id: Value, params: seq<Value>)
    | SelectByName(table: string, params: seq<Value>)

  /** One row as a full table scan returns it. */
  type Row = seq<Value>

  /** The message raised when an update names an identity that is not stored. */
  const TagNotFound: string := "Update failed - tag not found."

  /** The identity column of every tag table. */
  const IdentityColumn: string := "Export Info - leave blank for new records"

  // ---------------------------------------------------------------------
  // add_tags: identity stripping and the insert statement
  // ---------------------------------------------------------------------

  /** The contents of a tag after `tag[0] = tag[-1] = tag[-2] = None`, as far
      as those assignments get: an empty tag fails at the first one and a
      one-element tag at the third, after its only cell was cleared. */
  function Stripped(tag: seq<Value>): seq<Value> {
    if |tag| == 0 then tag
    else if |tag| == 1 then [None]
    else tag[0 := None][|tag| - 1 := None][|tag| - 2 := None]
  }

  /** Stripping clears the first and the last two cells and keeps the rest. */
  lemma StrippedSpec(tag: seq<Value>)
    ensures |Stripped(tag)| == |tag|
    ensures forall i :: 0 <= i < |tag| ==>
              Stripped(tag)[i] == if i == 0 || i >= |tag| - 2 then None else tag[i]
  {
  }

  /** Stripping twice is stripping once. */
  lemma StrippedIdempotent(tag: seq<Value>)
    ensures Stripped(Stripped(tag)) == Stripped(tag)
  {
    StrippedSpec(tag);
    StrippedSpec(Stripped(tag));
  }

  /** Clears the identity cells of one tag in place; `ok` is false when the
      negative indices run off the front, which Python reports as an
      `IndexError`. */
  method StripInPlace(tag: array<Value>) returns (ok: bool)
    modifies tag
    ensures ok <==> tag.Length >= 2
    ensures tag[..] == Stripped(old(tag[..]))
  {
    if tag.Length == 0 {
      return false;
    }
    tag[0] := None;
    tag[tag.Length - 1] := None;
    if tag.Length < 2 {
      return false;
    }
    tag[tag.Length - 2] := None;
    ok := true;
  }

  /** Every column name wrapped in brackets, `[name]`. */
  function Bracketed(names: seq<string>): seq<string> {
    seq(|names|, i requires 0 <= i < |names| => "[" + names[i] + "]")
  }

  /** `n` placeholders. */
  function QuestionMarks(n: nat): seq<string> {
    seq(n, _ => "?")
  }

  /** The text of the insert: the bracketed column names joined by commas,
      and one `?` per cell of the tag (not per column). */
  function InsertSql(tagType: string, columnNames: seq<string>, tagLength: nat): string {
    "insert into " + tagType + " (" + Join(Bracketed(columnNames), ",") + ") values (" +
    Join(QuestionMarks(tagLength), ",") + ")"
  }

  /** A bracketed name holds a comma only if the name does. */
  lemma BracketedCommaFree(names: seq<string>)
    requires forall k :: 0 <= k < |names| ==> ',' !in names[k]
    ensures forall k :: 0 <= k < |Bracketed(names)| ==> ',' !in Bracketed(names)[k]
  {
    forall k | 0 <= k < |names| ensures ',' !in Bracketed(names)[k] {
      var b := Bracketed(names)[k];
      assert b == ['['] + names[k] + [']'];
      forall i | 0 <= i < |b| ensures b[i] != ',' {
        if 0 < i < |b| - 1 {
          assert b[i] == names[k][i - 1];
        }
      }
    }
  }

  /** `n` placeholders joined by commas read `?,?,...,?`: `?` at the even
      positions and `,` at the odd ones, `2n - 1` characters in all. */
  lemma {:induction false} MarksShape(n: nat)
    ensures var marks := Join(QuestionMarks(n), ",");
      |marks| == (if n == 0 then 0 else 2 * n - 1) &&
      forall k :: 0 <= k < |marks| ==> marks[k] == if k % 2 == 0 then '?' else ','
  {
    if n >= 2 {
      MarksShape(n - 1);
      var tail := Join(QuestionMarks(n - 1), ",");
      assert QuestionMarks(n)[1..] == QuestionMarks(n - 1);
      var marks := Join(QuestionMarks(n), ",");
      assert marks == "?" + "," + tail;
      forall k | 2 <= k < |marks| ensures marks[k] == if k % 2 == 0 then '?' else ',' {
        assert marks[k] == tail[k - 2];
      }
    }
  }

  /** The insert text ends with `values (`, then exactly one `?` per cell of
      the tag, separated by commas, then `)`; a tag without cells gives
      `values ()`. Nothing is assumed about the column names. */
  lemma InsertPlaceholders(tagType: string, columnNames: seq<string>, tagLength: nat)
    ensures exists head, marks ::
              && InsertSql(tagType, columnNames, tagLength) == head + "values (" + marks + ")"
              && |marks| == (if tagLength == 0 then 0 else 2 * tagLength - 1)
              && (forall k :: 0 <= k < |marks| ==> marks[k] == if k % 2 == 0 then '?' else ',')
              && (tagLength >= 1 ==> Split(marks, ",") == QuestionMarks(tagLength))
  {
    var marks := Join(QuestionMarks(tagLength), ",");
    MarksShape(tagLength);
    if tagLength >= 1 {
      SplitJoin(QuestionMarks(tagLength), ',');
    }
    var head := "insert into " + tagType + " (" + Join(Bracketed(columnNames), ",") + ") ";
    assert InsertSql(tagType, columnNames, tagLength) == head + "values (" + marks + ")";
  }

  /** The insert names the cursor's columns in order, each as `[name]`:
      cutting the column list at its commas gives back the bracketed names,
      and no column gives an empty list. */
  lemma InsertSqlLists(tagType: string, columnNames: seq<string>, tagLength: nat)
    requires forall k :: 0 <= k < |columnNames| ==> ',' !in columnNames[k]
    ensures exists columns ::
              && InsertSql(tagType, columnNames, tagLength) ==
                   "insert into " + tagType + " (" + columns + ") values (" + Join(QuestionMarks(tagLength), ",") + ")"
              && (|columnNames| == 0 ==> columns == "")
              && (|columnNames| >= 1 ==> Split(columns, ",") == Bracketed(columnNames))
  {
    BracketedCommaFree(columnNames);
    if |columnNames| >= 1 {
      SplitJoin(Bracketed(columnNames), ',');
    }
    var columns := Join(Bracketed(columnNames), ",");
    assert InsertSql(tagType, columnNames, tagLength) ==
      "insert into " + tagType + " (" + columns + ") values (" + Join(QuestionMarks(tagLength), ",") + ")";
  }

  /** `add_tags(type, tag_list, remove_id_info)`: optionally strips each
      tag in place, then builds its insert. On success every statement is
      committed at once; on the `IndexError` of a tag shorter than two cells
      nothing is committed, and the tags before it (and that tag, as far as
      Python got) stay stripped. The tags are distinct rows. */
  method AddTags(tagType: string, columnNames: seq<string>, tagList: seq<array<Value>>, removeIdInfo: bool)
    returns (r: Result<seq<Statement>, Failure>)
    requires forall j, k :: 0 <= j < k < |tagList| ==> tagList[j] != tagList[k]
    modifies tagList
    ensures !removeIdInfo ==> r.Ok?
    ensures removeIdInfo ==> (r.Ok? <==> forall k :: 0 <= k < |tagList| ==> tagList[k].Length >= 2)
    ensures r.Ok? ==> forall k :: 0 <= k < |tagList| ==>
              tagList[k][..] == if removeIdInfo then Stripped(old(tagList[k][..])) else old(tagList[k][..])
    ensures r.Ok? ==> |r.value| == |tagList| && forall k :: 0 <= k < |tagList| ==>
              r.value[k] == Insert(tagType, columnNames, tagList[k][..])
    ensures r.Err? ==> r.error == IndexError
    ensures r.Err? ==> exists k ::
              && 0 <= k < |tagList| && tagList[k].Length < 2
              && (forall j :: 0 <= j < k ==> tagList[j].Length >= 2)
              && (forall j :: 0 <= j < |tagList| ==>
                    tagList[j][..] == if j <= k then Stripped(old(tagList[j][..])) else old(tagList[j][..]))
  {
    var statements: seq<Statement> := [];
    var i := 0;
    while i < |tagList|
      invariant 0 <= i <= |tagList|
      invariant |statements| == i
      invariant removeIdInfo ==> forall j :: 0 <= j < i ==> tagList[j].Length >= 2
      invariant forall j :: 0 <= j < |tagList| ==>
                  tagList[j][..] == if removeIdInfo && j < i then Stripped(old(tagList[j][..])) else old(tagList[j][..])
      invariant forall j :: 0 <= j < i ==> statements[j] == Insert(tagType, columnNames, tagList[j][..])
    {
      var tag := tagList[i];
      if removeIdInfo {
        var ok := StripInPlace(tag);
        if !ok {
          return Err(IndexError);
        }
      }
      statements := statements + [Insert(tagType, columnNames, tag[..])];
      i := i + 1;
    }
    return Ok(statements);
  }

  // ---------------------------------------------------------------------
  // update_tags: the not-found check and the column selection
  // ---------------------------------------------------------------------

  /** A cell that an update leaves alone: `None` or the empty string. */
  predicate Blank(v: Value) {
    v == None || v == Some("")
  }

  /** Reading `tag[i]` for every `i` in `[from, |columns|)` stays in range. */
  predicate Readable(columns: seq<string>, tag: seq<Value>, from: nat) {
    |columns| <= from || |columns| <= |tag|
  }

  /** The indices `i` in `[from, |columns|)` whose cell is not blank, in
      increasing order: the filter both comprehensions of `update_tags` share. */
  function KeptIndices(columns: seq<string>, tag: seq<Value>, from: nat): (idx: seq<nat>)
    requires Readable(columns, tag, from)
    ensures forall k :: 0 <= k < |idx| ==> from <= idx[k] < |columns| && !Blank(tag[idx[k]])
    ensures forall k, l :: 0 <= k < l < |idx| ==> idx[k] < idx[l]
    ensures forall i :: from <= i < |columns| && !Blank(tag[i]) ==> i in idx
    decreases |columns| - from
  {
    if |columns| <= from then []
    else (if Blank(tag[from]) then [] else [from]) + KeptIndices(columns, tag, from + 1)
  }

  /** `updated_columns`: the names of the kept columns from index 1 on. */
  function UpdatedColumns(columns: seq<string>, tag: seq<Value>): seq<string>
    requires Readable(columns, tag, 1)
  {
    var idx := KeptIndices(columns, tag, 1);
    seq(|idx|, k requires 0 <= k < |idx| => columns[idx[k]])
  }

  /** `updated_values`: the cells of the kept columns from index 1 on. */
  function UpdatedValues(columns: seq<string>, tag: seq<Value>): seq<Value>
    requires Readable(columns, tag, 1)
  {
    var idx := KeptIndices(columns, tag, 1);
    seq(|idx|, k requires 0 <= k < |idx| => tag[idx[k]])
  }

  /** The selected columns and values have equal length and stay aligned;
      both follow the order of the table; index 0, the identity, is never
      among them; and exactly the non-blank cells from index 1 are. */
  lemma UpdateSelectionSpec(columns: seq<string>, tag: seq<Value>)
    requires Readable(columns, tag, 1)
    ensures var idx := KeptIndices(columns, tag, 1);
      |UpdatedColumns(columns, tag)| == |UpdatedValues(columns, tag)| == |idx| &&
      (forall k :: 0 <= k < |idx| ==>
         1 <= idx[k] < |columns| && UpdatedColumns(columns, tag)[k] == columns[idx[k]] && UpdatedValues(columns, tag)[k] == tag[idx[k]]) &&
      (forall k, l :: 0 <= k < l < |idx| ==> idx[k] < idx[l]) &&
      (forall i :: 0 <= i < |columns| ==> (i in idx <==> i >= 1 && !Blank(tag[i])))
  {
  }

  /** Python's `str()` of a cell, as the f-string splices the identity in. */
  function Display(v: Value): string {
    match v
    case None => "None"
    case Some(s) => s
  }

  /** One `[name]=?` assignment per selected column. */
  function SetClauses(updatedColumns: seq<string>): seq<string> {
    seq(|updatedColumns|, k requires 0 <= k < |updatedColumns| => "[" + updatedColumns[k] + "]=?")
  }

  /** An assignment holds a comma only if its column name does. */
  lemma SetClausesCommaFree(names: seq<string>)
    requires forall k :: 0 <= k < |names| ==> ',' !in names[k]
    ensures forall k :: 0 <= k < |SetClauses(names)| ==> ',' !in SetClauses(names)[k]
  {
    forall k | 0 <= k < |names| ensures ',' !in SetClauses(names)[k] {
      var c := SetClauses(names)[k];
      assert c == ['['] + names[k] + [']', '=', '?'];
      forall i | 0 <= i < |c| ensures c[i] != ',' {
        if 0 < i < |c| - 3 {
          assert c[i] == names[k][i - 1];
        }
      }
    }
  }

  /** The text of the update: `[name]=?` per selected column, keyed by the
      identity spliced in between quotes. */
  function UpdateSql(tagType: string, updatedColumns: seq<string>, id: Value): string {
    "update " + tagType + " set " + Join(SetClauses(updatedColumns), ",") +
    " where [" + IdentityColumn + "] = '" + Display(id) + "'"
  }

  /** The keyword that opens the text of a statement. */
  function Verb(st: Statement): string {
    match st
    case Insert(_, _, _) => "insert into "
    case Update(_, _, _, _) => "update "
    case SelectByName(_, _) => "select * from "
  }

  /** The text of a statement, as the f-strings of vtpy.py build it; it opens
      with the statement's keyword and its table. */
  function Sql(st: Statement): (text: string)
    ensures |Verb(st) + st.table| <= |text| && text[..|Verb(st) + st.table|] == Verb(st) + st.table
  {
    var text := match st
      case Insert(table, columns, params) => InsertSql(table, columns, |params|)
      case Update(table, columns, id, _) => UpdateSql(table, columns, id)
      case SelectByName(table, _) => "select * from " + table + " where Name like '%' + ?";
    assert text == Verb(st) + st.table + text[|Verb(st) + st.table|..];
    text
  }

  /** The statement `update_tags` executes for one tag that passed its checks. */
  function UpdateStatement(tagType: string, columns: seq<string>, tag: seq<Value>): Statement
    requires |tag| >= 1 && Readable(columns, tag, 1)
  {
    Update(tagType, UpdatedColumns(columns, tag), tag[0], UpdatedValues(columns, tag))
  }

  /** The update of a tag names the selected columns in order, one
      `[name]=?` each, so it binds exactly its parameters, the selected
      cells; no selected column gives an empty assignment list. It is keyed
      by the identity cell. */
  lemma UpdateSqlLists(tagType: string, columns: seq<string>, tag: seq<Value>)
    requires |tag| >= 1 && Readable(columns, tag, 1)
    requires forall k :: 0 <= k < |columns| ==> ',' !in columns[k]
    ensures var st := UpdateStatement(tagType, columns, tag);
      && st.params == UpdatedValues(columns, tag)
      && |SetClauses(st.columns)| == |st.params|
      && (forall k :: 0 <= k < |st.columns| ==> SetClauses(st.columns)[k] == "[" + st.columns[k] + "]=?")
      && exists assignments ::
           && Sql(st) == "update " + tagType + " set " + assignments +
                         " where [" + IdentityColumn + "] = '" + Display(tag[0]) + "'"
           && (|st.columns| == 0 ==> assignments == "")
           && (|st.columns| >= 1 ==> Split(assignments, ",") == SetClauses(st.columns))
  {
    var st := UpdateStatement(tagType, columns, tag);
    UpdateSelectionSpec(columns, tag);
    var idx := KeptIndices(columns, tag, 1);
    assert forall k :: 0 <= k < |st.columns| ==> ',' !in st.columns[k];
    SetClausesCommaFree(st.columns);
    if |st.columns| >= 1 {
      SplitJoin(SetClauses(st.columns), ',');
    }
    var assignments := Join(SetClauses(st.columns), ",");
    assert Sql(st) == "update " + tagType + " set " + assignments +
                      " where [" + IdentityColumn + "] = '" + Display(tag[0]) + "'";
  }

  /** What stops `update_tags` at one tag, in the order Python meets it:
      `tag[0]` of an empty tag, then the lookup that finds no stored row,
      then a tag shorter than the column list. */
  function UpdateCheck(columns: seq<string>, tag: seq<Value>, existing: set<Value>): (f: Option<Failure>)
    ensures f.None? <==> |tag| >= 1 && tag[0] in existing && Readable(columns, tag, 1)
    ensures |tag| == 0 ==> f == Some(IndexError)
    ensures |tag| >= 1 && tag[0] !in existing ==> f == Some(Raised(TagNotFound))
    ensures |tag| >= 1 && tag[0] in existing && !Readable(columns, tag, 1) ==> f == Some(IndexError)
  {
    if |tag| == 0 then Some(IndexError)
    else if tag[0] !in existing then Some(Raised(TagNotFound))
    else if !Readable(columns, tag, 1) then Some(IndexError)
    else None
  }

  /** `update_tags(type, tag_list)` against the stored identities `existing`.
      It stops at the first tag that fails its checks, before building that
      tag's update, and then nothing is committed; otherwise every update is
      committed at once after the loop. */
  method UpdateTags(tagType: string, columnNames: seq<string>, tagList: seq<seq<Value>>, existing: set<Value>)
    returns (r: Result<seq<Statement>, Failure>)
    ensures r.Ok? <==> forall k :: 0 <= k < |tagList| ==> UpdateCheck(columnNames, tagList[k], existing).None?
    ensures r.Ok? ==> |r.value| == |tagList| && forall k :: 0 <= k < |tagList| ==>
              r.value[k] == UpdateStatement(tagType, columnNames, tagList[k])
    ensures r.Err? ==> exists k ::
              && 0 <= k < |tagList|
              && UpdateCheck(columnNames, tagList[k], existing) == Some(r.error)
              && (forall j :: 0 <= j < k ==> UpdateCheck(columnNames, tagList[j], existing).None?)
  {
    var statements: seq<Statement> := [];
    var i := 0;
    while i < |tagList|
      invariant 0 <= i <= |tagList|
      invariant |statements| == i
      invariant forall j :: 0 <= j < i ==> UpdateCheck(columnNames, tagList[j], existing).None?
      invariant forall j :: 0 <= j < i ==> statements[j] == UpdateStatement(tagType, columnNames, tagList[j])
    {
      var tag := tagList[i];
      match UpdateCheck(columnNames, tag, existing)
      case Some(failure) =>
        return Err(failure);
      case None =>
        statements := statements + [UpdateStatement(tagType, columnNames, tag)];
      i := i + 1;
    }
    return Ok(statements);
  }

  // ---------------------------------------------------------------------
  // get_tag_by_name
  // ---------------------------------------------------------------------

  /** The query `get_tag_by_name(type, name)` runs: its one parameter is the
      last path segment of `name`, the suffix after its last separator, and
      `name` itself when it has none. */
  function TagByNameQuery(tagType: string, name: string): (q: Statement)
    ensures q.SelectByName? && q.table == tagType
    ensures |q.params| == 1 && q.params[0].Some?
    ensures var p := q.params[0].value;
      |p| <= |name| && p == name[|name| - |p|..] && !Contains(p, PathSeparator) &&
      (!Contains(name, PathSeparator) ==> p == name) &&
      (Contains(name, PathSeparator) ==> |p| + 2 <= |name| && OccursAt(name, PathSeparator, |name| - |p| - 2)) &&
      (FindFrom(name, PathSeparator, 0).Some? ==>
         p == LastPart(name[FindFrom(name, PathSeparator, 0).value + 2..], PathSeparator))
  {
    LastPartSpec(name, PathSeparator);
    SelectByName(tagType, [Some(LastPart(name, PathSeparator))])
  }

  /** After its table, the text of a name query holds exactly one `?`, as
      its last character, for its one parameter. */
  lemma SelectByNameOneMark(table: string, params: seq<Value>)
    ensures var text := Sql(SelectByName(table, params));
      var head := "select * from " + table;
      |head| < |text| && text[..|head|] == head &&
      text[|text| - 1] == '?' && '?' !in text[|head|..|text| - 1]
  {
    var head := "select * from " + table;
    var tail := " where Name like '%' + ?";
    var text := Sql(SelectByName(table, params));
    assert text == head + tail;
    assert text[|head|..|text| - 1] == tail[..|tail| - 1];
    assert forall k :: 0 <= k < |tail| - 1 ==> tail[k] != '?';
  }

  // ---------------------------------------------------------------------
  // DBConnection: the working tables
  // ---------------------------------------------------------------------

  /** The names of the catalog entries of kind `TABLE`, in catalog order. */
  function TableNames(catalog: seq<(string, string)>): (names: seq<string>)
    ensures |names| <= |catalog|
    ensures forall t :: t in names <==> exists i :: 0 <= i < |catalog| && catalog[i] == (t, "TABLE")
    decreases |catalog|
  {
    if |catalog| == 0 then []
    else
      var rest := TableNames(catalog[1..]);
      assert forall i :: 1 <= i < |catalog| ==> catalog[i] == catalog[1..][i - 1];
      if catalog[0].1 == "TABLE" then [catalog[0].0] + rest else rest
  }

  /** A single catalog entry yields its name exactly when it is a `TABLE`. */
  lemma TableNamesOne(entry: (string, string))
    ensures TableNames([entry]) == if entry.1 == "TABLE" then [entry.0] else []
  {
  }

  /** The names of a catalog in two parts are the names of the first part
      followed by those of the second: catalog order and repeated entries
      are kept. */
  lemma {:induction false} TableNamesAppend(a: seq<(string, string)>, b: seq<(string, string)>)
    ensures TableNames(a + b) == TableNames(a) + TableNames(b)
    decreases |a|
  {
    if |a| == 0 {
      assert a + b == b;
    } else {
      assert (a + b)[0] == a[0];
      assert (a + b)[1..] == a[1..] + b;
      TableNamesAppend(a[1..], b);
    }
  }

  /** The working tables after scanning `names` one after another. */
  function Refreshed(tables: map<string, seq<Row>>, store: map<string, seq<Row>>, names: seq<string>): map<string, seq<Row>>
    requires forall k :: 0 <= k < |names| ==> names[k] in store
    decreases |names|
  {
    if |names| == 0 then tables
    else Refreshed(tables, store, names[..|names| - 1])[names[|names| - 1] := store[names[|names| - 1]]]
  }

  /** Scanning adds exactly the scanned tables, each holding what the store
      returns for it, and leaves every other table as it was. */
  lemma {:induction false} RefreshedSpec(tables: map<string, seq<Row>>, store: map<string, seq<Row>>, names: seq<string>)
    requires forall k :: 0 <= k < |names| ==> names[k] in store
    ensures forall t :: t in Refreshed(tables, store, names) <==> t in tables || t in names
    ensures forall t :: t in Refreshed(tables, store, names) ==>
              Refreshed(tables, store, names)[t] == if t in names then store[t] else tables[t]
    decreases |names|
  {
    if |names| > 0 {
      var n := |names| - 1;
      var front := names[..n];
      RefreshedSpec(tables, store, front);
      assert names == front + [names[n]];
      forall t ensures t in names <==> t in front || t == names[n] {
        assert t in front + [names[n]] <==> t in front || t in [names[n]];
      }
    }
  }

  /** What `get` returns: every working table, or the rows of one. */
  datatype Fetched = AllTables(tables: map<string, seq<Row>>) | OneTable(rows: seq<Row>)

  /** A connection: the file it names, the user tables its catalog lists,
      and the working tables fetched so far. */
  class DBConnection {
    const filename: string
    const tableNames: seq<string>
    var tables: map<string, seq<Row>>

    /** Opening keeps the catalog's tables of kind `TABLE`; no rows are
        fetched yet. */
    constructor (file: string, catalog: seq<(string, string)>)
      ensures filename == file && tableNames == TableNames(catalog) && tables == map[]
    {
      filename := file;
      tableNames := TableNames(catalog);
      tables := map[];
    }

    /** `get_all()`: scans every user table in catalog order into the
        working tables; a table the store cannot scan stops the loop, with
        the tables before it already replaced. */
    method GetAll(store: map<string, seq<Row>>) returns (r: Result<map<string, seq<Row>>, Failure>)
      modifies this
      ensures r.Ok? <==> forall k :: 0 <= k < |tableNames| ==> tableNames[k] in store
      ensures r.Ok? ==> tables == Refreshed(old(tables), store, tableNames) && r.value == tables
      ensures r.Err? ==> exists k ::
                && 0 <= k < |tableNames| && tableNames[k] !in store
                && r.error == DriverError(tableNames[k])
                && (forall j :: 0 <= j < k ==> tableNames[j] in store)
                && tables == Refreshed(old(tables), store, tableNames[..k])
    {
      var i := 0;
      while i < |tableNames|
        invariant 0 <= i <= |tableNames|
        invariant forall j :: 0 <= j < i ==> tableNames[j] in store
        invariant tables == Refreshed(old(tables), store, tableNames[..i])
      {
        var table := tableNames[i];
        if table !in store {
          return Err(DriverError(table));
        }
        assert tableNames[..i + 1][..i] == tableNames[..i];
        tables := tables[table := store[table]];
        i := i + 1;
      }
      assert tableNames[..i] == tableNames;
      return Ok(tables);
    }

    /** `get(type)`: with no type, the same as `get_all()`; with a type,
        replaces that one working table by a fresh scan and returns its rows. */
    method Get(tagType: Option<string>, store: map<string, seq<Row>>) returns (r: Result<Fetched, Failure>)
      modifies this
      ensures tagType.Some? ==> (r.Ok? <==> tagType.value in store)
      ensures tagType.Some? && r.Ok? ==>
                tables == old(tables)[tagType.value := store[tagType.value]] &&
                r.value == OneTable(store[tagType.value])
      ensures tagType.Some? && r.Err? ==> tables == old(tables) && r.error == DriverError(tagType.value)
      ensures tagType.None? ==> (r.Ok? <==> forall k :: 0 <= k < |tableNames| ==> tableNames[k] in store)
      ensures tagType.None? && r.Ok? ==>
                tables == Refreshed(old(tables), store, tableNames) && r.value == AllTables(tables)
      ensures tagType.None? && r.Err? ==> exists k ::
                && 0 <= k < |tableNames| && tableNames[k] !in store
                && r.error == DriverError(tableNames[k])
                && (forall j :: 0 <= j < k ==> tableNames[j] in store)
                && tables == Refreshed(old(tables), store, tableNames[..k])
    {
      match tagType
      case None =>
        var all := GetAll(store);
        if all.Ok? {
          return Ok(AllTables(all.value));
        }
        return Err(all.error);
      case Some(table) =>
        if table !in store {
          return Err(DriverError(table));
        }
        tables := tables[table := store[table]];
        return Ok(OneTable(store[table]));
    }
  }
}
