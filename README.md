# vtpy core in Dafny

This project models the decision logic of `vtpy.py`, a small helper around a
Microsoft Access tag database for Rockwell-style plant tags. The modelled
parts are:

- **`Tag`**: one row of a tag table. It holds a column-to-value dictionary
  built with `dict(zip(columns, values))`. Every construction also updates
  the class-level cache of column names per tag type, where the first write
  wins. The cache is the class `Tags.ColumnRegistry`; its map field is
  updated in place.
- **`Tag.assumed_type_ab`**: guesses a tag's type from its name. It takes
  the last `\\`-separated path segment, cuts it at the first `_`, and looks
  that key up in a fixed table of six types and their name prefixes.
  `Strings.Split` models Python's `str.split` exactly: occurrences are found
  left to right and do not overlap.
- **`DBConnection.add_tags`**: may clear the identity cells `tag[0]`,
  `tag[-1]` and `tag[-2]` of every row in place. Rows are `array`s. Each row
  then gets an insert statement. The statement lists the cursor's columns
  in brackets, with one `?` per cell of the row.
- **`DBConnection.update_tags`**: stops at the first row whose identity is
  not stored, raising `Update failed - tag not found.`. For the other rows
  it selects the non-blank cells from column 1 on and builds the keyed
  update.
- **`DBConnection.get_tag_by_name`**: forms a query whose one parameter is
  the last path segment of the name.
- **`DBConnection.__init__`, `get_all` and `get`**: the list of user tables,
  and how the working tables are overwritten from an abstract store.

Statements are data (`Connection.Statement`), and `Connection.Sql` gives
their text. Calls that fail return `Result.Err` with a
`Connection.Failure`: an `IndexError`, a raised message, or a driver error.
The database is replaced by inputs:

- the column names the cursor reports;
- the set of identity values already stored;
- a map from each table name to the rows a full scan returns;
- the catalog, as (name, kind) pairs.

Modules: `Wrappers` (Option, Result), `Strings` (find, split and join),
`Tags` (the `Tag` class and the type guess), and `Connection` (the
`DBConnection` operations).

Some behaviour of `vtpy.py` that the model keeps as written:

- failures are a plain `Exception` with a message, or an `IndexError` that
  escapes from list indexing;
- every call to `add_tags` or `update_tags` names one table for all its rows;
- insert columns come from the cursor description of that table;
- an insert has one `?` per cell of the row, whatever the number of columns;
- `update_tags` sets only the non-blank cells from column 1 on;
- both operations commit once, after their whole loop.

## Model

| member | source | states |
|---|---|---|
| Strings.FindFrom | vtpy.py:59 | the first occurrence of the separator at or after `from`, or none at all: the search `str.split` makes |
| Strings.JoinSplit | vtpy.py:59-60 | joining the pieces of a split with the separator gives back the original string |
| Strings.SplitPartsFree | vtpy.py:59-60 | no piece of a split holds the separator |
| Strings.LastPartSpec | vtpy.py:59 | `split(sep)[-1]` is a suffix of the name that holds no separator and directly follows an occurrence of it; when the separator is found, it is the last piece of what follows the first occurrence, so occurrences never overlap; it is the whole name when there is no separator |
| Strings.LastPartAfterFirst | vtpy.py:59 | the last piece is the last piece of the text after the first occurrence of the separator |
| Strings.LastPartFollowsSeparator | vtpy.py:59 | when the separator is found, the last piece begins right after an occurrence of it |
| Strings.FirstPartSpec | vtpy.py:60 | `split(sep)[0]` is the prefix before the first occurrence of the separator: no occurrence starts inside it, it is followed by the separator when there is one, and it is the whole string otherwise |
| Strings.SplitJoin | vtpy.py:104 | splitting a comma-joined list of comma-free items gives back the list |
| Tags.Zip | vtpy.py:40 | `zip` pairs position by position up to the shorter length |
| Tags.DictSpec | vtpy.py:40 | `dict(pairs)` has exactly the first components as keys, and a key takes the value of the last pair naming it |
| Tags.ValueDictSpec | vtpy.py:40 | the value dictionary maps `columns[i]` to `values[i]` below the shorter length, has no other keys, and keeps the last value of a repeated column |
| Tags.CachedEntryStable | vtpy.py:43-44 | a type already in the column cache keeps its entry through any later constructions |
| Tags.FirstConstructionWins | vtpy.py:43-44 | the cache holds, for each type, the columns of the first construction of that type |
| Tags.UnseenTypeAbsent | vtpy.py:43-44 | a type that is never constructed never enters the cache |
| Tags.ColumnRegistry.constructor | vtpy.py:34 | the column cache starts empty |
| Tags.ColumnRegistry.Remember | vtpy.py:43-44 | records the columns only for a type without an entry, and changes no other entry |
| Tags.Tag.constructor | vtpy.py:36-44 | keeps the type, builds the zipped dictionary, and updates the cache with first write winning |
| Tags.AssumedTypeAb | vtpy.py:50-61 | the guess is the type of a prefix list holding the name's key, and `None` exactly when no list holds it |
| Tags.FirstMatch | vtpy.py:61 | `next(...)` yields the type of the first list holding the key, and `None` exactly when no list holds it |
| Tags.PrefixListsDisjoint | vtpy.py:52-58 | no name prefix is listed under two types |
| Tags.TypeNamesDistinct | vtpy.py:52-58 | the six type names are pairwise distinct |
| Tags.AssumedTypeExact | vtpy.py:50-61 | the guess is type `i` exactly when the name's key is among type `i`'s prefixes |
| Tags.AssumedTypeRange | vtpy.py:52-61 | the guess is `None` or one of the five types with prefixes, never `AB_TOTALIZER`, and `None` exactly when no list holds the key |
| Tags.TypeKeySpec | vtpy.py:59-60 | the last path segment is the separator-free suffix of the name that follows a `\\`; when a `\\` is found it is the last segment of what follows the first one, and it is the whole name when there is none; the key is the segment's prefix before its first `_`, or the whole segment |
| Tags.AreaPathSegment | vtpy.py:59 | the last segment of `Plant\\LT_101` is `LT_101` |
| Tags.PlantPathSegment | vtpy.py:59 | the last segment of `\\Plant\\LT_101` is `LT_101` |
| Tags.OverlappingSeparatorSegment | vtpy.py:59 | in `a` followed by three backslashes and `b`, the cut is made at the first two, so the last segment is one backslash followed by `b` |
| Tags.AssumedTypeOfPlantPath | vtpy.py:59-61 | `\\Plant\\LT_101` has key `LT` and is guessed `AB_AI` |
| Tags.AssumedTypeOfBareName | vtpy.py:59-61 | `LT101` has no separator and no underscore, so its key is the whole name `LT101`, and no type is guessed |
| Connection.StrippedSpec | vtpy.py:100-103 | stripping keeps the length, clears cell 0 and the last two cells, and leaves every other cell unchanged |
| Connection.StrippedIdempotent | vtpy.py:100-103 | stripping a row twice changes nothing more than stripping it once |
| Connection.StripInPlace | vtpy.py:100-103 | the array ends up stripped; the operation succeeds exactly when the row has at least two cells, and otherwise reports the `IndexError` with the cells already cleared |
| Connection.BracketedCommaFree | vtpy.py:104 | wrapping a comma-free name in brackets keeps it comma-free |
| Connection.MarksShape | vtpy.py:104 | `n` placeholders joined by commas read `?,?,...,?`, with `2n - 1` characters |
| Connection.InsertPlaceholders | vtpy.py:104 | for any column names, the insert text ends with `values (`, exactly one `?` per cell of the row separated by commas, and `)`; a row with no cells gives `values ()` |
| Connection.InsertSqlLists | vtpy.py:104 | the insert text names the cursor's columns in order, each bracketed; no columns give an empty list |
| Connection.AddTags | vtpy.py:95-107 | succeeds unless stripping meets a row shorter than two cells, which is reported as an `IndexError` at the first such row; on success every row is stripped (or left alone) and gets its insert, in order; on failure the rows up to the failing one are stripped and the rest are unchanged |
| Connection.KeptIndices | vtpy.py:120-121 | exactly the in-range indices with non-blank cells, in increasing order |
| Connection.UpdateSelectionSpec | vtpy.py:120-121 | the updated columns and values are aligned, follow the table's order, never include the identity column, and are exactly the non-blank cells from index 1 |
| Connection.UpdateCheck | vtpy.py:113-121 | a row passes exactly when it is non-empty, its identity is stored, and it covers the column list; an empty row fails with `IndexError`, an unstored identity raises the not-found message, and a stored row shorter than the column list fails with `IndexError` |
| Connection.UpdateSqlLists | vtpy.py:123-124 | the update text assigns `[name]=?` for each selected column, in order, so it binds exactly its parameters, the selected cells; it is keyed by the text of the identity cell |
| Connection.Sql | vtpy.py:104-131 | the text of every statement opens with its keyword (`insert into`, `update`, `select * from`) and its table |
| Connection.SelectByNameOneMark | vtpy.py:131 | after its table, the name query holds exactly one `?`, as its last character, for its one parameter |
| Connection.UpdateTags | vtpy.py:109-126 | succeeds exactly when every row passes its check, and then yields each row's keyed update in order; otherwise fails with the failure of the first row that does not pass |
| Connection.TagByNameQuery | vtpy.py:128-131 | the query is on the given table, and its one parameter is the separator-free suffix of the name that follows a `\\`; when a `\\` is found it is the last segment of what follows the first one, and it is the name itself when there is none |
| Connection.TableNames | vtpy.py:69 | the kept names are exactly the catalog entries of kind `TABLE` |
| Connection.TableNamesOne | vtpy.py:69 | one catalog entry yields its name exactly when its kind is `TABLE` |
| Connection.TableNamesAppend | vtpy.py:69 | the names of a catalog in two parts are the names of the first part followed by those of the second, so catalog order and repeated entries are kept |
| Connection.RefreshedSpec | vtpy.py:77-79 | scanning adds exactly the scanned tables, each holding the store's rows, and leaves every other working table as it was |
| Connection.DBConnection.constructor | vtpy.py:66-70 | keeps the file name, lists the user tables of the catalog, and starts with no working tables |
| Connection.DBConnection.GetAll | vtpy.py:75-80 | replaces every listed table by its scan and returns the working tables; a table the store cannot scan fails the call, with the earlier tables already replaced |
| Connection.DBConnection.Get | vtpy.py:82-92 | with no type, behaves as `get_all`; with a type, replaces that one table and returns its rows, or fails and leaves the tables unchanged |

## Left out

- The pyodbc connection (the driver string, `connect`, `close`), cursors, `execute` and `commit` are I/O. Statements are returned as values, and a successful result stands for the single commit.
- `get_columns_by_type` (vtpy.py:134-137) and the `select * from {type}` that `add_tags` and `update_tags` run to read `cursor.description` are not modelled. The column names they produce are an input of each operation.
- The rows a scan returns are an abstract store map. A table missing from it stands for a driver error.
- `LIKE` matching and the `fetchone` of `get_tag_by_name` are not modelled; the model stops at the query and its parameter.
- The validity of the SQL text, quoting, and injection through the type name or the identity are not modelled.
- The commented-out earlier `Tag` class (vtpy.py:6-31) is dead code and is not modelled.
- Cells are strings or `None`. Numbers, dates and other driver types are not modelled, and neither is their `str()` inside the update's `where` clause.
- Connection.AddTags: requires the listed rows to be distinct arrays. Python would strip a row listed twice twice; StrippedIdempotent shows that the second pass changes nothing, but this model does not capture aliasing between list entries.
- Connection.InsertSqlLists: stated only for column names without commas, since cutting the list at its commas cannot recover a name that holds one.
- Connection.UpdateSqlLists: stated only for column names without commas, for the same reason.
- Connection.AddTags: on failure it returns only the `IndexError`. The inserts already executed, and left uncommitted by the driver, are not modelled.
- Connection.UpdateTags: the lookup of a stored row is membership in the set `existing`. SQL's comparison with `NULL`, which never matches a `None` identity, is not modelled.
- Connection.UpdateTags: on failure it returns only the failure. The updates already executed but not committed are not modelled.
- Tags.ColumnRegistry: stores a copy of the column list. Python stores a reference to the caller's list, so a later mutation of that list would change the cache. The class-level dictionary is an explicit registry object that each construction receives.
- Connection.DBConnection.GetAll: returns the working tables as a value. Python returns the live dictionary, which aliases `self.tables`.
