# CSV import and menu loop of `import_export.py`

`import_export.py` is a small command-line tool. It moves tabular data between a
PostgreSQL database and CSV files. This project models the parts of it that
compute something, and proves what they do:

- **Column resolution** (module `CsvImport`). The import takes an optional
  column list. Without one, it uses the CSV header. Each requested name maps to
  the position of its first occurrence in the header (`header.index`). Names
  missing from the header are dropped by the comprehension. The length check
  after it then rejects the whole import, before any connection is opened.
- **Row projection** (`CsvImport.ProjectRows`). A loop appends one tuple per
  data row, in file order. Each tuple holds the cells at the resolved positions.
  A row too short for those positions makes Python raise `IndexError` there.
  Nothing catches it, so it escapes the import. The model returns it as an
  error outcome carrying the number of the first such row.
- **Import outcome** (`CsvImport.ImportFromCsv`). Four outcomes: columns not
  found (returns 0, no connection), an escaping `IndexError` (no connection),
  insert or commit raised (rolled back, returns 0), or committed (returns the
  number of data rows). The database's answer to the bulk insert is an input,
  `Committed` or `Raised`.
- **Menu loop** (module `Menu`). The lines the operator types are a sequence
  of strings. "5" breaks out of the loop. "1" to "4" each read their table and
  file names from the next lines and dispatch one operation, recorded as a
  `Command`. Any other line shows the menu again. Reading past the last line
  ends the session, where Python's `input()` raises `EOFError`. The guard
  `option != 4` is kept as written: `option` is a string after the first read,
  and a Python string never equals the int 4, so the guard never stops the loop.

The CSV file arrives already split: a header `seq<string>` and data rows, each
a `seq<string>`. Strings are `seq<char>`.

No `try` protects the menu loop from the operations it starts: a short data
row raises `IndexError` at line 73 outside any `try`, and `select_from_table`
has no `try` at all. The model keeps the escaping `IndexError` as its own
outcome (`RowIndexError`, `ReturnValue() == None`).

Facts the proofs bring out:

- An explicit empty column list is not `None`. It passes the check and gives
  one empty tuple per data row.
- With the default column list, a header that repeats a name resolves both
  copies to the first position (`DuplicateRequestsShareIndex`). With distinct
  names, the default list resolves to every position in order, and each row is
  cut to its first `|header|` cells. Longer rows are not rejected
  (`ProjectedIdentity`).

## Model

| member | source | states |
|---|---|---|
| `CsvImport.IndexOf` | import_export.py:65 | `header.index(name)` for a name in the header: a valid position holding the name, with no earlier occurrence |
| `CsvImport.FoundIndicesLength` | import_export.py:65-66 | the comprehension is never longer than the request, and has the request's length exactly when every requested name is in the header, so the length test rejects exactly the requests that name a missing column |
| `CsvImport.FoundIndicesAt` | import_export.py:65 | when every name is present, entry k of the comprehension is the first position of the k-th requested name |
| `CsvImport.Resolve` | import_export.py:65-68 | resolution succeeds if and only if every requested name occurs in the header; then it gives one index per requested name, in request order, each pointing at that name's first occurrence |
| `CsvImport.DuplicateRequestsShareIndex` | import_export.py:65-66 | a name requested twice resolves to the same position both times and the request still passes the length check |
| `CsvImport.DefaultColumnsResolve` | import_export.py:61-65 | with no column list the request is the header, which always resolves; with no repeated header name it resolves to positions 0 to the header length minus 1 in order |
| `CsvImport.CoversIdentity` | import_export.py:73 | a row can be indexed at positions 0 to n-1 exactly when it has at least n cells |
| `CsvImport.ProjectedCells` | import_export.py:71-73 | projection yields exactly one tuple per data row, in file order; each tuple has one cell per resolved index, and cell k is `row[indices[k]]` |
| `CsvImport.ProjectedIdentity` | import_export.py:61-73 | projecting onto positions 0 to n-1 gives every row's first n cells |
| `CsvImport.ProjectRows` | import_export.py:71-73 | the loop succeeds exactly when every row is long enough and then returns the projected rows; otherwise it stops at the first row that is too short, where Python raises IndexError |
| `CsvImport.ImportFromCsv` | import_export.py:41-100 | the import is rejected, returning 0 without a connection, exactly when a requested name is missing; an IndexError escapes exactly at the first short row; a connection is opened only when resolution and projection succeed; the rows are committed exactly when the insert succeeds, with the requested columns and the projected rows, and the returned count is the number of data rows; a header-only file commits nothing and returns 0; a failed insert returns 0; with no column list and distinct header names each row's first cells, as many as the header has names, are inserted |
| `Menu.PyNotEqual` | import_export.py:176-177 | Python's `!=` on the loop variable, worked out type by type, agrees with plain inequality of the tagged value, so a string is never equal to the int 4 |
| `Menu.DispatchTable` | import_export.py:185-201 | "5" quits; "1" to "4" each dispatch exactly one operation of the matching kind, built from the next one or two lines; any other line is consumed with no effect; a read past the last line ends the session |
| `Menu.RedisplayStep` | import_export.py:185-201 | an unrecognised option line leaves the rest of the session unchanged |
| `Menu.DispatchStep` | import_export.py:188-201 | an operation line runs its one command, then the session goes on after the names it read |
| `Menu.NoFiveNeverExits` | import_export.py:176-187 | with no "5" among the lines, the session always ends by running out of input, never by the guard |
| `Menu.LinesAfterExitAreIgnored` | import_export.py:185-187 | once "5" has been chosen, lines typed afterwards change neither the operations run nor the ending |
| `Menu.CommandsBounded` | import_export.py:185-201 | every operation reads its option line and at least one name, so a session runs at most one operation per two lines |
| `Menu.MainLoop` | import_export.py:175-201 | the loop, with its `option != 4` guard as written, runs exactly the operations of the session specification, in order, and ends the same way; the guard never becomes false, because `option` is always the int 0 or a string |

## Left out

- `connect_to_db` and the connection settings (import_export.py:22-39): opening a database connection, logging, and `sys.exit` on failure are external effects. The model assumes the connection opens.
- The bulk insert, commit, rollback and close (import_export.py:76-96) are database calls. Their result is the `InsertResult` input, the same whether or not there are rows to insert.
- The SQL text built from the table and column names (import_export.py:83-85): its meaning lives in the database. The table name is not modelled.
- `open`, `csv.reader` and the CSV dialect (import_export.py:56-58): the header and rows come already split. A file with no header line makes `next(reader)` raise `StopIteration`; the model always has a header.
- `export_to_csv_psycopg2`, `delete_from_table` and `select_from_table` (import_export.py:103-168): database and file round trips with no local logic. The menu records which of them it starts, and with which names, but does not run them.
- `print` and the prompt text of `input()` in the import and in the menu: console output is not modelled.
- Menu.MainLoop: does not model an exception escaping an operation it dispatches, which would end the program; each command is recorded and the loop goes on.
