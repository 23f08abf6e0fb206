/** The CSV import step of `import_from_csv_psycopg2`: resolve the requested
    column names against the CSV header, project every data row onto the
    resolved positions, then hand the rows to one bulk insert whose outcome
    is supplied by the caller. The file has already been split into a header
    and data rows. */
module CsvImport {
  import opened Wrappers

  /** One CSV record, or one projected tuple: its cells as strings. */
  type Row = seq<string>

  /** Whether the bulk insert and its commit went through, or raised. */
  datatype InsertResult = Committed | Raised

  /** What one call to the import does. */
  datatype ImportOutcome =
    | ColumnsNotFound                            // a requested name is not in the header
    | RowIndexError(row: nat)                    // data row `row` is too short: IndexError escapes
    | InsertFailed                               // insert or commit raised: rolled back
    | Imported(columns: seq<string>, values: seq<Row>)  // committed these tuples into these columns
  {
    /** The integer the Python function returns; None when an exception
        escapes it instead. */
    function ReturnValue(): (r: Option<nat>)
    {
      match this
      case ColumnsNotFound => Some(0)
      case RowIndexError(_) => None
      case InsertFailed => Some(0)
      case Imported(_, values) => Some(|values|)
    }

    /** Whether a database connection was opened on the way. */
    predicate ConnectionOpened()
    {
      InsertFailed? || Imported?
    }
  }

  predicate NoDuplicates(names: seq<string>)
  {
    forall i, j :: 0 <= i < j < |names| ==> names[i] != names[j]
  }

  predicate AllPresent(header: seq<string>, requested: seq<string>)
  {
    forall k :: 0 <= k < |requested| ==> requested[k] in header
  }

  /** Every position in `indices` is a valid index into `row`. */
  predicate Covers(row: Row, indices: seq<nat>)
  {
    forall k :: 0 <= k < |indices| ==> indices[k] < |row|
  }

  predicate AllCovered(rows: seq<Row>, indices: seq<nat>)
  {
    forall i :: 0 <= i < |rows| ==> Covers(rows[i], indices)
  }

  /** Python's `header.index(name)`: the position of the first occurrence. */
  function IndexOf(header: seq<string>, name: string): (i: nat)
    requires name in header
    ensures i < |header| && header[i] == name
    ensures forall j :: 0 <= j < i ==> header[j] != name
  {
    if header[0] == name then 0 else 1 + IndexOf(header[1..], name)
  }

  /** The column list in force: the caller's, or the whole header. */
  function Requested(header: seq<string>, columns: Option<seq<string>>): (r: seq<string>)
  {
    match columns
    case None => header
    case Some(names) => names
  }

  /** The comprehension `[header.index(col) for col in columns if col in header]`:
      names missing from the header are skipped, not reported. */
  function FoundIndices(header: seq<string>, requested: seq<string>): (ix: seq<nat>)
  {
    if requested == [] then []
    else (if requested[0] in header then [IndexOf(header, requested[0])] else [])
         + FoundIndices(header, requested[1..])
  }

  /** Dropping missing names shortens the list, so the length test of the
      source detects exactly the imports that name a missing column. */
  lemma {:induction false} FoundIndicesLength(header: seq<string>, requested: seq<string>)
    ensures |FoundIndices(header, requested)| <= |requested|
    ensures |FoundIndices(header, requested)| == |requested| <==> AllPresent(header, requested)
  {
    if requested != [] {
      FoundIndicesLength(header, requested[1..]);
      if AllPresent(header, requested[1..]) && requested[0] in header {
        assert AllPresent(header, requested) by {
          forall k | 0 <= k < |requested| ensures requested[k] in header {
            if k > 0 { assert requested[k] == requested[1..][k - 1]; }
          }
        }
      }
      if AllPresent(header, requested) {
        assert AllPresent(header, requested[1..]) by {
          forall k | 0 <= k < |requested| - 1 ensures requested[1..][k] in header {
            assert requested[1..][k] == requested[k + 1];
          }
        }
      }
    }
  }

  /** When every name is present, position k of the comprehension is the
      first occurrence of the k-th requested name. */
  lemma {:induction false} FoundIndicesAt(header: seq<string>, requested: seq<string>)
    requires AllPresent(header, requested)
    ensures |FoundIndices(header, requested)| == |requested|
    ensures forall k :: 0 <= k < |requested| ==>
              FoundIndices(header, requested)[k] == IndexOf(header, requested[k])
  {
    FoundIndicesLength(header, requested);
    if requested != [] {
      assert AllPresent(header, requested[1..]) by {
        forall k | 0 <= k < |requested| - 1 ensures requested[1..][k] in header {
          assert requested[1..][k] == requested[k + 1];
        }
      }
      FoundIndicesAt(header, requested[1..]);
      forall k | 0 < k < |requested|
        ensures FoundIndices(header, requested)[k] == IndexOf(header, requested[k])
      {
        assert requested[k] == requested[1..][k - 1];
      }
    }
  }

  /** Column resolution and its all-or-nothing check: succeeds exactly when
      every requested name occurs in the header, and then gives, in request
      order, the position of each name's first occurrence. */
  function Resolve(header: seq<string>, requested: seq<string>): (r: Option<seq<nat>>)
    ensures r.Some? <==> AllPresent(header, requested)
    ensures r.Some? ==> |r.value| == |requested|
    ensures r.Some? ==> forall k :: 0 <= k < |requested| ==>
              r.value[k] < |header| && header[r.value[k]] == requested[k] &&
              forall j :: 0 <= j < r.value[k] ==> header[j] != requested[k]
  {
    FoundIndicesLength(header, requested);
    var indices := FoundIndices(header, requested);
    if |indices| != |requested| then None
    else
      FoundIndicesAt(header, requested);
      Some(indices)
  }

  /** A name requested twice resolves to the same position both times, and
      the request still passes the length check. */
  lemma DuplicateRequestsShareIndex(header: seq<string>, requested: seq<string>, i: nat, j: nat)
    requires AllPresent(header, requested)
    requires i < |requested| && j < |requested| && requested[i] == requested[j]
    ensures Resolve(header, requested).Some?
    ensures Resolve(header, requested).value[i] == Resolve(header, requested).value[j]
  {
  }

  /** The positions 0, 1, ..., n - 1. */
  function Identity(n: nat): (ix: seq<nat>)
  {
    seq(n, k requires 0 <= k < n => k)
  }

  /** Without a column list the request is the header itself, which always
      resolves; when the header has no repeated name it resolves to every
      position in order. */
  lemma DefaultColumnsResolve(header: seq<string>)
    ensures Resolve(header, Requested(header, None)).Some?
    ensures NoDuplicates(header) ==> Resolve(header, Requested(header, None)) == Some(Identity(|header|))
  {
    var r := Resolve(header, header);
    assert AllPresent(header, header) by {
      forall k | 0 <= k < |header| ensures header[k] in header { }
    }
    if NoDuplicates(header) {
      var ix := r.value;
      forall k | 0 <= k < |header| ensures ix[k] == k { }
      assert ix == Identity(|header|);
    }
  }

  /** `tuple(row[i] for i in column_indices)`. */
  function ProjectRow(row: Row, indices: seq<nat>): (t: Row)
    requires Covers(row, indices)
  {
    seq(|indices|, k requires 0 <= k < |indices| => row[indices[k]])
  }

  /** The list that the source's loop builds: one projected tuple per data
      row, appended in file order. */
  function Projected(rows: seq<Row>, indices: seq<nat>): (values: seq<Row>)
    requires AllCovered(rows, indices)
  {
    if rows == [] then []
    else Projected(rows[..|rows| - 1], indices) + [ProjectRow(rows[|rows| - 1], indices)]
  }

  /** Projection keeps one tuple per data row, in file order, each with one
      cell per resolved position, cell k taken from position `indices[k]`. */
  lemma {:induction false} ProjectedCells(rows: seq<Row>, indices: seq<nat>)
    requires AllCovered(rows, indices)
    ensures |Projected(rows, indices)| == |rows|
    ensures forall i :: 0 <= i < |rows| ==>
              |Projected(rows, indices)[i]| == |indices| &&
              forall k :: 0 <= k < |indices| ==> Projected(rows, indices)[i][k] == rows[i][indices[k]]
  {
    if rows != [] {
      var front := rows[..|rows| - 1];
      assert AllCovered(front, indices) by {
        forall i | 0 <= i < |front| ensures Covers(front[i], indices) {
          assert front[i] == rows[i];
        }
      }
      ProjectedCells(front, indices);
      forall i | 0 <= i < |front|
        ensures Projected(rows, indices)[i] == Projected(front, indices)[i]
      { }
    }
  }

  /** A row covers the positions 0..n-1 exactly when it has at least n cells. */
  lemma CoversIdentity(row: Row, n: nat)
    ensures Covers(row, Identity(n)) <==> |row| >= n
  {
    if n > 0 && Covers(row, Identity(n)) {
      assert Identity(n)[n - 1] < |row|;
    }
  }

  /** Projecting onto positions 0..n-1 keeps the first n cells of every row:
      longer rows are cut, never rejected. */
  lemma ProjectedIdentity(rows: seq<Row>, n: nat)
    requires forall i :: 0 <= i < |rows| ==> |rows[i]| >= n
    ensures AllCovered(rows, Identity(n))
    ensures |Projected(rows, Identity(n))| == |rows|
    ensures forall i :: 0 <= i < |rows| ==> Projected(rows, Identity(n))[i] == rows[i][..n]
  {
    ProjectedCells(rows, Identity(n));
    forall i | 0 <= i < |rows| ensures Projected(rows, Identity(n))[i] == rows[i][..n] {
      assert |Projected(rows, Identity(n))[i]| == n;
    }
  }

  /** The loop at lines 71-73. It stops with the number of the first data row
      that is too short for the resolved positions (where Python raises
      IndexError); otherwise it returns the projected tuples. */
  method ProjectRows(rows: seq<Row>, indices: seq<nat>) returns (r: Result<seq<Row>, nat>)
    ensures r.Ok? <==> AllCovered(rows, indices)
    ensures r.Ok? ==> r.value == Projected(rows, indices)
    ensures r.Err? ==> r.error < |rows| && !Covers(rows[r.error], indices) &&
                       forall j :: 0 <= j < r.error ==> Covers(rows[j], indices)
  {
    var values: seq<Row> := [];
    var n := 0;
    while n < |rows|
      invariant 0 <= n <= |rows|
      invariant AllCovered(rows[..n], indices)
      invariant values == Projected(rows[..n], indices)
    {
      var row := rows[n];
      if !Covers(row, indices) {
        return Err(n);
      }
      assert rows[..n + 1][..n] == rows[..n];
      values := values + [ProjectRow(row, indices)];
      n := n + 1;
    }
    assert rows[..n] == rows;
    return Ok(values);
  }

  /** `import_from_csv_psycopg2` with the file already split into `header`
      and data `rows`, the optional column list `columns`, and `insert`
      standing for what the database does with the bulk insert and commit. */
  method ImportFromCsv(header: seq<string>, rows: seq<Row>, columns: Option<seq<string>>,
                       insert: InsertResult) returns (o: ImportOutcome)
    ensures o.ColumnsNotFound? <==> !AllPresent(header, Requested(header, columns))
    ensures o.RowIndexError? <==>
              AllPresent(header, Requested(header, columns)) &&
              !AllCovered(rows, Resolve(header, Requested(header, columns)).value)
    ensures o.RowIndexError? ==>
              o.row < |rows| &&
              !Covers(rows[o.row], Resolve(header, Requested(header, columns)).value) &&
              forall j :: 0 <= j < o.row ==> Covers(rows[j], Resolve(header, Requested(header, columns)).value)
    ensures o.ConnectionOpened() <==>
              AllPresent(header, Requested(header, columns)) &&
              AllCovered(rows, Resolve(header, Requested(header, columns)).value)
    ensures o.Imported? <==> o.ConnectionOpened() && insert == Committed
    ensures o.Imported? ==>
              o.columns == Requested(header, columns) &&
              o.values == Projected(rows, Resolve(header, Requested(header, columns)).value)
    ensures o.Imported? ==> o.ReturnValue() == Some(|rows|)
    ensures o.Imported? && columns.None? && NoDuplicates(header) ==>
              forall i :: 0 <= i < |rows| ==> |rows[i]| >= |header| && o.values[i] == rows[i][..|header|]
    ensures rows == [] && AllPresent(header, Requested(header, columns)) && insert == Committed ==>
              o == Imported(Requested(header, columns), []) && o.ReturnValue() == Some(0)
    ensures o.ReturnValue() == Some(0) <==>
              o.ColumnsNotFound? || o.InsertFailed? || (o.Imported? && rows == [])
  {
    var requested := Requested(header, columns);
    var resolved := Resolve(header, requested);
    if resolved.None? {
      return ColumnsNotFound;
    }
    var indices := resolved.value;
    var projected := ProjectRows(rows, indices);
    if projected.Err? {
      return RowIndexError(projected.error);
    }
    var values := projected.value;
    ProjectedCells(rows, indices);
    if columns.None? && NoDuplicates(header) {
      DefaultColumnsResolve(header);
      forall i | 0 <= i < |rows| ensures |rows[i]| >= |header| {
        CoversIdentity(rows[i], |header|);
      }
      ProjectedIdentity(rows, |header|);
    }
    match insert
    case Raised =>
      o := InsertFailed;
    case Committed =>
      o := Imported(requested, values);
  }
}
