/**
 * The `CellCountDatabase` class of `src/db.py`: the content committed to the
 * database file, and at most one open connection whose view is that content
 * plus the writes it has not committed yet.
 */
module Database {
  import opened Wrappers
  import opened Store
  import opened Loader

  class CellCountDatabase {
    /** `db_path`: the file the object opens. */
    const dbPath: string
    /** What the file at `dbPath` holds: the last committed content. */
    var disk: Db
    /** `conn`: the open connection's view of the database, or `None` when closed. */
    var conn: Option<Db>

    /** Both the committed content and the connection's view satisfy the schema's constraints. */
    ghost predicate Valid()
      reads this
    {
      disk.Valid() && (conn.Some? ==> conn.value.Valid())
    }

    /** `__init__`: remembers the path, opens nothing. */
    constructor (dbPath: string, file: Db)
      requires file.Valid()
      ensures this.dbPath == dbPath && disk == file && conn == None
      ensures Valid()
    {
      this.dbPath := dbPath;
      disk := file;
      conn := None;
    }

    /**
     * `connect`: a new connection sees the committed content; a connection it
     * replaces is dropped with whatever it had not committed.
     */
    method Connect()
      requires Valid()
      modifies this
      ensures disk == old(disk) && conn == Some(disk)
      ensures Valid()
    {
      conn := Some(disk);
    }

    /** `__enter__`: connects. */
    method Enter()
      requires Valid()
      modifies this
      ensures disk == old(disk) && conn == Some(disk)
      ensures Valid()
    {
      Connect();
    }

    /**
     * `__exit__`: when a connection is open, commits it and closes it, whether
     * or not the `with` block raised; the writes a failed load made before
     * its error therefore reach the file.
     */
    method Exit()
      requires Valid()
      modifies this
      ensures conn == None
      ensures disk == if old(conn).Some? then old(conn).value else old(disk)
      ensures Valid()
    {
      if conn.Some? {
        Commit();
        conn := None;
      }
    }

    /** `conn.commit()`: the file takes the connection's view. */
    method Commit()
      requires Valid() && conn.Some?
      modifies this
      ensures conn == old(conn) && disk == conn.value
      ensures Valid()
    {
      disk := conn.value;
    }

    /** `_cursor`: the open connection's view, or `NotConnected` when there is none. */
    function Cursor(): (r: Result<Db, DbError>)
      reads this
      ensures r.Failure? <==> conn.None?
      ensures r.Failure? ==> r.error == NotConnected
      ensures r.Success? ==> r.value == conn.value
    {
      if conn.None? then Failure(NotConnected) else Success(conn.value)
    }

    /**
     * `create_schema`: creates the four tables that are missing and commits,
     * which also commits any write still pending on the connection.
     */
    method CreateSchema() returns (status: Outcome<DbError>)
      requires Valid()
      modifies this
      ensures old(conn).None? ==> status == Fail(NotConnected) && disk == old(disk) && conn == None
      ensures old(conn).Some? ==> status == Pass && conn == Some(CreateTables(old(conn).value)) && disk == conn.value
      ensures Valid()
    {
      var cur := Cursor();
      if cur.Failure? {
        return Fail(cur.error);
      }
      conn := Some(CreateTables(cur.value));
      Commit();
      status := Pass;
    }

    /** `cur.execute` of one `INSERT OR IGNORE`; a failing statement leaves the view as it was. */
    method ExecuteStatement(x: Insert) returns (status: Outcome<DbError>)
      requires Valid() && conn.Some?
      modifies this
      ensures disk == old(disk) && conn.Some? && Valid()
      ensures Step(conn.value, status) == Continue(old(conn).value, x)
    {
      var db := conn.value;
      match Execute(db, x)
      case Success(d) =>
        ExecutePreservesValid(db, x);
        conn := Some(d);
        status := Pass;
      case Failure(e) =>
        status := Fail(e);
    }

    /** One phase of `load_data`: its statements in order, up to the first error. */
    method ExecuteEach(xs: seq<Insert>) returns (status: Outcome<DbError>)
      requires Valid() && conn.Some?
      modifies this
      ensures disk == old(disk) && conn.Some? && Valid()
      ensures Step(conn.value, status) == ExecuteAll(old(conn).value, xs)
    {
      ghost var db0 := conn.value;
      status := Pass;
      var i := 0;
      while i < |xs|
        invariant 0 <= i <= |xs|
        invariant disk == old(disk) && conn.Some? && Valid()
        invariant status == Pass && ExecuteAll(db0, xs[..i]) == Step(conn.value, Pass)
      {
        ExecuteAllPrefix(db0, xs, i);
        status := ExecuteStatement(xs[i]);
        if status.Fail? {
          ExecuteAllFailsAt(db0, xs, i);
          return;
        }
        i := i + 1;
      }
      assert xs[..i] == xs;
    }

    /**
     * The `cell_counts` phase of `load_data`: for every row, for every
     * population in order, one insert of the row's count for it.
     */
    method InsertCellCounts(df: seq<Row>) returns (status: Outcome<DbError>)
      requires Valid() && conn.Some?
      modifies this
      ensures disk == old(disk) && conn.Some? && Valid()
      ensures Step(conn.value, status) == ExecuteAll(old(conn).value, CellCountInserts(df))
    {
      ghost var db0 := conn.value;
      status := Pass;
      var i := 0;
      while i < |df|
        invariant 0 <= i <= |df|
        invariant disk == old(disk) && conn.Some? && Valid()
        invariant status == Pass && ExecuteAll(db0, CellCountInserts(df[..i])) == Step(conn.value, Pass)
      {
        ghost var rowStart := conn.value;
        status := InsertRowCounts(df[i]);
        if status.Fail? {
          RowFailureEndsPhase(db0, df, i, rowStart);
          return;
        }
        RowDone(db0, df, i, rowStart);
        i := i + 1;
      }
      AllRows(df);
    }

    /** The inner loop of the `cell_counts` phase: one row's count for each population, in order. */
    method InsertRowCounts(row: Row) returns (status: Outcome<DbError>)
      requires Valid() && conn.Some?
      modifies this
      ensures disk == old(disk) && conn.Some? && Valid()
      ensures Step(conn.value, status) == ExecuteAll(old(conn).value, RowCellCountInserts(row))
    {
      ghost var db0 := conn.value;
      ghost var xs := RowCellCountInserts(row);
      status := Pass;
      var j := 0;
      while j < |CELL_POPULATIONS|
        invariant 0 <= j <= |CELL_POPULATIONS|
        invariant disk == old(disk) && conn.Some? && Valid()
        invariant status == Pass && ExecuteAll(db0, xs[..j]) == Step(conn.value, Pass)
      {
        var pop := CELL_POPULATIONS[j];
        ExecuteAllPrefix(db0, xs, j);
        status := ExecuteStatement(InsertCellCount(row.sample, pop, row.counts.Get(pop)));
        if status.Fail? {
          ExecuteAllFailsAt(db0, xs, j);
          return;
        }
        j := j + 1;
      }
      assert xs[..j] == xs;
    }

    /** A failure among the statements of row i ends the whole phase there. */
    static lemma RowFailureEndsPhase(db0: Db, df: seq<Row>, i: nat, rowStart: Db)
      requires i < |df|
      requires ExecuteAll(db0, CellCountInserts(df[..i])) == Step(rowStart, Pass)
      requires ExecuteAll(rowStart, RowCellCountInserts(df[i])).status.Fail?
      ensures ExecuteAll(db0, CellCountInserts(df)) == ExecuteAll(rowStart, RowCellCountInserts(df[i]))
    {
      CountsAfterRow(df, i);
      CellCountsRow(df, i);
      ExecuteAllAppend(db0, CellCountInserts(df[..i]), RowCellCountInserts(df[i]));
      ExecuteAllStops(db0, CellCountInserts(df[..i + 1]), CellCountInserts(df[i + 1..]));
    }

    /** The count statements of all rows: those of the first i + 1 rows, then the rest. */
    static lemma CountsAfterRow(df: seq<Row>, i: nat)
      requires i < |df|
      ensures CellCountInserts(df) == CellCountInserts(df[..i + 1]) + CellCountInserts(df[i + 1..])
    {
      SplitRows(df, i + 1);
      CellCountInsertsAppend(df[..i + 1], df[i + 1..]);
    }

    static lemma SplitRows(df: seq<Row>, k: nat)
      requires k <= |df|
      ensures df[..k] + df[k..] == df
    {
    }

    static lemma AllRows(df: seq<Row>)
      ensures df[..|df|] == df
    {
    }

    /** Once row i's five statements have run, the phase has run the statements of the first i + 1 rows. */
    static lemma RowDone(db0: Db, df: seq<Row>, i: nat, rowStart: Db)
      requires i < |df|
      requires ExecuteAll(db0, CellCountInserts(df[..i])) == Step(rowStart, Pass)
      ensures ExecuteAll(db0, CellCountInserts(df[..i + 1])) == ExecuteAll(rowStart, RowCellCountInserts(df[i]))
    {
      var xs := RowCellCountInserts(df[i]);
      CellCountsRow(df, i);
      ExecuteAllAppend(db0, CellCountInserts(df[..i]), xs);
    }

    /** The count statements of the first i + 1 rows: those of the first i, then row i's five, in population order. */
    static lemma CellCountsRow(df: seq<Row>, i: nat)
      requires i < |df|
      ensures CellCountInserts(df[..i + 1]) == CellCountInserts(df[..i]) + RowCellCountInserts(df[i])
    {
      assert df[..i + 1][..i] == df[..i];
    }

    /**
     * `load_data`: normalises the rows, runs the four insert phases in order
     * and commits; an error ends the call before the commit, leaving the
     * statements that ran before it pending on the connection.
     */
    method LoadData(raw: seq<RawRow>) returns (status: Outcome<DbError>)
      requires Valid()
      modifies this
      ensures old(conn).None? ==> status == Fail(NotConnected) && disk == old(disk) && conn == None
      ensures old(conn).Some? ==>
                && conn == Some(Load(old(conn).value, raw).db)
                && status == Load(old(conn).value, raw).status
                && disk == (if status.Pass? then conn.value else old(disk))
      ensures Valid()
    {
      var cur := Cursor();
      if cur.Failure? {
        return Fail(cur.error);
      }
      ghost var db0 := cur.value;
      var df := NormalizeAll(raw);
      LoadInPhases(db0, df);
      status := ExecuteEach(Distinct(ProjectInserts(df)));
      if status.Fail? {
        return;
      }
      status := ExecuteEach(Distinct(SubjectInserts(df)));
      if status.Fail? {
        return;
      }
      status := ExecuteEach(Distinct(SampleInserts(df)));
      if status.Fail? {
        return;
      }
      status := InsertCellCounts(df);
      if status.Fail? {
        return;
      }
      Commit();
    }

    /** `initialize_database`: `create_schema`, then `load_data`. */
    method InitializeDatabase(raw: seq<RawRow>) returns (status: Outcome<DbError>)
      requires Valid()
      modifies this
      ensures old(conn).None? ==> status == Fail(NotConnected) && disk == old(disk) && conn == None
      ensures old(conn).Some? ==>
                var r := Load(CreateTables(old(conn).value), raw);
                && conn == Some(r.db) && status == r.status
                && disk == (if status.Pass? then r.db else CreateTables(old(conn).value))
      ensures Valid()
    {
      status := CreateSchema();
      if status.Fail? {
        return;
      }
      status := LoadData(raw);
    }

    /**
     * `verify_counts`: `SELECT COUNT(*)` on the four tables in turn, as seen by
     * the connection; without the schema the first query fails.
     */
    method VerifyCounts() returns (r: Result<map<string, nat>, DbError>)
      ensures conn.None? ==> r == Failure(NotConnected)
      ensures conn.Some? && !conn.value.schema ==> r == Failure(NoSuchTable("projects"))
      ensures r.Success? <==> conn.Some? && conn.value.schema
      ensures r.Success? ==> forall t :: t in r.value <==> t in TABLES
      ensures r.Success? ==> forall t :: t in TABLES ==> RowCount(conn.value, t) == Success(r.value[t])
    {
      var cur := Cursor();
      if cur.Failure? {
        return Failure(cur.error);
      }
      var db := cur.value;
      var counts: map<string, nat> := map[];
      var i := 0;
      while i < |TABLES|
        invariant 0 <= i <= |TABLES|
        invariant i > 0 ==> db.schema
        invariant forall t :: t in counts <==> t in TABLES[..i]
        invariant forall t :: t in TABLES[..i] ==> RowCount(db, t) == Success(counts[t])
      {
        var n := RowCount(db, TABLES[i]);
        if n.Failure? {
          return Failure(n.error);
        }
        counts := counts[TABLES[i] := n.value];
        i := i + 1;
      }
      assert TABLES[..i] == TABLES;
      r := Success(counts);
    }
  }
}
