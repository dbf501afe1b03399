/**
 * The normalised cell-count store of `src/db.py`: four tables, their keys and
 * constraints, and the semantics of the `INSERT OR IGNORE` statements the
 * loader issues against them.
 *
 * Primary keys are structural (a set or a map keyed by the key column);
 * `cell_counts` keeps its rows in rowid order and its UNIQUE(sample_id,
 * population) constraint is an invariant that every insert is proved to keep.
 */
module Store {
  import opened Wrappers

  /** The five cell populations the `cell_counts` CHECK constraint admits. */
  const CELL_POPULATIONS: seq<string> := ["b_cell", "cd8_t_cell", "cd4_t_cell", "nk_cell", "monocyte"]

  /** The four tables, in the order the row-count accessor visits them. */
  const TABLES: seq<string> := ["projects", "subjects", "samples", "cell_counts"]

  /** A `subjects` row without its key. */
  datatype Subject = Subject(project: string, age: Option<int>, sex: Option<string>)

  /** A `samples` row without its key; NOT NULL makes `time` present. */
  datatype Sample = Sample(subject: string, project: string, condition: string, treatment: string,
                           response: string, sampleType: string, time: real)

  /** A `cell_counts` row; `id` is the AUTOINCREMENT surrogate key. */
  datatype CellCount = CellCount(id: nat, sample: string, population: string, count: int)

  /**
   * The content of one database: whether the schema exists, the four tables,
   * and the AUTOINCREMENT counter of `cell_counts` (its sqlite_sequence entry).
   */
  datatype Db = Db(schema: bool, projects: set<string>, subjects: map<string, Subject>,
                   samples: map<string, Sample>, cellCounts: seq<CellCount>, lastId: nat)
  {
    /** Without a schema there are no rows. */
    ghost predicate SchemaOrEmpty() {
      !schema ==> projects == {} && subjects == map[] && samples == map[] && cellCounts == []
    }

    /** The CHECK constraints: time >= 0, population in the fixed set, count >= 0. */
    ghost predicate ChecksHold() {
      && (forall s :: s in samples ==> samples[s].time >= 0.0)
      && (forall i :: 0 <= i < |cellCounts| ==>
            cellCounts[i].population in CELL_POPULATIONS && cellCounts[i].count >= 0)
    }

    /** UNIQUE(sample_id, population), and AUTOINCREMENT ids that only grow. */
    ghost predicate CellCountKeysUnique() {
      && (forall i :: 0 <= i < |cellCounts| ==> 0 < cellCounts[i].id <= lastId)
      && (forall i, j :: 0 <= i < j < |cellCounts| ==>
            cellCounts[i].id < cellCounts[j].id
            && (cellCounts[i].sample != cellCounts[j].sample
                || cellCounts[i].population != cellCounts[j].population))
    }

    /** Every foreign key names an existing parent row. */
    ghost predicate ReferencesResolve() {
      && (forall s :: s in subjects ==> subjects[s].project in projects)
      && (forall s :: s in samples ==> samples[s].subject in subjects && samples[s].project in projects)
      && (forall i :: 0 <= i < |cellCounts| ==> cellCounts[i].sample in samples)
    }

    ghost predicate Valid() {
      SchemaOrEmpty() && ChecksHold() && CellCountKeysUnique() && ReferencesResolve()
    }
  }

  /** A database file that does not exist yet: `sqlite3.connect` creates it empty. */
  const EMPTY_FILE: Db := Db(false, {}, map[], map[], [], 0)

  datatype DbError = NotConnected | NoSuchTable(table: string) | ForeignKeyFailed

  /** One `INSERT OR IGNORE` statement of the loader, with its bound values. */
  datatype Insert =
    | InsertProject(projectId: string)
    | InsertSubject(subjectId: string, projectId: string, age: Option<int>, sex: Option<string>)
    | InsertSample(sampleId: string, subjectId: string, projectId: string, condition: string,
                   treatment: string, response: string, sampleType: string, time: Option<real>)
    | InsertCellCount(sampleId: string, population: string, count: int)

  /** The primary key, or for `cell_counts` the UNIQUE pair, an insert claims. */
  datatype Key = ProjectKey(string) | SubjectKey(string) | SampleKey(string) | CellCountKey(string, string)

  function KeyOf(x: Insert): Key {
    match x
    case InsertProject(p) => ProjectKey(p)
    case InsertSubject(s, _, _, _) => SubjectKey(s)
    case InsertSample(s, _, _, _, _, _, _, _) => SampleKey(s)
    case InsertCellCount(s, pop, _) => CellCountKey(s, pop)
  }

  function TableOf(x: Insert): string {
    match x
    case InsertProject(_) => "projects"
    case InsertSubject(_, _, _, _) => "subjects"
    case InsertSample(_, _, _, _, _, _, _, _) => "samples"
    case InsertCellCount(_, _, _) => "cell_counts"
  }

  /** The NOT NULL and CHECK constraints of the target table hold for the row. */
  predicate Admissible(x: Insert) {
    match x
    case InsertSample(_, _, _, _, _, _, _, time) => time.Some? && time.value >= 0.0
    case InsertCellCount(_, pop, count) => pop in CELL_POPULATIONS && count >= 0
    case _ => true
  }

  /** The foreign keys of the row name existing parents. */
  predicate ParentsPresent(db: Db, x: Insert) {
    match x
    case InsertProject(_) => true
    case InsertSubject(_, p, _, _) => p in db.projects
    case InsertSample(_, s, p, _, _, _, _, _) => s in db.subjects && p in db.projects
    case InsertCellCount(s, _, _) => s in db.samples
  }

  /** The count stored for (sample, population), if a row holds that pair. */
  function LookupCount(cc: seq<CellCount>, sample: string, pop: string): (r: Option<int>)
    ensures r.None? <==> forall i :: 0 <= i < |cc| ==> !(cc[i].sample == sample && cc[i].population == pop)
    ensures r.Some? ==> exists i :: 0 <= i < |cc| && cc[i].sample == sample && cc[i].population == pop
                                    && cc[i].count == r.value
    decreases |cc|
  {
    if cc == [] then None
    else
      var r := LookupCount(cc[..|cc| - 1], sample, pop);
      if r.Some? then r
      else if cc[|cc| - 1].sample == sample && cc[|cc| - 1].population == pop then Some(cc[|cc| - 1].count)
      else None
  }

  /** The insert that would reproduce the row stored under `k`, if any. */
  function Stored(db: Db, k: Key): Option<Insert> {
    match k
    case ProjectKey(p) => if p in db.projects then Some(InsertProject(p)) else None
    case SubjectKey(s) =>
      if s in db.subjects then
        var r := db.subjects[s];
        Some(InsertSubject(s, r.project, r.age, r.sex))
      else None
    case SampleKey(s) =>
      if s in db.samples then
        var r := db.samples[s];
        Some(InsertSample(s, r.subject, r.project, r.condition, r.treatment, r.response, r.sampleType, Some(r.time)))
      else None
    case CellCountKey(s, pop) =>
      match LookupCount(db.cellCounts, s, pop)
      case None => None
      case Some(c) => Some(InsertCellCount(s, pop, c))
  }

  predicate Present(db: Db, k: Key) {
    Stored(db, k).Some?
  }

  /** Appends the row of an admissible insert whose key is free. */
  function Add(db: Db, x: Insert): Db
    requires Admissible(x)
  {
    match x
    case InsertProject(p) => db.(projects := db.projects + {p})
    case InsertSubject(s, p, age, sex) => db.(subjects := db.subjects[s := Subject(p, age, sex)])
    case InsertSample(s, subj, p, cond, treat, resp, st, time) =>
      db.(samples := db.samples[s := Sample(subj, p, cond, treat, resp, st, time.value)])
    case InsertCellCount(s, pop, c) =>
      db.(cellCounts := db.cellCounts + [CellCount(db.lastId + 1, s, pop, c)], lastId := db.lastId + 1)
  }

  /**
   * One `INSERT OR IGNORE`: a missing table is an error; a taken key or a
   * failed NOT NULL/CHECK constraint skips the row; a missing parent is a
   * foreign-key error, which OR IGNORE does not cover; otherwise the row is added.
   */
  function Execute(db: Db, x: Insert): Result<Db, DbError> {
    if !db.schema then Failure(NoSuchTable(TableOf(x)))
    else if Present(db, KeyOf(x)) || !Admissible(x) then Success(db)
    else if !ParentsPresent(db, x) then Failure(ForeignKeyFailed)
    else Success(Add(db, x))
  }

  /** The state after a sequence of statements, and how the sequence ended. */
  datatype Step = Step(db: Db, status: Outcome<DbError>)

  function Continue(db: Db, x: Insert): Step {
    match Execute(db, x)
    case Success(d) => Step(d, Pass)
    case Failure(e) => Step(db, Fail(e))
  }

  /**
   * Statements run in order; the first error stops the sequence and leaves the
   * effects of the statements before it in place (SQLite rolls back only the
   * failing statement).
   */
  function ExecuteAll(db: Db, xs: seq<Insert>): (r: Step)
    ensures r.db.schema == db.schema
    ensures !db.schema && xs != [] ==> r == Step(db, Fail(NoSuchTable(TableOf(xs[0]))))
    decreases |xs|
  {
    if xs == [] then Step(db, Pass)
    else
      var prev := ExecuteAll(db, xs[..|xs| - 1]);
      if prev.status.Fail? then prev else Continue(prev.db, xs[|xs| - 1])
  }

  /** Continues a run with more statements unless it has already failed. */
  function Then(s: Step, ys: seq<Insert>): Step {
    if s.status.Fail? then s else ExecuteAll(s.db, ys)
  }

  /** The first statement of `xs` that writes key `k`: the one whose row is kept. */
  predicate Writes(x: Insert, k: Key) {
    KeyOf(x) == k && Admissible(x)
  }

  function FirstWriter(xs: seq<Insert>, k: Key): (r: Option<Insert>)
    ensures r.None? <==> forall i :: 0 <= i < |xs| ==> !Writes(xs[i], k)
    ensures r.Some? ==> exists i :: 0 <= i < |xs| && xs[i] == r.value && Writes(xs[i], k)
                                    && forall j :: 0 <= j < i ==> !Writes(xs[j], k)
    decreases |xs|
  {
    if xs == [] then None
    else
      var r := FirstWriter(xs[..|xs| - 1], k);
      assert forall i :: 0 <= i < |xs| - 1 ==> xs[..|xs| - 1][i] == xs[i];
      if r.Some? then r
      else if Writes(xs[|xs| - 1], k) then Some(xs[|xs| - 1])
      else None
  }

  /** A statement that would change nothing: its key is taken or a constraint rejects it. */
  predicate Absorbs(db: Db, x: Insert) {
    Present(db, KeyOf(x)) || !Admissible(x)
  }

  /** `CREATE TABLE IF NOT EXISTS` for the four tables. */
  function CreateTables(db: Db): (r: Db)
    ensures r.schema
    ensures r.projects == db.projects && r.subjects == db.subjects && r.samples == db.samples
    ensures r.cellCounts == db.cellCounts && r.lastId == db.lastId
    ensures db.Valid() ==> r.Valid()
    ensures db.schema ==> r == db
  {
    db.(schema := true)
  }

  /** Creating the schema a second time changes nothing. */
  lemma CreateTablesIdempotent(db: Db)
    ensures CreateTables(CreateTables(db)) == CreateTables(db)
  {
  }

  /** `SELECT COUNT(*) FROM <table>`. */
  function RowCount(db: Db, table: string): (r: Result<nat, DbError>)
    requires table in TABLES
    ensures !db.schema <==> r.Failure?
    ensures r.Failure? ==> r.error == NoSuchTable(table)
    ensures r.Success? && table == "projects" ==> r.value == |db.projects|
    ensures r.Success? && table == "subjects" ==> r.value == |db.subjects|
    ensures r.Success? && table == "samples" ==> r.value == |db.samples|
    ensures r.Success? && table == "cell_counts" ==> r.value == |db.cellCounts|
  {
    if !db.schema then Failure(NoSuchTable(table))
    else if table == "projects" then Success(|db.projects|)
    else if table == "subjects" then Success(|db.subjects|)
    else if table == "samples" then Success(|db.samples|)
    else Success(|db.cellCounts|)
  }

  // ---------------------------------------------------------------------
  // One statement
  // ---------------------------------------------------------------------

  lemma LookupCountAppend(cc: seq<CellCount>, c: CellCount, s: string, pop: string)
    ensures LookupCount(cc + [c], s, pop)
            == if LookupCount(cc, s, pop).Some? then LookupCount(cc, s, pop)
               else if c.sample == s && c.population == pop then Some(c.count) else None
  {
    assert (cc + [c])[..|cc|] == cc;
  }

  /** Every successful insert keeps the constraints and referential integrity. */
  lemma ExecutePreservesValid(db: Db, x: Insert)
    requires db.Valid()
    requires Execute(db, x).Success?
    ensures Execute(db, x).value.Valid()
  {
    if db.schema && !Absorbs(db, x) && ParentsPresent(db, x) {
      match x
      case InsertCellCount(s, pop, c) =>
        var d := Add(db, x);
        assert LookupCount(db.cellCounts, s, pop).None?;
        assert d.cellCounts[|db.cellCounts|] == CellCount(db.lastId + 1, s, pop, c);
        assert forall i :: 0 <= i < |db.cellCounts| ==> d.cellCounts[i] == db.cellCounts[i];
      case _ =>
    }
  }

  /**
   * After one successful statement, the row under any key is the row that was
   * already there, else the statement's own row if it writes that key.
   */
  lemma ExecuteStored(db: Db, x: Insert, k: Key)
    requires Execute(db, x).Success?
    ensures Stored(Execute(db, x).value, k)
            == if Stored(db, k).Some? then Stored(db, k)
               else if Writes(x, k) then Some(x) else None
  {
    if db.schema && !Absorbs(db, x) && ParentsPresent(db, x) {
      match x {
        case InsertCellCount(s, pop, c) =>
          var row := CellCount(db.lastId + 1, s, pop, c);
          match k {
            case CellCountKey(s', pop') => LookupCountAppend(db.cellCounts, row, s', pop');
            case _ =>
          }
        case _ =>
      }
    }
  }

  /** An insert whose key is taken, or that a constraint rejects, leaves the store as it is. */
  lemma ExecuteAbsorbed(db: Db, x: Insert)
    requires db.schema && Absorbs(db, x)
    ensures Execute(db, x) == Success(db)
  {
  }

  // ---------------------------------------------------------------------
  // Sequences of statements
  // ---------------------------------------------------------------------

  lemma ExecuteAllSnoc(db: Db, xs: seq<Insert>, x: Insert)
    ensures ExecuteAll(db, xs + [x]) == Then(ExecuteAll(db, xs), [x])
  {
    assert (xs + [x])[..|xs|] == xs;
    var p := ExecuteAll(db, xs);
    assert [x][..0] == [];
    assert ExecuteAll(p.db, [x]) == Continue(p.db, x);
  }

  /** Running `xs + ys` is running `xs`, then `ys` unless `xs` failed. */
  lemma {:induction false} ExecuteAllAppend(db: Db, xs: seq<Insert>, ys: seq<Insert>)
    ensures ExecuteAll(db, xs + ys) == Then(ExecuteAll(db, xs), ys)
    decreases |ys|
  {
    if ys == [] {
      assert xs + ys == xs;
    } else {
      var ys' := ys[..|ys| - 1];
      var y := ys[|ys| - 1];
      assert xs + ys == (xs + ys') + [y];
      assert ys == ys' + [y];
      ExecuteAllSnoc(db, xs + ys', y);
      ExecuteAllAppend(db, xs, ys');
      var p := ExecuteAll(db, xs);
      if p.status.Pass? {
        ExecuteAllSnoc(p.db, ys', y);
      }
    }
  }

  /** A prefix one statement longer runs one more statement, unless the shorter run failed. */
  lemma ExecuteAllPrefix(db: Db, xs: seq<Insert>, i: nat)
    requires i < |xs|
    ensures ExecuteAll(db, xs[..i]).status.Fail? ==> ExecuteAll(db, xs[..i + 1]) == ExecuteAll(db, xs[..i])
    ensures ExecuteAll(db, xs[..i]).status.Pass? ==>
              ExecuteAll(db, xs[..i + 1]) == Continue(ExecuteAll(db, xs[..i]).db, xs[i])
  {
    assert xs[..i + 1][..i] == xs[..i];
  }

  /** Once a run has failed, the statements after it change nothing. */
  lemma ExecuteAllStops(db: Db, xs: seq<Insert>, ys: seq<Insert>)
    requires ExecuteAll(db, xs).status.Fail?
    ensures ExecuteAll(db, xs + ys) == ExecuteAll(db, xs)
  {
    ExecuteAllAppend(db, xs, ys);
  }

  /** A run whose first i + 1 statements fail is the run of those statements alone. */
  lemma ExecuteAllFailsAt(db: Db, xs: seq<Insert>, i: nat)
    requires i < |xs| && ExecuteAll(db, xs[..i + 1]).status.Fail?
    ensures ExecuteAll(db, xs) == ExecuteAll(db, xs[..i + 1])
  {
    assert xs[..i + 1] + xs[i + 1..] == xs;
    ExecuteAllStops(db, xs[..i + 1], xs[i + 1..]);
  }

  /** Every run, even one that fails part-way, leaves a valid store. */
  lemma {:induction false} ExecuteAllPreservesValid(db: Db, xs: seq<Insert>)
    requires db.Valid()
    ensures ExecuteAll(db, xs).db.Valid()
    decreases |xs|
  {
    if xs != [] {
      var prev := ExecuteAll(db, xs[..|xs| - 1]);
      ExecuteAllPreservesValid(db, xs[..|xs| - 1]);
      if prev.status.Pass? && Execute(prev.db, xs[|xs| - 1]).Success? {
        ExecutePreservesValid(prev.db, xs[|xs| - 1]);
      }
    }
  }

  /**
   * First writer wins: after a successful run, the row under every key is the
   * one that was there before, else the row of the first statement that writes it.
   */
  lemma {:induction false} ExecuteAllFirstWriterWins(db: Db, xs: seq<Insert>, k: Key)
    requires ExecuteAll(db, xs).status.Pass?
    ensures Stored(ExecuteAll(db, xs).db, k)
            == if Stored(db, k).Some? then Stored(db, k) else FirstWriter(xs, k)
    decreases |xs|
  {
    if xs != [] {
      var xs' := xs[..|xs| - 1];
      var prev := ExecuteAll(db, xs');
      ExecuteAllFirstWriterWins(db, xs', k);
      ExecuteStored(prev.db, xs[|xs| - 1], k);
    }
  }

  /** After a successful run, every statement of it would now change nothing. */
  lemma ExecuteAllAbsorbsAll(db: Db, xs: seq<Insert>)
    requires ExecuteAll(db, xs).status.Pass?
    ensures forall i :: 0 <= i < |xs| ==> Absorbs(ExecuteAll(db, xs).db, xs[i])
  {
    forall i | 0 <= i < |xs| ensures Absorbs(ExecuteAll(db, xs).db, xs[i]) {
      ExecuteAllFirstWriterWins(db, xs, KeyOf(xs[i]));
    }
  }

  /** Statements that each change nothing, run together, change nothing. */
  lemma {:induction false} ExecuteAllNoop(db: Db, xs: seq<Insert>)
    requires db.schema
    requires forall i :: 0 <= i < |xs| ==> Absorbs(db, xs[i])
    ensures ExecuteAll(db, xs) == Step(db, Pass)
    decreases |xs|
  {
    if xs != [] {
      ExecuteAllNoop(db, xs[..|xs| - 1]);
      ExecuteAbsorbed(db, xs[|xs| - 1]);
    }
  }

  /** Re-running a successful sequence of INSERT OR IGNORE statements is a no-op. */
  lemma ExecuteAllIdempotent(db: Db, xs: seq<Insert>)
    requires ExecuteAll(db, xs).status.Pass?
    ensures ExecuteAll(ExecuteAll(db, xs).db, xs) == ExecuteAll(db, xs)
  {
    var r := ExecuteAll(db, xs);
    if xs != [] {
      ExecuteAllAbsorbsAll(db, xs);
      ExecuteAllNoop(r.db, xs);
    }
  }

  /** A parent present before a successful run is still present after it. */
  lemma ParentsPersist(db: Db, xs: seq<Insert>, x: Insert)
    requires ExecuteAll(db, xs).status.Pass?
    requires ParentsPresent(db, x)
    ensures ParentsPresent(ExecuteAll(db, xs).db, x)
  {
    match x
    case InsertProject(_) =>
    case InsertSubject(_, p, _, _) =>
      ExecuteAllFirstWriterWins(db, xs, ProjectKey(p));
    case InsertSample(_, s, p, _, _, _, _, _) =>
      ExecuteAllFirstWriterWins(db, xs, ProjectKey(p));
      ExecuteAllFirstWriterWins(db, xs, SubjectKey(s));
    case InsertCellCount(s, _, _) =>
      ExecuteAllFirstWriterWins(db, xs, SampleKey(s));
  }

  /** With the schema in place, the only error a run can end with is a foreign-key failure. */
  lemma {:induction false} ExecuteAllErrors(db: Db, xs: seq<Insert>)
    requires db.schema
    ensures ExecuteAll(db, xs).status.Fail? ==> ExecuteAll(db, xs).status == Fail(ForeignKeyFailed)
    decreases |xs|
  {
    if xs != [] {
      ExecuteAllErrors(db, xs[..|xs| - 1]);
    }
  }

  /**
   * A usable count for a sample that is not stored, and that no statement
   * before it inserts, aborts the run with a foreign-key failure: at that
   * count, or at an earlier one.
   */
  lemma OrphanCountFails(db: Db, xs: seq<Insert>, j: nat)
    requires db.Valid() && db.schema && j < |xs|
    requires xs[j].InsertCellCount? && Admissible(xs[j]) && xs[j].sampleId !in db.samples
    requires forall i :: 0 <= i < j ==> !Writes(xs[i], SampleKey(xs[j].sampleId))
    ensures ExecuteAll(db, xs).status == Fail(ForeignKeyFailed)
  {
    var s := xs[j].sampleId;
    var prev := ExecuteAll(db, xs[..j]);
    ExecuteAllPrefix(db, xs, j);
    ExecuteAllErrors(db, xs[..j + 1]);
    if prev.status.Pass? {
      assert FirstWriter(xs[..j], SampleKey(s)) == None by {
        assert forall i :: 0 <= i < j ==> xs[..j][i] == xs[i];
      }
      ExecuteAllFirstWriterWins(db, xs[..j], SampleKey(s));
      ExecuteAllPreservesValid(db, xs[..j]);
      assert LookupCount(prev.db.cellCounts, s, xs[j].population).None?;
    }
    ExecuteAllFailsAt(db, xs, j);
  }

  /** With the schema in place, statements whose parents all exist never fail. */
  lemma {:induction false} ExecuteAllSucceeds(db: Db, xs: seq<Insert>)
    requires db.schema
    requires forall i :: 0 <= i < |xs| ==> ParentsPresent(db, xs[i])
    ensures ExecuteAll(db, xs).status.Pass?
    decreases |xs|
  {
    if xs != [] {
      var xs' := xs[..|xs| - 1];
      ExecuteAllSucceeds(db, xs');
      ParentsPersist(db, xs', xs[|xs| - 1]);
    }
  }
}
