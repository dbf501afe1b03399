/**
 * `CellCountDatabase.load_data` of `src/db.py` as a specification: the input
 * rows are normalised, projected and de-duplicated, and turned into the
 * sequence of `INSERT OR IGNORE` statements the loader issues, in its order
 * (projects, subjects, samples, then every row times every population).
 */
module Loader {
  import opened Wrappers
  import opened Text
  import opened Store

  /** The five population count columns of one input row. */
  datatype Counts<T> = Counts(bCell: T, cd8TCell: T, cd4TCell: T, nkCell: T, monocyte: T)
  {
    /** The column named `pop`. */
    function Get(pop: string): T
      requires pop in CELL_POPULATIONS
    {
      if pop == "b_cell" then bCell
      else if pop == "cd8_t_cell" then cd8TCell
      else if pop == "cd4_t_cell" then cd4TCell
      else if pop == "nk_cell" then nkCell
      else monocyte
    }
  }

  /** One row of the input table as read; `None` is a missing cell. */
  datatype RawRow = RawRow(project: string, subject: string, sample: string,
                           age: Option<int>, sex: Option<string>,
                           condition: Option<string>, treatment: Option<string>,
                           response: Option<string>, sampleType: Option<string>,
                           time: Option<real>, counts: Counts<Option<int>>)

  /** One row after normalisation: canonical text and integer counts. */
  datatype Row = Row(project: string, subject: string, sample: string,
                     age: Option<int>, sex: Option<string>,
                     condition: string, treatment: string, response: string, sampleType: string,
                     time: Option<real>, counts: Counts<int>)

  /** `astype(str)`: a missing value becomes the text "nan". */
  function AsStr(v: Option<string>): string {
    match v
    case None => "nan"
    case Some(s) => s
  }

  /**
   * `astype(str).str.strip().str.lower()`: no whitespace at either end, no
   * upper-case letter, and otherwise the characters of the stripped input.
   */
  function CanonicalText(v: Option<string>): (r: string)
    ensures Trimmed(r)
    ensures forall k :: 0 <= k < |r| ==> !IsUpper(r[k])
    ensures EqualIgnoringCase(r, Strip(AsStr(v)))
  {
    var s := Strip(AsStr(v));
    var r := Lower(s);
    if s == [] then r
    else
      LowerKeepsSpace(s[0]);
      LowerKeepsSpace(s[|s| - 1]);
      r
  }

  /** `fillna(0).astype(int)`. */
  function CountOrZero(v: Option<int>): int {
    match v
    case None => 0
    case Some(n) => n
  }

  function NormalizeRow(r: RawRow): Row {
    Row(r.project, r.subject, r.sample, r.age, r.sex,
        CanonicalText(r.condition), CanonicalText(r.treatment),
        CanonicalText(r.response), CanonicalText(r.sampleType), r.time,
        Counts(CountOrZero(r.counts.bCell), CountOrZero(r.counts.cd8TCell),
               CountOrZero(r.counts.cd4TCell), CountOrZero(r.counts.nkCell),
               CountOrZero(r.counts.monocyte)))
  }

  /** The column-wise normalisation applied to the whole table before any insert. */
  function NormalizeAll(raw: seq<RawRow>): (df: seq<Row>)
    ensures |df| == |raw|
    ensures forall i :: 0 <= i < |raw| ==> df[i] == NormalizeRow(raw[i])
  {
    seq(|raw|, i requires 0 <= i < |raw| => NormalizeRow(raw[i]))
  }

  /** `drop_duplicates()`: the first occurrence of every value, in order. */
  function Distinct(xs: seq<Insert>): (r: seq<Insert>)
    ensures forall x :: x in r <==> x in xs
    ensures xs != [] ==> r != [] && r[0] == xs[0]
    decreases |xs|
  {
    if xs == [] then []
    else
      var d := Distinct(xs[..|xs| - 1]);
      assert forall x :: x in xs[..|xs| - 1] ==> x in xs;
      assert xs == xs[..|xs| - 1] + [xs[|xs| - 1]];
      if xs[|xs| - 1] in d then d else d + [xs[|xs| - 1]]
  }

  /** `df["project"]`, as the statements that insert each value. */
  function ProjectInserts(df: seq<Row>): (r: seq<Insert>)
    ensures |r| == |df|
    ensures forall i :: 0 <= i < |df| ==> r[i] == InsertProject(df[i].project)
  {
    seq(|df|, i requires 0 <= i < |df| => InsertProject(df[i].project))
  }

  /** `df[["subject", "project", "age", "sex"]]`, as insert statements. */
  function SubjectInserts(df: seq<Row>): (r: seq<Insert>)
    ensures |r| == |df|
    ensures forall i :: 0 <= i < |df| ==> r[i] == InsertSubject(df[i].subject, df[i].project, df[i].age, df[i].sex)
  {
    seq(|df|, i requires 0 <= i < |df| => InsertSubject(df[i].subject, df[i].project, df[i].age, df[i].sex))
  }

  function SampleInsertOf(r: Row): Insert {
    InsertSample(r.sample, r.subject, r.project, r.condition, r.treatment, r.response, r.sampleType, r.time)
  }

  /** The eight sample-level columns, as insert statements. */
  function SampleInserts(df: seq<Row>): (r: seq<Insert>)
    ensures |r| == |df|
    ensures forall i :: 0 <= i < |df| ==> r[i] == SampleInsertOf(df[i])
  {
    seq(|df|, i requires 0 <= i < |df| => SampleInsertOf(df[i]))
  }

  /** The five cell-count inserts of one row, in population order. */
  function RowCellCountInserts(r: Row): (xs: seq<Insert>)
    ensures |xs| == |CELL_POPULATIONS|
    ensures forall j :: 0 <= j < |CELL_POPULATIONS| ==>
              xs[j] == InsertCellCount(r.sample, CELL_POPULATIONS[j], r.counts.Get(CELL_POPULATIONS[j]))
  {
    seq(|CELL_POPULATIONS|, j requires 0 <= j < |CELL_POPULATIONS| =>
      InsertCellCount(r.sample, CELL_POPULATIONS[j], r.counts.Get(CELL_POPULATIONS[j])))
  }

  /** Every row times every population, rows in input order. */
  function CellCountInserts(df: seq<Row>): (xs: seq<Insert>)
    ensures df == [] <==> xs == []
    decreases |df|
  {
    if df == [] then [] else CellCountInserts(df[..|df| - 1]) + RowCellCountInserts(df[|df| - 1])
  }

  /** The statements `load_data` issues, in order. */
  function LoadInserts(df: seq<Row>): seq<Insert> {
    Distinct(ProjectInserts(df)) + Distinct(SubjectInserts(df)) + Distinct(SampleInserts(df))
    + CellCountInserts(df)
  }

  /** The same statements before de-duplication: one per input row and phase. */
  function SourceInserts(df: seq<Row>): seq<Insert> {
    ProjectInserts(df) + SubjectInserts(df) + SampleInserts(df) + CellCountInserts(df)
  }

  /** `load_data` on the connection's current content. */
  function Load(db: Db, raw: seq<RawRow>): Step {
    ExecuteAll(db, LoadInserts(NormalizeAll(raw)))
  }

  // ---------------------------------------------------------------------
  // Normalisation
  // ---------------------------------------------------------------------

  /** Normalising an already normalised value changes nothing: variants collapse to one canonical text. */
  lemma CanonicalTextIdempotent(v: Option<string>)
    ensures CanonicalText(Some(CanonicalText(v))) == CanonicalText(v)
  {
    var r := CanonicalText(v);
    StripTrimmed(r);
    assert Lower(r) == r;
  }

  /**
   * Variants collapse: two values that differ only in the whitespace around
   * them and the case of their letters normalise to the same text.
   */
  lemma CanonicalTextCollapses(p1: string, a: string, q1: string, p2: string, b: string, q2: string)
    requires AllSpace(p1) && AllSpace(q1) && AllSpace(p2) && AllSpace(q2)
    requires Trimmed(a) && EqualIgnoringCase(a, b)
    ensures CanonicalText(Some(p1 + a + q1)) == CanonicalText(Some(p2 + b + q2))
  {
    if b != [] {
      SameLetterKeepsSpace(a[0], b[0]);
      SameLetterKeepsSpace(a[|a| - 1], b[|b| - 1]);
    }
    StripPadded(p1, a, q1);
    StripPadded(p2, b, q2);
    LowerIgnoresCase(a, b);
  }

  /** A response cell read as "Melanoma " is stored as "melanoma". */
  lemma CanonicalTextExample()
    ensures CanonicalText(Some("Melanoma ")) == "melanoma"
  {
    var a, b := "Melanoma", "melanoma";
    MelanomaSpelling();
    StripPadded("", a, " ");
    assert "" + a + " " == "Melanoma ";
    LowerIgnoresCase(a, b);
    LowerOfLowerCase(b);
  }

  lemma MelanomaSpelling()
    ensures Trimmed("Melanoma") && AllSpace("") && AllSpace(" ")
    ensures EqualIgnoringCase("Melanoma", "melanoma")
    ensures forall k :: 0 <= k < |"melanoma"| ==> !IsUpper("melanoma"[k])
  {
    var a, b := "Melanoma", "melanoma";
    assert a[0] == 'M' && a[|a| - 1] == 'a';
    assert a == ['M'] + b[1..];
  }

  /** Missing counts become 0; present ones are kept. */
  lemma NormalizedCounts(r: RawRow, pop: string)
    requires pop in CELL_POPULATIONS
    ensures NormalizeRow(r).counts.Get(pop) == if r.counts.Get(pop).None? then 0 else r.counts.Get(pop).value
  {
  }

  // ---------------------------------------------------------------------
  // Where each kind of key can be written
  // ---------------------------------------------------------------------

  lemma {:induction false} FirstWriterAppend(xs: seq<Insert>, ys: seq<Insert>, k: Key)
    ensures FirstWriter(xs + ys, k) == if FirstWriter(xs, k).Some? then FirstWriter(xs, k) else FirstWriter(ys, k)
    decreases |ys|
  {
    if ys == [] {
      assert xs + ys == xs;
    } else {
      var ys' := ys[..|ys| - 1];
      assert (xs + ys)[..|xs + ys| - 1] == xs + ys';
      FirstWriterAppend(xs, ys', k);
    }
  }

  /** De-duplicating a sequence of statements does not change which statement writes a key first. */
  lemma {:induction false} FirstWriterDistinct(xs: seq<Insert>, k: Key)
    ensures FirstWriter(Distinct(xs), k) == FirstWriter(xs, k)
    decreases |xs|
  {
    if xs != [] {
      var xs' := xs[..|xs| - 1];
      var x := xs[|xs| - 1];
      var d := Distinct(xs');
      FirstWriterDistinct(xs', k);
      if x !in d {
        assert (d + [x])[..|d|] == d;
      }
    }
  }

  /** The statement at `i` is the first writer of `k` when no earlier statement writes `k`. */
  lemma FirstWriterAt(xs: seq<Insert>, k: Key, i: nat)
    requires i < |xs| && Writes(xs[i], k)
    requires forall j :: 0 <= j < i ==> !Writes(xs[j], k)
    ensures FirstWriter(xs, k) == Some(xs[i])
  {
  }

  lemma {:induction false} CellCountInsertsShape(df: seq<Row>, x: Insert)
    requires x in CellCountInserts(df)
    ensures exists i, j :: 0 <= i < |df| && 0 <= j < |CELL_POPULATIONS|
                           && x == InsertCellCount(df[i].sample, CELL_POPULATIONS[j], df[i].counts.Get(CELL_POPULATIONS[j]))
    decreases |df|
  {
    var n := |df| - 1;
    if x in CellCountInserts(df[..n]) {
      CellCountInsertsShape(df[..n], x);
      var i, j :| 0 <= i < n && 0 <= j < |CELL_POPULATIONS|
                  && x == InsertCellCount(df[..n][i].sample, CELL_POPULATIONS[j], df[..n][i].counts.Get(CELL_POPULATIONS[j]));
      assert df[..n][i] == df[i];
    } else {
      var j :| 0 <= j < |CELL_POPULATIONS| && RowCellCountInserts(df[n])[j] == x;
    }
  }

  /** Every cell-count insert of every row appears in the load, rows in order. */
  lemma {:induction false} CellCountInsertsCover(df: seq<Row>, i: nat, pop: string)
    requires i < |df| && pop in CELL_POPULATIONS
    ensures InsertCellCount(df[i].sample, pop, df[i].counts.Get(pop)) in CellCountInserts(df)
    decreases |df|
  {
    var n := |df| - 1;
    var j :| 0 <= j < |CELL_POPULATIONS| && CELL_POPULATIONS[j] == pop;
    if i < n {
      CellCountInsertsCover(df[..n], i, pop);
      assert df[..n][i] == df[i];
    } else {
      assert RowCellCountInserts(df[n])[j] == InsertCellCount(df[i].sample, pop, df[i].counts.Get(pop));
    }
  }

  lemma CellCountInsertsWriteNoEntity(df: seq<Row>, k: Key)
    requires !k.CellCountKey?
    ensures FirstWriter(CellCountInserts(df), k) == None
  {
    forall x | x in CellCountInserts(df) ensures !Writes(x, k) {
      CellCountInsertsShape(df, x);
    }
  }

  lemma FirstWriterDistinct3(p: seq<Insert>, s: seq<Insert>, m: seq<Insert>, k: Key)
    ensures FirstWriter(Distinct(p) + Distinct(s) + Distinct(m), k) == FirstWriter(p + s + m, k)
  {
    FirstWriterDistinct(p, k);
    FirstWriterDistinct(s, k);
    FirstWriterDistinct(m, k);
    FirstWriterAppend(Distinct(p) + Distinct(s), Distinct(m), k);
    FirstWriterAppend(Distinct(p), Distinct(s), k);
    FirstWriterAppend(p + s, m, k);
    FirstWriterAppend(p, s, k);
  }

  /** De-duplication does not change which statement of the load writes a key first. */
  lemma FirstWriterOfLoad(df: seq<Row>, k: Key)
    ensures FirstWriter(LoadInserts(df), k) == FirstWriter(SourceInserts(df), k)
  {
    var p, s, m, c := ProjectInserts(df), SubjectInserts(df), SampleInserts(df), CellCountInserts(df);
    FirstWriterDistinct3(p, s, m, k);
    FirstWriterAppend(Distinct(p) + Distinct(s) + Distinct(m), c, k);
    FirstWriterAppend(p + s + m, c, k);
  }

  /** Only the phase that inserts into a table can write a key of that table. */
  lemma FirstWriterOfPhase(df: seq<Row>, k: Key)
    ensures k.ProjectKey? ==> FirstWriter(SourceInserts(df), k) == FirstWriter(ProjectInserts(df), k)
    ensures k.SubjectKey? ==> FirstWriter(SourceInserts(df), k) == FirstWriter(SubjectInserts(df), k)
    ensures k.SampleKey? ==> FirstWriter(SourceInserts(df), k) == FirstWriter(SampleInserts(df), k)
    ensures k.CellCountKey? ==> FirstWriter(SourceInserts(df), k) == FirstWriter(CellCountInserts(df), k)
  {
    var p, s, m, c := ProjectInserts(df), SubjectInserts(df), SampleInserts(df), CellCountInserts(df);
    FirstWriterAppend(p + s + m, c, k);
    FirstWriterAppend(p + s, m, k);
    FirstWriterAppend(p, s, k);
    if !k.CellCountKey? {
      CellCountInsertsWriteNoEntity(df, k);
    }
  }

  // ---------------------------------------------------------------------
  // Properties of a load
  // ---------------------------------------------------------------------

  /** Every load, even one that aborts, leaves the constraints and referential integrity intact. */
  lemma LoadPreservesValid(db: Db, raw: seq<RawRow>)
    requires db.Valid()
    ensures Load(db, raw).db.Valid()
  {
    ExecuteAllPreservesValid(db, LoadInserts(NormalizeAll(raw)));
  }

  /** Loading the same table a second time, after a load that succeeded, changes nothing. */
  lemma LoadIdempotent(db: Db, raw: seq<RawRow>)
    requires Load(db, raw).status.Pass?
    ensures Load(Load(db, raw).db, raw) == Load(db, raw)
    ensures forall t :: t in TABLES ==> RowCount(Load(Load(db, raw).db, raw).db, t) == RowCount(Load(db, raw).db, t)
  {
    ExecuteAllIdempotent(db, LoadInserts(NormalizeAll(raw)));
  }

  /**
   * First writer wins: after a successful load, each key holds the row it held
   * before, else the row of the first input row (in input order) whose insert
   * for that key passes the NOT NULL and CHECK constraints.
   */
  lemma LoadFirstWriterWins(db: Db, raw: seq<RawRow>, k: Key)
    requires Load(db, raw).status.Pass?
    ensures Stored(Load(db, raw).db, k)
            == if Stored(db, k).Some? then Stored(db, k) else FirstWriter(SourceInserts(NormalizeAll(raw)), k)
  {
    var df := NormalizeAll(raw);
    ExecuteAllFirstWriterWins(db, LoadInserts(df), k);
    FirstWriterOfLoad(df, k);
  }

  /** A subject that occurs in several input rows keeps the project, age and sex of the first of them. */
  lemma LoadKeepsFirstSubject(db: Db, raw: seq<RawRow>, i: nat)
    requires Load(db, raw).status.Pass?
    requires i < |raw| && raw[i].subject !in db.subjects
    requires forall j :: 0 <= j < i ==> raw[j].subject != raw[i].subject
    ensures raw[i].subject in Load(db, raw).db.subjects
    ensures Load(db, raw).db.subjects[raw[i].subject] == Subject(raw[i].project, raw[i].age, raw[i].sex)
  {
    var df := NormalizeAll(raw);
    var k := SubjectKey(raw[i].subject);
    LoadFirstWriterWins(db, raw, k);
    FirstWriterOfPhase(df, k);
    FirstWriterAt(SubjectInserts(df), k, i);
  }

  /** The count inserts of rows that all lack a usable count for (s, pop) never write that pair. */
  lemma {:induction false} CellCountInsertsSkip(df: seq<Row>, s: string, pop: string)
    requires pop in CELL_POPULATIONS
    requires forall j :: 0 <= j < |df| && df[j].sample == s ==> df[j].counts.Get(pop) < 0
    ensures FirstWriter(CellCountInserts(df), CellCountKey(s, pop)) == None
  {
    forall x | x in CellCountInserts(df) ensures !Writes(x, CellCountKey(s, pop)) {
      CellCountInsertsShape(df, x);
    }
  }

  /** The first row with a non-negative count for (s, pop) writes that pair first. */
  lemma {:induction false} CellCountInsertsFirstWriter(df: seq<Row>, i: nat, pop: string)
    requires i < |df| && pop in CELL_POPULATIONS
    requires df[i].counts.Get(pop) >= 0
    requires forall j :: 0 <= j < i && df[j].sample == df[i].sample ==> df[j].counts.Get(pop) < 0
    ensures FirstWriter(CellCountInserts(df), CellCountKey(df[i].sample, pop))
            == Some(InsertCellCount(df[i].sample, pop, df[i].counts.Get(pop)))
    decreases |df|
  {
    var k := CellCountKey(df[i].sample, pop);
    var n := |df| - 1;
    FirstWriterAppend(CellCountInserts(df[..n]), RowCellCountInserts(df[n]), k);
    if i < n {
      var df' := df[..n];
      assert df'[i] == df[i];
      assert forall j :: 0 <= j < i ==> df'[j] == df[j];
      CellCountInsertsFirstWriter(df', i, pop);
    } else {
      LastRowWritesFirst(df, pop);
    }
  }

  /** When no earlier row has a usable count for the last row's (sample, pop), the last row writes it first. */
  lemma LastRowWritesFirst(df: seq<Row>, pop: string)
    requires df != [] && pop in CELL_POPULATIONS
    requires df[|df| - 1].counts.Get(pop) >= 0
    requires forall j :: 0 <= j < |df| - 1 && df[j].sample == df[|df| - 1].sample ==> df[j].counts.Get(pop) < 0
    ensures var r := df[|df| - 1];
            && FirstWriter(CellCountInserts(df[..|df| - 1]), CellCountKey(r.sample, pop)) == None
            && FirstWriter(RowCellCountInserts(r), CellCountKey(r.sample, pop))
               == Some(InsertCellCount(r.sample, pop, r.counts.Get(pop)))
  {
    var n := |df| - 1;
    var r := df[n];
    CellCountInsertsSkip(df[..n], r.sample, pop);
    var j :| 0 <= j < |CELL_POPULATIONS| && CELL_POPULATIONS[j] == pop;
    FirstWriterAt(RowCellCountInserts(r), CellCountKey(r.sample, pop), j);
  }

  /**
   * A (sample, population) pair that occurs in several input rows keeps the
   * count of the first row whose count for it is not negative.
   */
  lemma LoadKeepsFirstCount(db: Db, raw: seq<RawRow>, i: nat, pop: string)
    requires Load(db, raw).status.Pass?
    requires i < |raw| && pop in CELL_POPULATIONS
    requires LookupCount(db.cellCounts, raw[i].sample, pop).None?
    requires NormalizeAll(raw)[i].counts.Get(pop) >= 0
    requires forall j :: 0 <= j < i && raw[j].sample == raw[i].sample ==> NormalizeAll(raw)[j].counts.Get(pop) < 0
    ensures LookupCount(Load(db, raw).db.cellCounts, raw[i].sample, pop) == Some(NormalizeAll(raw)[i].counts.Get(pop))
  {
    var df := NormalizeAll(raw);
    assert forall j :: 0 <= j < |raw| ==> df[j].sample == raw[j].sample;
    KeepsFirstCount(db, df, i, pop);
  }

  lemma KeepsFirstCount(db: Db, df: seq<Row>, i: nat, pop: string)
    requires ExecuteAll(db, LoadInserts(df)).status.Pass?
    requires i < |df| && pop in CELL_POPULATIONS
    requires LookupCount(db.cellCounts, df[i].sample, pop).None?
    requires df[i].counts.Get(pop) >= 0
    requires forall j :: 0 <= j < i && df[j].sample == df[i].sample ==> df[j].counts.Get(pop) < 0
    ensures LookupCount(ExecuteAll(db, LoadInserts(df)).db.cellCounts, df[i].sample, pop) == Some(df[i].counts.Get(pop))
  {
    var k := CellCountKey(df[i].sample, pop);
    ExecuteAllFirstWriterWins(db, LoadInserts(df), k);
    FirstWriterOfLoad(df, k);
    FirstWriterOfPhase(df, k);
    CellCountInsertsFirstWriter(df, i, pop);
  }

  /**
   * The insert order makes every parent exist before its child: with the
   * schema in place and every time present and non-negative, the load never
   * fails, and afterwards every project, subject and sample of the input is
   * stored, and so is every (sample, population) pair with a non-negative count.
   */
  lemma LoadSucceeds(db: Db, raw: seq<RawRow>)
    requires db.Valid() && db.schema
    requires forall i :: 0 <= i < |raw| ==> raw[i].time.Some? && raw[i].time.value >= 0.0
    ensures Load(db, raw).status.Pass?
    ensures forall i :: 0 <= i < |raw| ==>
              && raw[i].project in Load(db, raw).db.projects
              && raw[i].subject in Load(db, raw).db.subjects
              && raw[i].sample in Load(db, raw).db.samples
    ensures forall i, pop :: 0 <= i < |raw| && pop in CELL_POPULATIONS && NormalizeAll(raw)[i].counts.Get(pop) >= 0
              ==> LookupCount(Load(db, raw).db.cellCounts, raw[i].sample, pop).Some?
  {
    var df := NormalizeAll(raw);
    LoadRuns(db, df);
    LoadCovers(db, df);
    LoadCoversCounts(db, df);
  }

  /** The four phases run one after another without error. */
  lemma LoadRuns(db: Db, df: seq<Row>)
    requires db.Valid() && db.schema
    requires forall i :: 0 <= i < |df| ==> df[i].time.Some? && df[i].time.value >= 0.0
    ensures ExecuteAll(db, LoadInserts(df)).status.Pass?
  {
    var head := Distinct(ProjectInserts(df)) + Distinct(SubjectInserts(df)) + Distinct(SampleInserts(df));
    EntityPhasesRun(db, df);
    CellCountsPhase(ExecuteAll(db, head).db, df);
    ExecuteAllAppend(db, head, CellCountInserts(df));
  }

  /** The `projects`, `subjects` and `samples` phases run without error and store every sample. */
  lemma EntityPhasesRun(db: Db, df: seq<Row>)
    requires db.Valid() && db.schema
    requires forall i :: 0 <= i < |df| ==> df[i].time.Some? && df[i].time.value >= 0.0
    ensures var r := ExecuteAll(db, Distinct(ProjectInserts(df)) + Distinct(SubjectInserts(df)) + Distinct(SampleInserts(df)));
            r.status.Pass? && r.db.schema && forall i :: 0 <= i < |df| ==> df[i].sample in r.db.samples
  {
    var p, s, m := Distinct(ProjectInserts(df)), Distinct(SubjectInserts(df)), Distinct(SampleInserts(df));
    ProjectsPhase(db, df);
    var db1 := ExecuteAll(db, p).db;
    SubjectsPhase(db1, df);
    var db2 := ExecuteAll(db1, s).db;
    SamplesPhase(db2, df);
    ExecuteAllAppend(db, p, s);
    ExecuteAllAppend(db, p + s, m);
  }

  /** The `projects` phase of a load on a database with its schema succeeds. */
  lemma ProjectsPhase(db: Db, df: seq<Row>)
    requires db.Valid() && db.schema
    ensures var r := ExecuteAll(db, Distinct(ProjectInserts(df)));
            r.status.Pass? && r.db.Valid() && r.db.schema
            && forall i :: 0 <= i < |df| ==> df[i].project in r.db.projects
  {
    var p := Distinct(ProjectInserts(df));
    forall j | 0 <= j < |p| ensures ParentsPresent(db, p[j]) {
      assert p[j] in ProjectInserts(df);
    }
    ExecuteAllSucceeds(db, p);
    ExecuteAllPreservesValid(db, p);
    ExecuteAllAbsorbsAll(db, p);
    var r := ExecuteAll(db, p);
    forall i | 0 <= i < |df| ensures df[i].project in r.db.projects {
      assert ProjectInserts(df)[i] in p;
    }
  }

  /** Once every project is in place, the `subjects` phase succeeds. */
  lemma SubjectsPhase(db: Db, df: seq<Row>)
    requires db.Valid() && db.schema
    requires forall i :: 0 <= i < |df| ==> df[i].project in db.projects
    ensures var r := ExecuteAll(db, Distinct(SubjectInserts(df)));
            r.status.Pass? && r.db.Valid() && r.db.schema
            && forall i :: 0 <= i < |df| ==> df[i].subject in r.db.subjects && df[i].project in r.db.projects
  {
    var s := Distinct(SubjectInserts(df));
    forall j | 0 <= j < |s| ensures ParentsPresent(db, s[j]) {
      assert s[j] in SubjectInserts(df);
    }
    ExecuteAllSucceeds(db, s);
    ExecuteAllPreservesValid(db, s);
    ExecuteAllAbsorbsAll(db, s);
    var r := ExecuteAll(db, s);
    forall i | 0 <= i < |df| ensures df[i].subject in r.db.subjects && df[i].project in r.db.projects {
      assert SubjectInserts(df)[i] in s;
      ParentsPersist(db, s, SubjectInserts(df)[i]);
    }
  }

  /** Once every subject is in place, the `samples` phase succeeds when every time is admissible. */
  lemma SamplesPhase(db: Db, df: seq<Row>)
    requires db.Valid() && db.schema
    requires forall i :: 0 <= i < |df| ==> df[i].subject in db.subjects && df[i].project in db.projects
    requires forall i :: 0 <= i < |df| ==> df[i].time.Some? && df[i].time.value >= 0.0
    ensures var r := ExecuteAll(db, Distinct(SampleInserts(df)));
            r.status.Pass? && r.db.Valid() && r.db.schema
            && forall i :: 0 <= i < |df| ==> df[i].sample in r.db.samples
  {
    var m := Distinct(SampleInserts(df));
    forall j | 0 <= j < |m| ensures ParentsPresent(db, m[j]) {
      assert m[j] in SampleInserts(df);
    }
    ExecuteAllSucceeds(db, m);
    ExecuteAllPreservesValid(db, m);
    ExecuteAllAbsorbsAll(db, m);
    var r := ExecuteAll(db, m);
    forall i | 0 <= i < |df| ensures df[i].sample in r.db.samples {
      assert SampleInserts(df)[i] in m;
    }
  }

  /** Once every sample is in place, the `cell_counts` phase succeeds. */
  lemma CellCountsPhase(db: Db, df: seq<Row>)
    requires db.schema
    requires forall i :: 0 <= i < |df| ==> df[i].sample in db.samples
    ensures ExecuteAll(db, CellCountInserts(df)).status.Pass?
  {
    var c := CellCountInserts(df);
    forall j | 0 <= j < |c| ensures ParentsPresent(db, c[j]) {
      CellCountInsertsShape(df, c[j]);
    }
    ExecuteAllSucceeds(db, c);
  }

  /** A load that succeeds holds the project and subject of every row, and the sample of every row whose time is admissible. */
  lemma LoadCovers(db: Db, df: seq<Row>)
    requires ExecuteAll(db, LoadInserts(df)).status.Pass?
    ensures forall i :: 0 <= i < |df| ==>
              && df[i].project in ExecuteAll(db, LoadInserts(df)).db.projects
              && df[i].subject in ExecuteAll(db, LoadInserts(df)).db.subjects
              && (df[i].time.Some? && df[i].time.value >= 0.0 ==> df[i].sample in ExecuteAll(db, LoadInserts(df)).db.samples)
  {
    var all := LoadInserts(df);
    var fin := ExecuteAll(db, all).db;
    ExecuteAllAbsorbsAll(db, all);
    forall i | 0 <= i < |df|
      ensures df[i].project in fin.projects && df[i].subject in fin.subjects
      ensures df[i].time.Some? && df[i].time.value >= 0.0 ==> df[i].sample in fin.samples
    {
      EntityInsertsInLoad(df, i);
    }
  }

  /** The project, subject and sample statements of every row are among the load's statements. */
  lemma EntityInsertsInLoad(df: seq<Row>, i: nat)
    requires i < |df|
    ensures ProjectInserts(df)[i] in LoadInserts(df)
    ensures SubjectInserts(df)[i] in LoadInserts(df)
    ensures SampleInserts(df)[i] in LoadInserts(df)
  {
    assert ProjectInserts(df)[i] in Distinct(ProjectInserts(df));
    assert SubjectInserts(df)[i] in Distinct(SubjectInserts(df));
    assert SampleInserts(df)[i] in Distinct(SampleInserts(df));
  }

  /** A load that succeeds holds a row for every non-negative count of every row. */
  lemma LoadCoversCounts(db: Db, df: seq<Row>)
    requires ExecuteAll(db, LoadInserts(df)).status.Pass?
    ensures forall i, pop :: 0 <= i < |df| && pop in CELL_POPULATIONS && df[i].counts.Get(pop) >= 0
              ==> LookupCount(ExecuteAll(db, LoadInserts(df)).db.cellCounts, df[i].sample, pop).Some?
  {
    var all := LoadInserts(df);
    var fin := ExecuteAll(db, all).db;
    ExecuteAllAbsorbsAll(db, all);
    forall i, pop | 0 <= i < |df| && pop in CELL_POPULATIONS && df[i].counts.Get(pop) >= 0
      ensures LookupCount(fin.cellCounts, df[i].sample, pop).Some?
    {
      var j := CountInsertIndex(df, i, pop);
      assert Absorbs(fin, all[j]);
    }
  }

  /** Where the insert of a row's count sits among the statements of a load. */
  lemma CountInsertIndex(df: seq<Row>, i: nat, pop: string) returns (j: nat)
    requires i < |df| && pop in CELL_POPULATIONS
    ensures j < |LoadInserts(df)| && LoadInserts(df)[j] == InsertCellCount(df[i].sample, pop, df[i].counts.Get(pop))
  {
    var pre := Distinct(ProjectInserts(df)) + Distinct(SubjectInserts(df)) + Distinct(SampleInserts(df));
    var c := CellCountInserts(df);
    assert LoadInserts(df) == pre + c;
    CellCountInsertsCover(df, i, pop);
    var k :| 0 <= k < |c| && c[k] == InsertCellCount(df[i].sample, pop, df[i].counts.Get(pop));
    j := |pre| + k;
    IndexAfterPrefix(pre, c, k);
  }

  lemma IndexAfterPrefix<T>(pre: seq<T>, c: seq<T>, k: nat)
    requires k < |c|
    ensures |pre| + k < |pre + c| && (pre + c)[|pre| + k] == c[k]
  {
  }

  /**
   * Loading before `create_schema` fails at the first insert, into `projects`,
   * and changes nothing; an empty input issues no statement and so does not fail.
   */
  lemma LoadWithoutSchema(db: Db, raw: seq<RawRow>)
    requires !db.schema
    ensures raw != [] ==> Load(db, raw) == Step(db, Fail(NoSuchTable("projects")))
    ensures raw == [] ==> Load(db, raw) == Step(db, Pass)
  {
    var df := NormalizeAll(raw);
    if raw != [] {
      assert LoadInserts(df)[0] == Distinct(ProjectInserts(df))[0] == InsertProject(df[0].project);
    } else {
      assert LoadInserts(df) == [];
    }
  }

  /**
   * A sample none of whose rows has a present, non-negative time is never
   * inserted; when it is not already stored, any non-negative count of it
   * breaks the `cell_counts` foreign key and aborts the load.
   */
  lemma BadTimeAbortsLoad(db: Db, raw: seq<RawRow>, i: nat, pop: string)
    requires db.Valid() && db.schema
    requires i < |raw| && pop in CELL_POPULATIONS
    requires raw[i].sample !in db.samples
    requires forall j :: 0 <= j < |raw| && raw[j].sample == raw[i].sample ==>
               !(raw[j].time.Some? && raw[j].time.value >= 0.0)
    requires CountOrZero(raw[i].counts.Get(pop)) >= 0
    ensures Load(db, raw).status == Fail(ForeignKeyFailed)
  {
    var df := NormalizeAll(raw);
    var k := SampleKey(raw[i].sample);
    NormalizedCounts(raw[i], pop);
    SampleNeverInserted(df, raw[i].sample);
    FirstWriterOfPhase(df, k);
    FirstWriterOfLoad(df, k);
    var j := CountInsertIndex(df, i, pop);
    OrphanCountFails(db, LoadInserts(df), j);
  }

  /** A sample none of whose rows has an admissible time is written by no sample insert. */
  lemma SampleNeverInserted(df: seq<Row>, s: string)
    requires forall j :: 0 <= j < |df| && df[j].sample == s ==> !(df[j].time.Some? && df[j].time.value >= 0.0)
    ensures FirstWriter(SampleInserts(df), SampleKey(s)) == None
  {
  }

  /**
   * The one-row case: the row's project and subject go in, its sample is
   * skipped, and its b_cell count then aborts the load.
   */
  lemma BadTimeSingleRow(db: Db, r: RawRow)
    requires db.Valid() && db.schema
    requires r.sample !in db.samples
    requires !(r.time.Some? && r.time.value >= 0.0)
    requires CountOrZero(r.counts.bCell) >= 0
    ensures Load(db, [r]).status == Fail(ForeignKeyFailed)
    ensures r.project in Load(db, [r]).db.projects && r.subject in Load(db, [r]).db.subjects
  {
    var row := NormalizeRow(r);
    OneRowInserts(r);
    BadRowAborts(db, row);
  }

  lemma BadRowAborts(db: Db, row: Row)
    requires db.Valid() && db.schema
    requires row.sample !in db.samples
    requires !(row.time.Some? && row.time.value >= 0.0)
    requires row.counts.bCell >= 0
    ensures var r := ExecuteAll(db, OneRowHead(row) + RowCellCountInserts(row));
            r.status == Fail(ForeignKeyFailed) && row.project in r.db.projects && row.subject in r.db.subjects
  {
    var head := OneRowHead(row);
    var cs := RowCellCountInserts(row);
    var ib := cs[0];
    assert cs == [ib] + cs[1..];
    BadRowFailsAtFirstCount(db, row);
    ExecuteAllAppend(db, head + [ib], cs[1..]);
    assert head + cs == head + [ib] + cs[1..];
  }

  /** The project, subject and sample statements of one row, in load order. */
  function OneRowHead(row: Row): (head: seq<Insert>)
    ensures |head| == 3 && head[2] == SampleInsertOf(row)
    ensures head[0] == InsertProject(row.project)
    ensures head[1] == InsertSubject(row.subject, row.project, row.age, row.sex)
  {
    [InsertProject(row.project), InsertSubject(row.subject, row.project, row.age, row.sex), SampleInsertOf(row)]
  }

  /** With its sample skipped, the row's b_cell count is the statement that breaks the foreign key. */
  lemma BadRowFailsAtFirstCount(db: Db, row: Row)
    requires db.Valid() && db.schema
    requires row.sample !in db.samples
    requires !(row.time.Some? && row.time.value >= 0.0)
    requires row.counts.bCell >= 0
    ensures var h := ExecuteAll(db, OneRowHead(row));
            && ExecuteAll(db, OneRowHead(row) + [RowCellCountInserts(row)[0]]) == Step(h.db, Fail(ForeignKeyFailed))
            && row.project in h.db.projects && row.subject in h.db.subjects
  {
    var head := OneRowHead(row);
    var ib := RowCellCountInserts(row)[0];
    assert ib == InsertCellCount(row.sample, "b_cell", row.counts.bCell);
    HeadOfBadRow(db, row);
    var h := ExecuteAll(db, head);
    assert LookupCount(h.db.cellCounts, row.sample, "b_cell").None?;
    ExecuteAllSnoc(db, head, ib);
  }

  /** Splitting the rows splits their count statements the same way. */
  lemma {:induction false} CellCountInsertsAppend(a: seq<Row>, b: seq<Row>)
    ensures CellCountInserts(a + b) == CellCountInserts(a) + CellCountInserts(b)
    decreases |b|
  {
    if b == [] {
      assert a + b == a;
    } else {
      var b' := b[..|b| - 1];
      assert (a + b)[..|a + b| - 1] == a + b';
      CellCountInsertsAppend(a, b');
    }
  }

  /** A load runs its four phases in turn; each one starts only if the one before succeeded. */
  lemma LoadInPhases(db: Db, df: seq<Row>)
    ensures ExecuteAll(db, LoadInserts(df))
            == Then(Then(Then(ExecuteAll(db, Distinct(ProjectInserts(df))), Distinct(SubjectInserts(df))),
                         Distinct(SampleInserts(df))), CellCountInserts(df))
  {
    var p, s, m, c := Distinct(ProjectInserts(df)), Distinct(SubjectInserts(df)), Distinct(SampleInserts(df)), CellCountInserts(df);
    ExecuteAllAppend(db, p, s);
    ExecuteAllAppend(db, p + s, m);
    ExecuteAllAppend(db, p + s + m, c);
    assert LoadInserts(df) == p + s + m + c;
  }

  /** The statements a one-row load issues: its project, subject and sample, then its five counts. */
  lemma OneRowInserts(r: RawRow)
    ensures var row := NormalizeRow(r);
            LoadInserts(NormalizeAll([r])) == OneRowHead(row) + RowCellCountInserts(row)
  {
    SingleRowInserts(NormalizeAll([r]));
  }

  lemma SingleRowInserts(df: seq<Row>)
    requires |df| == 1
    ensures LoadInserts(df) == OneRowHead(df[0]) + RowCellCountInserts(df[0])
  {
    var row := df[0];
    DistinctSingleton(InsertProject(row.project));
    DistinctSingleton(InsertSubject(row.subject, row.project, row.age, row.sex));
    DistinctSingleton(SampleInsertOf(row));
    assert ProjectInserts(df) == [InsertProject(row.project)];
    assert SubjectInserts(df) == [InsertSubject(row.subject, row.project, row.age, row.sex)];
    assert SampleInserts(df) == [SampleInsertOf(row)];
    assert CellCountInserts(df) == RowCellCountInserts(row) by {
      assert df[..0] == [];
    }
  }

  lemma DistinctSingleton(x: Insert)
    ensures Distinct([x]) == [x]
  {
    assert [x][..0] == [];
  }

  /** The project and subject of a row go in; a sample whose time is inadmissible is skipped. */
  lemma HeadOfBadRow(db: Db, row: Row)
    requires db.schema
    requires !(row.time.Some? && row.time.value >= 0.0)
    ensures var h := ExecuteAll(db, OneRowHead(row));
            h.status.Pass? && row.project in h.db.projects && row.subject in h.db.subjects
            && h.db.samples == db.samples && h.db.cellCounts == db.cellCounts
  {
    var ip := InsertProject(row.project);
    var isub := InsertSubject(row.subject, row.project, row.age, row.sex);
    var im := SampleInsertOf(row);
    var s1 := Continue(db, ip);
    assert s1.status.Pass? && row.project in s1.db.projects && s1.db.schema;
    assert s1.db.samples == db.samples && s1.db.cellCounts == db.cellCounts;
    var s2 := Continue(s1.db, isub);
    assert s2.status.Pass? && row.project in s2.db.projects && row.subject in s2.db.subjects;
    assert s2.db.samples == db.samples && s2.db.cellCounts == db.cellCounts;
    assert Continue(s2.db, im) == Step(s2.db, Pass);
    assert [ip][..0] == [];
    assert [ip, isub][..1] == [ip];
    assert [ip, isub, im][..2] == [ip, isub];
    assert ExecuteAll(db, [ip]) == s1;
    assert ExecuteAll(db, [ip, isub]) == s2;
  }
}
