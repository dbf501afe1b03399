/**
 * `baseline_summary` of `src/analysis.py`: the four queries over the
 * baseline cohort (melanoma, miraclib, PBMC, time 0) and the summary record
 * assembled from their results, with 0 for an absent group and NULL for an
 * average over no rows.
 */
module Baseline {
  import opened Wrappers
  import opened Store
  import opened Rounding
  import opened Analysis

  /** The baseline filter: the cohort at `time_from_treatment_start = 0`. */
  predicate IsBaseline(s: Sample) {
    InCohort(s) && s.time == 0.0
  }

  /** The keys of the samples the baseline filter keeps. */
  function BaselineIds(db: Db): (ids: set<string>)
    ensures forall s :: s in ids <==> s in db.samples && IsBaseline(db.samples[s])
  {
    set s | s in db.samples && IsBaseline(db.samples[s])
  }

  // ---------------------------------------------------------------------
  // sql_projects: COUNT(DISTINCT sample_id) per project
  // ---------------------------------------------------------------------

  /** The project groups: the projects of the baseline samples. */
  function BaselineProjects(db: Db): set<string> {
    set s | s in BaselineIds(db) :: db.samples[s].project
  }

  /** The baseline samples of the projects in `ps`. */
  function SamplesOfProjects(db: Db, ps: set<string>): (r: set<string>)
    ensures r <= BaselineIds(db)
    ensures forall s :: s in r <==> s in BaselineIds(db) && db.samples[s].project in ps
  {
    set s | s in BaselineIds(db) && db.samples[s].project in ps
  }

  /** The `sql_projects` result: each project group with its number of samples. */
  function ProjectSampleCounts(db: Db): (m: map<string, nat>)
    ensures m.Keys == BaselineProjects(db)
    ensures forall p :: p in m ==> m[p] == |SamplesOfProjects(db, {p})| && m[p] >= 1
  {
    map p | p in BaselineProjects(db) :: ProjectGroupSize(db, p)
  }

  function ProjectGroupSize(db: Db, p: string): (n: nat)
    requires p in BaselineProjects(db)
    ensures n == |SamplesOfProjects(db, {p})| && n >= 1
  {
    var s :| s in BaselineIds(db) && db.samples[s].project == p;
    assert s in SamplesOfProjects(db, {p});
    |SamplesOfProjects(db, {p})|
  }

  /** `prj["sample_count"].sum()`: the values of a map, added up. */
  ghost function SumValues(m: map<string, nat>): nat
    decreases |m|
  {
    if m == map[] then 0
    else
      var k :| k in m;
      m[k] + SumValues(m - {k})
  }

  /** The sum does not depend on which key is taken out first. */
  lemma {:induction false} SumValuesRemove(m: map<string, nat>, k: string)
    requires k in m
    ensures SumValues(m) == m[k] + SumValues(m - {k})
    decreases |m|
  {
    var j :| j in m && SumValues(m) == m[j] + SumValues(m - {j});
    if j != k {
      SumValuesRemove(m - {j}, k);
      SumValuesRemove(m - {k}, j);
      assert m - {j} - {k} == m - {k} - {j};
    }
  }

  /** Every group holds at least one sample, so the sum is at least the number of groups. */
  lemma {:induction false} SumValuesAtLeastSize(m: map<string, nat>)
    requires forall k :: k in m ==> m[k] >= 1
    ensures SumValues(m) >= |m|
    decreases |m|
  {
    if m != map[] {
      var k :| k in m && SumValues(m) == m[k] + SumValues(m - {k});
      SumValuesAtLeastSize(m - {k});
    }
  }

  /** The group counts of the projects in `ps` add up to the number of their samples. */
  lemma {:induction false} GroupsPartitionSamples(db: Db, ps: set<string>)
    requires ps <= BaselineProjects(db)
    ensures SumValues(map p | p in ps :: |SamplesOfProjects(db, {p})|) == |SamplesOfProjects(db, ps)|
    decreases |ps|
  {
    var m := map p | p in ps :: |SamplesOfProjects(db, {p})|;
    if ps == {} {
      assert m == map[];
      assert SamplesOfProjects(db, ps) == {};
    } else {
      var q :| q in ps;
      var rest := ps - {q};
      SumValuesRemove(m, q);
      assert m - {q} == map p | p in rest :: |SamplesOfProjects(db, {p})|;
      GroupsPartitionSamples(db, rest);
      assert ps == {q} + rest;
      ProjectsSplit(db, q, rest);
    }
  }

  lemma ProjectsSplit(db: Db, q: string, rest: set<string>)
    requires q !in rest
    ensures |SamplesOfProjects(db, {q} + rest)| == |SamplesOfProjects(db, {q})| + |SamplesOfProjects(db, rest)|
  {
    var a, b := SamplesOfProjects(db, {q}), SamplesOfProjects(db, rest);
    assert SamplesOfProjects(db, {q} + rest) == a + b;
    assert a * b == {};
  }

  // ---------------------------------------------------------------------
  // sql_response: COUNT(DISTINCT subject_id) per response in ('yes', 'no')
  // ---------------------------------------------------------------------

  /** The distinct subjects with a baseline sample of the given response. */
  function SubjectsWithResponse(db: Db, response: string): (r: set<string>)
    ensures forall subj :: subj in r <==>
              exists s :: s in BaselineIds(db) && db.samples[s].response == response && db.samples[s].subject == subj
  {
    set s | s in BaselineIds(db) && db.samples[s].response == response :: db.samples[s].subject
  }

  /** The distinct subjects with a baseline sample. */
  function BaselineSubjects(db: Db): (r: set<string>)
    ensures forall subj :: subj in r <==> exists s :: s in BaselineIds(db) && db.samples[s].subject == subj
  {
    set s | s in BaselineIds(db) :: db.samples[s].subject
  }

  /** The response groups: 'yes' and 'no' when some baseline sample has them. */
  function ResponseGroups(db: Db): set<string> {
    set s | s in BaselineIds(db) && (db.samples[s].response == "yes" || db.samples[s].response == "no")
      :: db.samples[s].response
  }

  /** The `sql_response` result. */
  function ResponseSubjectCounts(db: Db): (m: map<string, nat>)
    ensures forall r :: r in m <==> (r == "yes" || r == "no") && SubjectsWithResponse(db, r) != {}
    ensures forall r :: r in m ==> m[r] == |SubjectsWithResponse(db, r)|
  {
    var m := map r | r in ResponseGroups(db) :: |SubjectsWithResponse(db, r)|;
    assert forall r :: (r == "yes" || r == "no") && SubjectsWithResponse(db, r) != {} ==> r in ResponseGroups(db) by {
      forall r | (r == "yes" || r == "no") && SubjectsWithResponse(db, r) != {} ensures r in ResponseGroups(db) {
        var subj :| subj in SubjectsWithResponse(db, r);
        var s :| s in BaselineIds(db) && db.samples[s].response == r && db.samples[s].subject == subj;
      }
    }
    assert forall r :: r in ResponseGroups(db) ==> SubjectsWithResponse(db, r) != {} by {
      forall r | r in ResponseGroups(db) ensures SubjectsWithResponse(db, r) != {} {
        var s :| s in BaselineIds(db) && (db.samples[s].response == "yes" || db.samples[s].response == "no")
                 && db.samples[s].response == r;
        assert db.samples[s].subject in SubjectsWithResponse(db, r);
      }
    }
    m
  }

  // ---------------------------------------------------------------------
  // sql_sex: COUNT(DISTINCT subject_id) per sex, joined with subjects
  // ---------------------------------------------------------------------

  /** The baseline samples that join with a `subjects` row. */
  function JoinedIds(db: Db): (ids: set<string>)
    ensures ids <= BaselineIds(db)
  {
    set s | s in BaselineIds(db) && db.samples[s].subject in db.subjects
  }

  /** The distinct subjects behind the joined baseline samples. */
  function JoinedSubjects(db: Db): set<string> {
    set s | s in JoinedIds(db) :: db.samples[s].subject
  }

  /** The distinct joined subjects of the given sex; `None` is the NULL group. */
  function SubjectsWithSex(db: Db, sex: Option<string>): (r: set<string>)
    ensures r <= JoinedSubjects(db)
    ensures forall subj :: subj in r <==> subj in JoinedSubjects(db) && db.subjects[subj].sex == sex
  {
    set subj | subj in JoinedSubjects(db) && db.subjects[subj].sex == sex
  }

  /** The `sql_sex` result. */
  function SexSubjectCounts(db: Db): (m: map<Option<string>, nat>)
    ensures forall x :: x in m <==> SubjectsWithSex(db, x) != {}
    ensures forall x :: x in m ==> m[x] == |SubjectsWithSex(db, x)|
  {
    var sexes := set subj | subj in JoinedSubjects(db) :: db.subjects[subj].sex;
    assert forall x :: SubjectsWithSex(db, x) != {} ==> x in sexes by {
      forall x | SubjectsWithSex(db, x) != {} ensures x in sexes {
        var subj :| subj in SubjectsWithSex(db, x);
      }
    }
    assert forall x :: x in sexes ==> SubjectsWithSex(db, x) != {} by {
      forall x | x in sexes ensures SubjectsWithSex(db, x) != {} {
        var subj :| subj in JoinedSubjects(db) && db.subjects[subj].sex == x;
        assert subj in SubjectsWithSex(db, x);
      }
    }
    map x | x in sexes :: |SubjectsWithSex(db, x)|
  }

  // ---------------------------------------------------------------------
  // sql_avg_b: ROUND(AVG(count), 2) over male responders' b_cell counts
  // ---------------------------------------------------------------------

  /** A `cell_counts` row the `sql_avg_b` joins and filters keep. */
  predicate IsMaleResponderBCell(db: Db, c: CellCount) {
    && c.sample in db.samples
    && IsBaseline(db.samples[c.sample])
    && db.samples[c.sample].response == "yes"
    && db.samples[c.sample].subject in db.subjects
    && db.subjects[db.samples[c.sample].subject].sex == Some("M")
    && c.population == "b_cell"
  }

  /** The number and the sum of the kept counts among `cc`. */
  function MatchCount(db: Db, cc: seq<CellCount>): nat
    decreases |cc|
  {
    if cc == [] then 0
    else MatchCount(db, cc[..|cc| - 1]) + (if IsMaleResponderBCell(db, cc[|cc| - 1]) then 1 else 0)
  }

  function MatchSum(db: Db, cc: seq<CellCount>): int
    decreases |cc|
  {
    if cc == [] then 0
    else MatchSum(db, cc[..|cc| - 1]) + (if IsMaleResponderBCell(db, cc[|cc| - 1]) then cc[|cc| - 1].count else 0)
  }

  /** No row is kept exactly when the count is 0. */
  lemma {:induction false} MatchCountZero(db: Db, cc: seq<CellCount>)
    ensures MatchCount(db, cc) == 0 <==> forall i :: 0 <= i < |cc| ==> !IsMaleResponderBCell(db, cc[i])
    decreases |cc|
  {
    if cc != [] {
      var n := |cc| - 1;
      MatchCountZero(db, cc[..n]);
      forall i | 0 <= i < n ensures cc[..n][i] == cc[i] { }
    }
  }

  /** With counts between lo and hi, the sum of k kept counts is between k*lo and k*hi. */
  lemma {:induction false} MatchSumBetween(db: Db, cc: seq<CellCount>, lo: int, hi: int)
    requires forall i :: 0 <= i < |cc| && IsMaleResponderBCell(db, cc[i]) ==> lo <= cc[i].count <= hi
    ensures MatchCount(db, cc) * lo <= MatchSum(db, cc) <= MatchCount(db, cc) * hi
    decreases |cc|
  {
    if cc != [] {
      var n := |cc| - 1;
      forall i | 0 <= i < n && IsMaleResponderBCell(db, cc[..n][i]) ensures lo <= cc[..n][i].count <= hi {
        assert cc[..n][i] == cc[i];
      }
      MatchSumBetween(db, cc[..n], lo, hi);
      var k := MatchCount(db, cc[..n]);
      if IsMaleResponderBCell(db, cc[n]) {
        assert (k + 1) * lo == k * lo + lo;
        assert (k + 1) * hi == k * hi + hi;
      }
    }
  }

  /** `ROUND(AVG(count), 2)` in hundredths; the ungrouped `AVG` of no rows is NULL. */
  function AvgBCellsMaleResponders(db: Db): (avg: Option<int>)
    ensures avg.None? <==> MatchCount(db, db.cellCounts) == 0
    ensures avg.Some? && MatchSum(db, db.cellCounts) >= 0 ==>
              var n, sum := MatchCount(db, db.cellCounts), MatchSum(db, db.cellCounts);
              2 * 100 * sum - n < 2 * avg.value * n <= 2 * 100 * sum + n
  {
    var n := MatchCount(db, db.cellCounts);
    if n == 0 then None else Some(RoundDiv(100 * MatchSum(db, db.cellCounts), n))
  }

  /** The rounded mean lies between the smallest and the largest kept count (in hundredths). */
  lemma AvgWithinCounts(db: Db, lo: int, hi: int)
    requires forall i :: 0 <= i < |db.cellCounts| && IsMaleResponderBCell(db, db.cellCounts[i]) ==>
               lo <= db.cellCounts[i].count <= hi
    requires AvgBCellsMaleResponders(db).Some?
    ensures 100 * lo <= AvgBCellsMaleResponders(db).value <= 100 * hi
  {
    MatchSumBetween(db, db.cellCounts, lo, hi);
    MeanBetween(MatchSum(db, db.cellCounts), MatchCount(db, db.cellCounts), lo, hi);
  }

  lemma MeanBetween(sum: int, n: int, lo: int, hi: int)
    requires n > 0 && n * lo <= sum <= n * hi
    ensures 100 * lo <= RoundDiv(100 * sum, n) <= 100 * hi
  {
    assert (100 * lo) * n == 100 * (n * lo);
    assert (100 * hi) * n == 100 * (n * hi);
    RoundDivBetween(100 * sum, n, 100 * lo, 100 * hi);
  }

  // ---------------------------------------------------------------------
  // The summary record
  // ---------------------------------------------------------------------

  datatype BaselineSummary = BaselineSummary(
    samples: nat, projects: nat, responders: nat, nonResponders: nat,
    maleSubjects: nat, femaleSubjects: nat, avgBCellsMaleResponders: Option<int>)

  /** The count of a group, or 0 when the query returned no row for it. */
  function GroupCount<K>(m: map<K, nat>, k: K): (n: nat)
    ensures k in m ==> n == m[k]
    ensures k !in m ==> n == 0
  {
    if |m| > 0 && k in m then m[k] else 0
  }

  /**
   * `baseline_summary`: the four queries and the record built from them; the
   * first query fails on `samples` when the schema is missing.
   */
  ghost function Summarize(db: Db): (r: Result<BaselineSummary, DbError>)
    ensures r.Failure? <==> !db.schema
    ensures r.Failure? ==> r.error == NoSuchTable("samples")
    ensures r.Success? ==> r.value.projects == |BaselineProjects(db)|
  {
    if !db.schema then Failure(NoSuchTable("samples"))
    else
      var prj := ProjectSampleCounts(db);
      var resp := ResponseSubjectCounts(db);
      var sex := SexSubjectCounts(db);
      Success(BaselineSummary(
        if |prj| > 0 then SumValues(prj) else 0,
        |prj|,
        GroupCount(resp, "yes"),
        GroupCount(resp, "no"),
        GroupCount(sex, Some("M")),
        GroupCount(sex, Some("F")),
        AvgBCellsMaleResponders(db)))
  }

  lemma SummaryFields(db: Db)
    requires db.schema
    ensures Summarize(db).Success?
    ensures var v := Summarize(db).value;
            && v.samples == (if |ProjectSampleCounts(db)| > 0 then SumValues(ProjectSampleCounts(db)) else 0)
            && v.projects == |ProjectSampleCounts(db)|
            && v.responders == GroupCount(ResponseSubjectCounts(db), "yes")
            && v.nonResponders == GroupCount(ResponseSubjectCounts(db), "no")
            && v.maleSubjects == GroupCount(SexSubjectCounts(db), Some("M"))
            && v.femaleSubjects == GroupCount(SexSubjectCounts(db), Some("F"))
            && v.avgBCellsMaleResponders == AvgBCellsMaleResponders(db)
  {
  }

  /** `baseline_samples` is the number of distinct baseline samples, and `baseline_projects` at most that. */
  lemma BaselineSampleCount(db: Db)
    requires db.schema
    ensures Summarize(db).value.samples == |BaselineIds(db)|
    ensures Summarize(db).value.projects <= Summarize(db).value.samples
    ensures Summarize(db).value.projects == 0 <==> Summarize(db).value.samples == 0
  {
    var prj := ProjectSampleCounts(db);
    var ps := BaselineProjects(db);
    assert prj == map p | p in ps :: |SamplesOfProjects(db, {p})|;
    GroupsPartitionSamples(db, ps);
    assert SamplesOfProjects(db, ps) == BaselineIds(db);
    SumValuesAtLeastSize(prj);
    if BaselineIds(db) != {} {
      var s :| s in BaselineIds(db);
      assert db.samples[s].project in ps;
    }
  }

  /**
   * `baseline_responders` and `baseline_non_responders` count the distinct
   * subjects with a baseline sample of response 'yes' and 'no' (0 when the
   * group is absent); a subject with samples of both responses is counted in
   * both, so together they exceed the distinct subjects by exactly the overlap.
   */
  lemma ResponderCounts(db: Db)
    requires db.schema
    ensures Summarize(db).value.responders == |SubjectsWithResponse(db, "yes")|
    ensures Summarize(db).value.nonResponders == |SubjectsWithResponse(db, "no")|
    ensures var yes, no := SubjectsWithResponse(db, "yes"), SubjectsWithResponse(db, "no");
            Summarize(db).value.responders + Summarize(db).value.nonResponders == |yes + no| + |yes * no|
    ensures |SubjectsWithResponse(db, "yes") + SubjectsWithResponse(db, "no")| <= |BaselineSubjects(db)|
  {
    ResponseSubjectsBaseline(db);
    SummaryFields(db);
    ResponseGroupCount(db, "yes");
    ResponseGroupCount(db, "no");
    OverlapIdentity(SubjectsWithResponse(db, "yes"), SubjectsWithResponse(db, "no"));
  }

  lemma ResponseGroupCount(db: Db, r: string)
    requires r == "yes" || r == "no"
    ensures GroupCount(ResponseSubjectCounts(db), r) == |SubjectsWithResponse(db, r)|
  {
  }

  lemma ResponseSubjectsBaseline(db: Db)
    ensures |SubjectsWithResponse(db, "yes") + SubjectsWithResponse(db, "no")| <= |BaselineSubjects(db)|
  {
    var u := SubjectsWithResponse(db, "yes") + SubjectsWithResponse(db, "no");
    assert u <= BaselineSubjects(db);
    SubsetSize(u, BaselineSubjects(db));
  }

  /**
   * One subject with two baseline samples, one of response 'yes' and one of
   * 'no', is counted both as a responder and as a non-responder: the two
   * counts together exceed the one distinct baseline subject.
   */
  lemma BothResponsesCountTwice()
    ensures var db := Db(true, {"p"}, map["u" := Subject("p", None, None)],
                         map["s1" := Sample("u", "p", "melanoma", "miraclib", "yes", "pbmc", 0.0),
                             "s2" := Sample("u", "p", "melanoma", "miraclib", "no", "pbmc", 0.0)], [], 0);
            && |BaselineSubjects(db)| == 1
            && Summarize(db).value.responders + Summarize(db).value.nonResponders == 2
  {
    var db := Db(true, {"p"}, map["u" := Subject("p", None, None)],
                 map["s1" := Sample("u", "p", "melanoma", "miraclib", "yes", "pbmc", 0.0),
                     "s2" := Sample("u", "p", "melanoma", "miraclib", "no", "pbmc", 0.0)], [], 0);
    assert BaselineIds(db) == {"s1", "s2"};
    assert BaselineSubjects(db) == {"u"};
    assert SubjectsWithResponse(db, "yes") == {"u"};
    assert SubjectsWithResponse(db, "no") == {"u"};
    ResponderCounts(db);
  }

  lemma OverlapIdentity(a: set<string>, b: set<string>)
    ensures |a| + |b| == |a + b| + |a * b|
  {
    assert |a + b| == |a| + |b - a|;
    assert b == (b - a) + (a * b);
  }

  /**
   * `baseline_male_subjects` and `baseline_female_subjects` count the distinct
   * joined subjects whose sex is exactly "M" and "F"; a subject has one sex,
   * so together they do not exceed the distinct joined subjects.
   */
  lemma SexCounts(db: Db)
    requires db.schema
    ensures Summarize(db).value.maleSubjects == |SubjectsWithSex(db, Some("M"))|
    ensures Summarize(db).value.femaleSubjects == |SubjectsWithSex(db, Some("F"))|
    ensures Summarize(db).value.maleSubjects + Summarize(db).value.femaleSubjects <= |JoinedSubjects(db)|
  {
    var m, f := SubjectsWithSex(db, Some("M")), SubjectsWithSex(db, Some("F"));
    assert m * f == {};
    assert m + f <= JoinedSubjects(db);
    SubsetSize(m + f, JoinedSubjects(db));
  }

  /** A database with no baseline sample yields zeros and a NULL average. */
  lemma EmptyCohort(db: Db)
    requires db.schema && BaselineIds(db) == {}
    ensures Summarize(db) == Success(BaselineSummary(0, 0, 0, 0, 0, 0, None))
  {
    assert BaselineProjects(db) == {};
    assert SubjectsWithResponse(db, "yes") == {} && SubjectsWithResponse(db, "no") == {};
    assert JoinedIds(db) == {};
    assert JoinedSubjects(db) == {};
    assert SubjectsWithSex(db, Some("M")) == {} && SubjectsWithSex(db, Some("F")) == {};
    MatchCountZero(db, db.cellCounts);
  }
}
