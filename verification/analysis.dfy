/**
 * The per-sample composition queries of `src/analysis.py`:
 * `write_summary_table` (every cell count with its sample's total and its
 * share of it, ordered by sample and population) and `responders_dataset`
 * (the same shares for the melanoma/miraclib/PBMC samples whose response is
 * known). Percentages are exact integer hundredths.
 */
module Analysis {
  import opened Wrappers
  import opened Text
  import opened Store
  import opened Rounding

  // ---------------------------------------------------------------------
  // sample_totals
  // ---------------------------------------------------------------------

  /** `SUM(count)` over the rows of one sample (the `sample_totals` CTE). */
  function SampleTotal(cc: seq<CellCount>, sample: string): int
    decreases |cc|
  {
    if cc == [] then 0
    else SampleTotal(cc[..|cc| - 1], sample) + (if cc[|cc| - 1].sample == sample then cc[|cc| - 1].count else 0)
  }

  /** How many rows a sample has. */
  function RowsOf(cc: seq<CellCount>, sample: string): nat
    decreases |cc|
  {
    if cc == [] then 0
    else RowsOf(cc[..|cc| - 1], sample) + (if cc[|cc| - 1].sample == sample then 1 else 0)
  }

  /** No count is negative (the `CHECK (count >= 0)` of `cell_counts`). */
  predicate CountsNonNegative(cc: seq<CellCount>) {
    forall i :: 0 <= i < |cc| ==> cc[i].count >= 0
  }

  /** With no negative count, each count of a sample lies between 0 and the sample's total. */
  lemma {:induction false} CountWithinTotal(cc: seq<CellCount>, i: nat)
    requires i < |cc| && CountsNonNegative(cc)
    ensures 0 <= cc[i].count <= SampleTotal(cc, cc[i].sample)
    decreases |cc|
  {
    var n := |cc| - 1;
    TotalNonNegative(cc[..n], cc[i].sample);
    if i < n {
      assert cc[..n][i] == cc[i];
      CountWithinTotal(cc[..n], i);
    }
  }

  lemma {:induction false} TotalNonNegative(cc: seq<CellCount>, sample: string)
    requires CountsNonNegative(cc)
    ensures SampleTotal(cc, sample) >= 0
    decreases |cc|
  {
    if cc != [] {
      TotalNonNegative(cc[..|cc| - 1], sample);
    }
  }

  // ---------------------------------------------------------------------
  // write_summary_table
  // ---------------------------------------------------------------------

  /** One output row: sample, total_count, population, count, percentage (hundredths; `None` is NULL). */
  datatype SummaryRow = SummaryRow(sample: string, totalCount: int, population: string, count: int,
                                   percentage: Option<int>)

  /** The row the join produces for one `cell_counts` row. */
  function SummaryRowOf(cc: seq<CellCount>, c: CellCount): SummaryRow {
    var total := SampleTotal(cc, c.sample);
    SummaryRow(c.sample, total, c.population, c.count, Percentage(c.count, total))
  }

  /** The join of `cell_counts` with `sample_totals`, in table order, before `ORDER BY`. */
  function JoinedRows(cc: seq<CellCount>): (rows: seq<SummaryRow>)
    ensures |rows| == |cc|
    ensures forall i :: 0 <= i < |cc| ==> rows[i] == SummaryRowOf(cc, cc[i])
  {
    seq(|cc|, i requires 0 <= i < |cc| => SummaryRowOf(cc, cc[i]))
  }

  /** `ORDER BY sample_id, population` under the BINARY collation. */
  predicate RowLe(x: SummaryRow, y: SummaryRow) {
    StrLt(x.sample, y.sample) || (x.sample == y.sample && StrLe(x.population, y.population))
  }

  predicate Sorted(rows: seq<SummaryRow>) {
    forall i, j :: 0 <= i < j < |rows| ==> RowLe(rows[i], rows[j])
  }

  lemma RowLeTotal(x: SummaryRow, y: SummaryRow)
    ensures RowLe(x, y) || RowLe(y, x)
  {
    StrLeTotal(x.sample, y.sample);
    StrLeTotal(x.population, y.population);
    if StrLe(x.sample, y.sample) && StrLe(y.sample, x.sample) {
      StrLeAntisymmetric(x.sample, y.sample);
    }
  }

  lemma RowLeTransitive(x: SummaryRow, y: SummaryRow, z: SummaryRow)
    requires RowLe(x, y) && RowLe(y, z)
    ensures RowLe(x, z)
  {
    if x.sample == y.sample && y.sample == z.sample {
      StrLeTransitive(x.population, y.population, z.population);
    } else {
      StrLeReflexive(y.sample);
      StrLeTransitive(x.sample, y.sample, z.sample);
      if x.sample == z.sample {
        StrLeAntisymmetric(x.sample, y.sample);
      }
    }
  }

  /** Inserts a row into a sorted sequence after the rows that sort before it. */
  function InsertRow(x: SummaryRow, rows: seq<SummaryRow>): (r: seq<SummaryRow>)
    requires Sorted(rows)
    ensures Sorted(r)
    ensures multiset(r) == multiset(rows) + multiset{x}
    decreases |rows|
  {
    if rows == [] then [x]
    else if RowLe(x, rows[0]) then
      assert forall j :: 0 <= j < |rows| ==> RowLe(x, rows[j]) by {
        forall j | 0 <= j < |rows| ensures RowLe(x, rows[j]) {
          if j > 0 { RowLeTransitive(x, rows[0], rows[j]); }
        }
      }
      [x] + rows
    else
      var tail := InsertRow(x, rows[1..]);
      assert rows == [rows[0]] + rows[1..];
      RowLeTotal(x, rows[0]);
      assert forall j :: 0 <= j < |tail| ==> RowLe(rows[0], tail[j]) by {
        forall j | 0 <= j < |tail| ensures RowLe(rows[0], tail[j]) {
          assert tail[j] in multiset(tail);
          if tail[j] != x {
            assert tail[j] in multiset(rows[1..]);
            var k :| 0 <= k < |rows[1..]| && rows[1..][k] == tail[j];
            assert rows[k + 1] == tail[j];
          }
        }
      }
      [rows[0]] + tail
  }

  /** Insertion sort: the same rows, ordered by (sample, population). */
  function SortRows(rows: seq<SummaryRow>): (r: seq<SummaryRow>)
    ensures Sorted(r)
    ensures multiset(r) == multiset(rows)
    decreases |rows|
  {
    if rows == [] then []
    else
      assert rows == rows[..|rows| - 1] + [rows[|rows| - 1]];
      InsertRow(rows[|rows| - 1], SortRows(rows[..|rows| - 1]))
  }

  /** `write_summary_table`: the ordered join; the query fails without the schema. */
  function SummaryTable(db: Db): (r: Result<seq<SummaryRow>, DbError>)
    ensures r.Failure? <==> !db.schema
    ensures r.Failure? ==> r.error == NoSuchTable("cell_counts")
    ensures r.Success? ==> Sorted(r.value) && multiset(r.value) == multiset(JoinedRows(db.cellCounts))
  {
    if !db.schema then Failure(NoSuchTable("cell_counts"))
    else Success(SortRows(JoinedRows(db.cellCounts)))
  }

  /**
   * One output row per `cell_counts` row: a row is in the table exactly when it
   * is some stored count with its sample's total and its rounded share.
   */
  lemma SummaryTableRows(db: Db, row: SummaryRow)
    requires db.schema
    ensures row in SummaryTable(db).value <==>
              exists i :: 0 <= i < |db.cellCounts| && row == SummaryRowOf(db.cellCounts, db.cellCounts[i])
  {
    var rows := SummaryTable(db).value;
    var joined := JoinedRows(db.cellCounts);
    assert row in rows <==> row in multiset(joined);
    if row in joined {
      var i :| 0 <= i < |joined| && joined[i] == row;
    }
  }

  // ---------------------------------------------------------------------
  // Shares of a sample's total
  // ---------------------------------------------------------------------

  /** The exact value of `100.0 * count / total`. */
  function ExactShare(count: int, total: int): real
    requires total != 0
  {
    100.0 * (count as real) / (total as real)
  }

  /** The exact shares of the rows of one sample, added up. */
  function SumShares(cc: seq<CellCount>, sample: string, total: int): real
    requires total != 0
    decreases |cc|
  {
    if cc == [] then 0.0
    else
      SumShares(cc[..|cc| - 1], sample, total)
      + (if cc[|cc| - 1].sample == sample then ExactShare(cc[|cc| - 1].count, total) else 0.0)
  }

  lemma ShareScaled(count: int, total: int)
    requires total != 0
    ensures ExactShare(count, total) * (total as real) == 100.0 * (count as real)
  {
  }

  lemma {:induction false} SumSharesScaled(cc: seq<CellCount>, sample: string, total: int)
    requires total != 0
    ensures SumShares(cc, sample, total) * (total as real) == 100.0 * (SampleTotal(cc, sample) as real)
    decreases |cc|
  {
    if cc != [] {
      var n := |cc| - 1;
      SumSharesScaled(cc[..n], sample, total);
      if cc[n].sample == sample {
        ShareScaled(cc[n].count, total);
        var a := SumShares(cc[..n], sample, total);
        var e := ExactShare(cc[n].count, total);
        assert (a + e) * (total as real) == a * (total as real) + e * (total as real);
      }
    }
  }

  /** The unrounded percentages of a sample whose total is not 0 add up to exactly 100. */
  lemma SharesSumTo100(cc: seq<CellCount>, sample: string)
    requires SampleTotal(cc, sample) != 0
    ensures SumShares(cc, sample, SampleTotal(cc, sample)) == 100.0
  {
    var t := SampleTotal(cc, sample);
    SumSharesScaled(cc, sample, t);
    RealCancel(SumShares(cc, sample, t), 100.0, t as real);
  }

  lemma RealCancel(x: real, y: real, t: real)
    requires t != 0.0 && x * t == y * t
    ensures x == y
  {
    assert x == (x * t) / t;
    assert y == (y * t) / t;
  }

  /** Each unrounded percentage lies between 0 and 100, and so does its rounding. */
  lemma ShareBounds(cc: seq<CellCount>, i: nat)
    requires i < |cc| && CountsNonNegative(cc)
    requires SampleTotal(cc, cc[i].sample) != 0
    ensures 0.0 <= ExactShare(cc[i].count, SampleTotal(cc, cc[i].sample)) <= 100.0
    ensures 0 <= SummaryRowOf(cc, cc[i]).percentage.value <= 10000
  {
    var t := SampleTotal(cc, cc[i].sample);
    var c := cc[i].count;
    CountWithinTotal(cc, i);
    PercentageBounds(c, t);
    ShareBetween(c, t);
  }

  lemma ShareBetween(c: int, t: int)
    requires 0 <= c <= t && t > 0
    ensures 0.0 <= ExactShare(c, t) <= 100.0
  {
    var x, y := c as real, t as real;
    assert (100.0 * x / y) * y == 100.0 * x;
  }

  /** The rounded percentages of the rows of one sample, added up. */
  function SumRounded(cc: seq<CellCount>, sample: string, total: int): int
    requires total != 0
    decreases |cc|
  {
    if cc == [] then 0
    else
      SumRounded(cc[..|cc| - 1], sample, total)
      + (if cc[|cc| - 1].sample == sample then Percentage(cc[|cc| - 1].count, total).value else 0)
  }

  lemma {:induction false} SumRoundedScaled(cc: seq<CellCount>, sample: string, total: int)
    requires total > 0 && CountsNonNegative(cc)
    ensures 20000 * SampleTotal(cc, sample) - RowsOf(cc, sample) * total
            <= 2 * total * SumRounded(cc, sample, total)
            <= 20000 * SampleTotal(cc, sample) + RowsOf(cc, sample) * total
    decreases |cc|
  {
    if cc != [] {
      var n := |cc| - 1;
      assert CountsNonNegative(cc[..n]) by {
        forall i | 0 <= i < n ensures cc[..n][i].count >= 0 {
          assert cc[..n][i] == cc[i];
        }
      }
      SumRoundedScaled(cc[..n], sample, total);
      if cc[n].sample == sample {
        RoundedShareStep(SumRounded(cc[..n], sample, total), RowsOf(cc[..n], sample), SampleTotal(cc[..n], sample),
                         cc[n].count, total);
      }
    }
  }

  /** One more row of the sample: its rounding error adds at most half a hundredth either way. */
  lemma RoundedShareStep(s: int, n: int, t: int, c: int, total: int)
    requires total > 0 && c >= 0
    requires 20000 * t - n * total <= 2 * total * s <= 20000 * t + n * total
    ensures var p := Percentage(c, total).value;
            20000 * (t + c) - (n + 1) * total <= 2 * total * (s + p) <= 20000 * (t + c) + (n + 1) * total
  {
    var p := Percentage(c, total).value;
    assert 2 * total * (s + p) == 2 * total * s + 2 * p * total;
    assert (n + 1) * total == n * total + total;
  }

  /**
   * The rounded percentages of a sample with n rows and a positive total add
   * up to 100 within n/2 hundredths: each rounding moves a share by at most
   * half a hundredth.
   */
  lemma RoundedSharesNear100(cc: seq<CellCount>, sample: string)
    requires CountsNonNegative(cc) && SampleTotal(cc, sample) > 0
    ensures 20000 - RowsOf(cc, sample) <= 2 * SumRounded(cc, sample, SampleTotal(cc, sample))
                                      <= 20000 + RowsOf(cc, sample)
  {
    var t := SampleTotal(cc, sample);
    SumRoundedScaled(cc, sample, t);
    DivideBounds(SumRounded(cc, sample, t), RowsOf(cc, sample), t);
  }

  lemma DivideBounds(s: int, n: int, t: int)
    requires t > 0
    requires 20000 * t - n * t <= 2 * t * s <= 20000 * t + n * t
    ensures 20000 - n <= 2 * s <= 20000 + n
  {
    var x := 2 * s;
    assert 2 * t * s == x * t;
    if x > 20000 + n {
      MulMonotone(20000 + n + 1, x, t);
      assert false;
    }
    if x < 20000 - n {
      MulMonotone(x, 20000 - n - 1, t);
      assert false;
    }
  }

  // ---------------------------------------------------------------------
  // At most five rows per sample
  // ---------------------------------------------------------------------

  /** The populations a sample has rows for. */
  function PopulationsOf(cc: seq<CellCount>, sample: string): set<string>
    decreases |cc|
  {
    if cc == [] then {}
    else PopulationsOf(cc[..|cc| - 1], sample) + (if cc[|cc| - 1].sample == sample then {cc[|cc| - 1].population} else {})
  }

  /** `UNIQUE(sample_id, population)`. */
  predicate PairsUnique(cc: seq<CellCount>) {
    forall i, j :: 0 <= i < j < |cc| ==> cc[i].sample != cc[j].sample || cc[i].population != cc[j].population
  }

  lemma {:induction false} PopulationsOfMembers(cc: seq<CellCount>, sample: string, p: string)
    ensures p in PopulationsOf(cc, sample) <==> exists i :: 0 <= i < |cc| && cc[i].sample == sample && cc[i].population == p
    decreases |cc|
  {
    if cc != [] {
      var n := |cc| - 1;
      PopulationsOfMembers(cc[..n], sample, p);
      if p in PopulationsOf(cc[..n], sample) {
        var i :| 0 <= i < n && cc[..n][i].sample == sample && cc[..n][i].population == p;
        assert cc[i] == cc[..n][i];
      }
      if exists i :: 0 <= i < |cc| && cc[i].sample == sample && cc[i].population == p {
        var i :| 0 <= i < |cc| && cc[i].sample == sample && cc[i].population == p;
        if i < n {
          assert cc[..n][i] == cc[i];
        }
      }
    }
  }

  /** With unique (sample, population) pairs, a sample has one row per population it has. */
  lemma {:induction false} RowsArePopulations(cc: seq<CellCount>, sample: string)
    requires PairsUnique(cc)
    ensures RowsOf(cc, sample) == |PopulationsOf(cc, sample)|
    decreases |cc|
  {
    if cc != [] {
      var n := |cc| - 1;
      assert PairsUnique(cc[..n]) by {
        forall i, j | 0 <= i < j < n
          ensures cc[..n][i].sample != cc[..n][j].sample || cc[..n][i].population != cc[..n][j].population
        {
          assert cc[..n][i] == cc[i] && cc[..n][j] == cc[j];
        }
      }
      RowsArePopulations(cc[..n], sample);
      if cc[n].sample == sample {
        PopulationsOfMembers(cc[..n], sample, cc[n].population);
        forall i | 0 <= i < n && cc[..n][i].sample == sample
          ensures cc[..n][i].population != cc[n].population
        {
          assert cc[..n][i] == cc[i];
        }
      }
    }
  }

  lemma {:induction false} SetOfSeqSize(xs: seq<string>)
    ensures |set x | x in xs| <= |xs|
    decreases |xs|
  {
    if xs != [] {
      var ys := xs[..|xs| - 1];
      SetOfSeqSize(ys);
      assert (set x | x in xs) == (set x | x in ys) + {xs[|xs| - 1]};
    }
  }

  /**
   * In a database whose rows satisfy the `cell_counts` constraints, a sample
   * has at most five rows, so its rounded percentages add up to 100 within
   * 0.02 (9998 to 10002 hundredths).
   */
  lemma AtMostFiveRows(db: Db, sample: string)
    requires db.Valid()
    ensures RowsOf(db.cellCounts, sample) <= 5
    ensures SampleTotal(db.cellCounts, sample) > 0 ==>
              9998 <= SumRounded(db.cellCounts, sample, SampleTotal(db.cellCounts, sample)) <= 10002
  {
    var cc := db.cellCounts;
    RowsArePopulations(cc, sample);
    var pops := PopulationsOf(cc, sample);
    var names := set x | x in CELL_POPULATIONS;
    forall p | p in pops ensures p in names {
      PopulationsOfMembers(cc, sample, p);
    }
    SetOfSeqSize(CELL_POPULATIONS);
    assert pops <= names;
    SubsetSize(pops, names);
    if SampleTotal(cc, sample) > 0 {
      RoundedSharesNear100(cc, sample);
    }
  }

  lemma SubsetSize(a: set<string>, b: set<string>)
    requires a <= b
    ensures |a| <= |b|
  {
    assert b == a + (b - a);
  }

  // ---------------------------------------------------------------------
  // responders_dataset
  // ---------------------------------------------------------------------

  /** The cohort filter shared by the responder and baseline queries. */
  predicate InCohort(s: Sample) {
    s.condition == "melanoma" && s.treatment == "miraclib" && s.sampleType == "pbmc"
  }

  /** Responder cohort: in the cohort, with `response IN ('yes', 'no')`. */
  predicate IsResponderSample(s: Sample) {
    InCohort(s) && (s.response == "yes" || s.response == "no")
  }

  /** One output row: sample, response, population, percentage. */
  datatype ResponderRow = ResponderRow(sample: string, response: string, population: string, percentage: Option<int>)

  /** The join of `cell_counts` rows `cc[..n]` with their totals (over all of `all`) and their samples, filtered. */
  function ResponderRowsUpTo(all: seq<CellCount>, samples: map<string, Sample>, n: nat): (rows: seq<ResponderRow>)
    requires n <= |all|
    ensures forall r :: r in rows <==>
              exists i :: 0 <= i < n && all[i].sample in samples && IsResponderSample(samples[all[i].sample])
                          && r == ResponderRowOf(all, samples, all[i])
    decreases n
  {
    if n == 0 then []
    else
      var c := all[n - 1];
      var prev := ResponderRowsUpTo(all, samples, n - 1);
      if c.sample in samples && IsResponderSample(samples[c.sample]) then prev + [ResponderRowOf(all, samples, c)]
      else prev
  }

  function ResponderRowOf(all: seq<CellCount>, samples: map<string, Sample>, c: CellCount): ResponderRow
    requires c.sample in samples
  {
    var total := SampleTotal(all, c.sample);
    ResponderRow(c.sample, samples[c.sample].response, c.population, Percentage(c.count, total))
  }

  /** `responders_dataset`; without the schema the query fails on `cell_counts`. */
  function RespondersDataset(db: Db): (r: Result<seq<ResponderRow>, DbError>)
    ensures r.Failure? <==> !db.schema
    ensures r.Failure? ==> r.error == NoSuchTable("cell_counts")
  {
    if !db.schema then Failure(NoSuchTable("cell_counts"))
    else Success(ResponderRowsUpTo(db.cellCounts, db.samples, |db.cellCounts|))
  }

  /**
   * The responder rows are exactly the counts of samples in the cohort with a
   * known response, and each carries the percentage the summary table gives
   * the same (sample, population).
   */
  lemma ResponderPercentagesMatchSummary(db: Db, r: ResponderRow)
    requires db.schema
    requires r in RespondersDataset(db).value
    ensures r.sample in db.samples && IsResponderSample(db.samples[r.sample]) && r.response == db.samples[r.sample].response
    ensures exists row :: row in SummaryTable(db).value && row.sample == r.sample
                          && row.population == r.population && row.percentage == r.percentage
  {
    var cc := db.cellCounts;
    var i :| 0 <= i < |cc| && cc[i].sample in db.samples && IsResponderSample(db.samples[cc[i].sample])
             && r == ResponderRowOf(cc, db.samples, cc[i]);
    SummaryTableRows(db, SummaryRowOf(cc, cc[i]));
  }
}
