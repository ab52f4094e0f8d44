/** Counting papers by the year they were created: the group-by-year count
    of the plotting step, applied once to the common facial-recognition
    records and once to the whole corpus. */
module ByYear {
  import opened Sequences
  import opened Classify
  import opened Overlap

  /** The years that occur in `records`. */
  function Years(records: seq<Record>): set<int>
  {
    set r | r in records :: r.year
  }

  /** The test "created in `year`". */
  function InYear(year: int): Record -> bool
  {
    (r: Record) => r.year == year
  }

  /** How many entries of `records` were created in `year`. */
  function CountInYear(records: seq<Record>, year: int): nat
  {
    |Filter(records, InYear(year))|
  }

  lemma YearsSnoc(records: seq<Record>, r: Record)
    ensures Years(records + [r]) == Years(records) + {r.year}
  {
  }

  /** The year-to-count table: one key per year that occurs, each mapped to
      its number of rows. */
  function YearCounts(records: seq<Record>): (counts: map<int, nat>)
    ensures counts.Keys == Years(records)
    ensures forall y :: y in counts ==> counts[y] >= 1
    decreases |records|
  {
    if records == [] then map[]
    else
      var init, last := records[..|records| - 1], records[|records| - 1];
      var counts := YearCounts(init);
      assert records == init + [last];
      YearsSnoc(init, last);
      counts[last.year := (if last.year in counts then counts[last.year] else 0) + 1]
  }

  /** Every year's entry is the number of records of that year; a year
      without records has no entry. */
  lemma {:induction false} YearCountsExact(records: seq<Record>)
    ensures forall y :: (CountInYear(records, y) ==
      if y in YearCounts(records) then YearCounts(records)[y] else 0)
    decreases |records|
  {
    if records != [] {
      var init, last := records[..|records| - 1], records[|records| - 1];
      YearCountsExact(init);
      assert records == init + [last];
      forall y ensures CountInYear(records, y) ==
        (if y in YearCounts(records) then YearCounts(records)[y] else 0)
      {
        FilterSnoc(init, last, InYear(y));
      }
    }
  }

  lemma NonEmptyHasElement(keys: set<int>)
    requires keys != {}
    ensures exists k :: k in keys
  {
    if forall j :: j !in keys {
      assert false;
    }
  }

  /** The sum of the counts that `counts` holds for the years in `keys`. */
  ghost function SumCounts(counts: map<int, nat>, keys: set<int>): nat
    requires keys <= counts.Keys
    decreases keys
  {
    if keys == {} then 0
    else
      NonEmptyHasElement(keys);
      var k :| k in keys;
      counts[k] + SumCounts(counts, keys - {k})
  }

  /** The sum may take out any one year first. */
  lemma {:induction false} SumCountsRemove(counts: map<int, nat>, keys: set<int>, k: int)
    requires keys <= counts.Keys && k in keys
    ensures SumCounts(counts, keys) == counts[k] + SumCounts(counts, keys - {k})
    decreases keys
  {
    NonEmptyHasElement(keys);
    var j :| j in keys && SumCounts(counts, keys) == counts[j] + SumCounts(counts, keys - {j});
    if j != k {
      assert keys - {j} - {k} == keys - {k} - {j};
      SumCountsRemove(counts, keys - {j}, k);
      SumCountsRemove(counts, keys - {k}, j);
    }
  }

  /** The sum only looks at the years in `keys`. */
  lemma {:induction false} SumCountsAgree(counts: map<int, nat>, other: map<int, nat>, keys: set<int>)
    requires keys <= counts.Keys && keys <= other.Keys
    requires forall k :: k in keys ==> counts[k] == other[k]
    ensures SumCounts(counts, keys) == SumCounts(other, keys)
    decreases keys
  {
    if keys != {} {
      NonEmptyHasElement(keys);
      var k :| k in keys;
      SumCountsRemove(counts, keys, k);
      SumCountsRemove(other, keys, k);
      SumCountsAgree(counts, other, keys - {k});
    }
  }

  /** Adding one to a year's count, or entering a new year with count one,
      adds one to the sum. */
  lemma SumCountsIncrement(before: map<int, nat>, y: int)
    ensures var after := before[y := (if y in before then before[y] else 0) + 1];
      SumCounts(after, after.Keys) == SumCounts(before, before.Keys) + 1
  {
    var after := before[y := (if y in before then before[y] else 0) + 1];
    SumCountsRemove(after, after.Keys, y);
    SumCountsAgree(before, after, after.Keys - {y});
    if y in before {
      assert after.Keys == before.Keys;
      SumCountsRemove(before, before.Keys, y);
    } else {
      assert after.Keys - {y} == before.Keys;
    }
  }

  /** The counts add up to the number of records. */
  lemma {:induction false} YearCountsTotal(records: seq<Record>)
    ensures SumCounts(YearCounts(records), YearCounts(records).Keys) == |records|
    decreases |records|
  {
    if records != [] {
      var init, last := records[..|records| - 1], records[|records| - 1];
      var before := YearCounts(init);
      var y := last.year;
      assert YearCounts(records) == before[y := (if y in before then before[y] else 0) + 1];
      YearCountsTotal(init);
      SumCountsIncrement(before, y);
    }
  }

  /** Filtering a list without repeated ids gives a list without repeated ids. */
  lemma {:induction false} FilterKeepsDistinctIds(records: seq<Record>, p: Record -> bool)
    requires DistinctIds(records)
    ensures DistinctIds(Filter(records, p))
    decreases |records|
  {
    if records != [] {
      var init, last := records[..|records| - 1], records[|records| - 1];
      assert records == init + [last];
      DistinctIdsSnoc(init, last);
      FilterKeepsDistinctIds(init, p);
      if p(last) {
        FilterMembers(init, p);
        assert IdSet(Filter(init, p)) <= IdSet(init);
        DistinctIdsSnoc(Filter(init, p), last);
      }
    }
  }

  /** A list without repeated ids, all of whose entries are corpus lines,
      has in each year at most as many entries as the corpus. */
  lemma CountWithinCorpus(records: seq<Record>, lines: seq<Record>, y: int)
    requires DistinctIds(records)
    requires forall x :: x in records ==> x in lines
    ensures CountInYear(records, y) <= CountInYear(lines, y)
  {
    var fromRecords, fromLines := Filter(records, InYear(y)), Filter(lines, InYear(y));
    FilterMembers(records, InYear(y));
    FilterMembers(lines, InYear(y));
    FilterKeepsDistinctIds(records, InYear(y));
    IdSetSize(fromRecords);
    IdSetSize(fromLines);
    var ids, allIds := IdSet(fromRecords), IdSet(fromLines);
    assert ids <= allIds;
    assert allIds == ids + (allIds - ids);
    assert |ids| <= |allIds|;
  }

  /** The outcome of grouping a dataframe by year: the year-to-count table,
      or the `KeyError` raised when the frame was built from no records at
      all and so has no `created` column. */
  datatype Grouping = Grouped(counts: map<int, nat>) | KeyError

  /** `create_df_grouped_by_year`: fails on a frame without rows, which has
      no columns; otherwise counts the rows of each year. */
  function CreateDfGroupedByYear(records: seq<Record>): (g: Grouping)
    ensures g.KeyError? <==> records == []
    ensures g.Grouped? ==> g.counts.Keys == Years(records)
    ensures g.Grouped? ==> forall y :: y in g.counts ==> g.counts[y] == CountInYear(records, y) >= 1
  {
    if records == [] then KeyError
    else
      YearCountsExact(records);
      Grouped(YearCounts(records))
  }

  /** `fr_by_year`: the year grouping of the common facial-recognition
      records of a corpus. */
  function FrByYear(lines: seq<Record>): Grouping
  {
    CreateDfGroupedByYear(CommonRecords(Filter(lines, FrInTitleOrAbstract), Filter(lines, FrInTopic)))
  }

  /** The grouping of the common records fails exactly when the two tests
      share no id: the list of common records is then empty. */
  lemma FrByYearFailsIffNothingShared(lines: seq<Record>)
    ensures FrByYear(lines).KeyError? <==>
      IdSet(Filter(lines, FrInTitleOrAbstract)) * IdSet(Filter(lines, FrInTopic)) == {}
  {
    var common := CommonRecords(Filter(lines, FrInTitleOrAbstract), Filter(lines, FrInTopic));
    CommonRecordsSpec(Filter(lines, FrInTitleOrAbstract), Filter(lines, FrInTopic));
    if common != [] {
      assert common[0] in common;
      assert common[0].id in IdSet(common);
    }
  }

  /** Whenever the common records can be grouped, so can the corpus, and in
      every year the common facial-recognition records are at most as many
      as all the corpus's records of that year: their share of the year's
      papers is at most one. */
  lemma FrCountsWithinAll(lines: seq<Record>)
    ensures FrByYear(lines).Grouped? ==> CreateDfGroupedByYear(lines).Grouped?
    ensures FrByYear(lines).Grouped? ==> forall y :: y in FrByYear(lines).counts ==>
      y in CreateDfGroupedByYear(lines).counts && FrByYear(lines).counts[y] <= CreateDfGroupedByYear(lines).counts[y]
  {
    var common := CommonRecords(Filter(lines, FrInTitleOrAbstract), Filter(lines, FrInTopic));
    CommonRecordsSpec(Filter(lines, FrInTitleOrAbstract), Filter(lines, FrInTopic));
    FilterMembers(lines, FrInTitleOrAbstract);
    FilterMembers(lines, FrInTopic);
    if common != [] {
      assert common[0] in lines;
      YearCountsExact(common);
      YearCountsExact(lines);
      forall y | y in YearCounts(common) ensures y in YearCounts(lines) && YearCounts(common)[y] <= YearCounts(lines)[y] {
        CountWithinCorpus(common, lines, y);
      }
    }
  }
}
