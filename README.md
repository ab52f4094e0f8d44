# Facial-recognition paper classification, modelled in Dafny

`answer_qs.py` is a one-off analysis of the arXiv metadata corpus. It
estimates how many papers are about facial recognition. It compares two
heuristics:

- a phrase test: one of six synonyms of "facial recognition" appears in the
  lower-cased title or abstract;
- a topic test: the categories contain the computer-vision tag `cs.CV`.

It prints how much the two heuristics overlap. It then counts papers per
creation year, once for the papers both heuristics agree on and once for the
whole corpus. This project models that classifying and counting core and
proves what it computes.

Modules:

- `Text` (`text.dfy`): ASCII lower-casing and literal substring search. The
  synonyms contain no regular-expression metacharacters, so `re.search` on
  them is substring search.
- `Sequences` (`sequences.dfy`): order-preserving filtering (`Filter`) and the
  subsequence relation.
- `Classify` (`classify.dfy`): the `Record` datatype, the two tests, and
  `ReadData`, the classification loop as a method with a loop invariant.
- `Overlap` (`overlap.dfy`): id sets, the comparison report (with the
  division-by-zero error path), and the per-id deduplicated common records
  that feed the plots.
- `ByYear` (`by_year.dfy`): group-by-year counting as a map from year to
  count, with the `KeyError` that grouping a frame without rows raises.

The record field holding the abstract is called `abstractText`, because
`abstract` is a reserved word in Dafny. A record's `year` stands for the
year of its `created` timestamp, already extracted. The corpus is a given
sequence of records.

## Model

| member | source | states |
|---|---|---|
| `Text.LowerIsLowerCase` | answer_qs.py:21-22 | lower-casing keeps the length, leaves no upper-case letter, and changes nothing in an already lower-case string |
| `Text.LowerIdempotent` | answer_qs.py:21-22 | lower-casing twice is the same as lower-casing once |
| `Text.LowerIgnoresCase` | answer_qs.py:21-22 | two strings that differ only in the case of some letters lower-case to the same string |
| `Text.ContainsIff` | answer_qs.py:23 | the literal search finds a pattern exactly when the pattern occurs contiguously at some index of the text |
| `Text.NothingOccursInEmpty` | answer_qs.py:23 | a non-empty pattern never occurs in the empty string |
| `Classify.AnySynonymInIff` | answer_qs.py:23 | the `any` over the synonym list is true exactly when some synonym occurs in the title or in the abstract |
| `Classify.FrInTitleOrAbstractIff` | answer_qs.py:18-23 | the phrase test holds exactly when one of the six fixed phrases occurs contiguously in the lower-cased title or the lower-cased abstract |
| `Classify.FrInTitleOrAbstractEmpty` | answer_qs.py:18-23 | a record whose title and abstract are both empty fails the phrase test |
| `Classify.FrInTitleOrAbstractIgnoresCase` | answer_qs.py:18-23 | flipping the letter case in the title or abstract never changes the phrase test's verdict |
| `Classify.FrInTopicIff` | answer_qs.py:32 | the topic test holds exactly when `cs.CV` occurs in the categories string |
| `Classify.ReadData` | answer_qs.py:141-151 | the three lists built by the loop: each classified list is the order-preserving filter of the input by its test, and the list of all lines equals the input, in order, one entry per line, whatever the tests return |
| `Classify.ClassifiedListsOrder` | answer_qs.py:145-150 | each classified list is a subsequence of the input and no longer than it |
| `Classify.ClassifiedListsContents` | answer_qs.py:145-150 | a line is in a classified list exactly when it is in the input and passes that list's test, so a line passing both tests is in both lists; each list holds every qualifying line as many times as the input does |
| `Sequences.FilterMembers` | answer_qs.py:145-150 | an element is kept by the filter exactly when it is in the input and passes the test |
| `Sequences.FilterMultiplicity` | answer_qs.py:145-150 | the filter keeps each passing element as many times as it occurs, and drops every failing one |
| `Sequences.FilterIsSubsequence` | answer_qs.py:145-150 | the filter's result keeps the input's order: it is a subsequence of the input |
| `Sequences.SubsequenceNoLonger` | answer_qs.py:145-150 | a subsequence is never longer than the sequence it comes from |
| `Overlap.IdSetSize` | answer_qs.py:54-55 | a list has at most as many distinct ids as entries, and exactly as many when no id repeats |
| `Overlap.DifferenceAndShared` | answer_qs.py:54-55 | for id sets A and B, the ids of A missing from B plus the shared ids are all of A: the size of A minus the size of A∖B is the size of A∩B |
| `Overlap.CompareTitlesAbstractsAndTopics` | answer_qs.py:46-57 | an empty list on either side gives the division-by-zero error, and only then; otherwise the report gives each list's length, the shared count as the size of A∩B (at most the size of A and of B), and the total as the size of A plus the size of B minus the size of A∩B; each share is an exact fraction between 0 and 1 over its list's length whose numerator is the size of A∩B plus the number of that list's entries beyond its distinct ids, so when that list has no repeated ids it equals the size of A∩B over the size of that list's id set |
| `Overlap.RepeatedIdsInflateShare` | answer_qs.py:54 | when ids repeat, the share is not the intersection over the ids: one id listed twice against a disjoint other list gives a share of one half with nothing shared |
| `Overlap.DropDuplicateIdsIds` | answer_qs.py:78 | after dropping duplicates no id repeats and no id is lost |
| `Overlap.DropDuplicateIdsOrder` | answer_qs.py:78 | dropping duplicates keeps the order of the records it keeps |
| `Overlap.DropDuplicateIdsKeepsFirst` | answer_qs.py:78 | the record kept for each id is the first record in the input with that id |
| `Overlap.FirstIndex` | answer_qs.py:78 | the index found for an id holds that id, and no earlier entry does |
| `Overlap.DropDuplicateIdsFirstOrder` | answer_qs.py:78 | the kept records appear in the order of the first occurrences of their ids in the input, so with the two lemmas above the result is fully determined |
| `Overlap.IdSetOfIdFilter` | answer_qs.py:76 | keeping the records whose id is in a set of ids that all occur keeps exactly those ids |
| `Overlap.CommonRecordsSpec` | answer_qs.py:73-78 | the common records hold exactly one record per id, their ids are exactly A∩B, and each comes from one of the two lists |
| `Overlap.CommonRecordsPassBothTests` | answer_qs.py:73-78 | when the corpus has no repeated ids, every common record is a corpus line that passes both tests |
| `ByYear.YearCounts` | answer_qs.py:126-129 | the grouping's keys are exactly the years that occur in the input, and every count is at least 1 |
| `ByYear.YearCountsExact` | answer_qs.py:126-127 | each year's count is the number of input records from that year, and a year with no records has no entry |
| `ByYear.YearCountsTotal` | answer_qs.py:126-127 | the counts add up to the number of input records |
| `ByYear.CreateDfGroupedByYear` | answer_qs.py:124-129 | grouping fails with a `KeyError` exactly when there are no records; otherwise its keys are exactly the years that occur and each year's count is the number of records from that year, at least 1 |
| `ByYear.FrByYearFailsIffNothingShared` | answer_qs.py:73-79 | grouping the common records fails exactly when the two classified lists share no id |
| `ByYear.FrCountsWithinAll` | answer_qs.py:102-111 | whenever the common records can be grouped, the corpus can be too, and every year counted for the common records appears among the corpus's years, with a count no larger: the facial-recognition papers are at most 100% of a year's papers |

## Left out

- Reading `arxiv.jsonl` (lines 140-145, `Path`, `jsonlines`). This is file I/O. The corpus is a parameter of `ReadData`.
- `pd.to_datetime` and `.dt.year` (lines 124-125). This is library behaviour. The year is a field of the record.
- Which statement raises the `KeyError` for an empty frame is not modelled: for the common records it is `drop_duplicates(subset='id')` (line 78), for the corpus `df['created']` (line 124). Both are the one error of `CreateDfGroupedByYear`.
- `create_df_grouped_by_year` adds its `created`, `Year` and count columns to the caller's dataframe in place (lines 124-128). No caller reads those columns afterwards, so the grouping is modelled as a function of the records, with no state. The ascending order of the grouped index is not modelled either: a map has no order.
- The 2019 partial-year extrapolation (lines 81-84 and 105-106), with the `KeyError` that `.loc[2019]` raises when no record is from 2019. It is float arithmetic with Python `round`. It also rests on a chained assignment whose effect depends on pandas.
- All plotting, `savefig` and `to_csv`, and `pct_change`, the left merge, the column renames and the `Year > 2003` filter (lines 86-115). These are float and dataframe plumbing. `FrCountsWithinAll` states the bound behind the percentage of line 111 on the counts before the 2019 adjustment, which can raise the two counts by different factors.
- `Overlap.CompareTitlesAbstractsAndTopics`: the printed percentages are exact fractions here. The multiplication by 100 and `round(…, 2)` on floats are not modelled. The printing itself is not modelled: the report is the value.
- `Text.ToLower`: only ASCII letters are lower-cased. Python's full Unicode lower-casing is not modelled.
- The regular-expression engine: only literal patterns occur, and they are modelled as substring search.
