/** How the two classifications overlap. The comparison report counts the
    papers found by each test, the paper ids they share and the ids found by
    either; the common-records step keeps one record per id found by both,
    the input of the facial-recognition year counts. */
module Overlap {
  import opened Sequences
  import opened Classify

  /** `set([line['id'] for line in lines])`. */
  function IdSet(lines: seq<Record>): set<string>
  {
    set line | line in lines :: line.id
  }

  /** No two entries of `lines` share an id. */
  ghost predicate DistinctIds(lines: seq<Record>)
  {
    forall i, j :: 0 <= i < j < |lines| ==> lines[i].id != lines[j].id
  }

  lemma IdSetSnoc(lines: seq<Record>, line: Record)
    ensures IdSet(lines + [line]) == IdSet(lines) + {line.id}
  {
  }

  lemma DistinctIdsSnoc(lines: seq<Record>, line: Record)
    ensures DistinctIds(lines + [line]) <==> DistinctIds(lines) && line.id !in IdSet(lines)
  {
    var s := lines + [line];
    if DistinctIds(s) {
      assert forall i, j :: 0 <= i < j < |lines| ==> lines[i] == s[i] && lines[j] == s[j];
      forall r | r in lines ensures r.id != line.id {
        var i :| 0 <= i < |lines| && lines[i] == r;
        assert s[i] == r && s[|lines|] == line;
      }
    }
    if DistinctIds(lines) && line.id !in IdSet(lines) {
      forall i, j | 0 <= i < j < |s| ensures s[i].id != s[j].id {
        if j == |lines| {
          assert s[i] == lines[i];
          assert lines[i].id in IdSet(lines);
        }
      }
    }
  }

  /** A list of records has at most as many distinct ids as entries, and
      exactly as many when no id repeats. */
  lemma {:induction false} IdSetSize(lines: seq<Record>)
    ensures |IdSet(lines)| <= |lines|
    ensures DistinctIds(lines) ==> |IdSet(lines)| == |lines|
    decreases |lines|
  {
    if lines != [] {
      var init, last := lines[..|lines| - 1], lines[|lines| - 1];
      assert lines == init + [last];
      IdSetSize(init);
      IdSetSnoc(init, last);
      DistinctIdsSnoc(init, last);
    }
  }

  /** Two entries of a list without repeated ids that share an id are the
      same record. */
  lemma SameIdSameRecord(lines: seq<Record>, x: Record, y: Record)
    requires DistinctIds(lines) && x in lines && y in lines && x.id == y.id
    ensures x == y
  {
  }

  /** Removing the shared ids from a set leaves the rest of it. */
  lemma DifferenceAndShared(a: set<string>, b: set<string>)
    ensures |a - b| + |a * b| == |a|
  {
  }

  /** An exact rational number `num / den`. */
  datatype Fraction = Fraction(num: nat, den: nat)

  /** What the comparison prints, or the division by zero that stops it. */
  datatype Comparison =
    | Summary(
        titleAbstractCount: nat,   // papers found by the title-or-abstract test
        topicCount: nat,           // papers found by the topic test
        shared: nat,               // ids found by both
        total: nat,                // ids found by either
        titleAbstractInTopic: Fraction,  // share of the first list also in the second
        topicInTitleAbstract: Fraction)  // share of the second list also in the first
    | ZeroDivisionError

  /** The comparison report. Each share is computed as one minus the number
      of ids missing from the other list divided by the length of the
      list itself; an empty list makes that division fail. */
  function CompareTitlesAbstractsAndTopics(titlesAbstracts: seq<Record>, topics: seq<Record>): (r: Comparison)
    ensures r.ZeroDivisionError? <==> titlesAbstracts == [] || topics == []
    ensures r.Summary? ==>
      var a, b := IdSet(titlesAbstracts), IdSet(topics);
      && r.titleAbstractCount == |titlesAbstracts| && r.topicCount == |topics|
      && r.shared == |a * b| && r.shared <= |a| && r.shared <= |b|
      && r.total == |a| + |b| - |a * b|
      && 0 < r.titleAbstractInTopic.den == |titlesAbstracts|
      && r.titleAbstractInTopic.num <= r.titleAbstractInTopic.den
      && 0 < r.topicInTitleAbstract.den == |topics|
      && r.topicInTitleAbstract.num <= r.topicInTitleAbstract.den
      && r.titleAbstractInTopic.num == |a * b| + (|titlesAbstracts| - |a|)
      && r.topicInTitleAbstract.num == |a * b| + (|topics| - |b|)
      && (DistinctIds(titlesAbstracts) ==> r.titleAbstractInTopic == Fraction(|a * b|, |a|))
      && (DistinctIds(topics) ==> r.topicInTitleAbstract == Fraction(|a * b|, |b|))
  {
    var a, b := IdSet(titlesAbstracts), IdSet(topics);
    if |titlesAbstracts| == 0 || |topics| == 0 then ZeroDivisionError
    else
      IdSetSize(titlesAbstracts);
      IdSetSize(topics);
      DifferenceAndShared(a, b);
      DifferenceAndShared(b, a);
      assert b * a == a * b;
      Summary(
        |titlesAbstracts|, |topics|, |a * b|, |a + b|,
        Fraction(|titlesAbstracts| - |a - b|, |titlesAbstracts|),
        Fraction(|topics| - |b - a|, |topics|))
  }

  /** The shares are only intersection-over-ids when ids do not repeat: with
      one id listed twice in the first list and nothing shared, the first
      share still comes out as one half. */
  lemma RepeatedIdsInflateShare()
    ensures var x, y := Record("x", "", "", "", 0), Record("y", "", "", "", 0);
      var r := CompareTitlesAbstractsAndTopics([x, x], [y]);
      r.Summary? && r.shared == 0 && r.titleAbstractInTopic == Fraction(1, 2)
  {
    var x, y := Record("x", "", "", "", 0), Record("y", "", "", "", 0);
    assert IdSet([x, x]) == {"x"} by {
      assert forall r :: r in [x, x] <==> r == x;
    }
    assert IdSet([y]) == {"y"} by {
      assert forall r :: r in [y] <==> r == y;
    }
    assert {"x"} - {"y"} == {"x"};
    assert {"x"} * {"y"} == {};
  }

  /** The test `line['id'] in fr_lines`. */
  function IdIn(ids: set<string>): Record -> bool
  {
    (line: Record) => line.id in ids
  }

  /** `drop_duplicates(subset='id')`: the first record of each id, in order. */
  function DropDuplicateIds(lines: seq<Record>): seq<Record>
    decreases |lines|
  {
    if lines == [] then []
    else
      var init, last := lines[..|lines| - 1], lines[|lines| - 1];
      DropDuplicateIds(init) + (if last.id in IdSet(init) then [] else [last])
  }

  /** `x` is the first entry of `lines` that carries its id. */
  ghost predicate IsFirstWithId(lines: seq<Record>, x: Record)
  {
    exists i :: 0 <= i < |lines| && lines[i] == x && forall j :: 0 <= j < i ==> lines[j].id != x.id
  }

  /** Dropping duplicates keeps exactly one record per id and loses no id. */
  lemma {:induction false} DropDuplicateIdsIds(lines: seq<Record>)
    ensures DistinctIds(DropDuplicateIds(lines))
    ensures IdSet(DropDuplicateIds(lines)) == IdSet(lines)
    decreases |lines|
  {
    if lines != [] {
      var init, last := lines[..|lines| - 1], lines[|lines| - 1];
      var rest := DropDuplicateIds(init);
      DropDuplicateIdsIds(init);
      assert lines == init + [last];
      IdSetSnoc(init, last);
      if last.id !in IdSet(init) {
        DistinctIdsSnoc(rest, last);
        IdSetSnoc(rest, last);
      }
    }
  }

  /** Dropping duplicates keeps the order of the records it keeps. */
  lemma {:induction false} DropDuplicateIdsOrder(lines: seq<Record>)
    ensures IsSubsequence(DropDuplicateIds(lines), lines)
    decreases |lines|
  {
    if lines != [] {
      var init, last := lines[..|lines| - 1], lines[|lines| - 1];
      var rest := DropDuplicateIds(init);
      var d := DropDuplicateIds(lines);
      DropDuplicateIdsOrder(init);
      if last.id in IdSet(init) {
        assert lines == init + [last] && d == rest;
        SubsequenceOfPrefix(rest, init, last);
      } else {
        assert d[|d| - 1] == last && d[..|d| - 1] == rest;
      }
    }
  }

  /** The record kept for an id is the first record of the input with it. */
  lemma {:induction false} DropDuplicateIdsKeepsFirst(lines: seq<Record>)
    ensures forall x :: x in DropDuplicateIds(lines) ==> IsFirstWithId(lines, x)
    decreases |lines|
  {
    if lines != [] {
      var init, last := lines[..|lines| - 1], lines[|lines| - 1];
      var rest := DropDuplicateIds(init);
      DropDuplicateIdsKeepsFirst(init);
      forall x | x in rest ensures IsFirstWithId(lines, x) {
        var i :| 0 <= i < |init| && init[i] == x && forall j :: 0 <= j < i ==> init[j].id != x.id;
        assert lines[i] == x;
        assert forall j :: 0 <= j < i ==> lines[j] == init[j];
      }
      if last.id !in IdSet(init) {
        forall j | 0 <= j < |init| ensures lines[j].id != last.id {
          assert lines[j] == init[j] && init[j] in init;
        }
        assert lines[|init|] == last;
        assert IsFirstWithId(lines, last);
      }
    }
  }

  /** The index of the first entry of `lines` that has id `id`. */
  function FirstIndex(lines: seq<Record>, id: string): (i: nat)
    requires id in IdSet(lines)
    ensures i < |lines| && lines[i].id == id
    ensures forall j :: 0 <= j < i ==> lines[j].id != id
    decreases |lines|
  {
    if lines[0].id == id then 0
    else
      assert id in IdSet(lines[1..]) by {
        var r :| r in lines && r.id == id;
        assert lines == [lines[0]] + lines[1..];
        assert r in lines[1..];
      }
      1 + FirstIndex(lines[1..], id)
  }

  /** Appending a record does not move the first index of an id that
      already occurs. */
  lemma FirstIndexSnoc(lines: seq<Record>, line: Record, id: string)
    requires id in IdSet(lines)
    ensures id in IdSet(lines + [line])
    ensures FirstIndex(lines + [line], id) == FirstIndex(lines, id)
  {
    IdSetSnoc(lines, line);
    var i, k := FirstIndex(lines, id), FirstIndex(lines + [line], id);
    assert (lines + [line])[i] == lines[i];
  }

  /** An id that is new at the end of the list first occurs at the end. */
  lemma FirstIndexNew(lines: seq<Record>, line: Record)
    requires line.id !in IdSet(lines)
    ensures line.id in IdSet(lines + [line])
    ensures FirstIndex(lines + [line], line.id) == |lines|
  {
    IdSetSnoc(lines, line);
  }

  /** Dropping duplicates lists the kept records in the order in which
      their ids first occur in the input. With `DropDuplicateIdsIds` and
      `DropDuplicateIdsKeepsFirst` this fixes the result completely. */
  lemma {:induction false} DropDuplicateIdsFirstOrder(lines: seq<Record>)
    ensures IdSet(DropDuplicateIds(lines)) == IdSet(lines)
    ensures var d := DropDuplicateIds(lines);
      forall k, l :: 0 <= k < l < |d| ==> FirstIndex(lines, d[k].id) < FirstIndex(lines, d[l].id)
    decreases |lines|
  {
    DropDuplicateIdsIds(lines);
    if lines != [] {
      var init, last := lines[..|lines| - 1], lines[|lines| - 1];
      var rest, d := DropDuplicateIds(init), DropDuplicateIds(lines);
      DropDuplicateIdsFirstOrder(init);
      assert lines == init + [last];
      forall k | 0 <= k < |rest|
        ensures rest[k].id in IdSet(init)
        ensures FirstIndex(lines, rest[k].id) == FirstIndex(init, rest[k].id) < |init|
      {
        assert rest[k] in rest;
        FirstIndexSnoc(init, last, rest[k].id);
      }
      if last.id in IdSet(init) {
        assert d == rest;
      } else {
        assert d == rest + [last];
        FirstIndexNew(init, last);
        forall k, l | 0 <= k < l < |d|
          ensures FirstIndex(lines, d[k].id) < FirstIndex(lines, d[l].id)
        {
          assert d[k] == rest[k];
          if l < |rest| {
            assert d[l] == rest[l];
          }
        }
      }
    }
  }

  /** Lines 73-78 of the plotting step: the records, from either list, whose
      id both lists share, one per id. */
  function CommonRecords(titlesAbstracts: seq<Record>, topics: seq<Record>): seq<Record>
  {
    var frLines := IdSet(titlesAbstracts) * IdSet(topics);
    var linesInCommon := Filter(titlesAbstracts + topics, IdIn(frLines));
    DropDuplicateIds(linesInCommon)
  }

  /** Keeping the records whose id is in `ids` keeps exactly the ids of
      `ids`, when all of them occur. */
  lemma IdSetOfIdFilter(lines: seq<Record>, ids: set<string>)
    requires ids <= IdSet(lines)
    ensures IdSet(Filter(lines, IdIn(ids))) == ids
  {
    var kept := Filter(lines, IdIn(ids));
    FilterMembers(lines, IdIn(ids));
    forall id | id in ids ensures id in IdSet(kept) {
      var r :| r in lines && r.id == id;
      assert r in kept;
    }
  }

  /** The common records have one record per id, their ids are exactly the
      ids the two lists share, and each comes from one of the lists. */
  lemma CommonRecordsSpec(titlesAbstracts: seq<Record>, topics: seq<Record>)
    ensures var c := CommonRecords(titlesAbstracts, topics);
      && DistinctIds(c)
      && IdSet(c) == IdSet(titlesAbstracts) * IdSet(topics)
      && forall x :: x in c ==> x in titlesAbstracts || x in topics
  {
    var both := titlesAbstracts + topics;
    var frLines := IdSet(titlesAbstracts) * IdSet(topics);
    var linesInCommon := Filter(both, IdIn(frLines));
    assert forall r :: r in titlesAbstracts ==> r in both;
    assert frLines <= IdSet(both);
    IdSetOfIdFilter(both, frLines);
    DropDuplicateIdsIds(linesInCommon);
    DropDuplicateIdsOrder(linesInCommon);
    FilterMembers(both, IdIn(frLines));
    SubsequenceMembers(DropDuplicateIds(linesInCommon), linesInCommon);
  }

  /** When the corpus has no repeated ids, every common record is a corpus
      line that passes both tests. */
  lemma CommonRecordsPassBothTests(lines: seq<Record>)
    requires DistinctIds(lines)
    ensures forall x :: x in CommonRecords(Filter(lines, FrInTitleOrAbstract), Filter(lines, FrInTopic)) ==>
      x in lines && FrInTitleOrAbstract(x) && FrInTopic(x)
  {
    var titlesAbstracts := Filter(lines, FrInTitleOrAbstract);
    var topics := Filter(lines, FrInTopic);
    CommonRecordsSpec(titlesAbstracts, topics);
    FilterMembers(lines, FrInTitleOrAbstract);
    FilterMembers(lines, FrInTopic);
    var c := CommonRecords(titlesAbstracts, topics);
    forall x | x in c ensures x in lines && FrInTitleOrAbstract(x) && FrInTopic(x) {
      assert x.id in IdSet(c);
      var y :| y in titlesAbstracts && y.id == x.id;
      var z :| z in topics && z.id == x.id;
      assert x in lines;
      SameIdSameRecord(lines, x, y);
      SameIdSameRecord(lines, x, z);
    }
  }
}
