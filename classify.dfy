/** The arXiv metadata record and the two tests that classify a record as a
    facial-recognition paper: a phrase in its title or abstract, or the
    computer-vision category among its categories. `ReadData` runs both tests
    over the whole corpus. */
module Classify {
  import opened Text
  import opened Sequences

  /** One line of the corpus. `year` is the year of the `created` timestamp,
      already extracted. */
  datatype Record = Record(
    id: string,
    title: string,
    abstractText: string,
    categories: string,
    year: int)

  /** The phrases taken to mean "facial recognition"; all lower-case. */
  const Synonyms: seq<string> := [
    "biometric identification", "face recognition",
    "biometric authentication", "facial recognition",
    "biometric recognition", "face detection"]

  /** The category tag of computer-vision papers. */
  const ComputerVision: string := "cs.CV"

  /** Some phrase of `synonyms` occurs in `title` or in `abstractText`. */
  function AnySynonymIn(synonyms: seq<string>, title: string, abstractText: string): bool
  {
    if synonyms == [] then false
    else Contains(title, synonyms[0]) || Contains(abstractText, synonyms[0])
         || AnySynonymIn(synonyms[1..], title, abstractText)
  }

  /** The title-or-abstract test: some synonym occurs in the lower-cased
      title or in the lower-cased abstract. */
  function FrInTitleOrAbstract(line: Record): bool
  {
    var title := Lower(line.title);
    var abstractText := Lower(line.abstractText);
    AnySynonymIn(Synonyms, title, abstractText)
  }

  /** The topic test: the categories contain the computer-vision tag. */
  function FrInTopic(line: Record): bool
  {
    Contains(line.categories, ComputerVision)
  }

  /** The synonym scan succeeds exactly when some synonym occurs in one of
      the two texts. */
  lemma {:induction false} AnySynonymInIff(synonyms: seq<string>, title: string, abstractText: string)
    ensures AnySynonymIn(synonyms, title, abstractText) <==>
      exists k :: 0 <= k < |synonyms| && (Occurs(title, synonyms[k]) || Occurs(abstractText, synonyms[k]))
    decreases |synonyms|
  {
    if synonyms != [] {
      ContainsIff(title, synonyms[0]);
      ContainsIff(abstractText, synonyms[0]);
      AnySynonymInIff(synonyms[1..], title, abstractText);
      assert forall k :: 1 <= k < |synonyms| ==> synonyms[k] == synonyms[1..][k - 1];
    }
  }

  /** The title-or-abstract test holds exactly when one of the six phrases
      occurs contiguously in the lower-cased title or abstract. */
  lemma FrInTitleOrAbstractIff(line: Record)
    ensures FrInTitleOrAbstract(line) <==>
      exists k :: 0 <= k < |Synonyms| &&
        (Occurs(Lower(line.title), Synonyms[k]) || Occurs(Lower(line.abstractText), Synonyms[k]))
  {
    AnySynonymInIff(Synonyms, Lower(line.title), Lower(line.abstractText));
  }

  /** A record with an empty title and an empty abstract is not classified
      by the title-or-abstract test. */
  lemma FrInTitleOrAbstractEmpty(line: Record)
    requires line.title == [] && line.abstractText == []
    ensures !FrInTitleOrAbstract(line)
  {
    FrInTitleOrAbstractIff(line);
    assert Lower([]) == [];
    forall k | 0 <= k < |Synonyms| ensures !Occurs([], Synonyms[k]) {
      NothingOccursInEmpty(Synonyms[k]);
    }
  }

  /** The title-or-abstract test ignores letter case: flipping the case of
      any letters of the title or abstract does not change its verdict. */
  lemma FrInTitleOrAbstractIgnoresCase(line: Record, other: Record)
    requires CaseVariant(line.title, other.title)
    requires CaseVariant(line.abstractText, other.abstractText)
    ensures FrInTitleOrAbstract(line) == FrInTitleOrAbstract(other)
  {
    LowerIgnoresCase(line.title, other.title);
    LowerIgnoresCase(line.abstractText, other.abstractText);
  }

  /** The topic test holds exactly when "cs.CV" occurs in the categories. */
  lemma FrInTopicIff(line: Record)
    ensures FrInTopic(line) <==> Occurs(line.categories, "cs.CV")
  {
    ContainsIff(line.categories, ComputerVision);
  }

  /** The classification pass over the corpus: every line goes to the
      title-or-abstract list when it passes that test, to the topic list when
      it passes that one, and to the list of all lines unconditionally. */
  method ReadData(lines: seq<Record>)
    returns (titlesAbstracts: seq<Record>, topics: seq<Record>, allLines: seq<Record>)
    ensures titlesAbstracts == Filter(lines, FrInTitleOrAbstract)
    ensures topics == Filter(lines, FrInTopic)
    ensures allLines == lines
  {
    titlesAbstracts, topics, allLines := [], [], [];
    for i := 0 to |lines|
      invariant titlesAbstracts == Filter(lines[..i], FrInTitleOrAbstract)
      invariant topics == Filter(lines[..i], FrInTopic)
      invariant allLines == lines[..i]
    {
      var line := lines[i];
      assert lines[..i + 1] == lines[..i] + [line];
      FilterSnoc(lines[..i], line, FrInTitleOrAbstract);
      FilterSnoc(lines[..i], line, FrInTopic);
      if FrInTitleOrAbstract(line) {
        titlesAbstracts := titlesAbstracts + [line];
      }
      if FrInTopic(line) {
        topics := topics + [line];
      }
      allLines := allLines + [line];
    }
    assert lines[..|lines|] == lines;
  }

  /** Each classified list keeps the corpus order and is no longer than
      the corpus. */
  lemma ClassifiedListsOrder(lines: seq<Record>)
    ensures IsSubsequence(Filter(lines, FrInTitleOrAbstract), lines)
    ensures IsSubsequence(Filter(lines, FrInTopic), lines)
    ensures |Filter(lines, FrInTitleOrAbstract)| <= |lines| && |Filter(lines, FrInTopic)| <= |lines|
  {
    FilterIsSubsequence(lines, FrInTitleOrAbstract);
    FilterIsSubsequence(lines, FrInTopic);
    SubsequenceNoLonger(Filter(lines, FrInTitleOrAbstract), lines);
    SubsequenceNoLonger(Filter(lines, FrInTopic), lines);
  }

  /** A line is in a classified list exactly when it is in the corpus and
      passes that list's test, so a line passing both tests is in both lists;
      and each list holds every qualifying line as often as the corpus does. */
  lemma ClassifiedListsContents(lines: seq<Record>)
    ensures forall r :: r in Filter(lines, FrInTitleOrAbstract) <==> r in lines && FrInTitleOrAbstract(r)
    ensures forall r :: r in Filter(lines, FrInTopic) <==> r in lines && FrInTopic(r)
    ensures forall r :: FrInTitleOrAbstract(r) ==>
      multiset(Filter(lines, FrInTitleOrAbstract))[r] == multiset(lines)[r]
    ensures forall r :: FrInTopic(r) ==>
      multiset(Filter(lines, FrInTopic))[r] == multiset(lines)[r]
  {
    FilterMembers(lines, FrInTitleOrAbstract);
    FilterMembers(lines, FrInTopic);
    FilterMultiplicity(lines, FrInTitleOrAbstract);
    FilterMultiplicity(lines, FrInTopic);
  }
}
