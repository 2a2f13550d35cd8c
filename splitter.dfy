/**
 * `QuestionSplitter.process_survey_pair` and `create_training_pairs`: the
 * pipeline for one survey, from its Word text and its parsed XML to the
 * training pairs of its matched questions.
 */
module QuestionSplitter {
  import opened Text
  import opened Lists
  import opened WordExtractor
  import opened XmlExtractor
  import opened QuestionMatcher
  import Normalize

  /** The dictionary `process_survey_pair` returns. */
  datatype SurveyResult = SurveyResult(
    surveyTitle: string,
    matches: seq<Match>,
    unmatchedWord: seq<WordQuestion>,
    unmatchedXml: seq<XmlQuestion>)

  /**
   * `process_survey_pair` on the questions already extracted: no Word
   * questions, or no XML questions, short-cuts the matcher.
   */
  function Process(title: string, ws: seq<WordQuestion>, xs: seq<XmlQuestion>, threshold: real, sim: Scorer): Result<SurveyResult> {
    if ws == [] then Success(SurveyResult(title, [], [], xs))
    else if xs == [] then Success(SurveyResult(title, [], ws, []))
    else
      match Assign(ws, xs, threshold, sim)
      case Failure(e) => Failure(e)
      case Success(m) => Success(SurveyResult(title, m.matches, m.unmatchedWord, m.unmatchedXml))
  }

  /**
   * `process_survey_pair(survey_title, word_text, xml_content)`. The XML
   * arrives parsed (`None` when it does not parse), with the serialiser as
   * a parameter.
   */
  method ProcessSurveyPair(
    title: string, wordText: string, doc: Option<Element>, serialize: Element -> string,
    limit: int, threshold: real, sim: Scorer)
    returns (r: Result<SurveyResult>)
    ensures r == Process(title, Segmented(Paragraphs(wordText), limit, Patterns), XmlQuestions(doc, serialize), threshold, sim)
  {
    var ws := ExtractQuestions(wordText, limit);
    var xs := ExtractXmlQuestions(doc, serialize);
    if ws == [] {
      return Success(SurveyResult(title, [], [], xs));
    }
    if xs == [] {
      return Success(SurveyResult(title, [], ws, []));
    }
    var m := MatchQuestions(ws, xs, threshold, sim);
    match m {
      case Failure(e) => r := Failure(e);
      case Success(v) => r := Success(SurveyResult(title, v.matches, v.unmatchedWord, v.unmatchedXml));
    }
  }

  /** Without XML questions nothing can raise, whatever the threshold. */
  lemma NoXmlNoFailure(title: string, ws: seq<WordQuestion>, threshold: real, sim: Scorer)
    ensures Process(title, ws, [], threshold, sim) == Success(SurveyResult(title, [], ws, []))
  {
  }

  /** A positive threshold never raises. */
  lemma ProcessSucceeds(title: string, ws: seq<WordQuestion>, xs: seq<XmlQuestion>, threshold: real, sim: Scorer)
    requires threshold > 0.0
    ensures Process(title, ws, xs, threshold, sim).Success?
  {
    PositiveThresholdSucceeds(ws, xs, threshold, sim);
  }

  /**
   * Every question of either side is accounted for exactly once: matched
   * or unmatched, and each list keeps its input order.
   */
  lemma ProcessAccounts(title: string, ws: seq<WordQuestion>, xs: seq<XmlQuestion>, threshold: real, sim: Scorer)
    requires Process(title, ws, xs, threshold, sim).Success?
    ensures var r := Process(title, ws, xs, threshold, sim).value;
      && r.surveyTitle == title
      && multiset(Words(r.matches)) + multiset(r.unmatchedWord) == multiset(ws)
      && multiset(Xmls(r.matches)) + multiset(r.unmatchedXml) == multiset(xs)
      && Subseq(Words(r.matches), ws)
      && Subseq(r.unmatchedXml, xs)
  {
    if ws == [] {
      SubseqRefl(xs);
    } else if xs == [] {
    } else {
      WordsCounted(ws, xs, threshold, sim);
      XmlsPartitioned(ws, xs, threshold, sim);
      MatchedInOrder(ws, xs, threshold, sim);
    }
  }

  /** Without Word questions nothing is matched, and every XML question is left unmatched. */
  lemma NoWordsNoMatching(title: string, xs: seq<XmlQuestion>, threshold: real, sim: Scorer)
    ensures Process(title, [], xs, threshold, sim) == Success(SurveyResult(title, [], [], xs))
  {
  }

  /**
   * With questions on both sides, the survey's lists are those of
   * `match_questions`, and processing raises exactly when the matcher does;
   * that needs a threshold of at most 0.
   */
  lemma ProcessMatches(title: string, ws: seq<WordQuestion>, xs: seq<XmlQuestion>, threshold: real, sim: Scorer)
    ensures ws != [] && xs != [] ==>
      (Process(title, ws, xs, threshold, sim).Success? <==> Assign(ws, xs, threshold, sim).Success?)
    ensures ws != [] && xs != [] && Assign(ws, xs, threshold, sim).Success? ==>
      var m := Assign(ws, xs, threshold, sim).value;
      var r := Process(title, ws, xs, threshold, sim).value;
      r.matches == m.matches && r.unmatchedWord == m.unmatchedWord && r.unmatchedXml == m.unmatchedXml
    ensures Process(title, ws, xs, threshold, sim).Failure? ==> ws != [] && xs != [] && threshold <= 0.0
  {
    if threshold > 0.0 {
      PositiveThresholdSucceeds(ws, xs, threshold, sim);
    }
  }

  /** Every match of a processed survey scores at or above the threshold and above 0. */
  lemma ProcessScores(title: string, ws: seq<WordQuestion>, xs: seq<XmlQuestion>, threshold: real, sim: Scorer)
    requires Process(title, ws, xs, threshold, sim).Success?
    ensures var ms := Process(title, ws, xs, threshold, sim).value.matches;
      forall j :: 0 <= j < |ms| ==> ms[j].score >= threshold && ms[j].score > 0.0
  {
    if ws != [] && xs != [] {
      MatchScores(ws, xs, threshold, sim);
    }
  }

  /** The metadata of a training pair. */
  datatype Metadata = Metadata(wordIndex: nat, xmlIndex: nat, xmlId: string)

  /** One training pair: the Word question's prose and the XML code that implements it. */
  datatype TrainingPair = TrainingPair(
    surveyTitle: string,
    questionNumber: string,
    naturalLanguage: string,
    xmlCode: string,
    similarityScore: real,
    metadata: Metadata)

  function ToPair(title: string, m: Match): TrainingPair {
    TrainingPair(title, m.word.number, m.word.fullContent, m.xml.fullSection, m.score,
                 Metadata(m.word.wordIndex, m.xml.xmlIndex, m.xml.id))
  }

  /** One training pair per match, in order. */
  function TrainingPairs(title: string, ms: seq<Match>): (ps: seq<TrainingPair>)
    ensures |ps| == |ms|
  {
    seq(|ms|, i requires 0 <= i < |ms| => ToPair(title, ms[i]))
  }

  lemma TrainingPairsAppend(title: string, ms: seq<Match>, m: Match)
    ensures TrainingPairs(title, ms + [m]) == TrainingPairs(title, ms) + [ToPair(title, m)]
  {
    assert forall i :: 0 <= i < |ms| ==> TrainingPairs(title, ms + [m])[i] == TrainingPairs(title, ms)[i];
  }

  /** `create_training_pairs`. */
  method CreateTrainingPairs(title: string, matches: seq<Match>) returns (pairs: seq<TrainingPair>)
    ensures pairs == TrainingPairs(title, matches)
  {
    pairs := [];
    var i := 0;
    while i < |matches|
      invariant 0 <= i <= |matches|
      invariant pairs == TrainingPairs(title, matches[..i])
    {
      TrainingPairsAppend(title, matches[..i], matches[i]);
      assert matches[..i + 1] == matches[..i] + [matches[i]];
      var m := matches[i];
      pairs := pairs + [TrainingPair(title, m.word.number, m.word.fullContent, m.xml.fullSection, m.score,
                                     Metadata(m.word.wordIndex, m.xml.xmlIndex, m.xml.id))];
      i := i + 1;
    }
    assert matches[..i] == matches;
  }

  /** `word_index` is the position in the list. */
  predicate Indexed(ws: seq<WordQuestion>) {
    forall j :: 0 <= j < |ws| ==> ws[j].wordIndex == j
  }

  /** No two questions share an `id`. */
  predicate IdsDistinct(xs: seq<XmlQuestion>) {
    forall i, j :: 0 <= i < j < |xs| ==> xs[i].id != xs[j].id
  }

  /** Questions picked in order out of an indexed list have strictly increasing indexes below its length. */
  lemma {:induction false} PickedIncreasing(a: seq<WordQuestion>, b: seq<WordQuestion>)
    requires Subseq(a, b) && Indexed(b)
    ensures forall i :: 0 <= i < |a| ==> a[i].wordIndex < |b|
    ensures forall i, j :: 0 <= i < j < |a| ==> a[i].wordIndex < a[j].wordIndex
    decreases |b|
  {
    if a != [] {
      var b' := b[..|b| - 1];
      if a[|a| - 1] == b[|b| - 1] {
        var a' := a[..|a| - 1];
        PickedIncreasing(a', b');
        assert forall i :: 0 <= i < |a'| ==> a[i] == a'[i];
      } else {
        PickedIncreasing(a, b');
      }
    }
  }

  /** Questions taken from a list whose ids are distinct have distinct ids. */
  lemma TakenIdsDistinct(a: seq<XmlQuestion>, b: seq<XmlQuestion>)
    requires multiset(a) <= multiset(b) && IdsDistinct(b)
    ensures IdsDistinct(a)
  {
    DistinctSub(a, b);
    forall i, j | 0 <= i < j < |a| ensures a[i].id != a[j].id {
      assert a[i] in multiset(b) && a[j] in multiset(b);
      var p :| 0 <= p < |b| && b[p] == a[i];
      var q :| 0 <= q < |b| && b[q] == a[j];
      assert p != q;
    }
  }

  /** A training pair carries its match's score. */
  lemma PairsScores(title: string, ms: seq<Match>, threshold: real)
    requires forall j :: 0 <= j < |ms| ==> ms[j].score >= threshold && ms[j].score > 0.0
    ensures var ps := TrainingPairs(title, ms);
      forall i :: 0 <= i < |ps| ==> ps[i].similarityScore >= threshold && ps[i].similarityScore > 0.0
  {
  }

  /** The Word indexes of training pairs built from matches picked in order out of an indexed list strictly increase. */
  lemma PairsIncreasing(title: string, ms: seq<Match>, ws: seq<WordQuestion>)
    requires Subseq(Words(ms), ws) && Indexed(ws)
    ensures var ps := TrainingPairs(title, ms);
      forall i, j :: 0 <= i < j < |ps| ==> ps[i].metadata.wordIndex < ps[j].metadata.wordIndex
  {
    PickedIncreasing(Words(ms), ws);
    assert forall i :: 0 <= i < |ms| ==> Words(ms)[i] == ms[i].word;
  }

  /** The XML ids of training pairs built from questions taken out of a list with distinct ids are distinct. */
  lemma PairsIdsDistinct(title: string, ms: seq<Match>, xs: seq<XmlQuestion>)
    requires multiset(Xmls(ms)) <= multiset(xs) && IdsDistinct(xs)
    ensures var ps := TrainingPairs(title, ms);
      forall i, j :: 0 <= i < j < |ps| ==> ps[i].metadata.xmlId != ps[j].metadata.xmlId
  {
    TakenIdsDistinct(Xmls(ms), xs);
    assert forall i :: 0 <= i < |ms| ==> Xmls(ms)[i] == ms[i].xml;
  }

  /**
   * The training pairs of a survey: each scores at or above the threshold;
   * their Word indexes strictly increase; and no XML question id appears
   * twice, so no XML section serves two questions.
   */
  lemma PairsOfSurvey(title: string, ws: seq<WordQuestion>, xs: seq<XmlQuestion>, threshold: real, sim: Scorer)
    requires Indexed(ws) && IdsDistinct(xs)
    requires Process(title, ws, xs, threshold, sim).Success?
    ensures var ps := TrainingPairs(title, Process(title, ws, xs, threshold, sim).value.matches);
      && (forall i :: 0 <= i < |ps| ==> ps[i].similarityScore >= threshold && ps[i].similarityScore > 0.0)
      && (forall i, j :: 0 <= i < j < |ps| ==> ps[i].metadata.wordIndex < ps[j].metadata.wordIndex)
      && (forall i, j :: 0 <= i < j < |ps| ==> ps[i].metadata.xmlId != ps[j].metadata.xmlId)
  {
    var ms := Process(title, ws, xs, threshold, sim).value.matches;
    ProcessAccounts(title, ws, xs, threshold, sim);
    PairsIncreasing(title, ms, ws);
    PairsIdsDistinct(title, ms, xs);
    ProcessScores(title, ws, xs, threshold, sim);
    PairsScores(title, ms, threshold);
  }

  /** `calculate_similarity` as the matcher's scorer. */
  function SimilarityScorer(fz: Normalize.Fuzz): Scorer {
    (text1: string, text2: string) => Normalize.Similarity(fz, text1, text2)
  }

  /** Scored by `calculate_similarity`, every training pair's score lies between the threshold and 1. */
  lemma PairsScoreRange(title: string, ws: seq<WordQuestion>, xs: seq<XmlQuestion>, threshold: real, fz: Normalize.Fuzz)
    requires Process(title, ws, xs, threshold, SimilarityScorer(fz)).Success?
    ensures var ps := TrainingPairs(title, Process(title, ws, xs, threshold, SimilarityScorer(fz)).value.matches);
      forall i :: 0 <= i < |ps| ==> threshold <= ps[i].similarityScore <= 1.0
  {
    var sim := SimilarityScorer(fz);
    var ms := Process(title, ws, xs, threshold, sim).value.matches;
    if ws != [] && xs != [] {
      MatchScores(ws, xs, threshold, sim);
      ScoredPairs(title, ms, threshold, fz);
    }
  }

  lemma ScoredPairs(title: string, ms: seq<Match>, threshold: real, fz: Normalize.Fuzz)
    requires forall j :: 0 <= j < |ms| ==>
      ms[j].score >= threshold && ms[j].score == SimilarityScorer(fz)(ms[j].word.text, ms[j].xml.text)
    ensures var ps := TrainingPairs(title, ms);
      forall i :: 0 <= i < |ps| ==> threshold <= ps[i].similarityScore <= 1.0
  {
    forall j | 0 <= j < |ms| ensures ms[j].score <= 1.0 {
      Normalize.SimilarityRange(fz, ms[j].word.text, ms[j].xml.text);
    }
  }

  /** The Word extractor numbers its questions by position. */
  lemma ExtractedIndexed(docText: string, limit: int)
    ensures Indexed(Segmented(Paragraphs(docText), limit, Patterns))
  {
    forall j | 0 <= j < |Segmented(Paragraphs(docText), limit, Patterns)|
      ensures Segmented(Paragraphs(docText), limit, Patterns)[j].wordIndex == j
    {
      QuestionRecords(docText, limit, Patterns, j);
    }
  }

  /** The XML extractor never returns an id twice. */
  lemma ExtractedIdsDistinct(doc: Option<Element>, serialize: Element -> string)
    ensures IdsDistinct(XmlQuestions(doc, serialize))
  {
    if doc.Some? {
      QuestionsShape(Titles(doc.value), serialize);
    }
  }

  /** End to end: the training pairs of one survey pair, as `process_survey_pair` and `create_training_pairs` produce them. */
  lemma SurveyPairs(title: string, wordText: string, doc: Option<Element>, serialize: Element -> string,
                    limit: int, threshold: real, sim: Scorer)
    requires threshold > 0.0
    ensures var ws := Segmented(Paragraphs(wordText), limit, Patterns);
      var xs := XmlQuestions(doc, serialize);
      && Process(title, ws, xs, threshold, sim).Success?
      && var ps := TrainingPairs(title, Process(title, ws, xs, threshold, sim).value.matches);
         && (forall i :: 0 <= i < |ps| ==> ps[i].similarityScore >= threshold)
         && (forall i, j :: 0 <= i < j < |ps| ==> ps[i].metadata.wordIndex < ps[j].metadata.wordIndex)
         && (forall i, j :: 0 <= i < j < |ps| ==> ps[i].metadata.xmlId != ps[j].metadata.xmlId)
  {
    var ws := Segmented(Paragraphs(wordText), limit, Patterns);
    var xs := XmlQuestions(doc, serialize);
    ProcessSucceeds(title, ws, xs, threshold, sim);
    ExtractedIndexed(wordText, limit);
    ExtractedIdsDistinct(doc, serialize);
    PairsOfSurvey(title, ws, xs, threshold, sim);
  }
}
