/**
 * `QuestionMatcher.find_best_match` and `match_questions`: the greedy
 * pairing of Word questions with XML questions. Each Word question, in
 * document order, takes the best-scoring XML question still unclaimed,
 * provided the score reaches the threshold; the claimed XML question
 * leaves the pool with `list.remove`.
 *
 * The similarity is a parameter: `Normalize.Similarity` is the one the
 * pipeline uses, and nothing here depends on how it is computed.
 */
module QuestionMatcher {
  import opened Text
  import opened Lists
  import opened WordExtractor
  import opened XmlExtractor

  /** `calculate_similarity` applied to two question texts. */
  type Scorer = (string, string) -> real

  /** `similarity_threshold`'s default. */
  const DefaultThreshold: real := 0.8

  /** Where the scan of `find_best_match` stands: the position of `best_match` (none yet) and `best_score`. */
  datatype Best = Best(index: Option<nat>, score: real)

  /**
   * The loop of `find_best_match` over `pool`: starting from no match
   * and score 0.0, a candidate replaces the best only when it scores
   * strictly higher.
   */
  function BestOf(text: string, pool: seq<XmlQuestion>, sim: Scorer): (b: Best)
    ensures b.score >= 0.0
    ensures forall k :: 0 <= k < |pool| ==> sim(text, pool[k].text) <= b.score
    ensures b.index == None ==> b.score == 0.0
    ensures b.index != None ==>
      && b.index.value < |pool|
      && b.score == sim(text, pool[b.index.value].text)
      && b.score > 0.0
      && forall k :: 0 <= k < b.index.value ==> sim(text, pool[k].text) < b.score
    decreases |pool|
  {
    if pool == [] then Best(None, 0.0)
    else
      var b := BestOf(text, pool[..|pool| - 1], sim);
      var s := sim(text, pool[|pool| - 1].text);
      if s > b.score then Best(Some(|pool| - 1), s) else b
  }

  /** The question at an optional position: `best_match` as a value. */
  function Pick(pool: seq<XmlQuestion>, index: Option<nat>): Option<XmlQuestion> {
    match index
    case None => None
    case Some(i) => if i < |pool| then Some(pool[i]) else None
  }

  /** The pair `find_best_match` returns: `best_match`, which is `None` when nothing scored above 0, and `best_score`. */
  datatype Candidate = Candidate(xml: Option<XmlQuestion>, score: real)

  /** `find_best_match`: the best candidate when its score reaches the threshold, otherwise nothing. */
  method FindBestMatch(word: WordQuestion, pool: seq<XmlQuestion>, threshold: real, sim: Scorer)
    returns (result: Option<Candidate>)
    ensures var b := BestOf(word.text, pool, sim);
      result == if b.score >= threshold then Some(Candidate(Pick(pool, b.index), b.score)) else None
  {
    var bestMatch: Option<XmlQuestion> := None;
    var bestScore: real := 0.0;
    ghost var bestIndex: Option<nat> := None;
    var i := 0;
    while i < |pool|
      invariant 0 <= i <= |pool|
      invariant Best(bestIndex, bestScore) == BestOf(word.text, pool[..i], sim)
      invariant bestMatch == Pick(pool, bestIndex)
    {
      assert pool[..i + 1][..i] == pool[..i];
      var score := sim(word.text, pool[i].text);
      if score > bestScore {
        bestScore := score;
        bestMatch := Some(pool[i]);
        bestIndex := Some(i);
      }
      i := i + 1;
    }
    assert pool[..i] == pool;
    if bestScore >= threshold {
      result := Some(Candidate(bestMatch, bestScore));
    } else {
      result := None;
    }
  }

  /** The error `list.remove` raises when the value is not in the list. */
  const RemoveError: string := "ValueError: list.remove(x): x not in list"

  /** `unmatched_xml.remove(xml_q)`, where `xml_q` may be `None`. */
  function Remove(pool: seq<XmlQuestion>, xml: Option<XmlQuestion>): Option<seq<XmlQuestion>> {
    match xml
    case None => None
    case Some(x) => RemoveFirst(pool, x)
  }

  datatype Match = Match(word: WordQuestion, xml: XmlQuestion, score: real)

  /** The dictionary `match_questions` returns. */
  datatype Matching = Matching(matches: seq<Match>, unmatchedWord: seq<WordQuestion>, unmatchedXml: seq<XmlQuestion>)

  /**
   * One iteration of `match_questions` for `word`: a best score at or
   * above the threshold claims its question, except that when no
   * question scored above 0 (so the threshold is at most 0) the removal
   * of `None` raises; a lower score leaves `word` unmatched.
   */
  function Step(m: Matching, word: WordQuestion, threshold: real, sim: Scorer): Result<Matching> {
    var b := BestOf(word.text, m.unmatchedXml, sim);
    if b.score >= threshold then
      match b.index
      case None => Failure(RemoveError)
      case Some(i) =>
        Success(Matching(m.matches + [Match(word, m.unmatchedXml[i], b.score)],
                         m.unmatchedWord, RemoveAt(m.unmatchedXml, i)))
    else
      Success(Matching(m.matches, m.unmatchedWord + [word], m.unmatchedXml))
  }

  /** `match_questions` after the Word questions `words`, the first failure ending it. */
  function Assign(words: seq<WordQuestion>, xmls: seq<XmlQuestion>, threshold: real, sim: Scorer): Result<Matching>
    decreases |words|
  {
    if words == [] then Success(Matching([], [], xmls))
    else
      match Assign(words[..|words| - 1], xmls, threshold, sim)
      case Failure(e) => Failure(e)
      case Success(m) => Step(m, words[|words| - 1], threshold, sim)
  }

  /** A claimed question is the first of its value in the pool, so `list.remove` takes out exactly that position. */
  lemma RemoveBest(text: string, pool: seq<XmlQuestion>, sim: Scorer)
    requires BestOf(text, pool, sim).index != None
    ensures var i := BestOf(text, pool, sim).index.value;
      Remove(pool, Pick(pool, Some(i))) == Some(RemoveAt(pool, i))
  {
    var i := BestOf(text, pool, sim).index.value;
    forall k | 0 <= k < i ensures pool[k] != pool[i] {
      assert sim(text, pool[k].text) < sim(text, pool[i].text);
    }
    RemoveFirstAt(pool, i);
  }

  /** Once a Word question raises, so does the whole call. */
  lemma {:induction false} FailureSticks(words: seq<WordQuestion>, k: nat, xmls: seq<XmlQuestion>, threshold: real, sim: Scorer)
    requires k <= |words| && Assign(words[..k], xmls, threshold, sim).Failure?
    ensures Assign(words, xmls, threshold, sim) == Assign(words[..k], xmls, threshold, sim)
    decreases |words| - k
  {
    if k < |words| {
      assert words[..k + 1][..k] == words[..k];
      FailureSticks(words, k + 1, xmls, threshold, sim);
    } else {
      assert words[..k] == words;
    }
  }

  /** `match_questions`. */
  method MatchQuestions(words: seq<WordQuestion>, xmls: seq<XmlQuestion>, threshold: real, sim: Scorer)
    returns (r: Result<Matching>)
    ensures r == Assign(words, xmls, threshold, sim)
  {
    var matches: seq<Match> := [];
    var unmatchedWord: seq<WordQuestion> := [];
    var unmatchedXml := xmls;
    var i := 0;
    while i < |words|
      invariant 0 <= i <= |words|
      invariant Assign(words[..i], xmls, threshold, sim) == Success(Matching(matches, unmatchedWord, unmatchedXml))
    {
      assert words[..i + 1][..i] == words[..i];
      var word := words[i];
      var result := FindBestMatch(word, unmatchedXml, threshold, sim);
      if result.Some? {
        var c := result.value;
        var removed := Remove(unmatchedXml, c.xml);
        if removed.None? {
          r := Failure(RemoveError);
          FailureSticks(words, i + 1, xmls, threshold, sim);
          return;
        }
        RemoveBest(word.text, unmatchedXml, sim);
        matches := matches + [Match(word, c.xml.value, c.score)];
        unmatchedXml := removed.value;
      } else {
        unmatchedWord := unmatchedWord + [word];
      }
      i := i + 1;
    }
    assert words[..i] == words;
    r := Success(Matching(matches, unmatchedWord, unmatchedXml));
  }

  /** The Word questions that were matched, in order. */
  function Words(ms: seq<Match>): (ws: seq<WordQuestion>)
    ensures |ws| == |ms|
  {
    seq(|ms|, i requires 0 <= i < |ms| => ms[i].word)
  }

  /** The XML questions that were claimed, in order. */
  function Xmls(ms: seq<Match>): (xs: seq<XmlQuestion>)
    ensures |xs| == |ms|
  {
    seq(|ms|, i requires 0 <= i < |ms| => ms[i].xml)
  }

  lemma WordsAppend(ms: seq<Match>, m: Match)
    ensures Words(ms + [m]) == Words(ms) + [m.word]
  {
    assert forall i :: 0 <= i < |ms| ==> Words(ms + [m])[i] == Words(ms)[i];
  }

  lemma XmlsAppend(ms: seq<Match>, m: Match)
    ensures Xmls(ms + [m]) == Xmls(ms) + [m.xml]
  {
    assert forall i :: 0 <= i < |ms| ==> Xmls(ms + [m])[i] == Xmls(ms)[i];
  }

  /** Unfolds `Assign` by one Word question. */
  lemma AssignStep(words: seq<WordQuestion>, xmls: seq<XmlQuestion>, threshold: real, sim: Scorer)
    requires words != []
    requires Assign(words, xmls, threshold, sim).Success?
    ensures Assign(words[..|words| - 1], xmls, threshold, sim).Success?
    ensures Step(Assign(words[..|words| - 1], xmls, threshold, sim).value, words[|words| - 1], threshold, sim)
         == Assign(words, xmls, threshold, sim)
  {
  }

  /** One step puts its Word question in exactly one of the two lists. */
  lemma StepCounted(p: Matching, w: WordQuestion, threshold: real, sim: Scorer)
    requires Step(p, w, threshold, sim).Success?
    ensures var m := Step(p, w, threshold, sim).value;
      multiset(Words(m.matches)) + multiset(m.unmatchedWord)
        == multiset(Words(p.matches)) + multiset(p.unmatchedWord) + multiset{w}
  {
    var m := Step(p, w, threshold, sim).value;
    if m.matches != p.matches {
      WordsAppend(p.matches, m.matches[|m.matches| - 1]);
    }
  }

  /** Every Word question ends up exactly once, either matched or unmatched. */
  lemma {:induction false} WordsCounted(words: seq<WordQuestion>, xmls: seq<XmlQuestion>, threshold: real, sim: Scorer)
    requires Assign(words, xmls, threshold, sim).Success?
    ensures var m := Assign(words, xmls, threshold, sim).value;
      multiset(Words(m.matches)) + multiset(m.unmatchedWord) == multiset(words)
    decreases |words|
  {
    if words != [] {
      var front := words[..|words| - 1];
      var w := words[|words| - 1];
      AssignStep(words, xmls, threshold, sim);
      WordsCounted(front, xmls, threshold, sim);
      StepCounted(Assign(front, xmls, threshold, sim).value, w, threshold, sim);
      FrontLast(words);
    }
  }

  /** Matched plus unmatched Word questions are all of them, and matched plus unclaimed XML questions are all of those. */
  lemma {:induction false} Sizes(words: seq<WordQuestion>, xmls: seq<XmlQuestion>, threshold: real, sim: Scorer)
    requires Assign(words, xmls, threshold, sim).Success?
    ensures var m := Assign(words, xmls, threshold, sim).value;
      && |m.matches| + |m.unmatchedWord| == |words|
      && |m.matches| + |m.unmatchedXml| == |xmls|
    decreases |words|
  {
    if words != [] {
      AssignStep(words, xmls, threshold, sim);
      Sizes(words[..|words| - 1], xmls, threshold, sim);
    }
  }

  /** The matched Word questions keep document order. */
  lemma {:induction false} MatchedInOrder(words: seq<WordQuestion>, xmls: seq<XmlQuestion>, threshold: real, sim: Scorer)
    requires Assign(words, xmls, threshold, sim).Success?
    ensures Subseq(Words(Assign(words, xmls, threshold, sim).value.matches), words)
    decreases |words|
  {
    if words == [] {
      SubseqRefl(words);
    } else {
      var front := words[..|words| - 1];
      var w := words[|words| - 1];
      AssignStep(words, xmls, threshold, sim);
      MatchedInOrder(front, xmls, threshold, sim);
      var p := Assign(front, xmls, threshold, sim).value;
      var m := Assign(words, xmls, threshold, sim).value;
      FrontLast(words);
      if m.matches == p.matches {
        SubseqExtend(Words(p.matches), front, w);
      } else {
        WordsAppend(p.matches, m.matches[|m.matches| - 1]);
        SubseqAppend(Words(p.matches), front, w);
      }
    }
  }

  /** The unmatched Word questions keep document order. */
  lemma {:induction false} UnmatchedInOrder(words: seq<WordQuestion>, xmls: seq<XmlQuestion>, threshold: real, sim: Scorer)
    requires Assign(words, xmls, threshold, sim).Success?
    ensures Subseq(Assign(words, xmls, threshold, sim).value.unmatchedWord, words)
    decreases |words|
  {
    if words == [] {
      SubseqRefl(words);
    } else {
      var front := words[..|words| - 1];
      var w := words[|words| - 1];
      AssignStep(words, xmls, threshold, sim);
      UnmatchedInOrder(front, xmls, threshold, sim);
      var p := Assign(front, xmls, threshold, sim).value;
      var m := Assign(words, xmls, threshold, sim).value;
      FrontLast(words);
      if m.unmatchedWord == p.unmatchedWord {
        SubseqExtend(p.unmatchedWord, front, w);
      } else {
        SubseqAppend(p.unmatchedWord, front, w);
      }
    }
  }

  /**
   * The XML pool only loses the questions that were claimed: claimed and
   * unclaimed together are the input, and the unclaimed keep their order.
   */
  lemma {:induction false} XmlsPartitioned(words: seq<WordQuestion>, xmls: seq<XmlQuestion>, threshold: real, sim: Scorer)
    requires Assign(words, xmls, threshold, sim).Success?
    ensures var m := Assign(words, xmls, threshold, sim).value;
      && multiset(Xmls(m.matches)) + multiset(m.unmatchedXml) == multiset(xmls)
      && Subseq(m.unmatchedXml, xmls)
    decreases |words|
  {
    if words == [] {
      SubseqRefl(xmls);
    } else {
      var front := words[..|words| - 1];
      var w := words[|words| - 1];
      AssignStep(words, xmls, threshold, sim);
      XmlsPartitioned(front, xmls, threshold, sim);
      var p := Assign(front, xmls, threshold, sim).value;
      var m := Assign(words, xmls, threshold, sim).value;
      if m.matches != p.matches {
        var b := BestOf(w.text, p.unmatchedXml, sim);
        var i := b.index.value;
        assert m.matches == p.matches + [Match(w, p.unmatchedXml[i], b.score)];
        assert m.unmatchedXml == RemoveAt(p.unmatchedXml, i);
        XmlsAppend(p.matches, m.matches[|m.matches| - 1]);
        RemoveAtMultiset(p.unmatchedXml, i);
        RemoveAtSubseq(p.unmatchedXml, i);
        SubseqTrans(m.unmatchedXml, p.unmatchedXml, xmls);
      }
    }
  }

  /** An XML question without duplicates in the input is claimed at most once. */
  lemma ClaimedOnce(words: seq<WordQuestion>, xmls: seq<XmlQuestion>, threshold: real, sim: Scorer)
    requires Distinct(xmls)
    requires Assign(words, xmls, threshold, sim).Success?
    ensures var m := Assign(words, xmls, threshold, sim).value;
      Distinct(Xmls(m.matches) + m.unmatchedXml)
  {
    var m := Assign(words, xmls, threshold, sim).value;
    XmlsPartitioned(words, xmls, threshold, sim);
    DistinctSub(Xmls(m.matches) + m.unmatchedXml, xmls);
  }

  /** A pool question that survives a step was in the pool before it. */
  lemma StepKeepsPool(m: Matching, word: WordQuestion, threshold: real, sim: Scorer, x: XmlQuestion)
    requires Step(m, word, threshold, sim).Success?
    requires x in Step(m, word, threshold, sim).value.unmatchedXml
    ensures x in m.unmatchedXml
  {
    var b := BestOf(word.text, m.unmatchedXml, sim);
    if b.score >= threshold {
      RemoveAtMultiset(m.unmatchedXml, b.index.value);
      assert x in multiset(RemoveAt(m.unmatchedXml, b.index.value));
    }
  }

  /**
   * Every match scores at or above the threshold and above 0, and its
   * score is the similarity of its two texts.
   */
  lemma {:induction false} MatchScores(words: seq<WordQuestion>, xmls: seq<XmlQuestion>, threshold: real, sim: Scorer)
    requires Assign(words, xmls, threshold, sim).Success?
    ensures var ms := Assign(words, xmls, threshold, sim).value.matches;
      forall j :: 0 <= j < |ms| ==>
        && ms[j].score >= threshold
        && ms[j].score > 0.0
        && ms[j].score == sim(ms[j].word.text, ms[j].xml.text)
    decreases |words|
  {
    if words != [] {
      AssignStep(words, xmls, threshold, sim);
      MatchScores(words[..|words| - 1], xmls, threshold, sim);
    }
  }

  /**
   * The choice is greedy: no question left in the pool at the end would
   * have scored higher with a matched Word question than the question it
   * got.
   */
  lemma {:induction false} MatchesAreBest(words: seq<WordQuestion>, xmls: seq<XmlQuestion>, threshold: real, sim: Scorer)
    requires Assign(words, xmls, threshold, sim).Success?
    ensures var m := Assign(words, xmls, threshold, sim).value;
      forall j, x :: 0 <= j < |m.matches| && x in m.unmatchedXml ==> sim(m.matches[j].word.text, x.text) <= m.matches[j].score
    decreases |words|
  {
    if words != [] {
      var front := words[..|words| - 1];
      var w := words[|words| - 1];
      AssignStep(words, xmls, threshold, sim);
      MatchesAreBest(front, xmls, threshold, sim);
      var p := Assign(front, xmls, threshold, sim).value;
      var m := Assign(words, xmls, threshold, sim).value;
      forall j, x | 0 <= j < |m.matches| && x in m.unmatchedXml
        ensures sim(m.matches[j].word.text, x.text) <= m.matches[j].score
      {
        StepKeepsPool(p, w, threshold, sim, x);
        if j == |p.matches| {
          var k :| 0 <= k < |p.unmatchedXml| && p.unmatchedXml[k] == x;
        } else {
          assert m.matches[j] == p.matches[j];
        }
      }
    }
  }

  /** A Word question left unmatched scores below the threshold with every question left in the pool. */
  lemma {:induction false} UnmatchedAreBelow(words: seq<WordQuestion>, xmls: seq<XmlQuestion>, threshold: real, sim: Scorer)
    requires Assign(words, xmls, threshold, sim).Success?
    ensures var m := Assign(words, xmls, threshold, sim).value;
      forall j, x :: 0 <= j < |m.unmatchedWord| && x in m.unmatchedXml ==> sim(m.unmatchedWord[j].text, x.text) < threshold
    decreases |words|
  {
    if words != [] {
      var front := words[..|words| - 1];
      var w := words[|words| - 1];
      AssignStep(words, xmls, threshold, sim);
      UnmatchedAreBelow(front, xmls, threshold, sim);
      var p := Assign(front, xmls, threshold, sim).value;
      var m := Assign(words, xmls, threshold, sim).value;
      forall j, x | 0 <= j < |m.unmatchedWord| && x in m.unmatchedXml
        ensures sim(m.unmatchedWord[j].text, x.text) < threshold
      {
        StepKeepsPool(p, w, threshold, sim, x);
        if j == |p.unmatchedWord| {
          var k :| 0 <= k < |p.unmatchedXml| && p.unmatchedXml[k] == x;
        } else {
          assert m.unmatchedWord[j] == p.unmatchedWord[j];
        }
      }
    }
  }

  /** With a positive threshold `match_questions` never raises. */
  lemma {:induction false} PositiveThresholdSucceeds(words: seq<WordQuestion>, xmls: seq<XmlQuestion>, threshold: real, sim: Scorer)
    requires threshold > 0.0
    ensures Assign(words, xmls, threshold, sim).Success?
    decreases |words|
  {
    if words != [] {
      PositiveThresholdSucceeds(words[..|words| - 1], xmls, threshold, sim);
    }
  }

  /** With a threshold of at most 0 every Word question is matched, so more Word than XML questions makes the removal of `None` raise. */
  lemma {:induction false} NonPositiveThresholdMatchesAll(words: seq<WordQuestion>, xmls: seq<XmlQuestion>, threshold: real, sim: Scorer)
    requires threshold <= 0.0
    requires Assign(words, xmls, threshold, sim).Success?
    ensures Assign(words, xmls, threshold, sim).value.unmatchedWord == []
    decreases |words|
  {
    if words != [] {
      AssignStep(words, xmls, threshold, sim);
      NonPositiveThresholdMatchesAll(words[..|words| - 1], xmls, threshold, sim);
    }
  }

  /**
   * With a threshold of at most 0, `match_questions` can only succeed
   * when there are no more Word questions than XML questions: otherwise
   * the pool runs dry and the removal of `None` raises.
   */
  lemma PoolLargeEnough(words: seq<WordQuestion>, xmls: seq<XmlQuestion>, threshold: real, sim: Scorer)
    requires threshold <= 0.0
    requires Assign(words, xmls, threshold, sim).Success?
    ensures |words| <= |xmls|
  {
    NonPositiveThresholdMatchesAll(words, xmls, threshold, sim);
    Sizes(words, xmls, threshold, sim);
  }
}
