/**
 * The counting and grouping behind the training-data report: question
 * numbering patterns, per-survey matching performance and its totals,
 * question types, the survey breakdown, the display names of the report's
 * tables and its recommendations.
 */
module TrainingAnalysis {
  import opened Text
  import opened Lists
  import opened Dicts
  import QuestionSplitter

  type TrainingPair = QuestionSplitter.TrainingPair
  type SurveyResult = QuestionSplitter.SurveyResult

  // ---------------------------------------------------------------------
  // Question numbering patterns

  /** Which of the three exclusive `startswith` tests a question number passes. */
  datatype Lead = LeadQ | LeadS | LeadNumber | LeadOther

  /** `qnum.lower().strip()`. */
  function Folded(qnum: string): string {
    Strip(Lower(qnum))
  }

  function LeadOf(qnum: string): Lead {
    var t := Folded(qnum);
    if t != [] && t[0] == 'q' then LeadQ
    else if t != [] && t[0] == 's' then LeadS
    else if t != [] && IsDigit(t[0]) then LeadNumber
    else LeadOther
  }

  predicate HasBrackets(qnum: string) { '[' in qnum || ']' in qnum }

  predicate HasParentheses(qnum: string) { '(' in qnum || ')' in qnum }

  predicate HasPeriod(qnum: string) { '.' in qnum }

  /** Blank, a lone dash, or ending in a dash once stripped. */
  predicate EmptyOrDash(qnum: string) {
    var t := Strip(qnum);
    t == "" || t == "-" || (t != [] && t[|t| - 1] == '-')
  }

  datatype Patterns = Patterns(
    startsWithQ: nat,
    startsWithS: nat,
    startsWithNumber: nat,
    hasBrackets: nat,
    hasParentheses: nat,
    hasPeriod: nat,
    emptyOrDash: nat)

  function Leads(l: Lead): string -> bool {
    qnum => LeadOf(qnum) == l
  }

  /** Each counter is the number of question numbers with its property. */
  function PatternsOf(qs: seq<string>): Patterns {
    Patterns(
      |Filter(qs, Leads(LeadQ))|, |Filter(qs, Leads(LeadS))|, |Filter(qs, Leads(LeadNumber))|,
      |Filter(qs, HasBrackets)|, |Filter(qs, HasParentheses)|, |Filter(qs, HasPeriod)|,
      |Filter(qs, EmptyOrDash)|)
  }

  /** What one more question number adds to the counters. */
  lemma PatternsStep(qs: seq<string>, i: nat)
    requires i < |qs|
    ensures var p := PatternsOf(qs[..i]); var q := qs[i];
      PatternsOf(qs[..i + 1]) == Patterns(
        p.startsWithQ + (if LeadOf(q) == LeadQ then 1 else 0),
        p.startsWithS + (if LeadOf(q) == LeadS then 1 else 0),
        p.startsWithNumber + (if LeadOf(q) == LeadNumber then 1 else 0),
        p.hasBrackets + (if HasBrackets(q) then 1 else 0),
        p.hasParentheses + (if HasParentheses(q) then 1 else 0),
        p.hasPeriod + (if HasPeriod(q) then 1 else 0),
        p.emptyOrDash + (if EmptyOrDash(q) then 1 else 0))
  {
    CountStep(qs, i, Leads(LeadQ));
    CountStep(qs, i, Leads(LeadS));
    CountStep(qs, i, Leads(LeadNumber));
    CountStep(qs, i, HasBrackets);
    CountStep(qs, i, HasParentheses);
    CountStep(qs, i, HasPeriod);
    CountStep(qs, i, EmptyOrDash);
  }

  /** `analyze_question_patterns`: one counter per key of the source's dictionary. */
  method AnalyzeQuestionPatterns(questionNumbers: seq<string>) returns (patterns: Patterns)
    ensures patterns == PatternsOf(questionNumbers)
  {
    var qs := questionNumbers;
    var startsWithQ, startsWithS, startsWithNumber := 0, 0, 0;
    var hasBrackets, hasParentheses, hasPeriod, emptyOrDash := 0, 0, 0, 0;
    for i := 0 to |qs|
      invariant Patterns(startsWithQ, startsWithS, startsWithNumber, hasBrackets, hasParentheses, hasPeriod, emptyOrDash)
        == PatternsOf(qs[..i])
    {
      PatternsStep(qs, i);
      var qnum := qs[i];
      var qnumLower := Folded(qnum);
      if qnumLower != [] && qnumLower[0] == 'q' {
        assert LeadOf(qnum) == LeadQ;
        startsWithQ := startsWithQ + 1;
      } else if qnumLower != [] && qnumLower[0] == 's' {
        assert LeadOf(qnum) == LeadS;
        startsWithS := startsWithS + 1;
      } else if qnumLower != [] && IsDigit(qnumLower[0]) {
        assert LeadOf(qnum) == LeadNumber;
        startsWithNumber := startsWithNumber + 1;
      } else {
        assert LeadOf(qnum) == LeadOther;
      }
      if HasBrackets(qnum) {
        hasBrackets := hasBrackets + 1;
      }
      if HasParentheses(qnum) {
        hasParentheses := hasParentheses + 1;
      }
      if HasPeriod(qnum) {
        hasPeriod := hasPeriod + 1;
      }
      if EmptyOrDash(qnum) {
        emptyOrDash := emptyOrDash + 1;
      }
    }
    assert qs[..|qs|] == qs;
    patterns := Patterns(startsWithQ, startsWithS, startsWithNumber, hasBrackets, hasParentheses, hasPeriod, emptyOrDash);
  }

  /**
   * The three `startswith` counters count disjoint sets of question
   * numbers, so together they are at most the number of question numbers;
   * every counter is at most that number.
   */
  lemma {:induction false} PatternsBounded(qs: seq<string>)
    ensures var p := PatternsOf(qs);
      && p.startsWithQ + p.startsWithS + p.startsWithNumber <= |qs|
      && p.hasBrackets <= |qs| && p.hasParentheses <= |qs| && p.hasPeriod <= |qs| && p.emptyOrDash <= |qs|
    decreases |qs|
  {
    if qs != [] {
      var n := |qs| - 1;
      PatternsBounded(qs[..n]);
      PatternsStep(qs, n);
      assert qs[..n + 1] == qs;
    }
  }

  // ---------------------------------------------------------------------
  // Matching performance

  /** `matches / found * 100`, or 0 when nothing was found; `round(_, 1)` is not modelled. */
  function MatchRate(matches: nat, found: nat): real {
    if found > 0 then matches as real / found as real * 100.0 else 0.0
  }

  /** A rate of matches among what was found lies between 0 and 100, and is 0 exactly when nothing matched or nothing was found. */
  lemma MatchRateBounds(matches: nat, found: nat)
    requires matches <= found
    ensures 0.0 <= MatchRate(matches, found) <= 100.0
    ensures MatchRate(matches, found) == 0.0 <==> matches == 0 || found == 0
    ensures found > 0 ==> (MatchRate(matches, found) == 100.0 <==> matches == found)
  {
    if found > 0 {
      var r := matches as real / found as real;
      assert r * found as real == matches as real;
      assert r <= 1.0 by {
        if r > 1.0 {
          assert r * found as real > found as real;
        }
      }
    }
  }

  /** One row of the per-survey table. */
  datatype SurveyPerformance = SurveyPerformance(
    wordQuestionsFound: nat,
    xmlQuestionsFound: nat,
    matches: nat,
    unmatchedWord: nat,
    unmatchedXml: nat,
    matchRatePercent: real)

  datatype Totals = Totals(
    wordQuestionsFound: nat,
    xmlQuestionsFound: nat,
    matches: nat,
    unmatchedWord: nat,
    unmatchedXml: nat,
    overallMatchRatePercent: real)

  datatype Performance = Performance(
    totalSurveysProcessed: nat,
    surveys: seq<Entry<SurveyPerformance>>,
    totals: Totals)

  function MatchesOf(r: SurveyResult): nat { |r.matches| }

  function UnmatchedWordOf(r: SurveyResult): nat { |r.unmatchedWord| }

  function UnmatchedXmlOf(r: SurveyResult): nat { |r.unmatchedXml| }

  /** Word questions found: matched or left over. */
  function WordFoundOf(r: SurveyResult): nat { |r.matches| + |r.unmatchedWord| }

  function XmlFoundOf(r: SurveyResult): nat { |r.matches| + |r.unmatchedXml| }

  function RowOf(r: SurveyResult): SurveyPerformance {
    SurveyPerformance(WordFoundOf(r), XmlFoundOf(r), MatchesOf(r), UnmatchedWordOf(r), UnmatchedXmlOf(r),
      MatchRate(MatchesOf(r), WordFoundOf(r)))
  }

  /** `performance['surveys']`: a later survey with the same title overwrites the earlier row in place. */
  function TitleOf(r: SurveyResult): string {
    r.surveyTitle
  }

  function Rows(debug: seq<SurveyResult>): seq<Entry<SurveyPerformance>> {
    PutEach(debug, TitleOf, RowOf)
  }

  /** Each total is the sum of its column. */
  function TotalsOf(debug: seq<SurveyResult>): Totals {
    var word := Sum(Map(debug, WordFoundOf));
    var matches := Sum(Map(debug, MatchesOf));
    Totals(word, Sum(Map(debug, XmlFoundOf)), matches, Sum(Map(debug, UnmatchedWordOf)), Sum(Map(debug, UnmatchedXmlOf)),
      MatchRate(matches, word))
  }

  /** No debug data gives `{}`. */
  function PerformanceOf(debug: seq<SurveyResult>): Option<Performance> {
    if debug == [] then None else Some(Performance(|debug|, Rows(debug), TotalsOf(debug)))
  }

  lemma ColumnStep(debug: seq<SurveyResult>, i: nat, f: SurveyResult -> nat)
    requires i < |debug|
    ensures Sum(Map(debug[..i + 1], f)) == Sum(Map(debug[..i], f)) + f(debug[i])
  {
    assert debug[..i + 1] == debug[..i] + [debug[i]];
    MapSnoc(debug[..i], debug[i], f);
    SumSnoc(Map(debug[..i], f), f(debug[i]));
  }

  /** The five running totals of the loop. */
  datatype Running = Running(word: nat, xml: nat, matches: nat, unmatchedWord: nat, unmatchedXml: nat)

  /** The running totals after one more survey. */
  function AddRow(c: Running, r: SurveyResult): Running {
    Running(c.word + WordFoundOf(r), c.xml + XmlFoundOf(r), c.matches + MatchesOf(r),
      c.unmatchedWord + UnmatchedWordOf(r), c.unmatchedXml + UnmatchedXmlOf(r))
  }

  /** The running totals, survey by survey. */
  function Columns(debug: seq<SurveyResult>): Running
    decreases |debug|
  {
    if debug == [] then Running(0, 0, 0, 0, 0) else AddRow(Columns(debug[..|debug| - 1]), debug[|debug| - 1])
  }

  lemma ColumnsStep(debug: seq<SurveyResult>, i: nat)
    requires i < |debug|
    ensures Columns(debug[..i + 1]) == AddRow(Columns(debug[..i]), debug[i])
  {
    assert debug[..i + 1][..i] == debug[..i];
  }

  /** The running totals are the column sums. */
  lemma {:induction false} ColumnsAreSums(debug: seq<SurveyResult>)
    ensures Columns(debug) == Running(Sum(Map(debug, WordFoundOf)), Sum(Map(debug, XmlFoundOf)), Sum(Map(debug, MatchesOf)),
      Sum(Map(debug, UnmatchedWordOf)), Sum(Map(debug, UnmatchedXmlOf)))
    decreases |debug|
  {
    if debug != [] {
      var n := |debug| - 1;
      ColumnsAreSums(debug[..n]);
      assert debug[..n + 1] == debug;
      ColumnStep(debug, n, WordFoundOf);
      ColumnStep(debug, n, XmlFoundOf);
      ColumnStep(debug, n, MatchesOf);
      ColumnStep(debug, n, UnmatchedWordOf);
      ColumnStep(debug, n, UnmatchedXmlOf);
    }
  }

  lemma RowsStep(debug: seq<SurveyResult>, i: nat)
    requires i < |debug|
    ensures Rows(debug[..i + 1]) == Put(Rows(debug[..i]), debug[i].surveyTitle, RowOf(debug[i]))
  {
    assert debug[..i + 1][..i] == debug[..i];
  }

  /** `analyze_matching_performance`. */
  method AnalyzeMatchingPerformance(debugData: seq<SurveyResult>) returns (performance: Option<Performance>)
    ensures performance == PerformanceOf(debugData)
  {
    if debugData == [] {
      return None;
    }
    var surveys: seq<Entry<SurveyPerformance>> := [];
    var totalWordQuestions: nat, totalXmlQuestions: nat, totalMatches: nat, totalUnmatchedWord: nat, totalUnmatchedXml: nat := 0, 0, 0, 0, 0;
    for i := 0 to |debugData|
      invariant surveys == Rows(debugData[..i])
      invariant Running(totalWordQuestions, totalXmlQuestions, totalMatches, totalUnmatchedWord, totalUnmatchedXml) == Columns(debugData[..i])
    {
      ColumnsStep(debugData, i);
      RowsStep(debugData, i);
      var survey := debugData[i];
      var matches := |survey.matches|;
      var unmatchedWord := |survey.unmatchedWord|;
      var unmatchedXml := |survey.unmatchedXml|;
      var wordQuestions := matches + unmatchedWord;
      var xmlQuestions := matches + unmatchedXml;
      var matchRate := MatchRate(matches, wordQuestions);
      assert SurveyPerformance(wordQuestions, xmlQuestions, matches, unmatchedWord, unmatchedXml, matchRate) == RowOf(survey);
      surveys := Put(surveys, survey.surveyTitle,
        SurveyPerformance(wordQuestions, xmlQuestions, matches, unmatchedWord, unmatchedXml, matchRate));
      totalWordQuestions := totalWordQuestions + wordQuestions;
      totalXmlQuestions := totalXmlQuestions + xmlQuestions;
      totalMatches := totalMatches + matches;
      totalUnmatchedWord := totalUnmatchedWord + unmatchedWord;
      totalUnmatchedXml := totalUnmatchedXml + unmatchedXml;
    }
    assert debugData[..|debugData|] == debugData;
    ColumnsAreSums(debugData);
    var overall := MatchRate(totalMatches, totalWordQuestions);
    performance := Some(Performance(|debugData|, surveys,
      Totals(totalWordQuestions, totalXmlQuestions, totalMatches, totalUnmatchedWord, totalUnmatchedXml, overall)));
  }

  /** The totals add up the way each row does, and the overall rate is a percentage that is 0 when no Word question was found. */
  lemma TotalsConsistent(debug: seq<SurveyResult>)
    ensures var t := TotalsOf(debug);
      && t.wordQuestionsFound == t.matches + t.unmatchedWord
      && t.xmlQuestionsFound == t.matches + t.unmatchedXml
      && 0.0 <= t.overallMatchRatePercent <= 100.0
      && (t.wordQuestionsFound == 0 ==> t.overallMatchRatePercent == 0.0)
  {
    SumMapAdd(debug, MatchesOf, UnmatchedWordOf, WordFoundOf);
    SumMapAdd(debug, MatchesOf, UnmatchedXmlOf, XmlFoundOf);
    var t := TotalsOf(debug);
    MatchRateBounds(t.matches, t.wordQuestionsFound);
  }

  /** Each row adds up, and its rate is a percentage that is 0 when the survey had no Word question. */
  lemma RowConsistent(r: SurveyResult)
    ensures var row := RowOf(r);
      && row.wordQuestionsFound == row.matches + row.unmatchedWord
      && row.xmlQuestionsFound == row.matches + row.unmatchedXml
      && 0.0 <= row.matchRatePercent <= 100.0
      && (row.wordQuestionsFound == 0 ==> row.matchRatePercent == 0.0)
  {
    MatchRateBounds(MatchesOf(r), WordFoundOf(r));
  }

  function Titles(debug: seq<SurveyResult>): seq<string> {
    Map(debug, TitleOf)
  }

  /** The table has one row per distinct survey title, each the row of the last survey with that title. */
  lemma RowsAreLastSurveys(debug: seq<SurveyResult>)
    ensures Valid(Rows(debug))
    ensures forall t :: t in Keys(Rows(debug)) <==> t in Titles(debug)
    ensures forall i :: 0 <= i < |debug| && (forall j :: i < j < |debug| ==> debug[j].surveyTitle != debug[i].surveyTitle) ==>
      Get(Rows(debug), debug[i].surveyTitle) == Some(RowOf(debug[i]))
  {
    PutEachKeys(debug, TitleOf, RowOf);
    forall i | 0 <= i < |debug| && (forall j :: i < j < |debug| ==> debug[j].surveyTitle != debug[i].surveyTitle)
      ensures Get(Rows(debug), debug[i].surveyTitle) == Some(RowOf(debug[i]))
    {
      PutEachLast(debug, TitleOf, RowOf, i);
    }
  }

  // ---------------------------------------------------------------------
  // Question types

  datatype QuestionType = MultipleChoice | RatingScale | OpenText | YesNo | Ranking

  /** `any(phrase in text for phrase in phrases)`. */
  predicate AnyOccurs(phrases: seq<string>, text: string) {
    exists i :: 0 <= i < |phrases| && Occurs(phrases[i], text)
  }

  /** The first category whose phrases occur in the lower-cased question text; open text otherwise. */
  function Classify(text: string): QuestionType {
    if AnyOccurs(["select all", "check all", "multiple", "following"], text) then MultipleChoice
    else if AnyOccurs(["rate", "scale", "1-10", "0-10", "satisfaction"], text) then RatingScale
    else if AnyOccurs(["yes", "no"], text) && Occurs("yes/no", text) then YesNo
    else if AnyOccurs(["rank", "order", "priority"], text) then Ranking
    else OpenText
  }

  function TypeOf(item: TrainingPair): QuestionType {
    Classify(Lower(item.naturalLanguage))
  }

  function OfType(k: QuestionType): TrainingPair -> bool {
    (item: TrainingPair) => TypeOf(item) == k
  }

  datatype TypeCounts = TypeCounts(multipleChoice: nat, ratingScale: nat, openText: nat, yesNo: nat, ranking: nat)

  /** Each count is the number of items of its type. */
  function TypeCountsOf(data: seq<TrainingPair>): TypeCounts {
    TypeCounts(|Filter(data, OfType(MultipleChoice))|, |Filter(data, OfType(RatingScale))|,
      |Filter(data, OfType(OpenText))|, |Filter(data, OfType(YesNo))|, |Filter(data, OfType(Ranking))|)
  }

  /** The `question_types` part of `analyze_content_patterns`; no training data gives `{}`. */
  function ContentOf(data: seq<TrainingPair>): Option<TypeCounts> {
    if data == [] then None else Some(TypeCountsOf(data))
  }

  /** One more item of type `k`. */
  function Bump(c: TypeCounts, k: QuestionType): TypeCounts {
    match k
    case MultipleChoice => c.(multipleChoice := c.multipleChoice + 1)
    case RatingScale => c.(ratingScale := c.ratingScale + 1)
    case OpenText => c.(openText := c.openText + 1)
    case YesNo => c.(yesNo := c.yesNo + 1)
    case Ranking => c.(ranking := c.ranking + 1)
  }

  lemma TypesStep(data: seq<TrainingPair>, i: nat)
    requires i < |data|
    ensures TypeCountsOf(data[..i + 1]) == Bump(TypeCountsOf(data[..i]), TypeOf(data[i]))
  {
    CountStep(data, i, OfType(MultipleChoice));
    CountStep(data, i, OfType(RatingScale));
    CountStep(data, i, OfType(OpenText));
    CountStep(data, i, OfType(YesNo));
    CountStep(data, i, OfType(Ranking));
  }

  /** `analyze_content_patterns`, question types only. */
  method AnalyzeContentPatterns(data: seq<TrainingPair>) returns (content: Option<TypeCounts>)
    ensures content == ContentOf(data)
  {
    if data == [] {
      return None;
    }
    var multipleChoice, ratingScale, openText, yesNo, ranking := 0, 0, 0, 0, 0;
    for i := 0 to |data|
      invariant TypeCounts(multipleChoice, ratingScale, openText, yesNo, ranking) == TypeCountsOf(data[..i])
    {
      TypesStep(data, i);
      var text := Lower(data[i].naturalLanguage);
      if AnyOccurs(["select all", "check all", "multiple", "following"], text) {
        assert TypeOf(data[i]) == MultipleChoice;
        multipleChoice := multipleChoice + 1;
      } else if AnyOccurs(["rate", "scale", "1-10", "0-10", "satisfaction"], text) {
        assert TypeOf(data[i]) == RatingScale;
        ratingScale := ratingScale + 1;
      } else if AnyOccurs(["yes", "no"], text) && Occurs("yes/no", text) {
        assert TypeOf(data[i]) == YesNo;
        yesNo := yesNo + 1;
      } else if AnyOccurs(["rank", "order", "priority"], text) {
        assert TypeOf(data[i]) == Ranking;
        ranking := ranking + 1;
      } else {
        assert TypeOf(data[i]) == OpenText;
        openText := openText + 1;
      }
    }
    assert data[..|data|] == data;
    content := Some(TypeCounts(multipleChoice, ratingScale, openText, yesNo, ranking));
  }

  /** Every item is counted under exactly one type. */
  lemma {:induction false} TypesPartition(data: seq<TrainingPair>)
    ensures var c := TypeCountsOf(data);
      c.multipleChoice + c.ratingScale + c.openText + c.yesNo + c.ranking == |data|
    decreases |data|
  {
    if data != [] {
      var n := |data| - 1;
      TypesPartition(data[..n]);
      CountStep(data, n, OfType(MultipleChoice));
      CountStep(data, n, OfType(RatingScale));
      CountStep(data, n, OfType(OpenText));
      CountStep(data, n, OfType(YesNo));
      CountStep(data, n, OfType(Ranking));
      assert data[..n + 1] == data;
    }
  }

  /** `'yes/no' in text` already puts `'yes'` in the text, so the `any` test beside it never decides anything. */
  lemma YesNoTest(text: string)
    ensures Classify(text) == YesNo <==>
      !AnyOccurs(["select all", "check all", "multiple", "following"], text)
      && !AnyOccurs(["rate", "scale", "1-10", "0-10", "satisfaction"], text)
      && Occurs("yes/no", text)
  {
    if Occurs("yes/no", text) {
      var k :| 0 <= k <= |text| && IsPrefix("yes/no", text[k..]);
      assert text[k..][..3] == text[k..][..6][..3];
      assert IsPrefix(["yes", "no"][0], text[k..]);
    }
  }

  // ---------------------------------------------------------------------
  // Survey breakdown

  function HasTitle(t: string): TrainingPair -> bool {
    (item: TrainingPair) => item.surveyTitle == t
  }

  function SurveyTitles(data: seq<TrainingPair>): seq<string> {
    Map(data, (item: TrainingPair) => item.surveyTitle)
  }

  /** `surveys[item['survey_title']].append(item)` over the training data, with `surveys` a `defaultdict(list)`. */
  function Group(data: seq<TrainingPair>): seq<Entry<seq<TrainingPair>>>
    decreases |data|
  {
    if data == [] then []
    else
      var g := Group(data[..|data| - 1]);
      var item := data[|data| - 1];
      Put(g, item.surveyTitle, GetOr(g, item.surveyTitle, []) + [item])
  }

  /** `{survey: len(questions) for survey, questions in surveys.items()}`. */
  function Breakdown(g: seq<Entry<seq<TrainingPair>>>): (b: seq<Entry<nat>>)
    ensures |b| == |g|
  {
    seq(|g|, i requires 0 <= i < |g| => Entry(g[i].key, |g[i].value|))
  }

  function Counts(b: seq<Entry<nat>>): (cs: seq<nat>)
    ensures |cs| == |b|
  {
    seq(|b|, i requires 0 <= i < |b| => b[i].value)
  }

  datatype BasicStats = BasicStats(
    totalPairs: nat,
    totalSurveys: nat,
    surveyBreakdown: seq<Entry<nat>>,
    questionNumberPatterns: Patterns)

  function QuestionNumbers(data: seq<TrainingPair>): seq<string> {
    Map(data, (item: TrainingPair) => item.questionNumber)
  }

  /** The counting part of `analyze_basic_stats`; no training data gives `{}`. */
  function BasicStatsOf(data: seq<TrainingPair>): Option<BasicStats> {
    if data == [] then None
    else
      var g := Group(data);
      Some(BasicStats(|data|, |g|, Breakdown(g), PatternsOf(QuestionNumbers(data))))
  }

  lemma GroupStep(data: seq<TrainingPair>, i: nat)
    requires i < |data|
    ensures var g := Group(data[..i]); var t := data[i].surveyTitle;
      Group(data[..i + 1]) == Put(g, t, GetOr(g, t, []) + [data[i]])
  {
    assert data[..i + 1][..i] == data[..i];
  }

  /** `analyze_basic_stats`, without the length and score statistics. */
  method AnalyzeBasicStats(data: seq<TrainingPair>) returns (stats: Option<BasicStats>)
    ensures stats == BasicStatsOf(data)
  {
    if data == [] {
      return None;
    }
    var surveys: seq<Entry<seq<TrainingPair>>> := [];
    for i := 0 to |data|
      invariant surveys == Group(data[..i])
    {
      GroupStep(data, i);
      var item := data[i];
      surveys := Put(surveys, item.surveyTitle, GetOr(surveys, item.surveyTitle, []) + [item]);
    }
    assert data[..|data|] == data;
    var questionNumbers := Map(data, (item: TrainingPair) => item.questionNumber);
    var patterns := AnalyzeQuestionPatterns(questionNumbers);
    stats := Some(BasicStats(|data|, |surveys|, Breakdown(surveys), patterns));
  }

  lemma GetOrPut<V>(d: seq<Entry<V>>, k: string, v: V, k': string, default: V)
    ensures GetOr(Put(d, k, v), k', default) == if k' == k then v else GetOr(d, k', default)
  {
    PutGet(d, k, v, k');
  }

  /** Each survey's list holds exactly its items, in order; the keys are the distinct titles. */
  lemma {:induction false} GroupIsFilter(data: seq<TrainingPair>)
    ensures Valid(Group(data))
    ensures forall t :: t in Keys(Group(data)) <==> t in SurveyTitles(data)
    ensures forall t :: GetOr(Group(data), t, []) == Filter(data, HasTitle(t))
    decreases |data|
  {
    if data != [] {
      var n := |data| - 1;
      var init := data[..n];
      var item := data[n];
      var g := Group(init);
      GroupIsFilter(init);
      var v := GetOr(g, item.surveyTitle, []) + [item];
      PutKeys(g, item.surveyTitle, v);
      MapLast(data, (x: TrainingPair) => x.surveyTitle);
      forall t ensures GetOr(Group(data), t, []) == Filter(data, HasTitle(t)) {
        GetOrPut(g, item.surveyTitle, v, t, []);
      }
    }
  }

  lemma CountsPut(g: seq<Entry<seq<TrainingPair>>>, k: string, v: seq<TrainingPair>)
    ensures var i := IndexOf(g, k);
      Counts(Breakdown(Put(g, k, v))) == if i < |g| then Counts(Breakdown(g))[i := |v|] else Counts(Breakdown(g)) + [|v|]
  {
  }

  /** The breakdown's counts add up to the number of training pairs. */
  lemma {:induction false} BreakdownSum(data: seq<TrainingPair>)
    ensures Sum(Counts(Breakdown(Group(data)))) == |data|
    decreases |data|
  {
    if data != [] {
      var n := |data| - 1;
      var g := Group(data[..n]);
      var t := data[n].surveyTitle;
      var old_ := GetOr(g, t, []);
      BreakdownSum(data[..n]);
      CountsPut(g, t, old_ + [data[n]]);
      var i := IndexOf(g, t);
      if i < |g| {
        SumUpdate(Counts(Breakdown(g)), i, |old_| + 1);
      } else {
        SumSnoc(Counts(Breakdown(g)), 1);
      }
    }
  }

  /** `total_pairs` is the sum of the breakdown; `total_surveys` counts each distinct title once, with its number of pairs. */
  lemma BasicStatsConsistent(data: seq<TrainingPair>)
    requires data != []
    ensures var s := BasicStatsOf(data).value;
      && s.totalPairs == Sum(Counts(s.surveyBreakdown))
      && s.totalSurveys == |s.surveyBreakdown|
      && Distinct(Keys(s.surveyBreakdown))
      && (forall t :: t in Keys(s.surveyBreakdown) <==> t in SurveyTitles(data))
      && (forall i :: 0 <= i < |s.surveyBreakdown| ==>
            s.surveyBreakdown[i].value == |Filter(data, HasTitle(s.surveyBreakdown[i].key))|)
  {
    var g := Group(data);
    BreakdownSum(data);
    GroupIsFilter(data);
    assert Keys(Breakdown(g)) == Keys(g);
    forall i | 0 <= i < |g| ensures Breakdown(g)[i].value == |Filter(data, HasTitle(g[i].key))| {
      IndexOfUnique(g, g[i].key, i);
    }
  }

  // ---------------------------------------------------------------------
  // Display names

  /** A survey name cut to `width` characters for a table cell, the cut marked by `...`. */
  function DisplayName(name: string, width: nat): (r: string)
    requires 3 <= width
    ensures |r| <= width
    ensures |name| <= width ==> r == name
    ensures |name| > width ==> |r| == width && r[..width - 3] == name[..width - 3] && r[width - 3..] == "..."
  {
    if |name| <= width then name else name[..width - 3] + "..."
  }

  /** Survey breakdown table. */
  function BreakdownName(survey: string): (r: string)
    ensures |r| <= 40 && (|survey| <= 40 ==> r == survey)
  {
    DisplayName(survey, 40)
  }

  /** Performance table. */
  function PerformanceName(survey: string): (r: string)
    ensures |r| <= 30 && (|survey| <= 30 ==> r == survey)
  {
    DisplayName(survey, 30)
  }

  // ---------------------------------------------------------------------
  // Recommendations

  const ImproveParsing: string := "Consider improving question parsing patterns to increase match rates."
  const ReviewThreshold: string := "Review similarity threshold settings - some matches may be too loose."
  /** The low-match-rate message, before the names of the first two such surveys. */
  const FocusPrefix: string := "Focus " + "on improving parsing for surveys with low match rates: "
  /** The message given when no other recommendation applies. */
  const LooksGood: string := "Training " + "data quality looks good! Consider expanding the dataset with more surveys."

  predicate IsLow(e: Entry<SurveyPerformance>) {
    e.value.matchRatePercent < 50.0
  }

  /** Titles of the surveys matched at under 50%, in table order. */
  function LowPerformers(rows: seq<Entry<SurveyPerformance>>): seq<string> {
    Keys(Filter(rows, IsLow))
  }

  /** Names the first two low performers. */
  function FocusOn(low: seq<string>): string {
    FocusPrefix + Join(if |low| <= 2 then low else low[..2], ", ")
  }

  /**
   * `_generate_recommendations_section`'s list: `performance` is `None`
   * for `{}`, `meanScore` is the mean similarity, `None` when the basic
   * statistics are `{}`.
   */
  function Recommendations(performance: Option<Performance>, meanScore: Option<real>): seq<string> {
    var parsing := if performance.Some? && performance.value.totals.overallMatchRatePercent < 85.0 then [ImproveParsing] else [];
    var threshold := if meanScore.Some? && meanScore.value < 0.9 then [ReviewThreshold] else [];
    var low := if performance.Some? then LowPerformers(performance.value.surveys) else [];
    var focus := if low != [] then [FocusOn(low)] else [];
    var recs := parsing + threshold + focus;
    if recs == [] then [LooksGood] else recs
  }

  /** The list is never empty, and it is the fallback alone exactly when no check fired. */
  lemma RecommendationsFallback(performance: Option<Performance>, meanScore: Option<real>)
    ensures var recs := Recommendations(performance, meanScore);
      var lowRate := performance.Some? && performance.value.totals.overallMatchRatePercent < 85.0;
      var loose := meanScore.Some? && meanScore.value < 0.9;
      var lowSurveys := performance.Some? && LowPerformers(performance.value.surveys) != [];
      && recs != []
      && (recs == [LooksGood] <==> !lowRate && !loose && !lowSurveys)
      && (lowRate ==> ImproveParsing in recs)
      && (loose ==> ReviewThreshold in recs)
      && (lowSurveys ==> FocusOn(LowPerformers(performance.value.surveys)) in recs)
  {
    var low := if performance.Some? then LowPerformers(performance.value.surveys) else [];
    var parsing := if performance.Some? && performance.value.totals.overallMatchRatePercent < 85.0 then [ImproveParsing] else [];
    var threshold := if meanScore.Some? && meanScore.value < 0.9 then [ReviewThreshold] else [];
    var focus := if low != [] then [FocusOn(low)] else [];
    var recs := parsing + threshold + focus;
    assert LooksGood != ImproveParsing && LooksGood != ReviewThreshold;
    assert LooksGood[0] == 'T' && FocusOn(low)[0] == 'F';
    assert forall x :: x in recs ==> x != LooksGood;
    if recs != [] {
      assert recs[0] in recs;
      assert Recommendations(performance, meanScore) == recs != [LooksGood];
    }
  }
}

