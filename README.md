# Decipher fine-tuning pipeline: a Dafny model of its core

The Decipher fine-tuning pipeline turns pairs of survey documents into
training data for a model that writes Decipher survey XML. One document of
each pair is the questionnaire as Word prose; the other is the survey's
XML. This project models the parts of the pipeline that decide what the
training data holds, and proves properties of them.

- **Splitting a survey into questions** (`question_splitter.py`).
  - `WordExtractor` cuts the questionnaire text into numbered questions.
    It uses the eight numbering patterns, which `Recognizers` models as
    matchers.
  - `XmlExtractor` collects the `title[@id]` elements of the XML with
    their enclosing sections.
  - `Normalize` models the text normalisation and the weighted similarity
    score.
  - `QuestionMatcher` models the greedy one-to-one matching of Word
    questions with XML questions.
  - `QuestionSplitter` models `process_survey_pair` and
    `create_training_pairs`.
- **Downloader helpers** (`decipher_downloader.py`), in `Downloader`:
  - turning a title into a file name;
  - normalising a title;
  - picking the one survey with a given title;
  - reading the survey id off a path.
- **Namespace cleaning**.
  - `NamespaceCleaner` (`clean_xml_namespaces.py`) removes the three fixed
    declarations.
  - `ComprehensiveCleaner` (`comprehensive_namespace_cleaner.py`) removes
    every `xmlns:…="http://decipherinc.com/…"` declaration.
- **Conversation format** (`convert_to_conversation_format.py`), in
  `ConversationFormat`: the filter that turns training pairs into
  human/gpt conversations.
- **Training-data report** (`analyze_training_data.py`), in
  `TrainingAnalysis`:
  - the counters, totals and survey grouping;
  - the truncated display names;
  - the recommendations.

Shared support modules:

- `Text` models strings as `seq<char>`, with `strip`, `split`, `join` and
  `lower`.
- `Lists` holds filters, subsequences and sums.
- `Dicts` models a Python dict as its insertion-ordered list of entries.
- `Regex` models `re.sub` for patterns that never match the empty string.
  It takes a pattern as a function giving the match length at a position.

Where the source loops and updates variables, the model is a `method`
with the same loop. That method is proved equal to a specification
function, and the properties are proved about that function as lemmas.
The source's pure helpers are functions.

Parsing, serialisation and the fuzzy ratios come from libraries. They
enter the model as parameters:

- a parsed document is `Option<Element>`, where `None` means the XML did
  not parse;
- `serialize` stands for `etree.tostring`;
- `Fuzz` stands for the three `fuzzywuzzy` ratios, each returning an
  integer from 0 to 100.

The model keeps these behaviours of the code as written:

- **The Word extractor's content limit.** The `break` at
  question_splitter.py:123 leaves the loop over paragraphs, not just the
  current question. Once a question's lines pass the content limit the
  whole scan ends, and no later question is produced.
- **A title with blank text.** It is skipped before its id is recorded as
  seen. A later non-blank title with the same id is therefore kept: the
  first *non-blank* title of an id wins.
- **`extract_question_number`.** It deletes every copy of `group(1)` from
  the whole match. It is not "the label". See `ParenNumberExample` and
  `BacktrackExample`.
- **The decimal pattern (`1.1`).** It never decides a match, because the
  earlier `\d+[.\)]` pattern always matches first. See
  `DecimalRuleShadowed`.
- **A threshold of at most 0.** A Word question that meets no XML question
  scoring above 0 makes `match_questions` call `list.remove(None)`, which
  raises. The model returns this as an error `Result`.

## Model

| member | source | states |
|---|---|---|
| Downloader.SanitizeIsSafe | decipher_downloader.py:88-95 | The file name has no unsafe character (`/\:*?"<>|`) and no whitespace, no two dashes in a row, no dash at either end, and no upper-case letter |
| Downloader.SanitizeFixes | decipher_downloader.py:88-95 | A name that is already safe comes back unchanged |
| Downloader.SanitizeIdempotent | decipher_downloader.py:88-95 | Sanitizing a sanitized name changes nothing |
| Downloader.NormalizeTitleShape | decipher_downloader.py:97-99 | The normalised title has no whitespace at either end and only single spaces between words |
| Downloader.NormalizeTitleWords | decipher_downloader.py:97-99 | The normalised title has the same words as the title, in the same order |
| Downloader.SplitJoinWords | decipher_downloader.py:99 | `str.split()` of words joined by single spaces gives the words back |
| Downloader.NormalizeTitleIdempotent | decipher_downloader.py:97-99 | Normalising a normalised title changes nothing |
| Downloader.FindExactMatch | decipher_downloader.py:101-116 | The loop collects the paths of the surveys whose title equals the target ignoring case, and returns the outcome `ExactMatch` defines |
| Downloader.NoMatchNone | decipher_downloader.py:111-112 | When no title matches, the result is `None` |
| Downloader.AmbiguousIffTwo | decipher_downloader.py:106-114 | The call raises exactly when two surveys have the title, and what it raises is the ambiguity error |
| Downloader.OneMatchPath | decipher_downloader.py:106-116 | When exactly one survey has the title, the call returns that survey's path |
| Downloader.ExactMatchUnique | decipher_downloader.py:101-116 | When the call returns, at most one survey has the title, and a returned path is that survey's path |
| Downloader.SurveyId | decipher_downloader.py:118-120 | The survey id contains no '/' |
| Downloader.SurveyIdIsLastSegment | decipher_downloader.py:118-120 | Once trailing slashes are removed, the id is the text after the last '/' (the whole path when there is none) |
| Downloader.SurveyIdOfId | decipher_downloader.py:118-120 | A path without '/' is its own id, so extracting an id is idempotent |
| Normalize.NormalizeIsNormal | question_splitter.py:224-245 | Normalised text is lower-case, stripped and single-spaced, and holds only word characters, spaces and '?' |
| Normalize.NormalizeFixes | question_splitter.py:224-245 | Text that is already normal comes back unchanged: no boilerplate is left to remove, no punctuation, no extra space |
| Normalize.NormalizeIdempotent | question_splitter.py:224-245 | Normalising twice is normalising once |
| Normalize.DepunctuateSpaces | question_splitter.py:242 | The punctuation pass keeps the length; each character other than a word character, whitespace or '?' becomes a space, and every other character stays |
| Normalize.ArtifactsRemoved | question_splitter.py:229-239 | Each of the five boilerplate phrases, in any letter case, normalises to nothing on its own, and after normalised text it is dropped along with the space before it |
| Normalize.SimilarityRange | question_splitter.py:247-260 | The weighted score lies in [0, 1]. It is 1 exactly when all three ratios are 100, and 0 exactly when all three are 0 |
| Normalize.SimilarityOfNormal | question_splitter.py:247-260 | Normalising either text beforehand does not change the score |
| Recognizers.Recognize | question_splitter.py:26-38 | A stripped paragraph is recognised exactly when one of the eight patterns matches. The first pattern that matches wins. `group(1)` starts at the first non-space after the label and runs to the end of the line |
| Recognizers.IsQuestionStart | question_splitter.py:40-49 | A paragraph starts a question exactly when it is not blank and some pattern matches it once stripped |
| Recognizers.QuestionNumber | question_splitter.py:51-64 | The number is stripped, and it is empty when no pattern matches |
| Recognizers.QuestionText | question_splitter.py:66-75 | The text is stripped. It is the stripped paragraph when nothing matches, and non-empty when something does |
| Recognizers.TextIsRestOfLine | question_splitter.py:66-75 | For a recognised one-line paragraph, the paragraph is a non-empty label, a run of whitespace, and the question text: the text is the rest of the line after the label, and the label does not end in whitespace |
| Recognizers.NumberIsLabel | question_splitter.py:51-64 | When `group(1)` occurs nowhere earlier in the line, the number is exactly the label and the text is the rest of the line |
| Recognizers.ParenNumberExample | question_splitter.py:51-64 | "1) 1" is a question whose number is ")" and whose text is "1": the deletion also removes the "1" of the label |
| Recognizers.BacktrackExample | question_splitter.py:27 | "Q12" is a question numbered "Q1" with text "2": `\d+` gives back a digit so that `(.+)` can match |
| Recognizers.DecimalRuleShadowed | question_splitter.py:30-34 | Wherever the decimal pattern matches, the `\d+[.\)]` pattern matches too, so the decimal pattern never decides |
| WordExtractor.Paragraphs | question_splitter.py:81 | Every paragraph is non-empty, stripped and free of newlines |
| WordExtractor.ExtractQuestions | question_splitter.py:77-140 | The extractor returns `Segmented`: the question records of `Blocks` over the document's paragraphs, with the eight patterns |
| WordExtractor.Scan | question_splitter.py:77-140 | The same for any numbering that gives every numbered line a non-empty text |
| WordExtractor.ScanLines | question_splitter.py:94-139 | The single-accumulator loop, with its `break` at the content limit, computes `Segmented` |
| WordExtractor.PendingIsBlocks | question_splitter.py:94-139 | Reading the lines one at a time from any loop state produces the blocks `Blocks` and `Continue` state |
| WordExtractor.BlocksShape | question_splitter.py:97-122 | Every question opens at a numbered line and holds no other numbered line |
| WordExtractor.BlocksLines | question_splitter.py:97-122 | Every line of every question is a line of the document |
| WordExtractor.BlocksCover | question_splitter.py:94-139 | Read in order, the questions' lines are exactly the document's lines from the first numbered one onwards. When they stop before the end, the last question's line lengths sum past the limit |
| WordExtractor.BlocksWithinLimit | question_splitter.py:115-123 | Every question but the last is a single line or within the content limit |
| WordExtractor.QuestionRecords | question_splitter.py:99-107 | Question j has `word_index` j, its `full_content` splits on newlines back into its lines, and its first line is numbered |
| XmlExtractor.TitlesAreTitles | question_splitter.py:159-166 | Every title found is a `title` element with an id, its text is `title.text or ""`, and its ancestor chain leads down from the root |
| XmlExtractor.FindContext | question_splitter.py:174-187 | The upward walk returns the nearest ancestor whose tag is `suspend`, `page`, `question` or `exec`. Failing that it returns the parent, and failing that the title itself |
| XmlExtractor.ExtractXmlQuestions | question_splitter.py:149-203 | The loop with its seen-id set computes `XmlQuestions`. A document that does not parse gives no questions |
| XmlExtractor.KeptIdsDistinct | question_splitter.py:169-172 | No id is kept twice |
| XmlExtractor.QuestionsShape | question_splitter.py:169-194 | `xml_index` is the position, each text is non-empty and stripped, and ids are distinct |
| XmlExtractor.QuestionsFirstWins | question_splitter.py:164-172 | Each question is the record of the first title with its id whose text is not blank |
| XmlExtractor.QuestionsComplete | question_splitter.py:164-172 | Every id that has a title with non-blank text yields a question |
| QuestionMatcher.BestOf | question_splitter.py:262-275 | The best score is at least every candidate's score, and 0 when no candidate scores above 0. The best candidate scores strictly more than every earlier one, so ties go to the first |
| QuestionMatcher.FindBestMatch | question_splitter.py:262-280 | The loop returns the best candidate with its score when the score reaches the threshold, and nothing otherwise |
| QuestionMatcher.RemoveBest | question_splitter.py:302 | `list.remove` of the chosen question removes exactly the chosen position |
| QuestionMatcher.MatchQuestions | question_splitter.py:282-314 | The loop computes `Assign`, including the error when `None` is removed |
| QuestionMatcher.WordsCounted | question_splitter.py:282-314 | Each Word question ends up exactly once, either matched or unmatched |
| QuestionMatcher.Sizes | question_splitter.py:282-314 | Matched plus unmatched Word questions are all the Word questions. Matched plus unclaimed XML questions are all the XML questions |
| QuestionMatcher.MatchedInOrder | question_splitter.py:282-314 | The matched Word questions keep document order |
| QuestionMatcher.UnmatchedInOrder | question_splitter.py:282-314 | The unmatched Word questions keep document order |
| QuestionMatcher.XmlsPartitioned | question_splitter.py:282-314 | Claimed plus unclaimed XML questions are the XML questions, and the unclaimed ones keep their order |
| QuestionMatcher.ClaimedOnce | question_splitter.py:282-314 | With distinct XML questions, none is claimed twice, and none is both claimed and left in the pool |
| QuestionMatcher.MatchScores | question_splitter.py:262-314 | Each match's score reaches the threshold, is above 0, and is the similarity of the two texts |
| QuestionMatcher.MatchesAreBest | question_splitter.py:262-314 | A match scored at least as high as any XML question still unclaimed at the end |
| QuestionMatcher.UnmatchedAreBelow | question_splitter.py:262-314 | An unmatched Word question scores below the threshold with every XML question still unclaimed at the end |
| QuestionMatcher.PositiveThresholdSucceeds | question_splitter.py:277-280 | With a threshold above 0, matching never raises |
| QuestionMatcher.NonPositiveThresholdMatchesAll | question_splitter.py:277-280 | With a threshold of at most 0, a successful run leaves no Word question unmatched |
| QuestionMatcher.PoolLargeEnough | question_splitter.py:277-300 | With a threshold of at most 0, a successful run had at least as many XML questions as Word questions |
| QuestionSplitter.ProcessSurveyPair | question_splitter.py:325-347 | The method extracts both sides and returns `Process`: it short-cuts when either side is empty, and otherwise uses the matcher's result with the title |
| QuestionSplitter.NoXmlNoFailure | question_splitter.py:339-341 | Without XML questions, all Word questions are unmatched and nothing raises |
| QuestionSplitter.ProcessSucceeds | question_splitter.py:325-347 | With a threshold above 0, processing never raises |
| QuestionSplitter.ProcessAccounts | question_splitter.py:325-347 | The result carries the title. It splits the Word questions into matched and unmatched, and the XML questions into claimed and unclaimed, keeping order |
| QuestionSplitter.NoWordsNoMatching | question_splitter.py:335-337 | Without Word questions nothing is matched, and every XML question is left unmatched |
| QuestionSplitter.ProcessMatches | question_splitter.py:335-347 | With questions on both sides, processing succeeds exactly when `match_questions` does, with its three lists. It can only raise when both sides have questions and the threshold is at most 0 |
| QuestionSplitter.ProcessScores | question_splitter.py:325-347 | Every match scores at or above the threshold and above 0 |
| QuestionSplitter.CreateTrainingPairs | question_splitter.py:349-372 | The loop builds one pair per match, in order: number and prose from the Word question, section and id from the XML question, score and indexes copied |
| QuestionSplitter.PairsScores | question_splitter.py:349-372 | A training pair carries its match's score |
| QuestionSplitter.PairsScoreRange | question_splitter.py:247-260 | With the weighted fuzzy score as the scorer, every training pair's score lies between the threshold and 1 |
| QuestionSplitter.PairsIncreasing | question_splitter.py:349-372 | When the matched Word questions are picked in order from an indexed list, the pairs' `word_index` values strictly increase |
| QuestionSplitter.PairsIdsDistinct | question_splitter.py:349-372 | When the XML questions come from a list with distinct ids, no two pairs share an `xml_id` |
| QuestionSplitter.ExtractedIndexed | question_splitter.py:99-107 | The Word extractor's `word_index` is the position |
| QuestionSplitter.ExtractedIdsDistinct | question_splitter.py:149-203 | The XML extractor never returns an id twice |
| QuestionSplitter.PairsOfSurvey | question_splitter.py:325-372 | The pairs of one processed survey have scores at or above the threshold, strictly increasing Word indexes, and distinct XML ids |
| QuestionSplitter.SurveyPairs | question_splitter.py:325-372 | End to end, with a threshold above 0: processing one Word text and one XML document succeeds, and its pairs have those three properties |
| NamespaceCleaner.NoDeclarations | clean_xml_namespaces.py:27-46 | None of the three declarations is left in the output |
| NamespaceCleaner.CleanShape | clean_xml_namespaces.py:27-46 | The output's only whitespace is single spaces, and the output is empty exactly when the input is |
| NamespaceCleaner.CleanKeepsOrder | clean_xml_namespaces.py:38-44 | The output's non-whitespace characters are the input's, in order, some left out |
| NamespaceCleaner.NothingToRemove | clean_xml_namespaces.py:38-44 | Input without any of the three declarations only has its whitespace runs collapsed |
| NamespaceCleaner.CleanIdempotent | clean_xml_namespaces.py:17-46 | Cleaning twice is cleaning once |
| ComprehensiveCleaner.RunIsMatchLen | comprehensive_namespace_cleaner.py:28 | The character-by-character scanner matches exactly as far as the pattern `xmlns:[^=]+="http://decipherinc\.com/[^"]*"` does |
| ComprehensiveCleaner.NoNamespaceLeft | comprehensive_namespace_cleaner.py:23-36 | No Decipher namespace declaration starts anywhere in the output |
| ComprehensiveCleaner.CleanAllShape | comprehensive_namespace_cleaner.py:23-36 | The output's only whitespace is single spaces, and the output is empty exactly when the input is |
| ComprehensiveCleaner.CleanAllKeepsText | comprehensive_namespace_cleaner.py:28-34 | The output's non-whitespace characters are those of the input with every declaration deleted |
| ComprehensiveCleaner.NoUrlOnlyCollapses | comprehensive_namespace_cleaner.py:28-34 | Input without `="http://decipherinc.com/` only has its whitespace runs collapsed |
| ComprehensiveCleaner.CleanAllIdempotent | comprehensive_namespace_cleaner.py:13-36 | Cleaning twice is cleaning once |
| ConversationFormat.ConvertToConversationFormat | convert_to_conversation_format.py:28-85 | The loop returns the conversations of the qualifying items and the skipped count, which together account for every item |
| ConversationFormat.ConvertedAccounts | convert_to_conversation_format.py:31-52 | Every item is either converted or counted as skipped |
| ConversationFormat.ConvertedSound | convert_to_conversation_format.py:44-75 | Every conversation comes from an item that reaches the threshold and has non-blank text and XML |
| ConversationFormat.ConvertedComplete | convert_to_conversation_format.py:44-75 | Every qualifying item is converted |
| ConversationFormat.ConvertedInOrder | convert_to_conversation_format.py:36-75 | The conversations keep input order |
| ConversationFormat.ConvertedShape | convert_to_conversation_format.py:55-66 | Each conversation is a human message then a gpt message, both stripped and non-empty |
| ConversationFormat.MissingScoreIsZero | convert_to_conversation_format.py:40-47 | An item without a score counts as 0, so only a threshold of at most 0 keeps it |
| ConversationFormat.ThresholdMonotone | convert_to_conversation_format.py:44-47 | Raising the threshold only drops conversations |
| TrainingAnalysis.AnalyzeQuestionPatterns | analyze_training_data.py:100-131 | Each counter is the number of question numbers with its property. The `q`, `s` and digit tests are exclusive and tried in that order |
| TrainingAnalysis.PatternsBounded | analyze_training_data.py:100-131 | The three leading-character counters sum to at most the count of numbers, and each other counter is at most that count |
| TrainingAnalysis.AnalyzeMatchingPerformance | analyze_training_data.py:133-186 | No debug data gives `{}`. Otherwise each survey title has a row, and each total is the sum of its column |
| TrainingAnalysis.ColumnsAreSums | analyze_training_data.py:145-179 | The running totals are the column sums |
| TrainingAnalysis.MatchRateBounds | analyze_training_data.py:160-183 | A rate of matches among those found lies in [0, 100]. It is 0 exactly when nothing matched or nothing was found, and 100 exactly when everything found matched |
| TrainingAnalysis.RowConsistent | analyze_training_data.py:151-168 | A row's found counts are matched plus unmatched, and its rate is a percentage that is 0 when no Word question was found |
| TrainingAnalysis.TotalsConsistent | analyze_training_data.py:177-184 | The same for the totals |
| TrainingAnalysis.RowsAreLastSurveys | analyze_training_data.py:162-169 | The table has one row per distinct title. A later survey with the same title overwrites the earlier row |
| TrainingAnalysis.AnalyzeContentPatterns | analyze_training_data.py:192-231 | No training data gives `{}`. Otherwise each question-type count is the number of items of that type |
| TrainingAnalysis.TypesPartition | analyze_training_data.py:214-226 | Every item is counted under exactly one question type |
| TrainingAnalysis.YesNoTest | analyze_training_data.py:221 | An item is yes/no exactly when no earlier category applies and "yes/no" occurs. The `any` test beside it never decides |
| TrainingAnalysis.AnalyzeBasicStats | analyze_training_data.py:48-98 | No training data gives `{}`. Otherwise the counts, the survey breakdown and the numbering patterns are as `BasicStatsOf` defines |
| TrainingAnalysis.GroupIsFilter | analyze_training_data.py:56-58 | Grouping by title gives each distinct title once, with the items of that title in order |
| TrainingAnalysis.BreakdownSum | analyze_training_data.py:71-73 | The breakdown's counts add up to the number of pairs |
| TrainingAnalysis.BasicStatsConsistent | analyze_training_data.py:70-73 | `total_pairs` is the sum of the breakdown, and `total_surveys` is its number of distinct titles. Each entry counts the pairs with its title |
| TrainingAnalysis.DisplayName | analyze_training_data.py:426 | A name cut for a table cell is at most the width. A short name is kept; a long one keeps its first width−3 characters followed by "..." |
| TrainingAnalysis.BreakdownName | analyze_training_data.py:426 | Breakdown-table names have at most 40 characters, and names that fit are unchanged |
| TrainingAnalysis.PerformanceName | analyze_training_data.py:484 | Performance-table names have at most 30 characters, and names that fit are unchanged |
| TrainingAnalysis.RecommendationsFallback | analyze_training_data.py:616-633 | The list is never empty. Each check that fires adds its message. The fallback message is the whole list exactly when no check fires |

## Left out

- Input and output are not modelled: reading and writing JSON, printing
  progress, and the HTTP client (`DecipherClient`, `process_survey`,
  `download_surveys`, `print_summary`). They have no effect on the values
  modelled here. The skipped count, which the source only prints, is
  returned.
- XML parsing and serialisation are not modelled. Parsing is the
  parameter `doc: Option<Element>`, and `etree.tostring` is the parameter
  `serialize`.
- `fuzz.ratio`, `fuzz.partial_ratio` and `fuzz.token_sort_ratio` are not
  modelled; they are the parameter `Fuzz`, and the model relies only on
  their 0–100 range. The weighted sum is exact rational arithmetic, not floating
  point.
- Recognizers.IsQuestionStart, Normalize.Normalize, Normalize.Depunctuate,
  Downloader.FindExactMatch, TrainingAnalysis.LeadOf, TrainingAnalysis.TypeOf:
  `\d`, `\w`, `re.IGNORECASE` and `str.lower()` are ASCII in the model,
  while Python's also cover other Unicode digits, letters and cases. `\s`
  and `str.isspace` are Python's full set. On non-ASCII text these members
  compute something different from the source:
  - the recognisers fold only ASCII letters;
  - the punctuation pass turns an accented letter into a space, where
    Python keeps it;
  - the title comparison and the lead and type tests lower-case only
    ASCII letters.
- Normalize.NormalizeIsNormal, Normalize.NormalizeIdempotent: both hold
  for the ASCII model only. In Python, `'İ'.lower()` is `'i\u0307'`, and
  the combining mark U+0307 is not matched by `\w`. So
  `normalize_text("İ")` keeps `İ` through the punctuation pass and then
  lowers it to `"i\u0307"`. That output holds a character that is neither
  a word character, a space nor '?'. Normalising it again turns U+0307
  into a space and strips it, giving `"i"`, so the source is not
  idempotent on this input.
- Downloader.SanitizeIsSafe: "no upper-case letter" means no ASCII
  upper-case letter, for the same reason.
- TrainingAnalysis.AnalyzeMatchingPerformance: rates are exact rationals,
  and `round(_, 1)` is not modelled. A rate just under 50 or 85 that
  Python would round up to 50.0 or 85.0 counts as below it here.
- TrainingAnalysis.RecommendationsFallback: the mean similarity is the
  parameter `meanScore`. It is `None` when the basic statistics are `{}`.
- The length and score statistics of `analyze_basic_stats` are not
  modelled: `min`, `max`, `mean`, `median` and `stdev` over floats.
- The word and element frequency tables of `analyze_content_patterns` are
  not modelled: `Counter.most_common` with its tie order.
- The HTML report is not modelled: `generate_html_report` and its
  sections, `html.escape`, the percentage column, the timestamp and
  `run_analysis`. Only the display-name truncation and the list of
  recommendations are modelled.
- Missing keys are not modelled in the analysis. There the source indexes
  `item['…']`, which raises `KeyError`, and the model's records always
  carry every field. The conversion's `.get` defaults are modelled.
- JSON `null` values are not modelled. A key present with value `null`
  is treated like a missing key. In the source, a `null` title makes
  `survey.get('title', '').lower()` raise `AttributeError`
  (decipher_downloader.py:107). A `null` text makes `.strip()` raise
  (convert_to_conversation_format.py:38-39). A `null` score makes the
  comparison with `min_similarity` raise `TypeError`
  (convert_to_conversation_format.py:45). In the model, `TitleOf`,
  `OrEmpty` and `Score` fall back to the default instead.
- `survey_title` and `question_number` are read but unused in
  `convert_to_conversation_format`, so they are not modelled.
- `process_conversation_file` (in both cleaner scripts),
  `verify_namespace_removal` (clean_xml_namespaces.py:127),
  `verify_complete_removal` (comprehensive_namespace_cleaner.py:123) and
  the scripts' `main` functions are file I/O and printing around the
  modelled cleaning functions.
- A `None` input to the cleaners (`if not xml_content`) is not modelled:
  inputs are strings. The empty string comes back unchanged, as in the
  source.
- NamespaceCleaner.CleanKeepsOrder: states only that the non-whitespace
  characters survive in order. It does not state which ones are removed.
  `NoDeclarations` and `NothingToRemove` cover that from the other side.
- `XMLQuestionExtractor.extract_section_content` is not modelled: nothing
  in the pipeline calls it.
- The `except Exception` of `extract_questions` covers only the parse
  failure (`doc == None`). The model has no other failure.
