/**
 * The eight question-numbering patterns of `WordQuestionExtractor`, written
 * as hand-made matchers over a stripped paragraph.
 *
 * Every pattern has the shape `^\s*LABEL\s*(.+)`, compiled with IGNORECASE.
 * On a stripped paragraph the leading `\s*` matches nothing, and whatever
 * end position `e < |p|` the engine reaches for LABEL, the rest succeeds:
 * `\s*` runs up to the next non-space and `(.+)` takes everything from there
 * to the end of the line. So a pattern matches exactly when LABEL can end
 * before the last character, and the engine keeps the first such end in its
 * backtracking order. For all eight labels that order visits the possible
 * ends from the longest down, so the end kept is the longest one short of
 * the whole paragraph.
 */
module Recognizers {
  import opened Text
  import opened Regex

  /** `[qsQS]` under IGNORECASE. */
  predicate IsQuestionLetter(c: char) { ToLower(c) == 'q' || ToLower(c) == 's' }

  /** `[.\)]` */
  predicate IsListMark(c: char) { c == '.' || c == ')' }

  /** `[:\.]` */
  predicate IsLabelMark(c: char) { c == ':' || c == '.' }

  /** The empty character class, for a label with no trailing mark. */
  predicate IsNoMark(c: char) { false }

  /** How many trailing marks a label allows: `*`, `?` or exactly one. */
  datatype Repeat = Any | AtMostOne | ExactlyOne

  /**
   * The longest end in `lo..b` that still leaves a character for `(.+)`:
   * the engine gives back one position at a time from `b`, down to `lo`.
   */
  function LastBefore(n: nat, lo: nat, b: nat): (r: Option<nat>)
    ensures r.Some? <==> lo <= b && lo < n
    ensures r.Some? ==> lo <= r.value <= b && r.value < n && (r.value == b || r.value == n - 1)
  {
    if lo <= b && lo < n then Some(if b < n then b else n - 1) else None
  }

  /**
   * Candidate end of `\d+ MARK{rep}` (or `\d* MARK{rep}` when `minDigits` is
   * 0) after a head of length `h`. Digits and marks are greedy. Giving back a
   * digit leaves a digit where a mark is wanted, so with exactly one mark only
   * the greedy split can succeed. Otherwise every end from `h + minDigits` to
   * the greedy end is a candidate.
   */
  function Numbered(p: string, h: nat, minDigits: nat, mark: char -> bool, rep: Repeat): (r: Option<nat>)
    requires h <= |p| && (minDigits > 0 || rep == ExactlyOne)
    ensures r.Some? ==> h + minDigits <= r.value < |p| && h < r.value
    ensures r.Some? ==> forall i :: h <= i < r.value ==> IsDigit(p[i]) || mark(p[i])
  {
    var d := SpanLen(p[h..], IsDigit);
    var c := SpanLen(p[h + d..], mark);
    DigitsThenMarks(p, h, mark);
    if d < minDigits then None
    else match rep
      case Any => LastBefore(|p|, h + minDigits, h + d + c)
      case AtMostOne => LastBefore(|p|, h + minDigits, h + d + if c > 0 then 1 else 0)
      case ExactlyOne => if c > 0 then LastBefore(|p|, h + d + 1, h + d + 1) else None
  }

  /** The greedy digit run after `h`, then the greedy run of marks after it, as positions of `p`. */
  lemma DigitsThenMarks(p: string, h: nat, mark: char -> bool)
    requires h <= |p|
    ensures var d := SpanLen(p[h..], IsDigit);
      forall i :: h <= i < h + d + SpanLen(p[h + d..], mark) ==> IsDigit(p[i]) || mark(p[i])
  {
    var d := SpanLen(p[h..], IsDigit);
    var c := SpanLen(p[h + d..], mark);
    forall i | h <= i < h + d + c ensures IsDigit(p[i]) || mark(p[i]) {
      if i < h + d {
        assert p[h..][i - h] == p[i];
      } else {
        assert p[h + d..][i - h - d] == p[i];
      }
    }
  }

  /** `[qsQS]` as the whole head. */
  function LetterHead(p: string): (h: Option<nat>)
    ensures h.Some? ==> h.value <= |p|
  {
    if p != [] && IsQuestionLetter(p[0]) then Some(1) else None
  }

  /**
   * `\[?[qsQS]` (or with `\(?`): the optional opener is taken when present,
   * and when the rest then fails, leaving it out cannot help, because the
   * opener is not a letter.
   */
  function OpenerHead(p: string, open: char): (h: Option<nat>)
    ensures h.Some? ==> h.value <= |p|
  {
    if p != [] && p[0] == open then
      if |p| >= 2 && IsQuestionLetter(p[1]) then Some(2) else None
    else LetterHead(p)
  }

  /** `Question\s+`: the literal in any case, then a whitespace run that digits cannot share. */
  function WordHead(p: string): (h: Option<nat>)
    ensures h.Some? ==> h.value <= |p|
  {
    if |p| >= 8 && Lower(p[..8]) == "question" then
      var w := SpanLen(p[8..], IsSpace);
      if w > 0 then Some(8 + w) else None
    else None
  }

  /** `[A-Z]` under IGNORECASE. */
  function CapitalHead(p: string): (h: Option<nat>)
    ensures h.Some? ==> h.value <= |p|
  {
    if p != [] && IsLetter(p[0]) then Some(1) else None
  }

  /** `[A-Z]+`: greedy, and giving back a letter only puts a letter where a digit or mark is wanted. */
  function LettersHead(p: string): (h: Option<nat>)
    ensures h.Some? ==> h.value <= |p|
  {
    var l := SpanLen(p, IsLetter);
    if l > 0 then Some(l) else None
  }

  /** `\d+\.`: the integer part of a decimal number and its point. */
  function DecimalHead(p: string): (h: Option<nat>)
    ensures h.Some? ==> h.value <= |p|
  {
    var d := SpanLen(p, IsDigit);
    if d > 0 && d < |p| && p[d] == '.' then Some(d + 1) else None
  }

  const RuleCount: nat := 8

  /**
   * End of the label of pattern `k` (0-based, in table order) on the
   * stripped paragraph `p`, or None when the pattern does not match.
   */
  function LabelEnd(k: nat, p: string): (r: Option<nat>)
    requires k < RuleCount
    ensures r.Some? ==> 0 < r.value < |p| && !IsSpace(p[r.value - 1])
  {
    match k
    case 0 => LetterLabel(p)
    case 1 => BracketedLabel(p)
    case 2 => ParenthesizedLabel(p)
    case 3 => ListLabel(p)
    case 4 => CapitalLabel(p)
    case 5 => WordLabel(p)
    case 6 => LettersLabel(p)
    case _ => DecimalLabel(p)
  }

  /** `[qsQS]\d+[.\)]*` */
  function LetterLabel(p: string): (r: Option<nat>)
    ensures r.Some? ==> 0 < r.value < |p| && !IsSpace(p[r.value - 1])
  {
    match LetterHead(p) case None => None case Some(h) => Numbered(p, h, 1, IsListMark, Any)
  }

  /** `\[?[qsQS]\d+\]?` */
  function BracketedLabel(p: string): (r: Option<nat>)
    ensures r.Some? ==> 0 < r.value < |p| && !IsSpace(p[r.value - 1])
  {
    match OpenerHead(p, '[') case None => None case Some(h) => Numbered(p, h, 1, c => c == ']', AtMostOne)
  }

  /** `\(?[qsQS]\d+\)?` */
  function ParenthesizedLabel(p: string): (r: Option<nat>)
    ensures r.Some? ==> 0 < r.value < |p| && !IsSpace(p[r.value - 1])
  {
    match OpenerHead(p, '(') case None => None case Some(h) => Numbered(p, h, 1, c => c == ')', AtMostOne)
  }

  /** `\d+[.\)]` */
  function ListLabel(p: string): (r: Option<nat>)
    ensures r.Some? ==> 0 < r.value < |p| && !IsSpace(p[r.value - 1])
  {
    Numbered(p, 0, 1, IsListMark, ExactlyOne)
  }

  /** `[A-Z]\d+[.\)]*` */
  function CapitalLabel(p: string): (r: Option<nat>)
    ensures r.Some? ==> 0 < r.value < |p| && !IsSpace(p[r.value - 1])
  {
    match CapitalHead(p) case None => None case Some(h) => Numbered(p, h, 1, IsListMark, Any)
  }

  /** `Question\s+\d+[:\.]?` */
  function WordLabel(p: string): (r: Option<nat>)
    ensures r.Some? ==> 0 < r.value < |p| && !IsSpace(p[r.value - 1])
  {
    match WordHead(p) case None => None case Some(h) => Numbered(p, h, 1, IsLabelMark, AtMostOne)
  }

  /** `[A-Z]+\d*[.\)]` */
  function LettersLabel(p: string): (r: Option<nat>)
    ensures r.Some? ==> 0 < r.value < |p| && !IsSpace(p[r.value - 1])
  {
    match LettersHead(p) case None => None case Some(h) => Numbered(p, h, 0, IsListMark, ExactlyOne)
  }

  /** `\d+\.\d+` */
  function DecimalLabel(p: string): (r: Option<nat>)
    ensures r.Some? ==> 0 < r.value < |p| && !IsSpace(p[r.value - 1])
  {
    match DecimalHead(p) case None => None case Some(h) => Numbered(p, h, 1, IsNoMark, Any)
  }

  /**
   * A successful match of pattern `rule`: `group(1)` is `p[start..stop]` and
   * `group(0)` is `p[..stop]`.
   */
  datatype Recognition = Recognition(rule: nat, labelEnd: nat, start: nat, stop: nat)

  /**
   * `r` has the groups `\s*(.+)` gives after a label ending at `r.labelEnd`:
   * `group(1)` starts at the first non-space and runs to the end of the line.
   */
  predicate Grouped(p: string, r: Recognition) {
    && r.labelEnd <= r.start < r.stop <= |p|
    && (forall i :: r.labelEnd <= i < r.start ==> IsSpace(p[i]))
    && !IsSpace(p[r.start])
    && (forall i :: r.start <= i < r.stop ==> p[i] != '\n')
    && (r.stop < |p| ==> p[r.stop] == '\n')
  }

  /** A stripped paragraph is empty or has a non-space last character. */
  lemma SpacesStopBeforeEnd(p: string, e: nat)
    requires IsStripped(p) && e < |p|
    ensures e + SpanLen(p[e..], IsSpace) < |p|
  {
    assert p[e..][|p| - 1 - e] == p[|p| - 1];
  }

  /** Where `group(1)` starts after a label ending at `e`: past the whitespace run. */
  function GroupStart(p: string, e: nat): nat
    requires e <= |p|
  {
    e + SpanLen(p[e..], IsSpace)
  }

  /** Where `(.+)` stops: at the next line break, or at the end. */
  function GroupStop(p: string, g: nat): nat
    requires g <= |p|
  {
    g + Find(p[g..], '\n')
  }

  lemma GroupedAt(p: string, k: nat, e: nat)
    requires IsStripped(p) && e < |p|
    ensures GroupStart(p, e) < |p| && Grouped(p, Recognition(k, e, GroupStart(p, e), GroupStop(p, GroupStart(p, e))))
  {
    SpacesStopBeforeEnd(p, e);
    var g := GroupStart(p, e);
    var f := Find(p[g..], '\n');
    assert p[e..][g - e] == p[g];
    assert forall i :: e <= i < g ==> p[i] == p[e..][i - e];
    assert p[g] != '\n';
    assert forall i :: g <= i < g + f ==> p[i] == p[g..][..f][i - g];
    assert g + f < |p| ==> p[g..][f] == p[g + f];
  }

  /** `\s*(.+)` after a label ending at `e`: the spaces, then up to the end of the line. */
  function Groups(p: string, k: nat, e: nat): (r: Recognition)
    requires IsStripped(p) && e < |p|
    ensures r.rule == k && r.labelEnd == e && Grouped(p, r)
  {
    GroupedAt(p, k, e);
    Recognition(k, e, GroupStart(p, e), GroupStop(p, GroupStart(p, e)))
  }

  /** Tries the patterns from `k` on, in table order, and keeps the first that matches, with its label end. */
  function FirstFrom(p: string, k: nat): (r: Option<(nat, nat)>)
    ensures r.Some? ==> k <= r.value.0 < RuleCount && LabelEnd(r.value.0, p) == Some(r.value.1)
    ensures r.Some? ==> forall j :: k <= j < r.value.0 ==> LabelEnd(j, p).None?
    ensures r.None? ==> forall j :: k <= j < RuleCount ==> LabelEnd(j, p).None?
    decreases RuleCount - k
  {
    if k >= RuleCount then None
    else match LabelEnd(k, p)
      case Some(e) => Some((k, e))
      case None => FirstFrom(p, k + 1)
  }

  /** The first pattern that matches the stripped paragraph `p`, with its groups. */
  function Recognize(p: string): (r: Option<Recognition>)
    requires IsStripped(p)
    ensures r.Some? <==> exists k :: 0 <= k < RuleCount && LabelEnd(k, p).Some?
    ensures r.Some? ==> r.value.rule < RuleCount && forall j :: 0 <= j < r.value.rule ==> LabelEnd(j, p).None?
    ensures r.Some? ==> LabelEnd(r.value.rule, p) == Some(r.value.labelEnd) && Grouped(p, r.value)
  {
    match FirstFrom(p, 0)
    case None => None
    case Some((k, e)) => Some(Groups(p, k, e))
  }

  /** `is_question_start`: some pattern matches the stripped paragraph. */
  function IsQuestionStart(paragraph: string): (b: bool)
    ensures b <==> Strip(paragraph) != [] && exists k :: 0 <= k < RuleCount && LabelEnd(k, Strip(paragraph)).Some?
  {
    StripIsStripped(paragraph);
    var p := Strip(paragraph);
    p != [] && Recognize(p).Some?
  }

  /** `extract_question_number`: the whole match with every copy of `group(1)` deleted, stripped. */
  function QuestionNumber(paragraph: string): (n: string)
    ensures IsStripped(n)
    ensures !IsQuestionStart(paragraph) ==> n == []
  {
    StripIsStripped(paragraph);
    var p := Strip(paragraph);
    match Recognize(p)
    case None => ""
    case Some(r) =>
      StripIsStripped(Replace(p[..r.stop], p[r.start..r.stop], ""));
      Strip(Replace(p[..r.stop], p[r.start..r.stop], ""))
  }

  lemma GroupTextNonEmpty(p: string, r: Recognition)
    requires Grouped(p, r)
    ensures IsStripped(Strip(p[r.start..r.stop])) && Strip(p[r.start..r.stop]) != []
  {
    StripIsStripped(p[r.start..r.stop]);
    assert p[r.start..r.stop][0] == p[r.start];
    StripNonEmpty(p[r.start..r.stop], 0);
  }

  /** `extract_question_text`: `group(1)` stripped, or the stripped paragraph when nothing matches. */
  function QuestionText(paragraph: string): (t: string)
    ensures IsStripped(t)
    ensures !IsQuestionStart(paragraph) ==> t == Strip(paragraph)
    ensures IsQuestionStart(paragraph) ==> t != []
  {
    StripIsStripped(paragraph);
    var p := Strip(paragraph);
    match Recognize(p)
    case None => p
    case Some(r) =>
      GroupTextNonEmpty(p, r);
      Strip(p[r.start..r.stop])
  }

  /** Where the decimal pattern matches, its integer part is followed by a point and at least one more character. */
  lemma DecimalHeadFacts(p: string)
    requires DecimalLabel(p).Some?
    ensures var d := SpanLen(p, IsDigit); 0 < d && d + 1 < |p| && p[d] == '.'
  {
    var h := DecimalHead(p);
    assert h.Some? && Numbered(p, h.value, 1, IsNoMark, Any).Some?;
  }

  /** `\d+[.\)]` matches a digit run followed by a point, with a character left after it. */
  lemma ListLabelAtPoint(p: string)
    requires var d := SpanLen(p, IsDigit); 0 < d && d + 1 < |p| && p[d] == '.'
    ensures ListLabel(p).Some?
  {
    var d := SpanLen(p, IsDigit);
    assert p[0..] == p;
    assert SpanLen(p[d..], IsListMark) > 0 by {
      assert p[d..][0] == '.';
    }
  }

  /**
   * The decimal pattern `\d+\.\d+` never decides a parse: wherever it
   * matches, the earlier `\d+[.\)]` matches too.
   */
  lemma DecimalRuleShadowed(p: string)
    requires IsStripped(p)
    ensures LabelEnd(7, p).Some? ==> LabelEnd(3, p).Some?
    ensures Recognize(p).Some? ==> Recognize(p).value.rule != 7
  {
    if LabelEnd(7, p).Some? {
      DecimalHeadFacts(p);
      ListLabelAtPoint(p);
    }
  }

  lemma TrailingSpaceExample()
    ensures Strip(") ") == ")"
  {
    assert TrimStart(") ", IsSpace) == ") ";
    TrailingSpaceTrimmed();
  }

  lemma TrailingSpaceTrimmed()
    ensures TrimEnd(") ", IsSpace) == ")"
  {
    assert ") "[..1] == ")";
  }

  lemma ParenLabel()
    ensures LabelEnd(3, "1) 1") == Some(2)
    ensures forall j :: 0 <= j < 3 ==> LabelEnd(j, "1) 1").None?
  {
    var p := "1) 1";
    assert LetterHead(p).None? && OpenerHead(p, '[').None? && OpenerHead(p, '(').None?;
    assert LabelEnd(0, p).None? && LabelEnd(1, p).None? && LabelEnd(2, p).None?;
    assert SpanLen(p, IsDigit) == 1 by { assert p[0..] == p; }
    assert p[1..] == ") 1" && SpanLen(p[1..], IsListMark) == 1;
  }

  lemma ParenGroups()
    ensures Recognize("1) 1") == Some(Recognition(3, 2, 3, 4))
  {
    var p := "1) 1";
    ParenLabel();
    assert FirstFrom(p, 0) == Some((3, 2));
    assert p[2..] == " 1" && SpanLen(p[2..], IsSpace) == 1;
    assert p[3..] == "1" && Find(p[3..], '\n') == 1;
  }

  lemma ParenReplace()
    ensures Replace("1) 1", "1", "") == ") "
  {
    assert "1) 1"[..1] == "1" && "1) 1"[1..] == ") 1";
    assert ") 1"[1..] == " 1" && " 1"[1..] == "1";
    assert Replace("1", "1", "") == "";
  }

  /** What the three paragraph-level functions return once the groups of a stripped paragraph are known. */
  lemma RecognizedParagraph(p: string, r: Recognition)
    requires IsStripped(p) && Recognize(p) == Some(r)
    ensures IsQuestionStart(p)
    ensures QuestionNumber(p) == Strip(Replace(p[..r.stop], p[r.start..r.stop], ""))
    ensures QuestionText(p) == Strip(p[r.start..r.stop])
  {
    StrippedStrip(p);
  }

  /**
   * On one line, when no copy of the question text starts inside the label,
   * the number is exactly the label the pattern matched and the text is the
   * rest of the line after the spaces.
   */
  lemma NumberIsLabel(p: string, r: Recognition)
    requires IsStripped(p) && forall i :: 0 <= i < |p| ==> p[i] != '\n'
    requires Recognize(p) == Some(r)
    requires forall k :: 0 <= k < r.start ==> !IsPrefix(p[r.start..], p[k..])
    ensures QuestionNumber(p) == p[..r.labelEnd]
    ensures QuestionText(p) == p[r.start..]
  {
    RecognizedParagraph(p, r);
    RecognizedLabel(p, r);
    WholeLine(p, r);
    LabelStrips(p, r);
    ReplaceDropsText(p, r);
    TextStrips(p, r);
  }

  /**
   * On one line the question text is always the rest of the line: the
   * paragraph is the label the pattern matched, the whitespace after it,
   * then the text.
   */
  lemma TextIsRestOfLine(p: string, r: Recognition)
    requires IsStripped(p) && forall i :: 0 <= i < |p| ==> p[i] != '\n'
    requires Recognize(p) == Some(r)
    ensures IsQuestionStart(p)
    ensures 0 < r.labelEnd <= r.start < |p|
    ensures p == p[..r.labelEnd] + p[r.labelEnd..r.start] + QuestionText(p)
    ensures AllChars(p[r.labelEnd..r.start], IsSpace) && !IsSpace(p[r.labelEnd - 1])
  {
    RecognizedParagraph(p, r);
    RecognizedLabel(p, r);
    LineRest(p, r);
  }

  /** The pieces of a one-line paragraph once its groups are known. */
  lemma LineRest(p: string, r: Recognition)
    requires IsStripped(p) && Grouped(p, r) && forall i :: 0 <= i < |p| ==> p[i] != '\n'
    ensures Strip(p[r.start..r.stop]) == p[r.start..]
    ensures p == p[..r.labelEnd] + p[r.labelEnd..r.start] + p[r.start..]
    ensures AllChars(p[r.labelEnd..r.start], IsSpace)
  {
    WholeLine(p, r);
    TextStrips(p, r);
    var gap := p[r.labelEnd..r.start];
    forall i | 0 <= i < |gap| ensures IsSpace(gap[i]) {
      assert gap[i] == p[r.labelEnd + i];
    }
    SplitThree(p, r.labelEnd, r.start);
  }

  lemma SplitThree(p: string, i: nat, j: nat)
    requires i <= j <= |p|
    ensures p == p[..i] + p[i..j] + p[j..]
  {
    assert p[..j] == p[..i] + p[i..j];
  }

  /** A recognised label is not empty and does not end in whitespace. */
  lemma RecognizedLabel(p: string, r: Recognition)
    requires IsStripped(p) && Recognize(p) == Some(r)
    ensures Grouped(p, r) && 0 < r.labelEnd && !IsSpace(p[r.labelEnd - 1])
  {
    LabelEndShape(r.rule, p, r.labelEnd);
  }

  lemma LabelEndShape(k: nat, p: string, e: nat)
    requires k < RuleCount && LabelEnd(k, p) == Some(e)
    ensures 0 < e < |p| && !IsSpace(p[e - 1])
  {
  }

  /** Without a line break, `(.+)` runs to the end of the paragraph. */
  lemma WholeLine(p: string, r: Recognition)
    requires Grouped(p, r) && forall i :: 0 <= i < |p| ==> p[i] != '\n'
    ensures r.stop == |p| && p[..r.stop] == p && p[r.start..r.stop] == p[r.start..]
  {
  }

  lemma TextStrips(p: string, r: Recognition)
    requires IsStripped(p) && Grouped(p, r) && r.stop == |p|
    ensures Strip(p[r.start..]) == p[r.start..]
  {
    assert p[r.start..][0] == p[r.start] && p[r.start..][|p| - r.start - 1] == p[|p| - 1];
    StrippedStrip(p[r.start..]);
  }

  lemma ReplaceDropsText(p: string, r: Recognition)
    requires r.start < |p|
    requires forall k :: 0 <= k < r.start ==> !IsPrefix(p[r.start..], p[k..])
    ensures Replace(p, p[r.start..], "") == p[..r.start]
  {
    var x, y := p[..r.start], p[r.start..];
    assert x + y == p;
    ReplaceOnlyAtEnd(x, y);
  }

  lemma LabelStrips(p: string, r: Recognition)
    requires IsStripped(p) && Grouped(p, r) && 0 < r.labelEnd && !IsSpace(p[r.labelEnd - 1])
    ensures Strip(p[..r.start]) == p[..r.labelEnd]
  {
    var lab := p[..r.labelEnd];
    assert lab[0] == p[0] && lab[|lab| - 1] == p[r.labelEnd - 1];
    var gap := p[r.labelEnd..r.start];
    assert p[..r.start] == lab + gap;
    assert forall i :: 0 <= i < |gap| ==> gap[i] == p[r.labelEnd + i];
    StripSpacesAfter(lab, gap);
  }

  /** `"1) 1"`: deleting every copy of the text `"1"` from the match leaves `")"` as the number. */
  lemma ParenNumberExample()
    ensures IsQuestionStart("1) 1")
    ensures QuestionNumber("1) 1") == ")" && QuestionText("1) 1") == "1"
  {
    var p := "1) 1";
    ParenGroups();
    RecognizedParagraph(p, Recognition(3, 2, 3, 4));
    ParenSlices();
    ParenReplace();
    TrailingSpaceExample();
    StrippedStrip("1");
  }

  lemma ParenSlices()
    ensures "1) 1"[..4] == "1) 1" && "1) 1"[3..4] == "1"
  {
  }

  lemma BacktrackGroups()
    ensures Recognize("Q12") == Some(Recognition(0, 2, 2, 3))
  {
    var p := "Q12";
    assert LetterHead(p) == Some(1);
    assert p[1..] == "12" && SpanLen(p[1..], IsDigit) == 2;
    assert p[3..] == [] && SpanLen(p[3..], IsListMark) == 0;
    assert LabelEnd(0, p) == Some(2);
    assert FirstFrom(p, 0) == Some((0, 2));
    assert p[2..] == "2" && SpanLen(p[2..], IsSpace) == 0;
    assert Find(p[2..], '\n') == 1;
  }

  lemma BacktrackReplace()
    ensures Replace("Q12", "2", "") == "Q1"
  {
    assert "Q12"[..1] == "Q" && "Q12"[1..] == "12";
    assert "12"[..1] == "1" && "12"[1..] == "2";
    assert Replace("2", "2", "") == "";
  }

  /** `"Q12"`: backtracking gives a digit back to `(.+)`, so the number is `"Q1"` and the text `"2"`. */
  lemma BacktrackExample()
    ensures IsQuestionStart("Q12")
    ensures QuestionNumber("Q12") == "Q1" && QuestionText("Q12") == "2"
  {
    var p := "Q12";
    BacktrackGroups();
    RecognizedParagraph(p, Recognition(0, 2, 2, 3));
    BacktrackSlices();
    BacktrackReplace();
    StrippedStrip("Q1");
    StrippedStrip("2");
  }

  lemma BacktrackSlices()
    ensures "Q12"[..3] == "Q12" && "Q12"[2..3] == "2"
  {
  }
}
