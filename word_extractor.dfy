/**
 * `WordQuestionExtractor.extract_questions`: cuts the non-blank lines of a
 * plain-text questionnaire into questions. A line that one of the numbering
 * patterns recognises opens a question; the lines after it are appended to
 * that question until the next numbered line. Lines before the first
 * numbered line are dropped. Once the appended lines make a question's
 * line lengths sum past the content limit, the whole scan stops and that
 * question is the last one.
 *
 * `Blocks` states the result block by block; the method `ExtractQuestions`
 * is the source's single-accumulator loop, proved to compute it.
 */
module WordExtractor {
  import opened Text
  import opened Recognizers

  datatype WordQuestion = WordQuestion(number: string, text: string, fullContent: string, wordIndex: nat)

  /**
   * What the segmenter asks of a line: does it open a question, and if so
   * its number and its text.
   */
  datatype Numbering = Numbering(isStart: string -> bool, number: string -> string, text: string -> string)

  /** The extractor's own numbering: the eight patterns of `Recognizers`. */
  const Patterns: Numbering := Numbering(IsQuestionStart, QuestionNumber, QuestionText)

  /** A line of the document after `strip()`, kept only when not blank. */
  predicate IsParagraph(p: string) {
    p != [] && IsStripped(p) && '\n' !in p
  }

  /** `[p.strip() for p in lines if p.strip()]` */
  function NonBlank(lines: seq<string>): (ps: seq<string>)
    requires forall i :: 0 <= i < |lines| ==> '\n' !in lines[i]
    ensures forall i :: 0 <= i < |ps| ==> IsParagraph(ps[i])
    ensures |ps| <= |lines|
  {
    if lines == [] then []
    else
      var t := Strip(lines[0]);
      StripIsStripped(lines[0]);
      StripKeepsAbsent(lines[0], '\n');
      (if t != [] then [t] else []) + NonBlank(lines[1..])
  }

  /** The paragraphs of a document: its lines, stripped, blank ones left out. */
  function Paragraphs(doc: string): (ps: seq<string>)
    ensures forall i :: 0 <= i < |ps| ==> IsParagraph(ps[i])
  {
    NonBlank(Split(doc, '\n'))
  }

  /** `sum(len(line) for line in lines)` */
  function TotalLength(lines: seq<string>): nat {
    if lines == [] then 0 else TotalLength(lines[..|lines| - 1]) + |lines[|lines| - 1]|
  }

  /** How far an open question extends into the following lines. */
  datatype Cut = Cut(taken: nat, overflow: bool)

  /**
   * Starting with line lengths summing to `total`, the open question takes
   * the unnumbered lines of `rest` up to the next numbered line. When a line
   * pushes the sum past `limit`, it is taken and the scan stops there.
   */
  function Extent(rest: seq<string>, total: int, limit: int, isStart: string -> bool): (c: Cut)
    ensures c.taken <= |rest|
    ensures c.overflow ==> c.taken >= 1
    decreases |rest|
  {
    if rest == [] || isStart(rest[0]) then Cut(0, false)
    else if total + |rest[0]| > limit then Cut(1, true)
    else
      var c := Extent(rest[1..], total + |rest[0]|, limit, isStart);
      Cut(c.taken + 1, c.overflow)
  }

  /** The questions of the paragraphs `ps`, each as its numbered line followed by its other lines. */
  function Blocks(ps: seq<string>, limit: int, isStart: string -> bool): (bs: seq<seq<string>>)
    ensures forall j :: 0 <= j < |bs| ==> bs[j] != []
    decreases |ps|
  {
    if ps == [] then []
    else if !isStart(ps[0]) then Blocks(ps[1..], limit, isStart)
    else
      var c := Extent(ps[1..], |ps[0]|, limit, isStart);
      [ps[..1 + c.taken]] + (if c.overflow then [] else Blocks(ps[1 + c.taken..], limit, isStart))
  }

  /** The blocks still to come while the question `cur` is open and `rest` is unread. */
  function Continue(cur: seq<string>, rest: seq<string>, limit: int, isStart: string -> bool): (bs: seq<seq<string>>)
    requires cur != []
    ensures forall j :: 0 <= j < |bs| ==> bs[j] != []
  {
    var c := Extent(rest, TotalLength(cur), limit, isStart);
    [cur + rest[..c.taken]] + (if c.overflow then [] else Blocks(rest[c.taken..], limit, isStart))
  }

  /** One question record: number and text from its first line, the lines joined by newlines. */
  function ToQuestion(block: seq<string>, index: nat, n: Numbering): WordQuestion
    requires block != []
  {
    WordQuestion(n.number(block[0]), n.text(block[0]), Join(block, "\n"), index)
  }

  /** The question records of the blocks `bs`, numbered by position. */
  function ToQuestions(bs: seq<seq<string>>, n: Numbering): (qs: seq<WordQuestion>)
    requires forall j :: 0 <= j < |bs| ==> bs[j] != []
    ensures |qs| == |bs|
  {
    if bs == [] then [] else ToQuestions(bs[..|bs| - 1], n) + [ToQuestion(bs[|bs| - 1], |bs| - 1, n)]
  }

  /** The questions `extract_questions` returns for the paragraphs `ps`. */
  function Segmented(ps: seq<string>, limit: int, n: Numbering): seq<WordQuestion> {
    ToQuestions(Blocks(ps, limit, n.isStart), n)
  }

  lemma ToQuestionsAppend(bs: seq<seq<string>>, b: seq<string>, n: Numbering)
    requires forall j :: 0 <= j < |bs| ==> bs[j] != []
    requires b != []
    ensures forall j :: 0 <= j < |bs + [b]| ==> (bs + [b])[j] != []
    ensures ToQuestions(bs + [b], n) == ToQuestions(bs, n) + [ToQuestion(b, |bs|, n)]
  {
    assert (bs + [b])[..|bs|] == bs;
  }

  lemma TotalLengthAppend(lines: seq<string>, line: string)
    ensures TotalLength(lines + [line]) == TotalLength(lines) + |line|
  {
    assert (lines + [line])[..|lines|] == lines;
  }

  /** A numbered line at the front of `rest` opens a question of its own. */
  lemma BlocksAtQuestion(rest: seq<string>, limit: int, isStart: string -> bool)
    requires rest != [] && isStart(rest[0])
    ensures Blocks(rest, limit, isStart) == Continue([rest[0]], rest[1..], limit, isStart)
  {
    var c := Extent(rest[1..], |rest[0]|, limit, isStart);
    assert TotalLength([rest[0]]) == |rest[0]| by {
      assert [rest[0]][..0] == [];
    }
    assert rest[..1 + c.taken] == [rest[0]] + rest[1..][..c.taken];
    assert rest[1 + c.taken..] == rest[1..][c.taken..];
  }

  /** A numbered line closes the open question. */
  lemma ContinueAtQuestion(cur: seq<string>, rest: seq<string>, limit: int, isStart: string -> bool)
    requires cur != [] && rest != [] && isStart(rest[0])
    ensures Continue(cur, rest, limit, isStart) == [cur] + Blocks(rest, limit, isStart)
  {
    assert rest[..0] == [] && rest[0..] == rest;
    assert cur + [] == cur;
  }

  /** An unnumbered line within the limit joins the open question. */
  lemma ContinueAppend(cur: seq<string>, rest: seq<string>, limit: int, isStart: string -> bool)
    requires cur != [] && rest != [] && !isStart(rest[0])
    requires TotalLength(cur + [rest[0]]) <= limit
    ensures Continue(cur, rest, limit, isStart) == Continue(cur + [rest[0]], rest[1..], limit, isStart)
  {
    TotalLengthAppend(cur, rest[0]);
    var c := Extent(rest[1..], TotalLength(cur) + |rest[0]|, limit, isStart);
    assert cur + rest[..c.taken + 1] == cur + [rest[0]] + rest[1..][..c.taken];
    assert rest[c.taken + 1..] == rest[1..][c.taken..];
  }

  /** An unnumbered line past the limit joins the open question, and nothing follows. */
  lemma ContinueOverflow(cur: seq<string>, rest: seq<string>, limit: int, isStart: string -> bool)
    requires cur != [] && rest != [] && !isStart(rest[0])
    requires TotalLength(cur + [rest[0]]) > limit
    ensures Continue(cur, rest, limit, isStart) == [cur + [rest[0]]]
  {
    TotalLengthAppend(cur, rest[0]);
    assert rest[..1] == [rest[0]];
  }

  /**
   * The blocks the loop of `extract_questions` still produces from the
   * state where `cur` is the open question (empty when none is open) and
   * `rest` is unread, one line at a time as the loop reads them.
   */
  function Pending(cur: seq<string>, rest: seq<string>, limit: int, isStart: string -> bool): seq<seq<string>>
    decreases |rest|
  {
    var closed := if cur == [] then [] else [cur];
    if rest == [] then closed
    else if isStart(rest[0]) then closed + Pending([rest[0]], rest[1..], limit, isStart)
    else if cur != [] && rest[0] != [] then
      if TotalLength(cur + [rest[0]]) > limit then [cur + [rest[0]]]
      else Pending(cur + [rest[0]], rest[1..], limit, isStart)
    else Pending(cur, rest[1..], limit, isStart)
  }

  /** Read line by line, the loop produces the questions `Blocks` states, given that no line is empty. */
  lemma {:induction false} PendingIsBlocks(cur: seq<string>, rest: seq<string>, limit: int, isStart: string -> bool)
    requires forall k :: 0 <= k < |rest| ==> rest[k] != []
    ensures Pending(cur, rest, limit, isStart) == if cur == [] then Blocks(rest, limit, isStart) else Continue(cur, rest, limit, isStart)
    decreases |rest|
  {
    if rest == [] {
      if cur != [] {
        assert cur + [][..0] == cur;
      }
    } else {
      var next := rest[1..];
      assert forall k :: 0 <= k < |next| ==> next[k] == rest[k + 1];
      if isStart(rest[0]) {
        PendingIsBlocks([rest[0]], next, limit, isStart);
        BlocksAtQuestion(rest, limit, isStart);
        if cur != [] {
          ContinueAtQuestion(cur, rest, limit, isStart);
        }
      } else if cur != [] {
        if TotalLength(cur + [rest[0]]) > limit {
          ContinueOverflow(cur, rest, limit, isStart);
        } else {
          PendingIsBlocks(cur + [rest[0]], next, limit, isStart);
          ContinueAppend(cur, rest, limit, isStart);
        }
      } else {
        PendingIsBlocks(cur, next, limit, isStart);
      }
    }
  }

  /** Loop step on a numbered line: the open question, if any, is complete, and a new one opens. */
  lemma PendingAtQuestion(done: seq<seq<string>>, cur: seq<string>, rest: seq<string>, limit: int, isStart: string -> bool)
    requires rest != [] && isStart(rest[0])
    ensures cur == [] ==> done + Pending(cur, rest, limit, isStart) == done + Pending([rest[0]], rest[1..], limit, isStart)
    ensures cur != [] ==> done + Pending(cur, rest, limit, isStart) == (done + [cur]) + Pending([rest[0]], rest[1..], limit, isStart)
  {
    var tail := Pending([rest[0]], rest[1..], limit, isStart);
    if cur == [] {
      assert [] + tail == tail;
    } else {
      assert done + ([cur] + tail) == (done + [cur]) + tail;
    }
  }

  /** Loop step on an unnumbered line that joins the open question: past the limit it is the last block. */
  lemma PendingAppend(cur: seq<string>, rest: seq<string>, limit: int, isStart: string -> bool)
    requires cur != [] && rest != [] && !isStart(rest[0]) && rest[0] != []
    ensures TotalLength(cur + [rest[0]]) > limit ==> Pending(cur, rest, limit, isStart) == [cur + [rest[0]]]
    ensures TotalLength(cur + [rest[0]]) <= limit ==> Pending(cur, rest, limit, isStart) == Pending(cur + [rest[0]], rest[1..], limit, isStart)
  {
  }

  /** Loop step on an unnumbered line with no question open: it is dropped. */
  lemma PendingSkip(cur: seq<string>, rest: seq<string>, limit: int, isStart: string -> bool)
    requires rest != [] && !isStart(rest[0]) && (cur == [] || rest[0] == [])
    ensures Pending(cur, rest, limit, isStart) == Pending(cur, rest[1..], limit, isStart)
  {
  }

  /** At the end of the input the open question, if any, is the last block. */
  lemma PendingAtEnd(done: seq<seq<string>>, cur: seq<string>, limit: int, isStart: string -> bool)
    ensures cur == [] ==> done + Pending(cur, [], limit, isStart) == done
    ensures cur != [] ==> done + Pending(cur, [], limit, isStart) == done + [cur]
  {
    if cur == [] {
      assert done + [] == done;
    }
  }

  /**
   * The loop of `extract_questions`: one pass over the paragraphs with a
   * single open question (`current_question`, `current_number`,
   * `current_content`). It relies on the numbering only for the fact that
   * a numbered line has a non-empty text, which is what makes
   * `current_question` truthy exactly while a question is open.
   */
  method Scan(docText: string, limit: int, n: Numbering) returns (questions: seq<WordQuestion>)
    requires forall p :: n.isStart(p) ==> n.text(p) != []
    ensures questions == Segmented(Paragraphs(docText), limit, n)
  {
    var paragraphs := Paragraphs(docText);
    questions := ScanLines(paragraphs, limit, n);
  }

  /** The loop itself, over the document's non-blank lines. */
  method ScanLines(paragraphs: seq<string>, limit: int, n: Numbering) returns (questions: seq<WordQuestion>)
    requires forall p :: n.isStart(p) ==> n.text(p) != []
    requires forall k :: 0 <= k < |paragraphs| ==> paragraphs[k] != []
    ensures questions == Segmented(paragraphs, limit, n)
  {
    ghost var done: seq<seq<string>> := [];
    questions := [];
    var currentText := "";
    var currentContent: seq<string> := [];
    var currentNumber := "";
    var i := 0;
    while i < |paragraphs|
      invariant 0 <= i <= |paragraphs|
      invariant forall j :: 0 <= j < |done| ==> done[j] != []
      invariant questions == ToQuestions(done, n)
      invariant currentText == [] <==> currentContent == []
      invariant currentContent != [] ==>
        currentNumber == n.number(currentContent[0]) && currentText == n.text(currentContent[0])
      invariant done + Pending(currentContent, paragraphs[i..], limit, n.isStart) == Pending([], paragraphs, limit, n.isStart)
    {
      var para := paragraphs[i];
      ghost var rest := paragraphs[i..];
      ghost var next := paragraphs[i + 1..];
      assert rest[0] == para && rest[1..] == next;
      if n.isStart(para) {
        PendingAtQuestion(done, currentContent, rest, limit, n.isStart);
        if currentText != [] {
          ToQuestionsAppend(done, currentContent, n);
          questions := questions + [WordQuestion(currentNumber, currentText, Join(currentContent, "\n"), |questions|)];
          done := done + [currentContent];
        }
        currentNumber := n.number(para);
        currentText := n.text(para);
        currentContent := [para];
      } else if currentText != [] && para != [] {
        PendingAppend(currentContent, rest, limit, n.isStart);
        currentContent := currentContent + [para];
        if TotalLength(currentContent) > limit {
          break;
        }
      } else {
        PendingSkip(currentContent, rest, limit, n.isStart);
      }
      i := i + 1;
    }
    if i == |paragraphs| {
      assert paragraphs[i..] == [];
      PendingAtEnd(done, currentContent, limit, n.isStart);
    }
    PendingIsBlocks([], paragraphs, limit, n.isStart);
    if currentText != [] {
      ToQuestionsAppend(done, currentContent, n);
      questions := questions + [WordQuestion(currentNumber, currentText, Join(currentContent, "\n"), |questions|)];
      done := done + [currentContent];
    }
  }

  /** The extractor's numbering gives every numbered line a non-empty text. */
  lemma PatternsTextNonEmpty()
    ensures forall p :: Patterns.isStart(p) ==> Patterns.text(p) != []
  {
  }

  /** The default `content_limit_chars`. */
  const DefaultContentLimit: int := 2000

  /** `WordQuestionExtractor(limit).extract_questions(docText)` with the eight patterns. */
  method ExtractQuestions(docText: string, limit: int) returns (questions: seq<WordQuestion>)
    ensures questions == Segmented(Paragraphs(docText), limit, Patterns)
  {
    PatternsTextNonEmpty();
    questions := Scan(docText, limit, Patterns);
  }

  /** Flattens blocks back into lines. */
  function Concat(bs: seq<seq<string>>): seq<string> {
    if bs == [] then [] else bs[0] + Concat(bs[1..])
  }

  /** The number of lines before the first numbered one: the front matter the extractor drops. */
  function FrontMatter(ps: seq<string>, isStart: string -> bool): (d: nat)
    ensures d <= |ps|
    ensures forall k :: 0 <= k < d ==> !isStart(ps[k])
    ensures d < |ps| ==> isStart(ps[d])
  {
    if ps == [] || isStart(ps[0]) then 0 else 1 + FrontMatter(ps[1..], isStart)
  }

  lemma {:induction false} TotalLengthFront(line: string, lines: seq<string>)
    ensures TotalLength([line] + lines) == |line| + TotalLength(lines)
    decreases |lines|
  {
    if lines != [] {
      var init := lines[..|lines| - 1];
      assert ([line] + lines)[..|lines|] == [line] + init;
      TotalLengthFront(line, init);
    } else {
      assert [line] + lines == [line] && [line][..0] == [];
    }
  }

  /** An open question takes only unnumbered lines, and stops at a numbered line or the end unless it overflows. */
  lemma {:induction false} ExtentLines(rest: seq<string>, total: int, limit: int, isStart: string -> bool)
    ensures var c := Extent(rest, total, limit, isStart);
      && (forall k :: 0 <= k < c.taken ==> !isStart(rest[k]))
      && (!c.overflow ==> c.taken == |rest| || isStart(rest[c.taken]))
    decreases |rest|
  {
    if rest != [] && !isStart(rest[0]) && total + |rest[0]| <= limit {
      var t := total + |rest[0]|;
      ExtentLines(rest[1..], t, limit, isStart);
      var c := Extent(rest, total, limit, isStart);
      forall k | 1 <= k < c.taken ensures !isStart(rest[k]) {
        assert rest[k] == rest[1..][k - 1];
      }
    }
  }

  /**
   * Once a line was added, an open question that stops without overflowing
   * is within the limit; one that overflows is past it, and was within it
   * before its last line.
   */
  lemma {:induction false} ExtentTotals(rest: seq<string>, total: int, limit: int, isStart: string -> bool)
    ensures var c := Extent(rest, total, limit, isStart);
      && (!c.overflow && c.taken > 0 ==> total + TotalLength(rest[..c.taken]) <= limit)
      && (c.overflow ==> total + TotalLength(rest[..c.taken]) > limit)
      && (c.overflow && c.taken > 1 ==> total + TotalLength(rest[..c.taken - 1]) <= limit)
    decreases |rest|
  {
    var c := Extent(rest, total, limit, isStart);
    if rest == [] || isStart(rest[0]) {
    } else if total + |rest[0]| > limit {
      assert rest[..1] == [rest[0]] && [rest[0]][..0] == [];
    } else {
      var t := total + |rest[0]|;
      var c' := Extent(rest[1..], t, limit, isStart);
      ExtentTotals(rest[1..], t, limit, isStart);
      assert rest[..c.taken] == [rest[0]] + rest[1..][..c'.taken];
      TotalLengthFront(rest[0], rest[1..][..c'.taken]);
      if c'.taken > 0 {
        assert rest[..c.taken - 1] == [rest[0]] + rest[1..][..c'.taken - 1];
        TotalLengthFront(rest[0], rest[1..][..c'.taken - 1]);
      } else {
        assert rest[..c.taken - 1] == [] && rest[..c.taken] == [rest[0]] + [];
      }
    }
  }

  /** Both halves of how far an open question extends. */
  lemma ExtentSpec(rest: seq<string>, total: int, limit: int, isStart: string -> bool)
    ensures var c := Extent(rest, total, limit, isStart);
      && (forall k :: 0 <= k < c.taken ==> !isStart(rest[k]))
      && (!c.overflow ==> c.taken == |rest| || isStart(rest[c.taken]))
      && (!c.overflow && c.taken > 0 ==> total + TotalLength(rest[..c.taken]) <= limit)
      && (c.overflow ==> total + TotalLength(rest[..c.taken]) > limit)
      && (c.overflow && c.taken > 1 ==> total + TotalLength(rest[..c.taken - 1]) <= limit)
  {
    ExtentLines(rest, total, limit, isStart);
    ExtentTotals(rest, total, limit, isStart);
  }

  /** A question's lines: a numbered line, then only unnumbered ones. */
  predicate IsBlock(b: seq<string>, isStart: string -> bool) {
    b != [] && isStart(b[0]) && forall k :: 1 <= k < |b| ==> !isStart(b[k])
  }

  /** Every question opens at a numbered line and holds no other numbered line. */
  lemma {:induction false} BlocksShape(ps: seq<string>, limit: int, isStart: string -> bool)
    ensures forall b :: b in Blocks(ps, limit, isStart) ==> IsBlock(b, isStart)
    decreases |ps|
  {
    if ps == [] {
    } else if !isStart(ps[0]) {
      BlocksShape(ps[1..], limit, isStart);
    } else {
      var c := Extent(ps[1..], |ps[0]|, limit, isStart);
      ExtentSpec(ps[1..], |ps[0]|, limit, isStart);
      var b := ps[..1 + c.taken];
      assert forall k :: 1 <= k < |b| ==> b[k] == ps[1..][k - 1];
      assert IsBlock(b, isStart);
      if !c.overflow {
        BlocksShape(ps[1 + c.taken..], limit, isStart);
      }
    }
  }

  /** Every line of every question is a line of the document. */
  lemma {:induction false} BlocksLines(ps: seq<string>, limit: int, isStart: string -> bool)
    ensures forall b, x :: b in Blocks(ps, limit, isStart) && x in b ==> x in ps
    decreases |ps|
  {
    if ps == [] {
    } else if !isStart(ps[0]) {
      BlocksLines(ps[1..], limit, isStart);
      assert forall x :: x in ps[1..] ==> x in ps;
    } else {
      var c := Extent(ps[1..], |ps[0]|, limit, isStart);
      if !c.overflow {
        var tail := ps[1 + c.taken..];
        BlocksLines(tail, limit, isStart);
        assert forall x :: x in tail ==> x in ps;
      }
      assert forall x :: x in ps[..1 + c.taken] ==> x in ps;
    }
  }

  lemma ConcatCons(b: seq<string>, bs: seq<seq<string>>)
    ensures Concat([b] + bs) == b + Concat(bs)
  {
    assert ([b] + bs)[1..] == bs;
  }

  /**
   * What `BlocksCover` states: the questions' lines, read in order, are the
   * lines from the first numbered one on, and when they stop short of the
   * end the last question ran past the limit.
   */
  predicate Covers(ps: seq<string>, bs: seq<seq<string>>, limit: int, isStart: string -> bool) {
    var d := FrontMatter(ps, isStart);
    var e := d + |Concat(bs)|;
    && e <= |ps|
    && Concat(bs) == ps[d..e]
    && (e < |ps| ==> bs != [] && TotalLength(bs[|bs| - 1]) > limit)
  }

  /** A dropped line before the first numbered one keeps the cover. */
  lemma CoversSkip(ps: seq<string>, bs: seq<seq<string>>, limit: int, isStart: string -> bool)
    requires ps != [] && !isStart(ps[0])
    requires Covers(ps[1..], bs, limit, isStart)
    ensures Covers(ps, bs, limit, isStart)
  {
    var d := FrontMatter(ps[1..], isStart);
    var n := |Concat(bs)|;
    assert FrontMatter(ps, isStart) == d + 1;
    assert d + n <= |ps[1..]| && Concat(bs) == ps[1..][d..d + n];
    assert ps[1..][d..d + n] == ps[d + 1..d + 1 + n];
  }

  /** A question that overflows is the last one, and its lines are the front of the rest. */
  lemma CoversOverflow(ps: seq<string>, m: nat, limit: int, isStart: string -> bool)
    requires 1 <= m <= |ps| && isStart(ps[0])
    requires TotalLength(ps[..m]) > limit
    ensures Covers(ps, [ps[..m]], limit, isStart)
  {
    assert Concat([ps[..m]]) == ps[..m] + [];
  }

  /** A question that ends at a numbered line or the end is followed by the questions of the rest. */
  lemma CoversThen(ps: seq<string>, m: nat, bs: seq<seq<string>>, limit: int, isStart: string -> bool)
    requires 1 <= m <= |ps| && isStart(ps[0])
    requires m < |ps| ==> isStart(ps[m])
    requires Covers(ps[m..], bs, limit, isStart)
    ensures Covers(ps, [ps[..m]] + bs, limit, isStart)
  {
    var tail := ps[m..];
    assert FrontMatter(tail, isStart) == 0;
    ConcatCons(ps[..m], bs);
    var e := |Concat(bs)|;
    assert ps[..m] + tail[0..e] == ps[0..m + e];
    if m + e < |ps| {
      assert ([ps[..m]] + bs)[|bs|] == bs[|bs| - 1];
    }
  }

  /**
   * The questions' lines, read in order, are the document's lines from the
   * first numbered one on: nothing is reordered, repeated or skipped. When
   * they stop short of the end, the last question ran past the limit.
   */
  lemma {:induction false} BlocksCover(ps: seq<string>, limit: int, isStart: string -> bool)
    ensures Covers(ps, Blocks(ps, limit, isStart), limit, isStart)
    decreases |ps|
  {
    if ps == [] {
    } else if !isStart(ps[0]) {
      BlocksCover(ps[1..], limit, isStart);
      CoversSkip(ps, Blocks(ps[1..], limit, isStart), limit, isStart);
    } else {
      var c := Extent(ps[1..], |ps[0]|, limit, isStart);
      if !c.overflow {
        BlocksCover(ps[1 + c.taken..], limit, isStart);
      }
      CoversAtQuestion(ps, limit, isStart);
    }
  }

  /** The step of `BlocksCover` at a numbered line. */
  lemma CoversAtQuestion(ps: seq<string>, limit: int, isStart: string -> bool)
    requires ps != [] && isStart(ps[0])
    requires var c := Extent(ps[1..], |ps[0]|, limit, isStart);
      !c.overflow ==> Covers(ps[1 + c.taken..], Blocks(ps[1 + c.taken..], limit, isStart), limit, isStart)
    ensures Covers(ps, Blocks(ps, limit, isStart), limit, isStart)
  {
    var c := Extent(ps[1..], |ps[0]|, limit, isStart);
    ExtentSpec(ps[1..], |ps[0]|, limit, isStart);
    var m := 1 + c.taken;
    assert ps[..m] == [ps[0]] + ps[1..][..c.taken];
    if c.overflow {
      TotalLengthFront(ps[0], ps[1..][..c.taken]);
      CoversOverflow(ps, m, limit, isStart);
    } else {
      assert m < |ps| ==> ps[m] == ps[1..][c.taken];
      CoversThen(ps, m, Blocks(ps[m..], limit, isStart), limit, isStart);
    }
  }

  /** A question that is not the last one is either its numbered line alone or within the limit. */
  lemma {:induction false} BlocksWithinLimit(ps: seq<string>, limit: int, isStart: string -> bool)
    ensures var bs := Blocks(ps, limit, isStart);
      forall j :: 0 <= j < |bs| - 1 ==> |bs[j]| == 1 || TotalLength(bs[j]) <= limit
    decreases |ps|
  {
    if ps == [] {
    } else if !isStart(ps[0]) {
      assert Blocks(ps, limit, isStart) == Blocks(ps[1..], limit, isStart);
      BlocksWithinLimit(ps[1..], limit, isStart);
    } else {
      var c := Extent(ps[1..], |ps[0]|, limit, isStart);
      ExtentSpec(ps[1..], |ps[0]|, limit, isStart);
      if !c.overflow {
        var b := ps[..1 + c.taken];
        assert b == [ps[0]] + ps[1..][..c.taken];
        TotalLengthFront(ps[0], ps[1..][..c.taken]);
        assert Blocks(ps, limit, isStart) == [b] + Blocks(ps[1 + c.taken..], limit, isStart);
        BlocksWithinLimit(ps[1 + c.taken..], limit, isStart);
      }
    }
  }

  lemma {:induction false} ToQuestionsAt(bs: seq<seq<string>>, n: Numbering, j: nat)
    requires forall j :: 0 <= j < |bs| ==> bs[j] != []
    requires j < |bs|
    ensures ToQuestions(bs, n)[j] == ToQuestion(bs[j], j, n)
    decreases |bs|
  {
    if j < |bs| - 1 {
      ToQuestionsAt(bs[..|bs| - 1], n, j);
    }
  }

  /** No question line holds a newline, since no paragraph does. */
  lemma BlockLinesOneLine(ps: seq<string>, limit: int, isStart: string -> bool, j: nat)
    requires forall i :: 0 <= i < |ps| ==> IsParagraph(ps[i])
    requires j < |Blocks(ps, limit, isStart)|
    ensures var b := Blocks(ps, limit, isStart)[j]; forall k :: 0 <= k < |b| ==> '\n' !in b[k]
  {
    var bs := Blocks(ps, limit, isStart);
    BlocksLines(ps, limit, isStart);
    assert bs[j] in bs;
    forall k | 0 <= k < |bs[j]| ensures '\n' !in bs[j][k] {
      assert bs[j][k] in ps;
    }
  }

  /**
   * Each record's `word_index` is its position, and its `full_content`
   * splits back at newlines into exactly the question's lines, the first of
   * which is numbered.
   */
  lemma QuestionRecords(docText: string, limit: int, n: Numbering, j: nat)
    requires j < |Segmented(Paragraphs(docText), limit, n)|
    ensures var bs := Blocks(Paragraphs(docText), limit, n.isStart);
      var q := Segmented(Paragraphs(docText), limit, n)[j];
      && q.wordIndex == j
      && Split(q.fullContent, '\n') == bs[j]
      && n.isStart(bs[j][0])
  {
    var ps := Paragraphs(docText);
    var bs := Blocks(ps, limit, n.isStart);
    ToQuestionsAt(bs, n, j);
    BlocksShape(ps, limit, n.isStart);
    assert bs[j] in bs;
    BlockLinesOneLine(ps, limit, n.isStart, j);
    JoinSplit(bs[j], '\n');
  }
}
