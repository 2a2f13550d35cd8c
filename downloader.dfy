/**
 * The pure helpers of `SurveyDownloader`: turning a survey title into a
 * file name, normalising a title for lookup, picking the one survey with
 * a given title, and reading a survey id off its path.
 */
module Downloader {
  import opened Text
  import opened Regex

  predicate IsDash(c: char) { c == '-' }

  predicate IsSlash(c: char) { c == '/' }

  predicate IsNonSpace(c: char) { !IsSpace(c) }

  // ---------------------------------------------------------------------
  // sanitize_filename

  /**
   * `sanitize_filename`: unsafe characters become '-', every run of dashes
   * and whitespace becomes one '-', dashes are stripped from both ends,
   * and the result is lower-cased.
   */
  function Sanitize(title: string): string {
    var safe := ReSub(title, UnsafeCharAt, "-");
    Lower(Trim(Squash(safe, IsDashOrSpace, '-'), IsDash))
  }

  /** Neither a filesystem-unsafe character nor whitespace. */
  predicate IsNameChar(c: char) { !IsUnsafe(c) && !IsSpace(c) }

  /**
   * What `sanitize_filename` promises of a file name: no unsafe character
   * and no whitespace; every '-' stands alone (so no "--"); no '-' at
   * either end; no upper-case letter.
   */
  predicate IsSafeName(s: string) {
    && AllChars(s, IsNameChar)
    && Isolated(s, IsDashOrSpace, '-')
    && (s != [] ==> s[0] != '-' && s[|s| - 1] != '-')
    && IsLowerCase(s)
  }

  predicate IsSafeChar(c: char) { !IsUnsafe(c) }

  /** After the first substitution no unsafe character is left. */
  lemma UnsafeReplaced(title: string)
    ensures AllChars(ReSub(title, UnsafeCharAt, "-"), IsSafeChar)
  {
    forall k | 0 <= k < |title| && UnsafeCharAt(title[k..]) == 0 ensures IsSafeChar(title[k]) {
      assert title[k..][0] == title[k];
    }
    ReSubAllChars(title, UnsafeCharAt, "-", IsSafeChar);
  }

  /** Squashing dash-and-whitespace runs into '-' leaves no whitespace, and adds no unsafe character. */
  lemma RunsReplaced(s: string)
    requires AllChars(s, IsSafeChar)
    ensures AllChars(Squash(s, IsDashOrSpace, '-'), IsNameChar)
  {
    forall k | 0 <= k < |s| && RunOf(IsDashOrSpace)(s[k..]) == 0 ensures IsNameChar(s[k]) {
      assert s[k..][0] == s[k];
    }
    ReSubAllChars(s, RunOf(IsDashOrSpace), "-", IsNameChar);
  }

  /** Trimming keeps the isolated dashes isolated and leaves no dash at either end. */
  lemma TrimDashes(s: string)
    requires AllChars(s, IsNameChar) && Isolated(s, IsDashOrSpace, '-')
    ensures var t := Trim(s, IsDash);
      && AllChars(t, IsNameChar)
      && Isolated(t, IsDashOrSpace, '-')
      && (t != [] ==> t[0] != '-' && t[|t| - 1] != '-')
  {
    var t := Trim(s, IsDash);
    TrimAllChars(s, IsDash, IsNameChar);
    var d := TrimSlice(s, IsDash);
    SliceIsolated(s, d, d + |t|, IsDashOrSpace, '-');
    var a := TrimStart(s, IsDash);
    if t != [] {
      assert t == a[..|t|];
      assert t[0] == a[0];
    }
  }

  /** Lower-casing changes letters only, so it keeps a file name safe. */
  lemma LowerKeepsSafe(t: string)
    requires AllChars(t, IsNameChar) && Isolated(t, IsDashOrSpace, '-')
    requires t != [] ==> t[0] != '-' && t[|t| - 1] != '-'
    ensures IsSafeName(Lower(t))
  {
    LowerIsLowerCase(t);
  }

  /** `sanitize_filename` always returns a safe file name. */
  lemma SanitizeIsSafe(title: string)
    ensures IsSafeName(Sanitize(title))
  {
    var safe := ReSub(title, UnsafeCharAt, "-");
    var squashed := Squash(safe, IsDashOrSpace, '-');
    UnsafeReplaced(title);
    RunsReplaced(safe);
    SquashIsolated(safe, IsDashOrSpace, '-');
    TrimDashes(squashed);
    LowerKeepsSafe(Trim(squashed, IsDash));
  }

  /** A safe file name has nothing for the first substitution to replace. */
  lemma NoUnsafeToReplace(s: string)
    requires AllChars(s, IsNameChar)
    ensures ReSub(s, UnsafeCharAt, "-") == s
  {
    forall k | 0 <= k < |s| ensures UnsafeCharAt(s[k..]) == 0 {
      assert s[k..][0] == s[k];
    }
    ReSubIdentity(s, UnsafeCharAt, "-");
  }

  /** A safe file name comes back unchanged. */
  lemma SanitizeFixes(s: string)
    requires IsSafeName(s)
    ensures Sanitize(s) == s
  {
    NoUnsafeToReplace(s);
    SquashFixed(s, IsDashOrSpace, '-');
    TrimFixed(s, IsDash);
    LowerIsLowerCase(s);
  }

  /** `sanitize_filename` is idempotent. */
  lemma SanitizeIdempotent(title: string)
    ensures Sanitize(Sanitize(title)) == Sanitize(title)
  {
    SanitizeIsSafe(title);
    SanitizeFixes(Sanitize(title));
  }

  // ---------------------------------------------------------------------
  // normalize_title

  /** Length of the word at the start of `s`: up to the first whitespace. */
  function WordLen(s: string): (n: nat)
    requires s != [] && !IsSpace(s[0])
    ensures 1 <= n <= |s|
    ensures forall k :: 0 <= k < n ==> !IsSpace(s[k])
    ensures n < |s| ==> IsSpace(s[n])
    decreases |s|
  {
    if |s| == 1 || IsSpace(s[1]) then 1 else 1 + WordLen(s[1..])
  }

  /** `str.split()` without a separator: the maximal runs of non-whitespace, in order. */
  function SplitWords(s: string): seq<string>
    decreases |s|
  {
    if s == [] then []
    else if IsSpace(s[0]) then SplitWords(s[1..])
    else [s[..WordLen(s)]] + SplitWords(s[WordLen(s)..])
  }

  /** A word of `str.split()`: non-empty, without whitespace. */
  predicate IsWord(w: string) {
    w != [] && AllChars(w, IsNonSpace)
  }

  /** `normalize_title`: `' '.join(title.strip().split())`. */
  function NormalizeTitle(title: string): string {
    Join(SplitWords(Strip(title)), " ")
  }

  lemma {:induction false} SplitWordsAreWords(s: string)
    ensures forall i :: 0 <= i < |SplitWords(s)| ==> IsWord(SplitWords(s)[i])
    decreases |s|
  {
    if s != [] {
      if IsSpace(s[0]) {
        SplitWordsAreWords(s[1..]);
      } else {
        SplitWordsAreWords(s[WordLen(s)..]);
      }
    }
  }

  /** Words joined by single spaces: no whitespace at the ends and only isolated single spaces. */
  lemma {:induction false} JoinWordsShape(ws: seq<string>)
    requires forall i :: 0 <= i < |ws| ==> IsWord(ws[i])
    ensures var s := Join(ws, " ");
      && (s != [] ==> !IsSpace(s[0]) && !IsSpace(s[|s| - 1]))
      && SingleSpaced(s)
    decreases |ws|
  {
    if |ws| > 1 {
      var w := ws[0];
      var rest := Join(ws[1..], " ");
      JoinWordsShape(ws[1..]);
      JoinedShape(w, rest);
    }
  }

  /** Sequence bookkeeping for `JoinWordsShape`: a word, a space, and a joined rest. */
  lemma JoinedShape(w: string, rest: string)
    requires IsWord(w)
    requires rest != [] && !IsSpace(rest[0]) && !IsSpace(rest[|rest| - 1]) && SingleSpaced(rest)
    ensures var s := w + " " + rest;
      && !IsSpace(s[0]) && !IsSpace(s[|s| - 1])
      && SingleSpaced(s)
  {
    var s := w + " " + rest;
    assert forall i :: 0 <= i < |w| ==> s[i] == w[i];
    assert forall i :: |w| < i < |s| ==> s[i] == rest[i - |w| - 1];
  }

  /** The word at the start of `w + rest` is `w` when `rest` starts with whitespace. */
  lemma WordLenExact(w: string, rest: string)
    requires IsWord(w) && (rest != [] ==> IsSpace(rest[0]))
    ensures WordLen(w + rest) == |w|
  {
    var s := w + rest;
    assert forall k :: 0 <= k < |w| ==> s[k] == w[k];
    if rest != [] {
      assert s[|w|] == rest[0];
    }
  }

  /** `str.split()` of one word followed by a space and more text. */
  lemma SplitWordsCons(w: string, rest: string)
    requires IsWord(w)
    ensures SplitWords(w + " " + rest) == [w] + SplitWords(rest)
  {
    var s := w + " " + rest;
    WordLenExact(w, " " + rest);
    assert s == w + (" " + rest);
    assert s[..|w|] == w;
    assert s[|w|..] == " " + rest;
    assert (" " + rest)[1..] == rest;
  }

  /** `str.split()` of a single word. */
  lemma SplitWordsOne(w: string)
    requires IsWord(w)
    ensures SplitWords(w) == [w]
  {
    WordLenExact(w, []);
    assert w + [] == w;
    assert w[..|w|] == w && w[|w|..] == [];
  }

  /** Splitting words joined by single spaces gives the words back. */
  lemma {:induction false} SplitJoinWords(ws: seq<string>)
    requires forall i :: 0 <= i < |ws| ==> IsWord(ws[i])
    ensures SplitWords(Join(ws, " ")) == ws
    decreases |ws|
  {
    if |ws| == 1 {
      SplitWordsOne(ws[0]);
    } else if |ws| > 1 {
      SplitJoinWords(ws[1..]);
      JoinWordsShape(ws[1..]);
      SplitWordsCons(ws[0], Join(ws[1..], " "));
      assert [ws[0]] + ws[1..] == ws;
    }
  }

  /** The result of `normalize_title` has no whitespace at either end and only isolated single spaces. */
  lemma NormalizeTitleShape(title: string)
    ensures IsStripped(NormalizeTitle(title)) && SingleSpaced(NormalizeTitle(title))
  {
    SplitWordsAreWords(Strip(title));
    JoinWordsShape(SplitWords(Strip(title)));
  }

  /** `normalize_title` keeps the words of the title, in order. */
  lemma NormalizeTitleWords(title: string)
    ensures SplitWords(NormalizeTitle(title)) == SplitWords(Strip(title))
  {
    SplitWordsAreWords(Strip(title));
    SplitJoinWords(SplitWords(Strip(title)));
  }

  /** `normalize_title` is idempotent. */
  lemma NormalizeTitleIdempotent(title: string)
    ensures NormalizeTitle(NormalizeTitle(title)) == NormalizeTitle(title)
  {
    NormalizeTitleShape(title);
    StrippedStrip(NormalizeTitle(title));
    NormalizeTitleWords(title);
  }

  // ---------------------------------------------------------------------
  // find_exact_match

  /** A survey listing entry: `title` and `path` may each be missing. */
  datatype Survey = Survey(title: Option<string>, path: Option<string>)

  /** `survey.get('title', '')` */
  function TitleOf(s: Survey): string {
    match s.title
    case None => ""
    case Some(t) => t
  }

  /** The case-insensitive comparison of `find_exact_match`. */
  predicate SameTitle(s: Survey, target: string) {
    Lower(TitleOf(s)) == Lower(target)
  }

  /** The `matches` list: `survey.get('path')` of every survey whose title matches, in order. */
  function MatchingPaths(surveys: seq<Survey>, target: string): seq<Option<string>>
    decreases |surveys|
  {
    if surveys == [] then []
    else
      var front := MatchingPaths(surveys[..|surveys| - 1], target);
      var last := surveys[|surveys| - 1];
      if SameTitle(last, target) then front + [last.path] else front
  }

  const AmbiguousError: string := "Ambiguous: multiple surveys with same title"

  /**
   * The outcome of `find_exact_match`: `None` for no match, the one
   * match's path (itself `None` when missing), or the ambiguity error.
   */
  function ExactMatch(surveys: seq<Survey>, target: string): Result<Option<string>> {
    var ps := MatchingPaths(surveys, target);
    if |ps| == 0 then Success(None)
    else if |ps| > 1 then Failure(AmbiguousError)
    else Success(ps[0])
  }

  /** `find_exact_match`. */
  method FindExactMatch(surveys: seq<Survey>, targetTitle: string) returns (r: Result<Option<string>>)
    ensures r == ExactMatch(surveys, targetTitle)
  {
    var normalizedTarget := Lower(targetTitle);
    var matches: seq<Option<string>> := [];
    var i := 0;
    while i < |surveys|
      invariant 0 <= i <= |surveys|
      invariant matches == MatchingPaths(surveys[..i], targetTitle)
    {
      assert surveys[..i + 1][..i] == surveys[..i];
      var survey := surveys[i];
      var surveyTitle := Lower(TitleOf(survey));
      if surveyTitle == normalizedTarget {
        matches := matches + [survey.path];
      }
      i := i + 1;
    }
    assert surveys[..i] == surveys;
    if |matches| == 0 {
      r := Success(None);
    } else if |matches| > 1 {
      r := Failure(AmbiguousError);
    } else {
      r := Success(matches[0]);
    }
  }

  /** No path is collected exactly when no title matches. */
  lemma {:induction false} NoMatchingPaths(surveys: seq<Survey>, target: string)
    ensures MatchingPaths(surveys, target) == [] <==> forall i :: 0 <= i < |surveys| ==> !SameTitle(surveys[i], target)
    decreases |surveys|
  {
    if surveys != [] {
      var front := surveys[..|surveys| - 1];
      NoMatchingPaths(front, target);
      assert forall i :: 0 <= i < |front| ==> front[i] == surveys[i];
    }
  }

  /** Two matching titles collect at least two paths. */
  lemma {:induction false} TwoMatches(surveys: seq<Survey>, target: string, i: nat, j: nat)
    requires i < j < |surveys| && SameTitle(surveys[i], target) && SameTitle(surveys[j], target)
    ensures |MatchingPaths(surveys, target)| >= 2
    decreases |surveys|
  {
    var front := surveys[..|surveys| - 1];
    assert front[i] == surveys[i];
    if j == |surveys| - 1 {
      NoMatchingPaths(front, target);
    } else {
      assert front[j] == surveys[j];
      TwoMatches(front, target, i, j);
    }
  }

  /** A single collected path belongs to the only survey whose title matches. */
  lemma {:induction false} OneMatch(surveys: seq<Survey>, target: string) returns (i: nat)
    requires |MatchingPaths(surveys, target)| == 1
    ensures i < |surveys| && SameTitle(surveys[i], target)
    ensures MatchingPaths(surveys, target)[0] == surveys[i].path
    ensures forall j :: 0 <= j < |surveys| && j != i ==> !SameTitle(surveys[j], target)
    decreases |surveys|
  {
    var front := surveys[..|surveys| - 1];
    var last := surveys[|surveys| - 1];
    assert forall k :: 0 <= k < |front| ==> front[k] == surveys[k];
    if SameTitle(last, target) {
      NoMatchingPaths(front, target);
      i := |surveys| - 1;
    } else {
      i := OneMatch(front, target);
    }
  }

  /** At least two collected paths come from two surveys whose titles match. */
  lemma {:induction false} TwoFromMatches(surveys: seq<Survey>, target: string) returns (i: nat, j: nat)
    requires |MatchingPaths(surveys, target)| >= 2
    ensures i < j < |surveys| && SameTitle(surveys[i], target) && SameTitle(surveys[j], target)
    decreases |surveys|
  {
    var front := surveys[..|surveys| - 1];
    var last := surveys[|surveys| - 1];
    if SameTitle(last, target) {
      assert |MatchingPaths(front, target)| >= 1;
      NoMatchingPaths(front, target);
      var k :| 0 <= k < |front| && SameTitle(front[k], target);
      assert front[k] == surveys[k];
      i, j := k, |surveys| - 1;
    } else {
      i, j := TwoFromMatches(front, target);
      assert front[i] == surveys[i] && front[j] == surveys[j];
    }
  }

  /** `find_exact_match` raises exactly when two or more surveys have the title, and then with the ambiguity error. */
  lemma AmbiguousIffTwo(surveys: seq<Survey>, target: string)
    ensures ExactMatch(surveys, target).Failure? <==>
      exists i, j :: 0 <= i < j < |surveys| && SameTitle(surveys[i], target) && SameTitle(surveys[j], target)
    ensures ExactMatch(surveys, target).Failure? ==> ExactMatch(surveys, target).error == AmbiguousError
  {
    if ExactMatch(surveys, target).Failure? {
      var i, j := TwoFromMatches(surveys, target);
    }
    if exists i, j :: 0 <= i < j < |surveys| && SameTitle(surveys[i], target) && SameTitle(surveys[j], target) {
      var i, j :| 0 <= i < j < |surveys| && SameTitle(surveys[i], target) && SameTitle(surveys[j], target);
      TwoMatches(surveys, target, i, j);
    }
  }

  /** Exactly one survey with the title: `find_exact_match` returns that survey's path. */
  lemma OneMatchPath(surveys: seq<Survey>, target: string, i: nat)
    requires i < |surveys| && SameTitle(surveys[i], target)
    requires forall j :: 0 <= j < |surveys| && j != i ==> !SameTitle(surveys[j], target)
    ensures ExactMatch(surveys, target) == Success(surveys[i].path)
  {
    NoMatchingPaths(surveys, target);
    if |MatchingPaths(surveys, target)| >= 2 {
      var a, b := TwoFromMatches(surveys, target);
      assert false;
    }
    var k := OneMatch(surveys, target);
    assert k == i;
  }

  /** No survey with the title: `find_exact_match` returns `None`. */
  lemma NoMatchNone(surveys: seq<Survey>, target: string)
    requires forall i :: 0 <= i < |surveys| ==> !SameTitle(surveys[i], target)
    ensures ExactMatch(surveys, target) == Success(None)
  {
    NoMatchingPaths(surveys, target);
  }

  /** When `find_exact_match` returns, at most one survey has the title, and a returned path is that survey's. */
  lemma ExactMatchUnique(surveys: seq<Survey>, target: string)
    requires ExactMatch(surveys, target).Success?
    ensures forall i, j :: 0 <= i < j < |surveys| && SameTitle(surveys[i], target) ==> !SameTitle(surveys[j], target)
    ensures ExactMatch(surveys, target).value != None ==>
      exists i :: 0 <= i < |surveys| && SameTitle(surveys[i], target) && surveys[i].path == ExactMatch(surveys, target).value
  {
    forall i, j | 0 <= i < j < |surveys| && SameTitle(surveys[i], target) ensures !SameTitle(surveys[j], target) {
      if SameTitle(surveys[j], target) {
        TwoMatches(surveys, target, i, j);
      }
    }
    if ExactMatch(surveys, target).value != None {
      var i := OneMatch(surveys, target);
      assert 0 <= i < |surveys| && SameTitle(surveys[i], target) && surveys[i].path == ExactMatch(surveys, target).value;
    }
  }

  // ---------------------------------------------------------------------
  // extract_survey_id

  /** `path.rstrip('/').split('/')[-1]` */
  function SurveyId(path: string): (id: string)
    ensures '/' !in id
  {
    var parts := Split(TrimEnd(path, IsSlash), '/');
    parts[|parts| - 1]
  }

  /** The last piece of a split starts after the last separator, or at the start when there is none. */
  lemma {:induction false} LastPiece(s: string, sep: char) returns (d: nat)
    ensures d <= |s|
    ensures Split(s, sep)[|Split(s, sep)| - 1] == s[d..]
    ensures |Split(s, sep)| == 1 ==> d == 0
    ensures |Split(s, sep)| > 1 ==> d > 0 && s[d - 1] == sep
    decreases |s|
  {
    if s == [] {
      d := 0;
    } else {
      var d' := LastPiece(s[1..], sep);
      var rest := Split(s[1..], sep);
      if s[0] == sep || |rest| > 1 {
        d := d' + 1;
        assert s[1..][d'..] == s[d..];
      } else {
        d := 0;
        assert [s[0]] + s[1..] == s;
      }
    }
  }

  /** The survey id is what follows the last '/' once trailing '/' are removed (all of it when there is no '/'). */
  lemma SurveyIdIsLastSegment(path: string) returns (d: nat)
    ensures var t := TrimEnd(path, IsSlash);
      && d <= |t|
      && SurveyId(path) == t[d..]
      && (d == 0 || t[d - 1] == '/')
  {
    d := LastPiece(TrimEnd(path, IsSlash), '/');
  }

  /** A string without '/' splits into itself. */
  lemma {:induction false} SplitNoSep(s: string, sep: char)
    requires sep !in s
    ensures Split(s, sep) == [s]
    decreases |s|
  {
    if s != [] {
      SplitNoSep(s[1..], sep);
      assert [s[0]] + s[1..] == s;
    }
  }

  /** A path without '/' is its own id, so `extract_survey_id` is idempotent. */
  lemma SurveyIdOfId(path: string)
    requires '/' !in path
    ensures SurveyId(path) == path
  {
    if path != [] {
      assert path[|path| - 1] in path;
    }
    assert TrimEnd(path, IsSlash) == path;
    SplitNoSep(path, '/');
  }
}
