/**
 * `QuestionMatcher.normalize_text` and `calculate_similarity`: the text
 * clean-up applied to both sides before they are compared, and the
 * weighted score built on three fuzzy ratios.
 */
module Normalize {
  import opened Text
  import opened Regex

  /** The survey boilerplate removed before comparing, as the case-insensitive literals match it. */
  const Artifacts: seq<string> := [
    "(please select one)",
    "(select all that apply)",
    "(check all that apply)",
    "(single response)",
    "(multiple response)"
  ]

  /** The pattern `re.escape(lit)` compiled with `re.IGNORECASE`. */
  function IgnoreCase(lit: string): Matcher {
    (u: string) => LiteralIgnoreCaseAt(lit, u)
  }

  /** `re.sub(artifact, '', text, flags=re.IGNORECASE)` for each artifact in turn. */
  function RemoveArtifacts(t: string, arts: seq<string>): string
    decreases |arts|
  {
    if arts == [] then t
    else
      RemoveArtifacts(ReSub(t, IgnoreCase(arts[0]), ""), arts[1..])
  }

  /** `re.sub(r'\s+', ' ', t).strip()` */
  function Squeeze(t: string): string {
    Strip(Collapse(t))
  }

  /** `re.sub(r'[^\w\s\?]', ' ', t)` */
  function Depunctuate(t: string): string {
    ReSub(t, PunctuationAt, " ")
  }

  /** `normalize_text` */
  function Normalize(text: string): string {
    Lower(Squeeze(Depunctuate(RemoveArtifacts(Squeeze(text), Artifacts))))
  }

  /** What `normalize_text` promises of its output. */
  predicate IsNormal(s: string) {
    && IsLowerCase(s)
    && IsStripped(s)
    && SingleSpaced(s)
    && AllChars(s, IsWordSpaceChar)
  }

  /** A word character, a space or a question mark. */
  predicate IsWordSpaceChar(c: char) {
    IsWordChar(c) || c == ' ' || c == '?'
  }

  /** Punctuation becomes spaces, so afterwards only word characters, whitespace and '?' are left. */
  lemma PunctuationGone(s: string)
    ensures AllChars(Depunctuate(s), IsWordSpaceOrQuestion)
  {
    forall k | 0 <= k < |s| && PunctuationAt(s[k..]) == 0 ensures IsWordSpaceOrQuestion(s[k]) {
      assert s[k..][0] == s[k];
    }
    ReSubAllChars(s, PunctuationAt, " ", IsWordSpaceOrQuestion);
  }

  /** Collapsing whitespace leaves ' ' as the only whitespace character. */
  lemma CollapseWordSpace(s: string)
    requires AllChars(s, IsWordSpaceOrQuestion)
    ensures AllChars(Collapse(s), IsWordSpaceChar)
  {
    forall k | 0 <= k < |s| && RunOf(IsSpace)(s[k..]) == 0 ensures IsWordSpaceChar(s[k]) {
      assert s[k..][0] == s[k];
    }
    ReSubAllChars(s, RunOf(IsSpace), " ", IsWordSpaceChar);
  }

  /** Cutting a single-spaced string at both ends keeps it single-spaced. */
  lemma StripSingleSpaced(s: string)
    requires SingleSpaced(s)
    ensures SingleSpaced(Strip(s))
  {
    var d := TrimSlice(s, IsSpace);
    SliceIsolated(s, d, d + |Strip(s)|, IsSpace, ' ');
  }

  lemma SqueezeShape(s: string)
    ensures IsStripped(Squeeze(s)) && SingleSpaced(Squeeze(s))
  {
    StripIsStripped(Collapse(s));
    SquashIsolated(s, IsSpace, ' ');
    StripSingleSpaced(Collapse(s));
  }

  /** Lower-casing changes no whitespace, and maps the word characters, ' ' and '?' into themselves. */
  lemma LowerKeepsShape(s: string)
    ensures IsStripped(s) ==> IsStripped(Lower(s))
    ensures SingleSpaced(s) ==> SingleSpaced(Lower(s))
    ensures AllChars(s, IsWordSpaceChar) ==> AllChars(Lower(s), IsWordSpaceChar)
  {
    LowerIsLowerCase(s);
  }

  /**
   * The output of `normalize_text` is lower case, has no leading or
   * trailing whitespace, no whitespace but isolated single spaces, and no
   * character but word characters, spaces and '?'.
   */
  lemma NormalizeIsNormal(text: string)
    ensures IsNormal(Normalize(text))
  {
    var t := RemoveArtifacts(Squeeze(text), Artifacts);
    var u := Depunctuate(t);
    PunctuationGone(t);
    CollapseWordSpace(u);
    TrimAllChars(Collapse(u), IsSpace, IsWordSpaceChar);
    SqueezeShape(u);
    LowerKeepsShape(Squeeze(u));
    LowerIsLowerCase(Squeeze(u));
  }

  /** A literal that starts with '(' cannot match at a word character, a space or '?'. */
  lemma NoLiteralAt(s: string, lit: string, k: nat)
    requires lit != [] && lit[0] == '('
    requires k < |s| && IsWordSpaceChar(s[k])
    ensures LiteralIgnoreCaseAt(lit, s[k..]) == 0
  {
    if |lit| <= |s[k..]| {
      assert Lower(s[k..][..|lit|])[0] == ToLower(s[k]);
    }
  }

  /** Text of word characters, spaces and '?' holds no match for a literal that starts with '('. */
  lemma LiteralAbsent(s: string, lit: string)
    requires lit != [] && lit[0] == '('
    requires AllChars(s, IsWordSpaceChar)
    ensures ReSub(s, IgnoreCase(lit), "") == s
  {
    forall k | 0 <= k < |s| ensures IgnoreCase(lit)(s[k..]) == 0 {
      NoLiteralAt(s, lit, k);
    }
    ReSubIdentity(s, IgnoreCase(lit), "");
  }

  /** No artifact can start at a word character, a space or '?', so normal text keeps every artifact pass a no-op. */
  lemma {:induction false} ArtifactsAbsent(s: string, arts: seq<string>)
    requires forall j :: 0 <= j < |arts| ==> arts[j] != [] && arts[j][0] == '('
    requires AllChars(s, IsWordSpaceChar)
    ensures RemoveArtifacts(s, arts) == s
    decreases |arts|
  {
    if arts != [] {
      LiteralAbsent(s, arts[0]);
      ArtifactsAbsent(s, arts[1..]);
    }
  }

  /** Every artifact starts with '('. */
  lemma ArtifactsOpen()
    ensures forall j :: 0 <= j < |Artifacts| ==> Artifacts[j] != [] && Artifacts[j][0] == '('
  {
    assert Artifacts[0][0] == '(' && Artifacts[1][0] == '(' && Artifacts[2][0] == '(';
    assert Artifacts[3][0] == '(' && Artifacts[4][0] == '(';
  }

  /** Single-spaced, stripped text is left alone by `Squeeze`. */
  lemma SqueezeFixes(s: string)
    requires SingleSpaced(s) && IsStripped(s)
    ensures Squeeze(s) == s
  {
    SquashFixed(s, IsSpace, ' ');
    StrippedStrip(s);
  }

  /** Text of word characters, spaces and '?' holds no punctuation to replace. */
  lemma DepunctuateFixes(s: string)
    requires AllChars(s, IsWordSpaceChar)
    ensures Depunctuate(s) == s
  {
    forall k | 0 <= k < |s| ensures PunctuationAt(s[k..]) == 0 {
      assert s[k..][0] == s[k];
    }
    ReSubIdentity(s, PunctuationAt, " ");
  }

  /** Normal text is left alone: `normalize_text` changes nothing it has already done. */
  lemma NormalizeFixes(s: string)
    requires IsNormal(s)
    ensures Normalize(s) == s
  {
    SqueezeFixes(s);
    ArtifactsOpen();
    ArtifactsAbsent(s, Artifacts);
    DepunctuateFixes(s);
    LowerIsLowerCase(s);
  }

  /** `normalize_text` is idempotent. */
  lemma NormalizeIdempotent(text: string)
    ensures Normalize(Normalize(text)) == Normalize(text)
  {
    NormalizeIsNormal(text);
    NormalizeFixes(Normalize(text));
  }

  /** Punctuation is replaced by a space, character for character, and nothing else changes. */
  lemma {:induction false} DepunctuateSpaces(s: string)
    ensures |Depunctuate(s)| == |s|
    ensures forall k :: 0 <= k < |s| ==>
      Depunctuate(s)[k] == if IsWordSpaceOrQuestion(s[k]) then s[k] else ' '
    decreases |s|
  {
    if s != [] {
      ReSubStep(s, PunctuationAt, " ");
      DepunctuateSpaces(s[1..]);
      var r := Depunctuate(s);
      assert r == [r[0]] + Depunctuate(s[1..]);
      forall k | 0 < k < |s| ensures r[k] == if IsWordSpaceOrQuestion(s[k]) then s[k] else ' ' {
        assert s[1..][k - 1] == s[k];
      }
    }
  }

  /** The characters the artifacts are written with. */
  predicate IsArtifactChar(c: char) { 'a' <= c <= 'z' || c == ' ' || c == '(' || c == ')' }

  /** What the proofs need of an artifact as written: it opens with its only '(' and has no two spaces in a row. */
  predicate IsArtifactText(a: string) {
    && |a| >= 3 && a[0] == '(' && a[|a| - 1] == ')'
    && (forall k :: 0 < k < |a| ==> a[k] != '(')
    && (forall k :: 0 <= k < |a| ==> IsArtifactChar(a[k]))
    && (forall k :: 0 <= k < |a| - 1 && a[k] == ' ' ==> a[k + 1] != ' ')
  }

  /** The same for an artifact in any letter case, with its whitespace as `SingleSpaced` states it. */
  predicate IsArtifactShape(v: string) {
    && |v| >= 3 && v[0] == '(' && v[|v| - 1] == ')'
    && (forall k :: 0 < k < |v| ==> v[k] != '(')
    && SingleSpaced(v)
  }

  lemma ArtifactTexts(j: nat)
    requires j < |Artifacts|
    ensures IsArtifactText(Artifacts[j])
  {
    if j == 0 {
      PleaseSelectOneText();
    } else if j == 1 {
      SelectAllText();
    } else if j == 2 {
      CheckAllText();
    } else if j == 3 {
      SingleResponseText();
    } else {
      MultipleResponseText();
    }
  }

  // One literal per lemma keeps each proof small.
  lemma PleaseSelectOneText() ensures IsArtifactText(Artifacts[0]) { }
  lemma SelectAllText() ensures IsArtifactText(Artifacts[1]) { }
  lemma CheckAllText() ensures IsArtifactText(Artifacts[2]) { }
  lemma SingleResponseText() ensures IsArtifactText(Artifacts[3]) { }
  lemma MultipleResponseText() ensures IsArtifactText(Artifacts[4]) { }

  /** No artifact starts like another one. */
  lemma ArtifactHeads(j: nat)
    requires j < |Artifacts|
    ensures forall i :: 0 <= i < |Artifacts| && i != j ==> Artifacts[i][..3] != Artifacts[j][..3]
  {
    assert Artifacts[0][..3] == "(pl" && Artifacts[1][..3] == "(se" && Artifacts[2][..3] == "(ch";
    assert Artifacts[3][..3] == "(si" && Artifacts[4][..3] == "(mu";
  }

  /** Lower-casing only moves letters, so it keeps whitespace and the parentheses where they are. */
  lemma ToLowerKeeps(c: char)
    ensures IsSpace(c) <==> IsSpace(ToLower(c))
    ensures IsSpace(c) ==> ToLower(c) == c
    ensures c == '(' <==> ToLower(c) == '('
    ensures c == ')' <==> ToLower(c) == ')'
  {
  }

  /** An artifact in any letter case has the artifact's shape. */
  lemma VariantShape(v: string, a: string)
    requires IsArtifactText(a) && Lower(v) == a
    ensures IsArtifactShape(v)
  {
    forall k | 0 <= k < |v|
      ensures (IsSpace(v[k]) <==> a[k] == ' ') && (IsSpace(v[k]) ==> v[k] == ' ')
      ensures (v[k] == '(' <==> a[k] == '(') && (v[k] == ')' <==> a[k] == ')')
    {
      assert ToLower(v[k]) == a[k] && IsArtifactChar(a[k]);
      ToLowerKeeps(v[k]);
    }
  }

  /** A pass for a literal that starts otherwise finds nothing in normal text followed by the artifact. */
  lemma OtherPassMisses(w: string, v: string, lit: string, a: string)
    requires AllChars(w, IsWordSpaceChar)
    requires IsArtifactText(a) && Lower(v) == a
    requires |lit| >= 3 && lit[0] == '(' && lit[..3] != a[..3]
    ensures ReSub(w + v, IgnoreCase(lit), "") == w + v
  {
    var x := w + v;
    VariantShape(v, a);
    forall k | 0 <= k < |x| ensures IgnoreCase(lit)(x[k..]) == 0 {
      if k < |w| {
        NoLiteralAt(x, lit, k);
      } else {
        NoOtherInArtifact(w, v, lit, a, k);
      }
    }
    ReSubIdentity(x, IgnoreCase(lit), "");
  }

  /** Inside the artifact the literal cannot start: not at its head, and nowhere after its only '('. */
  lemma NoOtherInArtifact(w: string, v: string, lit: string, a: string, k: nat)
    requires IsArtifactShape(v) && Lower(v) == a
    requires |lit| >= 3 && lit[0] == '(' && lit[..3] != a[..3]
    requires |w| <= k < |w + v|
    ensures LiteralIgnoreCaseAt(lit, (w + v)[k..]) == 0
  {
    var x := w + v;
    if k == |w| {
      assert x[k..] == v;
    } else if |lit| <= |x[k..]| {
      assert x[k] == v[k - |w|];
      assert Lower(x[k..][..|lit|])[0] == ToLower(x[k]);
      ToLowerKeeps(x[k]);
    }
  }

  /** The artifact's own pass removes it and leaves the text before it. */
  lemma OwnPassHits(w: string, v: string, a: string)
    requires AllChars(w, IsWordSpaceChar)
    requires a != [] && a[0] == '(' && Lower(v) == a
    ensures ReSub(w + v, IgnoreCase(a), "") == w
  {
    forall k | 0 <= k < |w| ensures IgnoreCase(a)((w + v)[k..]) == 0 {
      NoLiteralAt(w + v, a, k);
    }
    ReSubSkip(w, v, IgnoreCase(a), "");
    assert v[..|a|] == v;
    ReSubStep(v, IgnoreCase(a), "");
    assert v[|v|..] == [];
  }

  /** Passes that change nothing can be dropped from the front. */
  lemma {:induction false} PassesSkip(x: string, arts: seq<string>, j: nat)
    requires j <= |arts|
    requires forall i :: 0 <= i < j ==> ReSub(x, IgnoreCase(arts[i]), "") == x
    ensures RemoveArtifacts(x, arts) == RemoveArtifacts(x, arts[j..])
    decreases j
  {
    if j > 0 {
      var rest := arts[1..];
      assert RemoveArtifacts(x, arts) == RemoveArtifacts(x, rest) by {
        assert ReSub(x, IgnoreCase(arts[0]), "") == x;
      }
      forall i | 0 <= i < j - 1 ensures ReSub(x, IgnoreCase(rest[i]), "") == x {
        assert rest[i] == arts[i + 1];
      }
      PassesSkip(x, rest, j - 1);
      assert rest[j - 1..] == arts[j..];
    }
  }

  /** Literals written as artifacts are, no two of which start alike. */
  predicate ArtifactList(arts: seq<string>) {
    && (forall i :: 0 <= i < |arts| ==> IsArtifactText(arts[i]))
    && (forall i, j :: 0 <= i < |arts| && 0 <= j < |arts| && i != j ==> arts[i][..3] != arts[j][..3])
  }

  lemma ArtifactsListed()
    ensures ArtifactList(Artifacts)
  {
    forall i | 0 <= i < |Artifacts| ensures IsArtifactText(Artifacts[i]) {
      ArtifactTexts(i);
    }
    forall j | 0 <= j < |Artifacts| {
      ArtifactHeads(j);
    }
  }

  /** Normal text followed by an artifact loses exactly the artifact in the artifact passes. */
  lemma ArtifactPassesLeave(w: string, v: string, arts: seq<string>, j: nat)
    requires AllChars(w, IsWordSpaceChar) && ArtifactList(arts)
    requires j < |arts| && Lower(v) == arts[j]
    ensures RemoveArtifacts(w + v, arts) == w
  {
    forall i | 0 <= i < j ensures ReSub(w + v, IgnoreCase(arts[i]), "") == w + v {
      OtherPassMisses(w, v, arts[i], arts[j]);
    }
    PassesSkip(w + v, arts, j);
    OwnPassThenNothing(w, v, arts[j..]);
  }

  /** The artifact's pass removes it; the passes after it find nothing more. */
  lemma OwnPassThenNothing(w: string, v: string, arts: seq<string>)
    requires AllChars(w, IsWordSpaceChar) && arts != []
    requires forall i :: 0 <= i < |arts| ==> IsArtifactText(arts[i])
    requires Lower(v) == arts[0]
    ensures RemoveArtifacts(w + v, arts) == w
  {
    var later := arts[1..];
    OwnPassHits(w, v, arts[0]);
    forall i | 0 <= i < |later| ensures later[i] != [] && later[i][0] == '(' {
      assert later[i] == arts[1 + i];
    }
    ArtifactsAbsent(w, later);
  }

  /** Normal text, a space and an artifact: single-spaced and stripped. */
  lemma JoinedShape(s: string, v: string)
    requires IsNormal(s) && s != [] && IsArtifactShape(v)
    ensures SingleSpaced(s + " " + v) && IsStripped(s + " " + v)
    ensures SingleSpaced(s + " ") && AllChars(s + " ", IsWordSpaceChar)
  {
    var x := s + " " + v;
    forall i | 0 <= i < |x| && IsSpace(x[i]) ensures x[i] == ' ' && (i + 1 < |x| ==> !IsSpace(x[i + 1])) {
      if i < |s| {
        assert x[i] == s[i];
        if i + 1 < |s| {
          assert x[i + 1] == s[i + 1];
        }
      } else if i == |s| {
        assert x[i + 1] == v[0];
      } else {
        assert x[i] == v[i - |s| - 1];
        if i + 1 < |x| {
          assert x[i + 1] == v[i - |s|];
        }
      }
    }
    assert x[|x| - 1] == v[|v| - 1];
  }

  /** Stripping a trailing space off stripped, non-empty text gives the text back. */
  lemma StripTrailingSpace(s: string)
    requires IsStripped(s) && s != []
    ensures Strip(s + " ") == s
  {
    assert TrimStart(s + " ", IsSpace) == s + " ";
    assert (s + " ")[..|s|] == s;
    TrimFixed(s, IsSpace);
    assert TrimEnd(s, IsSpace) == s;
  }

  /** Text already squeezed whose artifact passes leave clean text: only the final squeeze and lower-casing remain. */
  lemma NormalizeThrough(x: string, w: string)
    requires SingleSpaced(x) && IsStripped(x)
    requires RemoveArtifacts(x, Artifacts) == w && AllChars(w, IsWordSpaceChar)
    ensures Normalize(x) == Lower(Squeeze(w))
  {
    SqueezeFixes(x);
    DepunctuateFixes(w);
  }

  /**
   * The five survey artifacts are removed in any letter case: an artifact
   * alone normalises to nothing, and after normalised text it is dropped.
   */
  lemma ArtifactsRemoved(s: string, v: string, j: nat)
    requires j < |Artifacts| && Lower(v) == Artifacts[j]
    requires IsNormal(s)
    ensures Normalize(v) == []
    ensures s != [] ==> Normalize(s + " " + v) == s
  {
    ArtifactsListed();
    ArtifactTexts(j);
    VariantShape(v, Artifacts[j]);
    ArtifactAlone(v, j);
    if s != [] {
      ArtifactAppended(s, v, j);
    }
  }

  lemma ArtifactAlone(v: string, j: nat)
    requires ArtifactList(Artifacts) && IsArtifactShape(v)
    requires j < |Artifacts| && Lower(v) == Artifacts[j]
    ensures Normalize(v) == []
  {
    AloneLeavesNothing(v, Artifacts, j);
    NormalizeThrough(v, []);
  }

  lemma AloneLeavesNothing(v: string, arts: seq<string>, j: nat)
    requires ArtifactList(arts) && j < |arts| && Lower(v) == arts[j]
    ensures RemoveArtifacts(v, arts) == []
  {
    var e: string := [];
    ArtifactPassesLeave(e, v, arts, j);
    assert e + v == v;
  }

  lemma ArtifactAppended(s: string, v: string, j: nat)
    requires ArtifactList(Artifacts) && IsArtifactShape(v)
    requires j < |Artifacts| && Lower(v) == Artifacts[j]
    requires IsNormal(s) && s != []
    ensures Normalize(s + " " + v) == s
  {
    var w := s + " ";
    JoinedShape(s, v);
    assert s + " " + v == w + v;
    ArtifactPassesLeave(w, v, Artifacts, j);
    NormalizeThrough(w + v, w);
    SquashFixed(w, IsSpace, ' ');
    StripTrailingSpace(s);
    LowerIsLowerCase(s);
  }

  /** A score of the fuzzy matching library: an integer from 0 to 100. */
  type Percent = x: int | 0 <= x <= 100

  /** `fuzz.ratio`, `fuzz.partial_ratio` and `fuzz.token_sort_ratio`. */
  datatype Fuzz = Fuzz(
    ratio: (string, string) -> Percent,
    partialRatio: (string, string) -> Percent,
    tokenSortRatio: (string, string) -> Percent)

  /** `calculate_similarity`: 0.3, 0.3 and 0.4 times the three ratios, scaled to [0, 1]. */
  function Similarity(fz: Fuzz, text1: string, text2: string): real {
    var n1 := Normalize(text1);
    var n2 := Normalize(text2);
    (3 * fz.ratio(n1, n2) + 3 * fz.partialRatio(n1, n2) + 4 * fz.tokenSortRatio(n1, n2)) as real / 1000.0
  }

  /**
   * The score lies in [0, 1]; it is 1 exactly when all three ratios are
   * 100 and 0 exactly when all three are 0.
   */
  lemma SimilarityRange(fz: Fuzz, text1: string, text2: string)
    ensures 0.0 <= Similarity(fz, text1, text2) <= 1.0
    ensures var n1 := Normalize(text1); var n2 := Normalize(text2);
      Similarity(fz, text1, text2) == 1.0 <==>
        fz.ratio(n1, n2) == 100 && fz.partialRatio(n1, n2) == 100 && fz.tokenSortRatio(n1, n2) == 100
    ensures var n1 := Normalize(text1); var n2 := Normalize(text2);
      Similarity(fz, text1, text2) == 0.0 <==>
        fz.ratio(n1, n2) == 0 && fz.partialRatio(n1, n2) == 0 && fz.tokenSortRatio(n1, n2) == 0
  {
  }

  /** Normalising either text first does not change the score. */
  lemma SimilarityOfNormal(fz: Fuzz, text1: string, text2: string)
    ensures Similarity(fz, Normalize(text1), Normalize(text2)) == Similarity(fz, text1, text2)
  {
    NormalizeIdempotent(text1);
    NormalizeIdempotent(text2);
  }
}
