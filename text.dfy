/**
 * Character classes and string primitives shared by every module: the
 * pieces of Python's `str` API that the pipeline leans on (`strip`,
 * `lower`, `replace`, `split`, `join`, `in`), over the ASCII repertoire.
 */
module Text {

  datatype Option<+T> = None | Some(value: T)

  /** A value, or the exception that the source raises instead. */
  datatype Result<+T> = Success(value: T) | Failure(error: string)

  /**
   * Whitespace as `str.isspace`, `str.strip`, `str.split` and the regex
   * class `\s` see it: the ASCII controls 9 to 13 and 28 to 31, the space,
   * and the Unicode spaces and separators.
   */
  predicate IsSpace(c: char) {
    || c == ' ' || '\t' <= c <= '\r' || '\U{1C}' <= c <= '\U{1F}'
    || c == '\U{85}' || c == '\U{A0}' || c == '\U{1680}' || '\U{2000}' <= c <= '\U{200A}'
    || c == '\U{2028}' || c == '\U{2029}' || c == '\U{202F}' || c == '\U{205F}' || c == '\U{3000}'
  }

  predicate IsDigit(c: char) { '0' <= c <= '9' }

  predicate IsUpper(c: char) { 'A' <= c <= 'Z' }

  predicate IsLetter(c: char) { 'A' <= c <= 'Z' || 'a' <= c <= 'z' }

  /** The regex class `\w`. */
  predicate IsWordChar(c: char) { IsLetter(c) || IsDigit(c) || c == '_' }

  function ToLower(c: char): char {
    if IsUpper(c) then (c as int + 32) as char else c
  }

  /** `str.lower()`. */
  function Lower(s: string): (r: string)
    ensures |r| == |s|
    ensures forall i :: 0 <= i < |s| ==> r[i] == ToLower(s[i])
  {
    seq(|s|, i requires 0 <= i < |s| => ToLower(s[i]))
  }

  predicate IsLowerCase(s: string) {
    forall i :: 0 <= i < |s| ==> !IsUpper(s[i])
  }

  /** Lower-casing leaves no upper-case letter, and changes nothing else that is not a letter. */
  lemma LowerIsLowerCase(s: string)
    ensures IsLowerCase(Lower(s))
    ensures IsLowerCase(s) ==> Lower(s) == s
  {
  }

  predicate IsPrefix(w: string, t: string) {
    |w| <= |t| && t[..|w|] == w
  }

  /** `w in s` for strings. */
  predicate Occurs(w: string, s: string) {
    exists k :: 0 <= k <= |s| && IsPrefix(w, s[k..])
  }

  /** Removes the leading characters that satisfy `p`. */
  function TrimStart(s: string, p: char -> bool): (r: string)
    ensures |r| <= |s| && r == s[|s| - |r|..]
    ensures r != [] ==> !p(r[0])
    ensures forall i :: 0 <= i < |s| - |r| ==> p(s[i])
    decreases |s|
  {
    if s != [] && p(s[0]) then TrimStart(s[1..], p) else s
  }

  /** Removes the trailing characters that satisfy `p`. */
  function TrimEnd(s: string, p: char -> bool): (r: string)
    ensures |r| <= |s| && r == s[..|r|]
    ensures r != [] ==> !p(r[|r| - 1])
    ensures forall i :: |r| <= i < |s| ==> p(s[i])
    decreases |s|
  {
    if s != [] && p(s[|s| - 1]) then TrimEnd(s[..|s| - 1], p) else s
  }

  /** `str.strip(chars)`: both ends. */
  function Trim(s: string, p: char -> bool): string {
    TrimEnd(TrimStart(s, p), p)
  }

  /** `str.strip()`. */
  function Strip(s: string): string {
    Trim(s, IsSpace)
  }

  /** A string `str.strip()` leaves alone. */
  predicate IsStripped(s: string) {
    s != [] ==> !IsSpace(s[0]) && !IsSpace(s[|s| - 1])
  }

  /** `str.strip()` leaves nothing for a second call to remove. */
  lemma StripIsStripped(s: string)
    ensures IsStripped(Strip(s))
  {
  }

  /** Every character of `s` has property `p`. */
  predicate AllChars(s: string, p: char -> bool) {
    forall i :: 0 <= i < |s| ==> p(s[i])
  }

  /** Trimming keeps a property every character has. */
  lemma TrimAllChars(s: string, q: char -> bool, p: char -> bool)
    requires AllChars(s, p)
    ensures AllChars(Trim(s, q), p)
  {
    var a := TrimStart(s, q);
    var b := TrimEnd(a, q);
    assert forall i :: 0 <= i < |b| ==> b[i] == a[i] == s[|s| - |a| + i];
  }

  /** Trimming returns a slice of its input. */
  lemma TrimSlice(s: string, p: char -> bool) returns (d: nat)
    ensures d + |Trim(s, p)| <= |s| && Trim(s, p) == s[d..d + |Trim(s, p)|]
  {
    var a := TrimStart(s, p);
    d := |s| - |a|;
  }

  /** A string with nothing to trim at either end is left alone. */
  lemma TrimFixed(s: string, p: char -> bool)
    requires s != [] ==> !p(s[0]) && !p(s[|s| - 1])
    ensures Trim(s, p) == s
  {
    if s != [] {
      assert TrimStart(s, p) == s;
    }
  }

  /** A stripped string strips to itself. */
  lemma StrippedStrip(s: string)
    requires IsStripped(s)
    ensures Strip(s) == s
  {
    TrimFixed(s, IsSpace);
  }

  /** Stripping only cuts characters off the ends, so it adds no character. */
  lemma StripKeepsAbsent(s: string, c: char)
    requires c !in s
    ensures c !in Strip(s)
  {
    var a := TrimStart(s, IsSpace);
    var b := TrimEnd(a, IsSpace);
    assert forall i :: 0 <= i < |b| ==> b[i] == a[i] == s[|s| - |a| + i];
  }

  /** A string with a non-space character does not strip to nothing. */
  lemma StripNonEmpty(s: string, i: nat)
    requires i < |s| && !IsSpace(s[i])
    ensures Strip(s) != []
  {
    var a := TrimStart(s, IsSpace);
    assert i >= |s| - |a|;
    assert a[i - (|s| - |a|)] == s[i];
  }

  /** Stripping removes exactly a whitespace tail from an already stripped string. */
  lemma StripSpacesAfter(x: string, w: string)
    requires x != [] && IsStripped(x)
    requires forall i :: 0 <= i < |w| ==> IsSpace(w[i])
    ensures Strip(x + w) == x
  {
    var s := x + w;
    assert s[0] == x[0];
    assert TrimStart(s, IsSpace) == s;
    var r := TrimEnd(s, IsSpace);
    assert s[|x| - 1] == x[|x| - 1];
    assert forall i :: |x| <= i < |s| ==> s[i] == w[i - |x|];
    assert |r| >= |x|;
    assert r == s[..|x|] == x;
  }

  /** `s.replace(pat, rep)`: every non-overlapping occurrence, scanning left to right. */
  function Replace(s: string, pat: string, rep: string): string
    requires pat != []
    decreases |s|
  {
    if |s| < |pat| then s
    else if s[..|pat|] == pat then rep + Replace(s[|pat|..], pat, rep)
    else [s[0]] + Replace(s[1..], pat, rep)
  }

  /** `s.split(sep)`: the pieces between separators, empty ones included. */
  function Split(s: string, sep: char): (r: seq<string>)
    ensures |r| >= 1
    ensures forall i :: 0 <= i < |r| ==> sep !in r[i]
    decreases |s|
  {
    if s == [] then [""]
    else if s[0] == sep then [""] + Split(s[1..], sep)
    else var rest := Split(s[1..], sep); [[s[0]] + rest[0]] + rest[1..]
  }

  /** `sep.join(parts)`. */
  function Join(parts: seq<string>, sep: string): string {
    if parts == [] then ""
    else if |parts| == 1 then parts[0]
    else parts[0] + sep + Join(parts[1..], sep)
  }

  /** Splitting undoes joining with the same one-character separator, and back. */
  lemma {:induction false} SplitJoin(s: string, sep: char)
    ensures Join(Split(s, sep), [sep]) == s
    decreases |s|
  {
    if s != [] {
      SplitJoin(s[1..], sep);
      var rest := Split(s[1..], sep);
      if s[0] != sep && |rest| > 1 {
        assert Join(Split(s, sep), [sep]) == [s[0]] + rest[0] + [sep] + Join(rest[1..], [sep]);
      }
    }
  }

  /** Joining, seen one character at a time: the first character of a non-empty first part comes out first. */
  lemma JoinHead(parts: seq<string>, sep: char)
    requires |parts| >= 1 && |parts[0]| > 0
    ensures Join(parts, [sep]) == [parts[0][0]] + Join([parts[0][1..]] + parts[1..], [sep])
  {
    var shorter := [parts[0][1..]] + parts[1..];
    assert shorter[1..] == parts[1..];
    assert [parts[0][0]] + parts[0][1..] == parts[0];
  }

  /** Splitting, seen one character at a time: a character other than the separator joins the first piece. */
  lemma SplitHead(c: char, s: string, sep: char)
    requires c != sep
    ensures Split([c] + s, sep) == [[c] + Split(s, sep)[0]] + Split(s, sep)[1..]
  {
    assert ([c] + s)[1..] == s;
  }

  lemma {:induction false} JoinSplit(parts: seq<string>, sep: char)
    requires |parts| >= 1
    requires forall i :: 0 <= i < |parts| ==> sep !in parts[i]
    ensures Split(Join(parts, [sep]), sep) == parts
    decreases |parts|, |parts[0]|
  {
    if |parts[0]| > 0 {
      var c := parts[0][0];
      var shorter := [parts[0][1..]] + parts[1..];
      assert c in parts[0];
      JoinSplit(shorter, sep);
      JoinHead(parts, sep);
      SplitHead(c, Join(shorter, [sep]), sep);
      assert [c] + parts[0][1..] == parts[0];
    } else if |parts| > 1 {
      JoinSplit(parts[1..], sep);
      assert Join(parts, [sep]) == [sep] + Join(parts[1..], [sep]);
    }
  }

  /** Scanning `x + y` for `y` finds nothing before the final copy when no copy of `y` starts inside `x`. */
  lemma {:induction false} ReplaceOnlyAtEnd(x: string, y: string)
    requires y != []
    requires forall k :: 0 <= k < |x| ==> !IsPrefix(y, (x + y)[k..])
    ensures Replace(x + y, y, "") == x
    decreases |x|
  {
    if x == [] {
      assert (x + y)[..|y|] == y;
      assert (x + y)[|y|..] == [];
    } else {
      var s := x + y;
      assert !IsPrefix(y, s[0..]);
      assert s[0..] == s;
      assert s[1..] == x[1..] + y;
      forall k | 0 <= k < |x[1..]| ensures !IsPrefix(y, (x[1..] + y)[k..]) {
        assert (x[1..] + y)[k..] == s[k + 1..];
      }
      ReplaceOnlyAtEnd(x[1..], y);
      assert [x[0]] + x[1..] == x;
    }
  }
}
