/**
 * The regular expressions the pipeline hands to `re.sub`, written out as
 * deterministic scanners. `m(t)` is the length of the match that
 * Python's backtracking engine finds for `p` anchored at the start of `t`
 * (0 when there is none; none of these patterns can match the empty
 * string), and `ReSub` is `re.sub` built on it: try each position from the
 * left, replace a match and resume after it, otherwise keep the character.
 */
module Regex {
  import opened Text
  import opened Lists

  /**
   * A compiled pattern, seen through the one question `re.sub` asks of it:
   * how long is its match anchored at the start of `t` (0 when there is none).
   */
  type Matcher = m: string -> nat | forall t :: m(t) <= |t| witness (t: string) => 0

  predicate IsDashOrSpace(c: char) { c == '-' || IsSpace(c) }

  predicate IsUnsafe(c: char) {
    c == '/' || c == '\\' || c == ':' || c == '*' || c == '?' || c == '"' || c == '<' || c == '>' || c == '|'
  }

  predicate IsWordSpaceOrQuestion(c: char) { IsWordChar(c) || IsSpace(c) || c == '?' }

  /** Length of the longest prefix of `t` whose characters all satisfy `p`. */
  function SpanLen(t: string, p: char -> bool): (n: nat)
    ensures n <= |t|
    ensures forall i :: 0 <= i < n ==> p(t[i])
    ensures n < |t| ==> !p(t[n])
    decreases |t|
  {
    if t != [] && p(t[0]) then 1 + SpanLen(t[1..], p) else 0
  }

  /** Index of the first `c` in `t`, or `|t|` when there is none. */
  function Find(t: string, c: char): (i: nat)
    ensures i <= |t|
    ensures c !in t[..i]
    ensures i < |t| ==> t[i] == c
    decreases |t|
  {
    if t == [] then 0 else if t[0] == c then 0 else 1 + Find(t[1..], c)
  }

  /** The literal parts of the Decipher namespace declarations. */
  const NsPrefix: string := "xmlns:"
  const NsHost: string := "\"http://decipherinc.com/"
  const NsUrl: string := "=" + NsHost

  /** `[...]+` for a character class `p`: `\s+` is `RunOf(IsSpace)`, `[-\s]+` is `RunOf(IsDashOrSpace)`. */
  function RunOf(p: char -> bool): Matcher {
    (t: string) => SpanLen(t, p)
  }

  /** `[/\\:*?"<>|]` */
  function UnsafeCharAt(t: string): (n: nat)
    ensures n <= |t|
  {
    if t != [] && IsUnsafe(t[0]) then 1 else 0
  }

  /** `[^\w\s\?]` */
  function PunctuationAt(t: string): (n: nat)
    ensures n <= |t|
  {
    if t != [] && !IsWordSpaceOrQuestion(t[0]) then 1 else 0
  }

  /** An escaped literal compiled with `re.IGNORECASE`; `lit` is given in lower case. */
  function LiteralIgnoreCaseAt(lit: string, t: string): (n: nat)
    ensures n <= |t|
  {
    if lit != [] && |lit| <= |t| && Lower(t[..|lit|]) == lit then |lit| else 0
  }

  /**
   * `\s*LIT\s*` for an escaped literal that starts with a non-space: giving
   * back spaces from the leading `\s*` can never let LIT match.
   */
  function SpacedLiteralAt(lit: string, t: string): (n: nat)
    ensures n <= |t|
  {
    var j := SpanLen(t, IsSpace);
    if lit != [] && IsPrefix(lit, t[j..]) then j + |lit| + SpanLen(t[j + |lit|..], IsSpace) else 0
  }

  /** `re.sub(p, rep, s)`. */
  function ReSub(s: string, m: Matcher, rep: string): string
    decreases |s|
  {
    if s == [] then []
    else if m(s) > 0 then rep + ReSub(s[m(s)..], m, rep)
    else [s[0]] + ReSub(s[1..], m, rep)
  }

  /** No match anywhere: nothing is substituted. */
  lemma {:induction false} ReSubIdentity(s: string, m: Matcher, rep: string)
    requires forall k :: 0 <= k < |s| ==> m(s[k..]) == 0
    ensures ReSub(s, m, rep) == s
    decreases |s|
  {
    if s != [] {
      assert m(s[0..]) == 0 by { assert s[0..] == s; }
      forall k | 0 <= k < |s[1..]| ensures m(s[1..][k..]) == 0 {
        assert s[1..][k..] == s[k + 1..];
      }
      ReSubIdentity(s[1..], m, rep);
    }
  }

  /** Every character of the result comes from `rep` or is kept from a position where nothing matched. */
  lemma {:induction false} ReSubChars(s: string, m: Matcher, rep: string, i: nat)
    requires i < |ReSub(s, m, rep)|
    ensures ReSub(s, m, rep)[i] in rep
         || exists k :: 0 <= k < |s| && s[k] == ReSub(s, m, rep)[i] && m(s[k..]) == 0
    decreases |s|
  {
    var r := ReSub(s, m, rep);
    var n := m(s);
    if n > 0 {
      if i >= |rep| {
        ReSubChars(s[n..], m, rep, i - |rep|);
        if r[i] !in rep {
          var k :| 0 <= k < |s[n..]| && s[n..][k] == r[i] && m(s[n..][k..]) == 0;
          assert s[n..][k..] == s[n + k..];
          assert s[n + k] == r[i];
        }
      }
    } else if i == 0 {
      assert s[0..] == s;
    } else {
      ReSubChars(s[1..], m, rep, i - 1);
      if r[i] !in rep {
        var k :| 0 <= k < |s[1..]| && s[1..][k] == r[i] && m(s[1..][k..]) == 0;
        assert s[1..][k..] == s[k + 1..];
        assert s[k + 1] == r[i];
      }
    }
  }

  /** `re.sub` keeps a character property that the replacement and every unmatched character have. */
  lemma ReSubAllChars(s: string, m: Matcher, rep: string, p: char -> bool)
    requires AllChars(rep, p)
    requires forall k :: 0 <= k < |s| && m(s[k..]) == 0 ==> p(s[k])
    ensures AllChars(ReSub(s, m, rep), p)
  {
    var r := ReSub(s, m, rep);
    forall i | 0 <= i < |r| ensures p(r[i]) {
      ReSubChars(s, m, rep, i);
    }
  }

  /** One step of `re.sub`: the first position either matches or is copied. */
  lemma ReSubStep(s: string, m: Matcher, rep: string)
    requires s != []
    ensures m(s) > 0 ==> ReSub(s, m, rep) == rep + ReSub(s[m(s)..], m, rep)
    ensures m(s) == 0 ==> ReSub(s, m, rep) == [s[0]] + ReSub(s[1..], m, rep)
  {
  }

  /** Sequence bookkeeping for one step of `ReSubPrefix`, kept apart from `ReSub`'s definition. */
  lemma ConsSplice(r: string, s: string, w: string, tail: string, rest: string)
    requires w != [] && s != [] && s[0] == w[0]
    requires r == [s[0]] + tail && IsPrefix(w[1..], s[1..]) && tail == w[1..] + rest
    ensures r == w + rest && IsPrefix(w, s)
  {
    assert [s[0]] + w[1..] == w;
    assert s[..|w|] == [s[0]] + s[1..][..|w| - 1];
  }

  /** A front part in which nothing matches is copied as it is. */
  lemma {:induction false} ReSubSkip(a: string, b: string, m: Matcher, rep: string)
    requires forall k :: 0 <= k < |a| ==> m((a + b)[k..]) == 0
    ensures ReSub(a + b, m, rep) == a + ReSub(b, m, rep)
    decreases |a|
  {
    if a == [] {
      assert a + b == b;
    } else {
      SkipHead(a, b, m, rep);
      forall k | 0 <= k < |a[1..]| ensures m((a[1..] + b)[k..]) == 0 {
        SkipShift(a, b, k);
      }
      ReSubSkip(a[1..], b, m, rep);
      var r := ReSub(b, m, rep);
      assert [a[0]] + (a[1..] + r) == a + r by {
        assert [a[0]] + a[1..] == a;
      }
    }
  }

  lemma SkipShift(a: string, b: string, k: nat)
    requires a != [] && k < |a| - 1
    ensures (a[1..] + b)[k..] == (a + b)[k + 1..]
  {
  }

  /** The first character of the front part is copied. */
  lemma SkipHead(a: string, b: string, m: Matcher, rep: string)
    requires a != [] && m((a + b)[0..]) == 0
    ensures ReSub(a + b, m, rep) == [a[0]] + ReSub(a[1..] + b, m, rep)
  {
    var s := a + b;
    assert s[0..] == s;
    assert s[1..] == a[1..] + b;
  }

  /** A result prefix free of `rep`'s first character was copied unchanged from the input. */
  lemma {:induction false} ReSubPrefix(s: string, m: Matcher, rep: string, w: string)
    requires rep != [] && rep[0] !in w
    requires IsPrefix(w, ReSub(s, m, rep))
    ensures IsPrefix(w, s)
    ensures ReSub(s, m, rep) == w + ReSub(s[|w|..], m, rep)
    decreases |w|
  {
    if w == [] {
      assert s[0..] == s;
    } else {
      var r := ReSub(s, m, rep);
      assert r[0] == w[0] && w[0] in w;
      ReSubStep(s, m, rep);
      if m(s) > 0 {
        assert false;
      }
      var tail := ReSub(s[1..], m, rep);
      assert IsPrefix(w[1..], tail) by {
        assert tail[..|w| - 1] == r[1..|w|];
      }
      ReSubPrefix(s[1..], m, rep, w[1..]);
      assert s[1..][|w| - 1..] == s[|w|..];
      ConsSplice(r, s, w, tail, ReSub(s[|w|..], m, rep));
    }
  }

  predicate NowhereIn(w: string, s: string) {
    forall k :: 0 <= k <= |s| ==> !IsPrefix(w, s[k..])
  }

  /** Substituting a one-character replacement that `w` does not contain never creates an occurrence of `w`. */
  lemma {:induction false} ReSubKeepsAbsent(s: string, m: Matcher, rep: string, w: string)
    requires w != [] && |rep| == 1 && rep[0] !in w
    requires NowhereIn(w, s)
    ensures NowhereIn(w, ReSub(s, m, rep))
    decreases |s|
  {
    var r := ReSub(s, m, rep);
    if s != [] {
      var n := m(s);
      var step := if n > 0 then n else 1;
      var tail := ReSub(s[step..], m, rep);
      forall k | 0 <= k <= |s[step..]| ensures !IsPrefix(w, s[step..][k..]) {
        assert s[step..][k..] == s[step + k..];
      }
      ReSubKeepsAbsent(s[step..], m, rep, w);
      var head := if n > 0 then rep else [s[0]];
      assert r == head + tail;
      assert s[0..] == s && r[0..] == r;
      forall k | 0 <= k <= |r| ensures !IsPrefix(w, r[k..]) {
        if k >= |head| {
          assert r[k..] == tail[k - |head|..];
        } else if IsPrefix(w, r) {
          ReSubPrefix(s, m, rep, w);
        }
      }
    }
  }

  /**
   * A pattern that matches wherever `w` starts leaves no `w` behind when its
   * replacement is one character `w` does not contain.
   */
  lemma {:induction false} ReSubRemoves(s: string, m: Matcher, rep: string, w: string)
    requires w != [] && |rep| == 1 && rep[0] !in w
    requires forall t :: IsPrefix(w, t) ==> m(t) > 0
    ensures NowhereIn(w, ReSub(s, m, rep))
    decreases |s|
  {
    var r := ReSub(s, m, rep);
    if s != [] {
      var n := m(s);
      var step := if n > 0 then n else 1;
      var tail := ReSub(s[step..], m, rep);
      ReSubRemoves(s[step..], m, rep, w);
      ReSubStep(s, m, rep);
      var head := if n > 0 then rep else [s[0]];
      assert r == head + tail;
      forall k | 0 <= k <= |r| ensures !IsPrefix(w, r[k..]) {
        if k >= |head| {
          assert r[k..] == tail[k - |head|..];
        } else if IsPrefix(w, r[k..]) {
          assert w[0] == head[k];
          if n == 0 {
            assert r[0..] == r;
            ReSubPrefix(s, m, rep, w);
          }
        }
      }
    }
  }

  /** `re.sub(r'[...]+', c, s)` for a character class `p` holding `c`: every run of `p` becomes one `c`. */
  function Squash(s: string, p: char -> bool, c: char): string {
    ReSub(s, RunOf(p), [c])
  }

  /** The only characters of class `p` are isolated copies of `c`. */
  predicate Isolated(s: string, p: char -> bool, c: char) {
    forall i :: 0 <= i < |s| && p(s[i]) ==> s[i] == c && (i + 1 < |s| ==> !p(s[i + 1]))
  }

  lemma SquashStep(s: string, p: char -> bool, c: char)
    requires s != []
    ensures p(s[0]) ==> Squash(s, p, c) == [c] + Squash(s[SpanLen(s, p)..], p, c)
    ensures !p(s[0]) ==> Squash(s, p, c) == [s[0]] + Squash(s[1..], p, c)
  {
    ReSubStep(s, RunOf(p), [c]);
  }

  /** The squashed text starts with a character of class `p` exactly when the input does, and is empty exactly when the input is. */
  lemma {:induction false} SquashHead(s: string, p: char -> bool, c: char)
    requires p(c)
    ensures |Squash(s, p, c)| <= |s|
    ensures Squash(s, p, c) == [] <==> s == []
    ensures s != [] ==> p(Squash(s, p, c)[0]) == p(s[0])
    decreases |s|
  {
    if s != [] {
      SquashStep(s, p, c);
      if p(s[0]) {
        SquashHead(s[SpanLen(s, p)..], p, c);
      } else {
        SquashHead(s[1..], p, c);
      }
    }
  }

  /** Sequence bookkeeping for `SquashIsolated`: a character in front of an isolated text. */
  lemma ConsIsolated(x: char, t: string, p: char -> bool, c: char)
    requires Isolated(t, p, c)
    requires p(x) ==> x == c && (t != [] ==> !p(t[0]))
    ensures Isolated([x] + t, p, c)
  {
    var r := [x] + t;
    forall i | 0 <= i < |r| && p(r[i]) ensures r[i] == c && (i + 1 < |r| ==> !p(r[i + 1])) {
      if i > 0 {
        assert r[i] == t[i - 1];
        if i + 1 < |r| { assert r[i + 1] == t[i]; }
      }
    }
  }

  /** Squashing leaves only isolated copies of `c`. */
  lemma {:induction false} SquashIsolated(s: string, p: char -> bool, c: char)
    requires p(c)
    ensures Isolated(Squash(s, p, c), p, c)
    decreases |s|
  {
    if s != [] {
      SquashStep(s, p, c);
      if p(s[0]) {
        var rest := s[SpanLen(s, p)..];
        SquashIsolated(rest, p, c);
        SquashHead(rest, p, c);
        ConsIsolated(c, Squash(rest, p, c), p, c);
      } else {
        SquashIsolated(s[1..], p, c);
        ConsIsolated(s[0], Squash(s[1..], p, c), p, c);
      }
    }
  }

  /** A suffix of an isolated text is isolated. */
  lemma IsolatedTail(s: string, p: char -> bool, c: char)
    requires s != [] && Isolated(s, p, c)
    ensures Isolated(s[1..], p, c)
  {
    forall i | 0 <= i < |s[1..]| && p(s[1..][i]) ensures s[1..][i] == c && (i + 1 < |s[1..]| ==> !p(s[1..][i + 1])) {
      assert s[1..][i] == s[i + 1];
    }
  }

  /** Text that is already isolated comes back unchanged, so squashing is idempotent. */
  lemma {:induction false} SquashFixed(s: string, p: char -> bool, c: char)
    requires Isolated(s, p, c)
    ensures Squash(s, p, c) == s
    decreases |s|
  {
    if s != [] {
      SquashStep(s, p, c);
      IsolatedTail(s, p, c);
      SquashFixed(s[1..], p, c);
      if p(s[0]) {
        assert SpanLen(s, p) == 1;
      }
    }
  }

  lemma SquashIdempotent(s: string, p: char -> bool, c: char)
    requires p(c)
    ensures Squash(Squash(s, p, c), p, c) == Squash(s, p, c)
  {
    SquashIsolated(s, p, c);
    SquashFixed(Squash(s, p, c), p, c);
  }

  /** `re.sub(r'\s+', ' ', s)`: every whitespace run becomes one space. */
  function Collapse(s: string): string {
    Squash(s, IsSpace, ' ')
  }

  /** The only whitespace is isolated single spaces. */
  predicate SingleSpaced(s: string) {
    Isolated(s, IsSpace, ' ')
  }

  /** A slice of a text whose `p`-characters are isolated copies of `c` is again such a text. */
  lemma SliceIsolated(s: string, i: nat, j: nat, p: char -> bool, c: char)
    requires i <= j <= |s| && Isolated(s, p, c)
    ensures Isolated(s[i..j], p, c)
  {
    assert forall k :: 0 <= k < j - i ==> s[i..j][k] == s[i + k];
  }

  /** The characters of `s` outside the class `p`, in their order. */
  function Without(s: string, p: char -> bool): string
    decreases |s|
  {
    if s == [] then []
    else Without(s[..|s| - 1], p) + if p(s[|s| - 1]) then [] else [s[|s| - 1]]
  }

  /** The characters of `s` that are not whitespace, in their order. */
  function NonSpace(s: string): string {
    Without(s, IsSpace)
  }

  lemma {:induction false} WithoutAppend(a: string, b: string, p: char -> bool)
    ensures Without(a + b, p) == Without(a, p) + Without(b, p)
    decreases |b|
  {
    if b == [] {
      assert a + b == a;
    } else {
      WithoutAppend(a, b[..|b| - 1], p);
      assert (a + b)[..|a + b| - 1] == a + b[..|b| - 1];
    }
  }

  /** A text of the class alone leaves nothing. */
  lemma {:induction false} WithoutAll(w: string, p: char -> bool)
    requires AllChars(w, p)
    ensures Without(w, p) == []
    decreases |w|
  {
    if w != [] {
      WithoutAll(w[..|w| - 1], p);
    }
  }

  /** Leaving characters out of a text leaves out its characters outside `p`, the rest in order. */
  lemma {:induction false} WithoutSubseq(a: string, b: string, p: char -> bool)
    requires Subseq(a, b)
    ensures Subseq(Without(a, p), Without(b, p))
    decreases |b|
  {
    if a != [] {
      var a', b' := a[..|a| - 1], b[..|b| - 1];
      var x := b[|b| - 1];
      if a[|a| - 1] == x {
        WithoutSubseq(a', b', p);
        if p(x) {
          assert Without(a, p) == Without(a', p) && Without(b, p) == Without(b', p);
        } else {
          SubseqAppend(Without(a', p), Without(b', p), x);
        }
      } else {
        WithoutSubseq(a, b', p);
        if p(x) {
          assert Without(b, p) == Without(b', p);
        } else {
          SubseqExtend(Without(a, p), Without(b', p), x);
        }
      }
    }
  }

  /** Deleting every match keeps the other characters in order. */
  lemma {:induction false} ReSubDeletes(s: string, m: Matcher)
    ensures Subseq(ReSub(s, m, ""), s)
    decreases |s|
  {
    if s != [] {
      var n := m(s);
      ReSubStep(s, m, "");
      if n > 0 {
        var t := ReSub(s[n..], m, "");
        ReSubDeletes(s[n..], m);
        SubseqPrepend(t, s[n..], s[..n]);
        TakeDrop(s, n);
        assert ReSub(s, m, "") == t;
      } else {
        ReSubDeletes(s[1..], m);
        SubseqCons(ReSub(s[1..], m, ""), s[1..], s[0]);
        TakeDrop(s, 1);
        assert s[..1] == [s[0]];
      }
    }
  }

  lemma WithoutOne(c: char, p: char -> bool)
    ensures Without([c], p) == if p(c) then [] else [c]
  {
    assert [c][..0] == [];
  }

  /** Replacing every match by a character of class `p` instead of deleting it changes only characters of `p`. */
  lemma {:induction false} ReSubWithout(s: string, m: Matcher, c: char, p: char -> bool)
    requires p(c)
    ensures Without(ReSub(s, m, [c]), p) == Without(ReSub(s, m, ""), p)
    decreases |s|
  {
    if s != [] {
      var n := m(s);
      ReSubStep(s, m, [c]);
      ReSubStep(s, m, "");
      var step := if n > 0 then n else 1;
      var t1, t0 := ReSub(s[step..], m, [c]), ReSub(s[step..], m, "");
      ReSubWithout(s[step..], m, c, p);
      if n > 0 {
        WithoutAppend([c], t1, p);
        WithoutOne(c, p);
        assert Without(ReSub(s, m, [c]), p) == Without(t1, p);
        assert ReSub(s, m, "") == t0;
      } else {
        WithoutAppend([s[0]], t1, p);
        WithoutAppend([s[0]], t0, p);
      }
    }
  }

  /** Replacing spans by spaces keeps the non-whitespace characters outside the spans, in order, and adds none. */
  lemma ReSubKeepsOrder(s: string, m: Matcher)
    ensures Subseq(NonSpace(ReSub(s, m, " ")), NonSpace(s))
  {
    ReSubWithout(s, m, ' ', IsSpace);
    ReSubDeletes(s, m);
    WithoutSubseq(ReSub(s, m, ""), s, IsSpace);
  }

  /** Squashing runs of class `p` into `c` of that class changes no character outside `p`. */
  lemma {:induction false} SquashWithout(s: string, p: char -> bool, c: char)
    requires p(c)
    ensures Without(Squash(s, p, c), p) == Without(s, p)
    decreases |s|
  {
    if s != [] {
      SquashStep(s, p, c);
      if p(s[0]) {
        var n := SpanLen(s, p);
        var t := Squash(s[n..], p, c);
        SquashWithout(s[n..], p, c);
        WithoutAppend([c], t, p);
        WithoutOne(c, p);
        assert Without(Squash(s, p, c), p) == Without(t, p);
        SpanAll(s, p);
        WithoutAll(s[..n], p);
        TakeDrop(s, n);
        WithoutAppend(s[..n], s[n..], p);
      } else {
        SquashWithout(s[1..], p, c);
        WithoutAppend([s[0]], Squash(s[1..], p, c), p);
        WithoutAppend([s[0]], s[1..], p);
        assert [s[0]] + s[1..] == s;
      }
    }
  }

  lemma SpanAll(s: string, p: char -> bool)
    ensures AllChars(s[..SpanLen(s, p)], p)
  {
    var n := SpanLen(s, p);
    assert forall i :: 0 <= i < n ==> s[..n][i] == s[i];
  }
}
