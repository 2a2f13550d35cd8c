/**
 * `clean_all_namespaces`: removes every declaration
 * `xmlns:<name>="http://decipherinc.com/<path>"`, with the whitespace around
 * it, then collapses every whitespace run to one space.
 *
 * The pattern is read twice here. `MatchLen` reads it the way the regex is
 * written (the literal, `[^=]+` up to the first `=`, the URL, `[^"]*` up
 * to the first `"`); `Run` reads it as a scanner that walks the text one
 * character at a time. `RunIsMatchLen` shows the two agree; the scanner is
 * what makes "no declaration is left" provable, because it shows how a
 * match would have to cross the space a removed span leaves behind. Both
 * are written for any literal prefix and host, and used with the Decipher
 * ones.
 */
module ComprehensiveCleaner {
  import opened Text
  import opened Lists
  import opened Regex

  /** `<prefix>[^=]+=<host>[^"]*"` */
  datatype Pattern = Pattern(prefix: string, host: string)

  /** `xmlns:[^=]+="http://decipherinc\.com/[^"]*"` */
  const Namespace: Pattern := Pattern(NsPrefix, NsHost)

  /** `<host>[^"]*"` anchored at the start of `z`: `[^"]*` can only stop at the first `"`. */
  function ValueLen(p: Pattern, z: string): (n: nat)
    ensures n <= |z|
  {
    if IsPrefix(p.host, z) then
      var q := Find(z[|p.host|..], '"');
      if |p.host| + q < |z| then |p.host| + q + 1 else 0
    else 0
  }

  /** `[^=]+=<host>[^"]*"`: the greedy `[^=]+` can only stop at the first `=`. */
  function AttrLen(p: Pattern, y: string): (n: nat)
    ensures n <= |y|
  {
    var f := Find(y, '=');
    if 0 < f < |y| && ValueLen(p, y[f + 1..]) > 0 then f + 1 + ValueLen(p, y[f + 1..]) else 0
  }

  /** The whole pattern anchored at the start of `x`. */
  function MatchLen(p: Pattern, x: string): (n: nat)
    ensures n <= |x|
  {
    if IsPrefix(p.prefix, x) && AttrLen(p, x[|p.prefix|..]) > 0 then |p.prefix| + AttrLen(p, x[|p.prefix|..]) else 0
  }

  /** `\s*` + pattern + `\s*`: the prefix starts with a non-space, so the leading `\s*` never gives anything back. */
  function SpacedMatchAt(p: Pattern, t: string): (n: nat)
    ensures n <= |t|
  {
    var j := SpanLen(t, IsSpace);
    var m := MatchLen(p, t[j..]);
    if m > 0 then j + m + SpanLen(t[j + m..], IsSpace) else 0
  }

  /** The pattern with `\s*` on both sides, as a matcher. */
  function Spaced(p: Pattern): Matcher {
    (t: string) => SpacedMatchAt(p, t)
  }

  /** One substitution of the spaced pattern by a space, then the whitespace collapse; empty input comes back as it is. */
  function Clean(p: Pattern, xml: string): string {
    if xml == [] then xml
    else Collapse(ReSub(xml, Spaced(p), " "))
  }

  /** `namespace_pattern` compiled. */
  function Decipher(): Matcher {
    Spaced(Namespace)
  }

  /** `clean_all_namespaces`. */
  function CleanAllNamespaces(xml: string): string {
    Clean(Namespace, xml)
  }

  /**
   * How far a match has got: `i` characters of the prefix, inside `[^=]+`
   * (with or without a character yet), `i` characters of the host, inside
   * `[^"]*`, or complete.
   */
  datatype State = Prefix(i: nat) | Attr(nonempty: bool) | Url(i: nat) | Value | Done

  function AfterEquals(p: Pattern): State {
    if p.host == [] then Value else Url(0)
  }

  /** One character. Neither `[^=]+` nor `[^"]*` ever has a second choice to backtrack to. */
  function Step(p: Pattern, st: State, c: char): Option<State> {
    match st
    case Prefix(i) =>
      if i < |p.prefix| && c == p.prefix[i] then Some(if i + 1 == |p.prefix| then Attr(false) else Prefix(i + 1))
      else None
    case Attr(nonempty) =>
      if c != '=' then Some(Attr(true)) else if nonempty then Some(AfterEquals(p)) else None
    case Url(i) =>
      if i < |p.host| && c == p.host[i] then Some(if i + 1 == |p.host| then Value else Url(i + 1))
      else None
    case Value => Some(if c == '"' then Done else Value)
    case Done => None
  }

  /** Length of the rest of the match from state `st` at the start of `t`, 0 when it fails. */
  function Run(p: Pattern, st: State, t: string): (n: nat)
    ensures n <= |t|
    decreases |t|
  {
    if t == [] then 0
    else match Step(p, st, t[0])
      case None => 0
      case Some(next) =>
        if next == Done then 1
        else var k := Run(p, next, t[1..]); if k > 0 then k + 1 else 0
  }

  predicate Accepts(p: Pattern, st: State, t: string) {
    Run(p, st, t) > 0
  }

  lemma PrefixCons(w: string, t: string)
    requires w != [] && t != []
    ensures IsPrefix(w, t) <==> t[0] == w[0] && IsPrefix(w[1..], t[1..])
  {
    if t[0] == w[0] && IsPrefix(w[1..], t[1..]) {
      assert t[..|w|] == [t[0]] + t[1..][..|w| - 1];
      assert w == [w[0]] + w[1..];
    }
  }

  /** `[^"]*"`: up to and including the first `"`. */
  lemma {:induction false} ValueRun(p: Pattern, t: string)
    ensures Run(p, Value, t) == (var q := Find(t, '"'); if q < |t| then q + 1 else 0)
    decreases |t|
  {
    if t != [] && t[0] != '"' {
      ValueRun(p, t[1..]);
    }
  }

  /** The rest of the host, then `[^"]*"`. */
  lemma {:induction false} UrlRun(p: Pattern, i: nat, t: string)
    requires i < |p.host|
    ensures Run(p, Url(i), t) ==
      if IsPrefix(p.host[i..], t) then (var k := Run(p, Value, t[|p.host| - i..]); if k > 0 then |p.host| - i + k else 0)
      else 0
    decreases |p.host| - i
  {
    if t != [] {
      var w := p.host[i..];
      PrefixCons(w, t);
      assert w[0] == p.host[i] && w[1..] == p.host[i + 1..];
      if t[0] == p.host[i] {
        if i + 1 < |p.host| {
          UrlRun(p, i + 1, t[1..]);
          if IsPrefix(w, t) {
            assert t[1..][|p.host| - (i + 1)..] == t[|p.host| - i..];
          }
        } else {
          assert IsPrefix(w, t);
        }
      }
    }
  }

  /** The value part as the scanner reads it. */
  lemma HostRun(p: Pattern, z: string)
    ensures ValueLen(p, z) == Run(p, AfterEquals(p), z)
  {
    if p.host == [] {
      assert IsPrefix(p.host, z) && z[|p.host|..] == z;
      ValueRun(p, z);
    } else {
      UrlRun(p, 0, z);
      assert p.host[0..] == p.host;
      if IsPrefix(p.host, z) {
        ValueRun(p, z[|p.host|..]);
      }
    }
  }

  /** `[^=]+` up to the first `=`, then the value part. */
  lemma {:induction false} AttrRun(p: Pattern, b: bool, t: string)
    ensures Run(p, Attr(b), t) ==
      var f := Find(t, '=');
      if f < |t| && (b || f > 0) then (var k := Run(p, AfterEquals(p), t[f + 1..]); if k > 0 then f + 1 + k else 0)
      else 0
    decreases |t|
  {
    if t != [] && t[0] != '=' {
      AttrRun(p, true, t[1..]);
      var f := Find(t[1..], '=');
      if f < |t[1..]| {
        assert t[1..][f + 1..] == t[f + 2..];
      }
    }
  }

  /** The rest of the prefix, then the attribute. */
  lemma {:induction false} PrefixRun(p: Pattern, i: nat, t: string)
    requires i < |p.prefix|
    ensures Run(p, Prefix(i), t) ==
      if IsPrefix(p.prefix[i..], t) then (var k := Run(p, Attr(false), t[|p.prefix| - i..]); if k > 0 then |p.prefix| - i + k else 0)
      else 0
    decreases |p.prefix| - i
  {
    if t != [] {
      var w := p.prefix[i..];
      PrefixCons(w, t);
      assert w[0] == p.prefix[i] && w[1..] == p.prefix[i + 1..];
      if t[0] == p.prefix[i] {
        if i + 1 < |p.prefix| {
          PrefixRun(p, i + 1, t[1..]);
          if IsPrefix(w, t) {
            assert t[1..][|p.prefix| - (i + 1)..] == t[|p.prefix| - i..];
          }
        } else {
          assert IsPrefix(w, t);
        }
      }
    }
  }

  /** The scanner finds exactly the matches of the pattern, with the same lengths. */
  lemma RunIsMatchLen(p: Pattern, x: string)
    requires p.prefix != []
    ensures Run(p, Prefix(0), x) == MatchLen(p, x)
  {
    PrefixRun(p, 0, x);
    assert p.prefix[0..] == p.prefix;
    if IsPrefix(p.prefix, x) {
      var y := x[|p.prefix|..];
      AttrRun(p, false, y);
      var f := Find(y, '=');
      if f < |y| {
        HostRun(p, y[f + 1..]);
      }
    }
  }

  /** What the proofs need of the pattern's literals. */
  predicate Plain(p: Pattern) {
    && p.prefix != [] && !IsSpace(p.prefix[0])
    && ' ' !in p.prefix && '=' !in p.prefix && ' ' !in p.host
  }

  lemma PrefixPlain()
    ensures NsPrefix != [] && NsPrefix[0] == 'x' && ' ' !in NsPrefix && '=' !in NsPrefix
  {
  }

  lemma HostPlain()
    ensures ' ' !in NsHost
  {
  }

  lemma NamespacePlain()
    ensures Plain(Namespace)
  {
    PrefixPlain();
    HostPlain();
  }

  /** The state a space, or any character other than `=` and `"`, leads to from inside `[^=]+` or `[^"]*`. */
  function After(st: State): State {
    if st.Value? then Value else Attr(true)
  }

  /** Only `[^=]+` and `[^"]*` can take a space. */
  lemma SpaceStep(p: Pattern, st: State)
    requires Plain(p)
    ensures Step(p, st, ' ').Some? ==> (st.Attr? || st.Value?) && Step(p, st, ' ') == Some(After(st))
  {
    if st.Prefix? && st.i < |p.prefix| {
      assert p.prefix[st.i] in p.prefix;
    }
    if st.Url? && st.i < |p.host| {
      assert p.host[st.i] in p.host;
    }
  }

  /** Neither `=` nor `"`: read inside `[^=]+` or `[^"]*` like a space. */
  predicate Quiet(w: string) {
    w != [] && forall i :: 0 <= i < |w| ==> w[i] != '=' && w[i] != '"'
  }

  lemma {:induction false} QuietReads(p: Pattern, st: State, w: string, v: string)
    requires st.Attr? || st.Value?
    requires Quiet(w) && Accepts(p, After(st), v)
    ensures Accepts(p, st, w + v)
    decreases |w|
  {
    var t := w + v;
    assert t[0] == w[0];
    if |w| == 1 {
      assert t[1..] == v;
    } else {
      QuietReads(p, After(st), w[1..], v);
      assert t[1..] == w[1..] + v;
    }
  }

  lemma AttrMonotone(p: Pattern, t: string)
    requires Accepts(p, Attr(false), t)
    ensures Accepts(p, Attr(true), t)
  {
  }

  lemma ValueAccepts(p: Pattern, t: string)
    requires '"' in t
    ensures Accepts(p, Value, t)
  {
    assert t[..|t|] == t;
    ValueRun(p, t);
  }

  /** Every match ends at a `"`. */
  lemma {:induction false} AcceptsQuote(p: Pattern, st: State, t: string)
    requires Accepts(p, st, t)
    ensures '"' in t
    decreases |t|
  {
    var next := Step(p, st, t[0]);
    if next.Some? && next.value != Done {
      AcceptsQuote(p, next.value, t[1..]);
    }
  }

  /**
   * A span a pass may replace by a space without letting a new match
   * through: nothing but characters a space stands in for, or a span that
   * a match running into it from `[^=]+` or `[^"]*` would complete.
   */
  predicate SpanOk(p: Pattern, x: string, n: nat) {
    n <= |x| && (Quiet(x[..n]) || (Accepts(p, Attr(false), x) && '"' in x))
  }

  /** Whatever the scanner accepts on the result of a pass, it accepts on the input. */
  lemma {:induction false} Simulates(p: Pattern, s: string, st: State, m: Matcher)
    requires Plain(p) && st != Done
    requires forall x :: m(x) > 0 ==> SpanOk(p, x, m(x))
    requires Accepts(p, st, ReSub(s, m, " "))
    ensures Accepts(p, st, s)
    decreases |s|
  {
    var r := ReSub(s, m, " ");
    ReSubStep(s, m, " ");
    var n := m(s);
    if n > 0 {
      var rest := ReSub(s[n..], m, " ");
      assert r[0] == ' ' && r[1..] == rest;
      SpaceStep(p, st);
      if Quiet(s[..n]) {
        Simulates(p, s[n..], After(st), m);
        QuietReads(p, st, s[..n], s[n..]);
        TakeDrop(s, n);
      } else if st.Attr? {
        AttrMonotone(p, s);
      } else {
        ValueAccepts(p, s);
      }
    } else {
      var rest := ReSub(s[1..], m, " ");
      assert r[0] == s[0] && r[1..] == rest;
      var next := Step(p, st, s[0]);
      if next.Some? && next.value != Done {
        Simulates(p, s[1..], next.value, m);
      }
    }
  }

  /**
   * A pass that fires wherever a match starts, and whose spans are safe to
   * replace by a space, leaves no match anywhere in its result.
   */
  lemma {:induction false} NoMatchLeft(p: Pattern, s: string, m: Matcher)
    requires Plain(p)
    requires forall x :: m(x) > 0 ==> SpanOk(p, x, m(x))
    requires forall k :: 0 <= k < |s| && Accepts(p, Prefix(0), s[k..]) ==> m(s[k..]) > 0
    ensures forall k :: 0 <= k <= |ReSub(s, m, " ")| ==> !Accepts(p, Prefix(0), ReSub(s, m, " ")[k..])
    decreases |s|
  {
    var r := ReSub(s, m, " ");
    if s != [] {
      ReSubStep(s, m, " ");
      var n := m(s);
      var step := if n > 0 then n else 1;
      forall k | 0 <= k < |s[step..]| && Accepts(p, Prefix(0), s[step..][k..]) ensures m(s[step..][k..]) > 0 {
        assert s[step..][k..] == s[step + k..];
      }
      NoMatchLeft(p, s[step..], m);
      var tail := ReSub(s[step..], m, " ");
      var head := if n > 0 then " " else [s[0]];
      assert r == head + tail;
      assert r[0..] == r && s[0..] == s;
      forall k | 0 <= k <= |r| ensures !Accepts(p, Prefix(0), r[k..]) {
        if k >= 1 {
          assert r[k..] == tail[k - 1..];
        } else if n == 0 && Accepts(p, Prefix(0), r) {
          Simulates(p, s, Prefix(0), m);
        }
      }
    }
  }

  lemma {:induction false} AttrReads(p: Pattern, b: bool, u: string, v: string)
    requires u != [] && '=' !in u
    requires Accepts(p, Attr(true), v)
    ensures Accepts(p, Attr(b), u + v)
    decreases |u|
  {
    var t := u + v;
    assert t[0] == u[0];
    if |u| == 1 {
      assert t[1..] == v;
    } else {
      AttrReads(p, true, u[1..], v);
      assert t[1..] == u[1..] + v;
    }
  }


  lemma SpaceNotSpecial(c: char)
    ensures IsSpace(c) ==> c != '=' && c != '"'
  {
  }

  /** A match at the start of `y` goes on from `[^=]+` after the prefix. */
  lemma MatchAttr(p: Pattern, y: string)
    requires p.prefix != [] && MatchLen(p, y) > 0
    ensures IsPrefix(p.prefix, y) && Accepts(p, Attr(true), y[|p.prefix|..])
  {
    RunIsMatchLen(p, y);
    PrefixRun(p, 0, y);
    assert p.prefix[0..] == p.prefix;
    AttrMonotone(p, y[|p.prefix|..]);
  }

  /** Leading whitespace and then the prefix: no `=` in either. */
  lemma HeadNoEquals(p: Pattern, x: string, j: nat)
    requires Plain(p) && j <= |x| && AllChars(x[..j], IsSpace) && IsPrefix(p.prefix, x[j..])
    ensures j + |p.prefix| <= |x| && '=' !in x[..j + |p.prefix|]
  {
    var u := x[..j + |p.prefix|];
    forall i | 0 <= i < |u| ensures u[i] != '=' {
      if i < j {
        assert x[..j][i] == u[i];
        SpaceNotSpecial(u[i]);
      } else {
        assert u[i] == x[j..][..|p.prefix|][i - j] && p.prefix[i - j] in p.prefix;
      }
    }
  }

  /** A removed span would complete any match running into it. */
  lemma SpacedSpanOk(p: Pattern, x: string)
    requires Plain(p) && SpacedMatchAt(p, x) > 0
    ensures SpanOk(p, x, SpacedMatchAt(p, x))
  {
    var j := SpanLen(x, IsSpace);
    var l := |p.prefix|;
    MatchAttr(p, x[j..]);
    SpanAll(x, IsSpace);
    HeadNoEquals(p, x, j);
    assert x[j..][l..] == x[j + l..];
    AttrReads(p, false, x[..j + l], x[j + l..]);
    TakeDrop(x, j + l);
    AcceptsQuote(p, Attr(false), x);
  }

  lemma WhitespaceSpanOk(p: Pattern, x: string)
    requires RunOf(IsSpace)(x) > 0
    ensures SpanOk(p, x, RunOf(IsSpace)(x))
  {
    var n := SpanLen(x, IsSpace);
    var u := x[..n];
    forall i | 0 <= i < |u| ensures u[i] != '=' && u[i] != '"' {
      SpaceNotSpecial(x[i]);
    }
  }

  lemma SpacedFires(p: Pattern, t: string)
    requires Plain(p) && Accepts(p, Prefix(0), t)
    ensures Spaced(p)(t) > 0
  {
    assert t[0] == p.prefix[0];
    assert t[0..] == t;
    RunIsMatchLen(p, t);
  }

  /** No match of the pattern is left anywhere in the cleaned text. */
  lemma {:induction false} CleanNoMatch(p: Pattern, xml: string)
    requires Plain(p)
    ensures forall k :: 0 <= k <= |Clean(p, xml)| ==> MatchLen(p, Clean(p, xml)[k..]) == 0
  {
    if xml != [] {
      var d := Spaced(p);
      forall x | d(x) > 0 ensures SpanOk(p, x, d(x)) {
        SpacedSpanOk(p, x);
      }
      forall k | 0 <= k < |xml| && Accepts(p, Prefix(0), xml[k..]) ensures d(xml[k..]) > 0 {
        SpacedFires(p, xml[k..]);
      }
      var r1 := ReSub(xml, d, " ");
      NoMatchLeft(p, xml, d);
      var w := RunOf(IsSpace);
      forall x | w(x) > 0 ensures SpanOk(p, x, w(x)) {
        WhitespaceSpanOk(p, x);
      }
      NoMatchLeft(p, r1, w);
      var r := Collapse(r1);
      forall k | 0 <= k <= |r| ensures MatchLen(p, r[k..]) == 0 {
        RunIsMatchLen(p, r[k..]);
      }
    }
  }

  /** No declaration pointing at decipherinc.com is left anywhere in the output. */
  lemma NoNamespaceLeft(xml: string)
    ensures forall k :: 0 <= k <= |CleanAllNamespaces(xml)| ==> MatchLen(Namespace, CleanAllNamespaces(xml)[k..]) == 0
  {
    NamespacePlain();
    CleanNoMatch(Namespace, xml);
  }

  lemma CleanShape(p: Pattern, xml: string)
    ensures SingleSpaced(Clean(p, xml))
    ensures Clean(p, xml) == [] <==> xml == []
  {
    if xml != [] {
      var r := ReSub(xml, Spaced(p), " ");
      ReSubStep(xml, Spaced(p), " ");
      SquashIsolated(r, IsSpace, ' ');
      SquashHead(r, IsSpace, ' ');
    }
  }

  /** The output's only whitespace is isolated single spaces, and it is empty exactly when the input is. */
  lemma CleanAllShape(xml: string)
    ensures SingleSpaced(CleanAllNamespaces(xml))
    ensures CleanAllNamespaces(xml) == [] <==> xml == []
  {
    CleanShape(Namespace, xml);
  }

  /** The output's non-whitespace characters are exactly those of the input outside the removed declarations, in order. */
  lemma CleanAllKeepsText(xml: string)
    ensures NonSpace(CleanAllNamespaces(xml)) == NonSpace(ReSub(xml, Decipher(), ""))
  {
    if xml != [] {
      var r := ReSub(xml, Decipher(), " ");
      SquashWithout(r, IsSpace, ' ');
      ReSubWithout(xml, Decipher(), ' ', IsSpace);
    }
  }

  /** `[^=]+=` then the host: `=` and the host occur in `y`. */
  lemma AttrHost(p: Pattern, y: string) returns (i: nat)
    requires AttrLen(p, y) > 0
    ensures i <= |y| && IsPrefix("=" + p.host, y[i..])
  {
    i := Find(y, '=');
    var z := y[i..];
    assert z[0] == '=' && z[1..] == y[i + 1..];
    PrefixCons("=" + p.host, z);
    assert ("=" + p.host)[0] == '=' && ("=" + p.host)[1..] == p.host;
  }

  /** A match of the pattern holds `=` and the host. */
  lemma MatchHost(p: Pattern, x: string) returns (i: nat)
    requires MatchLen(p, x) > 0
    ensures i <= |x| && IsPrefix("=" + p.host, x[i..])
  {
    var l := |p.prefix|;
    var h := AttrHost(p, x[l..]);
    i := l + h;
    assert x[l..][h..] == x[i..];
  }

  /** A match can only start where `=` and the host follow somewhere after it. */
  lemma SpacedNeedsHost(p: Pattern, s: string, k: nat)
    requires k < |s| && Spaced(p)(s[k..]) > 0
    ensures !NowhereIn("=" + p.host, s)
  {
    var t := s[k..];
    assert SpacedMatchAt(p, t) > 0;
    var j := SpanLen(t, IsSpace);
    assert MatchLen(p, t[j..]) > 0;
    var h := MatchHost(p, t[j..]);
    var at := k + j + h;
    assert t[j..][h..] == s[at..];
    assert at <= |s| && IsPrefix("=" + p.host, s[at..]);
  }

  lemma NoHostOnlyCollapses(p: Pattern, xml: string)
    requires NowhereIn("=" + p.host, xml)
    ensures Clean(p, xml) == Collapse(xml)
  {
    var d := Spaced(p);
    forall k | 0 <= k < |xml| ensures d(xml[k..]) == 0 {
      if d(xml[k..]) > 0 {
        SpacedNeedsHost(p, xml, k);
      }
    }
    ReSubIdentity(xml, d, " ");
  }

  /** Input without `="http://decipherinc.com/` only has its whitespace runs collapsed. */
  lemma NoUrlOnlyCollapses(xml: string)
    requires NowhereIn(NsUrl, xml)
    ensures CleanAllNamespaces(xml) == Collapse(xml)
  {
    NoHostOnlyCollapses(Namespace, xml);
  }

  lemma SpacedZero(p: Pattern, t: string)
    requires MatchLen(p, t[SpanLen(t, IsSpace)..]) == 0
    ensures Spaced(p)(t) == 0
  {
  }

  lemma NoMatchAt(p: Pattern, c: string, k: nat)
    requires k < |c| && forall i :: 0 <= i <= |c| ==> MatchLen(p, c[i..]) == 0
    ensures Spaced(p)(c[k..]) == 0
  {
    var j := SpanLen(c[k..], IsSpace);
    assert c[k..][j..] == c[k + j..];
    SpacedZero(p, c[k..]);
  }

  /** Text with no match anywhere is left alone by the substitution. */
  lemma NoMatchFixed(p: Pattern, c: string)
    requires forall k :: 0 <= k <= |c| ==> MatchLen(p, c[k..]) == 0
    ensures ReSub(c, Spaced(p), " ") == c
  {
    var d := Spaced(p);
    forall k | 0 <= k < |c| ensures d(c[k..]) == 0 {
      NoMatchAt(p, c, k);
    }
    ReSubIdentity(c, d, " ");
  }

  lemma CleanIdempotent(p: Pattern, xml: string)
    requires Plain(p)
    ensures Clean(p, Clean(p, xml)) == Clean(p, xml)
  {
    var c := Clean(p, xml);
    CleanNoMatch(p, xml);
    NoMatchFixed(p, c);
    CleanShape(p, xml);
    SquashFixed(c, IsSpace, ' ');
  }

  /** Cleaning twice is cleaning once. */
  lemma CleanAllIdempotent(xml: string)
    ensures CleanAllNamespaces(CleanAllNamespaces(xml)) == CleanAllNamespaces(xml)
  {
    NamespacePlain();
    CleanIdempotent(Namespace, xml);
  }
}
