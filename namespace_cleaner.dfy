/**
 * `clean_xml_namespaces`: removes the three Decipher namespace
 * declarations (`builder`, `ss`, `html`) from a GPT response, each with the
 * whitespace around it, then collapses every whitespace run to one space.
 */
module NamespaceCleaner {
  import opened Text
  import opened Lists
  import opened Regex

  /** `xmlns:<name>="http://decipherinc.com/<name>"` */
  function Declaration(name: string): string {
    NsPrefix + name + NsUrl + name + "\""
  }

  /** The three declarations, as their escaped patterns match them: literally. */
  const Declarations: seq<string> := [Declaration("builder"), Declaration("ss"), Declaration("html")]

  /** `r'\s*' + pattern + r'\s*'` for a literal pattern. */
  function Spaced(lit: string): Matcher {
    (t: string) => SpacedLiteralAt(lit, t)
  }

  /** The loop over the patterns: each pass replaces every spaced declaration by one space. */
  function RemoveEach(s: string, decls: seq<string>): string
    decreases |decls|
  {
    if decls == [] then s
    else RemoveEach(ReSub(s, Spaced(decls[0]), " "), decls[1..])
  }

  /** `clean_xml_namespaces`: empty input comes back as it is. */
  function CleanXmlNamespaces(xml: string): string {
    if xml == [] then xml
    else Collapse(RemoveEach(xml, Declarations))
  }

  /** What the proofs need of a declaration: it is not empty, starts with no whitespace and holds no space. */
  predicate Plain(w: string) {
    w != [] && !IsSpace(w[0]) && ' ' !in w
  }

  lemma DeclarationPlain(name: string)
    requires ' ' !in name
    ensures Plain(Declaration(name))
  {
    assert ' ' !in NsPrefix && ' ' !in NsUrl;
    assert Declaration(name)[0] == 'x';
  }

  lemma DeclarationsPlain()
    ensures forall j :: 0 <= j < |Declarations| ==> Plain(Declarations[j])
  {
    DeclarationPlain("builder");
    DeclarationPlain("ss");
    DeclarationPlain("html");
  }

  /** The spaced pattern fires wherever its literal starts. */
  lemma SpacedFires(lit: string, t: string)
    requires Plain(lit) && IsPrefix(lit, t)
    ensures Spaced(lit)(t) > 0
  {
    assert t[0] == lit[0];
    assert t[0..] == t;
  }

  /** The spaced pattern fires only where its literal starts after some whitespace. */
  lemma SpacedOccurs(lit: string, s: string, k: nat)
    requires k < |s| && Spaced(lit)(s[k..]) > 0
    ensures !NowhereIn(lit, s)
  {
    var j := SpanLen(s[k..], IsSpace);
    assert s[k..][j..] == s[k + j..];
  }

  /** One pass leaves no copy of its declaration behind. */
  lemma PassRemoves(s: string, lit: string)
    requires Plain(lit)
    ensures NowhereIn(lit, ReSub(s, Spaced(lit), " "))
  {
    forall t | IsPrefix(lit, t) ensures Spaced(lit)(t) > 0 {
      SpacedFires(lit, t);
    }
    ReSubRemoves(s, Spaced(lit), " ", lit);
  }

  /** Later passes, which only put spaces in, never bring a removed declaration back. */
  lemma {:induction false} RemoveEachKeepsAbsent(s: string, decls: seq<string>, w: string)
    requires Plain(w) && NowhereIn(w, s)
    ensures NowhereIn(w, RemoveEach(s, decls))
    decreases |decls|
  {
    if decls != [] {
      ReSubKeepsAbsent(s, Spaced(decls[0]), " ", w);
      RemoveEachKeepsAbsent(ReSub(s, Spaced(decls[0]), " "), decls[1..], w);
    }
  }

  /** The first pass's declaration stays removed through the later passes. */
  lemma FirstRemoved(s: string, decls: seq<string>)
    requires decls != [] && Plain(decls[0])
    ensures NowhereIn(decls[0], RemoveEach(s, decls))
  {
    var s1 := ReSub(s, Spaced(decls[0]), " ");
    PassRemoves(s, decls[0]);
    RemoveEachKeepsAbsent(s1, decls[1..], decls[0]);
  }

  lemma {:induction false} RemoveEachRemoves(s: string, decls: seq<string>)
    requires forall j :: 0 <= j < |decls| ==> Plain(decls[j])
    ensures forall j :: 0 <= j < |decls| ==> NowhereIn(decls[j], RemoveEach(s, decls))
    decreases |decls|
  {
    if decls != [] {
      var s1 := ReSub(s, Spaced(decls[0]), " ");
      var rest := decls[1..];
      assert forall j :: 0 <= j < |rest| ==> rest[j] == decls[j + 1];
      FirstRemoved(s, decls);
      RemoveEachRemoves(s1, rest);
      var r := RemoveEach(s1, rest);
      assert RemoveEach(s, decls) == r;
      forall j | 0 <= j < |decls| ensures NowhereIn(decls[j], r) {
        if j > 0 {
          assert decls[j] == rest[j - 1];
        }
      }
    }
  }

  /** None of the three declarations is left in the output. */
  lemma NoDeclarations(xml: string)
    ensures forall j :: 0 <= j < |Declarations| ==> NowhereIn(Declarations[j], CleanXmlNamespaces(xml))
  {
    DeclarationsPlain();
    if xml != [] {
      var r := RemoveEach(xml, Declarations);
      RemoveEachRemoves(xml, Declarations);
      forall j | 0 <= j < |Declarations| ensures NowhereIn(Declarations[j], Collapse(r)) {
        ReSubKeepsAbsent(r, RunOf(IsSpace), " ", Declarations[j]);
      }
    }
  }

  /** Each pass turns a non-empty text into a non-empty one. */
  lemma {:induction false} RemoveEachNonEmpty(s: string, decls: seq<string>)
    requires s != []
    ensures RemoveEach(s, decls) != []
    decreases |decls|
  {
    if decls != [] {
      ReSubStep(s, Spaced(decls[0]), " ");
      RemoveEachNonEmpty(ReSub(s, Spaced(decls[0]), " "), decls[1..]);
    }
  }

  /** The output's only whitespace is isolated single spaces, and it is empty exactly when the input is. */
  lemma CleanShape(xml: string)
    ensures SingleSpaced(CleanXmlNamespaces(xml))
    ensures CleanXmlNamespaces(xml) == [] <==> xml == []
  {
    if xml != [] {
      var r := RemoveEach(xml, Declarations);
      RemoveEachNonEmpty(xml, Declarations);
      SquashIsolated(r, IsSpace, ' ');
      SquashHead(r, IsSpace, ' ');
    }
  }

  lemma {:induction false} RemoveEachKeepsOrder(s: string, decls: seq<string>)
    ensures Subseq(NonSpace(RemoveEach(s, decls)), NonSpace(s))
    decreases |decls|
  {
    if decls == [] {
      SubseqRefl(NonSpace(s));
    } else {
      var s1 := ReSub(s, Spaced(decls[0]), " ");
      ReSubKeepsOrder(s, Spaced(decls[0]));
      RemoveEachKeepsOrder(s1, decls[1..]);
      SubseqTrans(NonSpace(RemoveEach(s1, decls[1..])), NonSpace(s1), NonSpace(s));
    }
  }

  /** The output's non-whitespace characters are the input's, in order, with some (those of removed declarations) left out. */
  lemma CleanKeepsOrder(xml: string)
    ensures Subseq(NonSpace(CleanXmlNamespaces(xml)), NonSpace(xml))
  {
    if xml == [] {
      SubseqRefl(NonSpace(xml));
    } else {
      var r := RemoveEach(xml, Declarations);
      RemoveEachKeepsOrder(xml, Declarations);
      SquashWithout(r, IsSpace, ' ');
    }
  }

  /** A pass whose declaration does not occur changes nothing. */
  lemma PassIdentity(s: string, lit: string)
    requires NowhereIn(lit, s)
    ensures ReSub(s, Spaced(lit), " ") == s
  {
    forall k | 0 <= k < |s| ensures Spaced(lit)(s[k..]) == 0 {
      if Spaced(lit)(s[k..]) > 0 {
        SpacedOccurs(lit, s, k);
      }
    }
    ReSubIdentity(s, Spaced(lit), " ");
  }

  lemma {:induction false} RemoveEachIdentity(s: string, decls: seq<string>)
    requires forall j :: 0 <= j < |decls| ==> NowhereIn(decls[j], s)
    ensures RemoveEach(s, decls) == s
    decreases |decls|
  {
    if decls != [] {
      PassIdentity(s, decls[0]);
      assert forall j :: 0 <= j < |decls[1..]| ==> decls[1..][j] == decls[j + 1];
      RemoveEachIdentity(s, decls[1..]);
    }
  }

  /** Input holding none of the three declarations only has its whitespace runs collapsed. */
  lemma NothingToRemove(xml: string)
    requires forall j :: 0 <= j < |Declarations| ==> NowhereIn(Declarations[j], xml)
    ensures CleanXmlNamespaces(xml) == Collapse(xml)
  {
    RemoveEachIdentity(xml, Declarations);
  }

  /** Cleaning twice is cleaning once. */
  lemma CleanIdempotent(xml: string)
    ensures CleanXmlNamespaces(CleanXmlNamespaces(xml)) == CleanXmlNamespaces(xml)
  {
    var c := CleanXmlNamespaces(xml);
    NoDeclarations(xml);
    CleanShape(xml);
    NothingToRemove(c);
    SquashFixed(c, IsSpace, ' ');
  }
}
