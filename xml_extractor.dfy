/**
 * `XMLQuestionExtractor.extract_questions`: the survey markup's `title`
 * elements that carry an `id`, in document order, one record per id.
 *
 * The parsed tree is the abstract `Element`; a document that does not
 * parse is `None`. Serialising an element (`etree.tostring`) is the
 * opaque function parameter `serialize`.
 */
module XmlExtractor {
  import opened Text

  /** An element: its tag, its `id` attribute if present, its leading text if any, and its children. */
  datatype Element = Element(tag: string, id: Option<string>, text: Option<string>, children: seq<Element>)

  /** A `title` element with an id, found with the chain of its ancestors (root first, parent last). */
  datatype Found = Found(id: string, text: string, title: Element, ancestors: seq<Element>)

  datatype XmlQuestion = XmlQuestion(id: string, text: string, fullSection: string, xmlIndex: nat)

  /** Matched by the path `//title[@id]`. */
  predicate IsIdTitle(e: Element) {
    e.tag == "title" && e.id.Some?
  }

  /** `title.text or ""` */
  function TitleText(e: Element): string {
    match e.text
    case Some(t) => t
    case None => ""
  }

  /** The `//title[@id]` elements at or below `e`, in document order; `path` leads from the root to `e`'s parent. */
  function TitlesUnder(e: Element, path: seq<Element>): seq<Found>
    decreases e, 1
  {
    var here := if IsIdTitle(e) then [Found(e.id.value, TitleText(e), e, path)] else [];
    here + TitlesAmong(e.children, path + [e])
  }

  /** The `//title[@id]` elements at or below each of the siblings `cs`, in document order. */
  function TitlesAmong(cs: seq<Element>, path: seq<Element>): seq<Found>
    decreases cs, 0
  {
    if cs == [] then [] else TitlesUnder(cs[0], path) + TitlesAmong(cs[1..], path)
  }

  /** `root.xpath('//title[@id]')` */
  function Titles(root: Element): seq<Found> {
    TitlesUnder(root, [])
  }

  /** `path` leads from `root` down, parent to child, to the parent of `e`. */
  ghost predicate IsPathTo(root: Element, path: seq<Element>, e: Element) {
    if path == [] then e == root
    else
      && path[0] == root
      && e in path[|path| - 1].children
      && forall k :: 0 <= k < |path| - 1 ==> path[k + 1] in path[k].children
  }

  lemma PathExtend(root: Element, path: seq<Element>, e: Element, c: Element)
    requires IsPathTo(root, path, e) && c in e.children
    ensures IsPathTo(root, path + [e], c)
  {
    var p := path + [e];
    if path != [] {
      assert p[0] == path[0];
      forall k | 0 <= k < |p| - 1 ensures p[k + 1] in p[k].children {
        if k < |path| - 1 {
          assert p[k] == path[k] && p[k + 1] == path[k + 1];
        }
      }
    }
  }

  /** Every title found is an id-carrying `title` element, found with its true ancestors. */
  lemma {:induction false} TitlesUnderAreTitles(root: Element, e: Element, path: seq<Element>)
    requires IsPathTo(root, path, e)
    ensures forall f :: f in TitlesUnder(e, path) ==>
      IsIdTitle(f.title) && f.id == f.title.id.value && f.text == TitleText(f.title) && IsPathTo(root, f.ancestors, f.title)
    decreases e, 1
  {
    TitlesAmongAreTitles(root, e.children, path + [e], e, |e.children|);
  }

  lemma {:induction false} TitlesAmongAreTitles(root: Element, cs: seq<Element>, path: seq<Element>, parent: Element, n: nat)
    requires |path| > 0 && path[|path| - 1] == parent
    requires IsPathTo(root, path[..|path| - 1], parent)
    requires n == |cs| && n <= |parent.children| && cs == parent.children[|parent.children| - n..]
    ensures forall f :: f in TitlesAmong(cs, path) ==>
      IsIdTitle(f.title) && f.id == f.title.id.value && f.text == TitleText(f.title) && IsPathTo(root, f.ancestors, f.title)
    decreases cs, 0
  {
    if cs != [] {
      assert cs[0] in parent.children;
      assert path == path[..|path| - 1] + [parent];
      PathExtend(root, path[..|path| - 1], parent, cs[0]);
      TitlesUnderAreTitles(root, cs[0], path);
      TitlesAmongAreTitles(root, cs[1..], path, parent, n - 1);
    }
  }

  /** Every title found in a document is a `title` element with an id, found with its ancestors. */
  lemma TitlesAreTitles(root: Element)
    ensures forall f :: f in Titles(root) ==>
      IsIdTitle(f.title) && f.id == f.title.id.value && f.text == TitleText(f.title) && IsPathTo(root, f.ancestors, f.title)
  {
    TitlesUnderAreTitles(root, root, []);
  }

  /** The tags that mark a question's enclosing section. */
  predicate IsSection(tag: string) {
    tag == "suspend" || tag == "page" || tag == "question" || tag == "exec"
  }

  /** The nearest element of `path` whose tag marks a section, or `fallback`. */
  function SectionOr(path: seq<Element>, fallback: Element): Element {
    if path == [] then fallback
    else if IsSection(path[|path| - 1].tag) then path[|path| - 1]
    else SectionOr(path[..|path| - 1], fallback)
  }

  /** The element serialised as a question's `full_section`. */
  function Context(f: Found): Element {
    SectionOr(f.ancestors, if f.ancestors == [] then f.title else f.ancestors[|f.ancestors| - 1])
  }

  /**
   * The ancestor walk: from the title's parent upward to the first element
   * whose tag marks a section; failing that, the parent; failing that, the
   * title itself.
   */
  method FindContext(f: Found) returns (context: Element)
    ensures (exists k :: 0 <= k < |f.ancestors| && IsSection(f.ancestors[k].tag)) ==>
      exists k :: 0 <= k < |f.ancestors| && context == f.ancestors[k] && IsSection(f.ancestors[k].tag)
        && forall k' :: k < k' < |f.ancestors| ==> !IsSection(f.ancestors[k'].tag)
    ensures (forall k :: 0 <= k < |f.ancestors| ==> !IsSection(f.ancestors[k].tag)) ==>
      context == (if f.ancestors == [] then f.title else f.ancestors[|f.ancestors| - 1])
    ensures context == Context(f)
  {
    ghost var fallback := if f.ancestors == [] then f.title else f.ancestors[|f.ancestors| - 1];
    var i := |f.ancestors|;
    assert f.ancestors[..i] == f.ancestors;
    while i > 0 && !IsSection(f.ancestors[i - 1].tag)
      invariant 0 <= i <= |f.ancestors|
      invariant forall k :: i <= k < |f.ancestors| ==> !IsSection(f.ancestors[k].tag)
      invariant SectionOr(f.ancestors[..i], fallback) == Context(f)
    {
      assert f.ancestors[..i][..i - 1] == f.ancestors[..i - 1];
      i := i - 1;
    }
    if i > 0 {
      context := f.ancestors[i - 1];
    } else if f.ancestors != [] {
      context := f.ancestors[|f.ancestors| - 1];
    } else {
      context := f.title;
    }
  }

  /** A title whose text is blank once stripped is skipped. */
  predicate IsBlank(f: Found) {
    Strip(f.text) == []
  }

  /** `fs[k]` is the first title with non-blank text among those with its id. */
  predicate FirstOfId(fs: seq<Found>, k: nat)
    requires k < |fs|
  {
    !IsBlank(fs[k]) && forall j :: 0 <= j < k && fs[j].id == fs[k].id ==> IsBlank(fs[j])
  }

  /** The titles that yield a question: for each id, the first with non-blank text, in document order. */
  function Kept(fs: seq<Found>): seq<Found> {
    if fs == [] then []
    else Kept(fs[..|fs| - 1]) + if FirstOfId(fs, |fs| - 1) then [fs[|fs| - 1]] else []
  }

  /** The ids of the titles with non-blank text among `fs` (`seen_question_ids`). */
  function SeenIds(fs: seq<Found>): set<string> {
    if fs == [] then {}
    else SeenIds(fs[..|fs| - 1]) + if IsBlank(fs[|fs| - 1]) then {} else {fs[|fs| - 1].id}
  }

  /** An id is seen exactly when some title with that id has non-blank text. */
  lemma {:induction false} SeenIdsHas(fs: seq<Found>, k: nat)
    requires k < |fs| && !IsBlank(fs[k])
    ensures fs[k].id in SeenIds(fs)
    decreases |fs|
  {
    if k < |fs| - 1 {
      var init := fs[..|fs| - 1];
      assert init[k] == fs[k];
      SeenIdsHas(init, k);
    }
  }

  lemma {:induction false} SeenIdsFrom(fs: seq<Found>, id: string) returns (k: nat)
    requires id in SeenIds(fs)
    ensures k < |fs| && fs[k].id == id && !IsBlank(fs[k])
    decreases |fs|
  {
    var init := fs[..|fs| - 1];
    if id in SeenIds(init) {
      k := SeenIdsFrom(init, id);
      assert init[k] == fs[k];
    } else {
      k := |fs| - 1;
    }
  }

  /** The record of a kept title at position `index`: its stripped text and its serialised context. */
  function Record(f: Found, serialize: Element -> string, index: nat): XmlQuestion {
    XmlQuestion(f.id, Strip(f.text), serialize(Context(f)), index)
  }

  /** One record per kept title, numbered by position. */
  function Records(fs: seq<Found>, serialize: Element -> string): (qs: seq<XmlQuestion>)
    ensures |qs| == |fs|
  {
    seq(|fs|, i requires 0 <= i < |fs| => Record(fs[i], serialize, i))
  }

  /** The questions of the titles `fs`, taken in order. */
  function Questions(fs: seq<Found>, serialize: Element -> string): seq<XmlQuestion> {
    Records(Kept(fs), serialize)
  }

  /** The questions of a document, or none when it does not parse. */
  function XmlQuestions(doc: Option<Element>, serialize: Element -> string): seq<XmlQuestion> {
    match doc
    case None => []
    case Some(root) => Questions(Titles(root), serialize)
  }

  lemma KeptStep(fs: seq<Found>, i: nat)
    requires i < |fs|
    ensures Kept(fs[..i + 1]) == Kept(fs[..i]) + if FirstOfId(fs[..i + 1], i) then [fs[i]] else []
  {
    assert fs[..i + 1][..i] == fs[..i];
  }

  /** Whether `fs[i]` is kept is decided by the ids seen before it. */
  lemma FirstOfIdSeen(fs: seq<Found>, i: nat)
    requires i < |fs|
    ensures FirstOfId(fs[..i + 1], i) <==> !IsBlank(fs[i]) && fs[i].id !in SeenIds(fs[..i])
  {
    var p := fs[..i + 1];
    assert p[i] == fs[i];
    if !IsBlank(fs[i]) && fs[i].id in SeenIds(fs[..i]) {
      var k := SeenIdsFrom(fs[..i], fs[i].id);
      assert p[k] == fs[..i][k];
    }
    if !IsBlank(fs[i]) && !FirstOfId(p, i) {
      var k :| 0 <= k < i && p[k].id == p[i].id && !IsBlank(p[k]);
      assert fs[..i][k] == p[k];
      SeenIdsHas(fs[..i], k);
    }
  }

  lemma RecordsAppend(fs: seq<Found>, f: Found, serialize: Element -> string)
    ensures Records(fs + [f], serialize) == Records(fs, serialize) + [Record(f, serialize, |fs|)]
  {
    var g := fs + [f];
    assert forall i :: 0 <= i < |fs| ==> g[i] == fs[i];
    assert g[|fs|] == f;
  }

  /** One turn of the loop: a title is skipped when its id was seen or its text is blank, and recorded otherwise. */
  lemma RecordsStep(fs: seq<Found>, i: nat, serialize: Element -> string)
    requires i < |fs|
    ensures fs[i].id in SeenIds(fs[..i]) || IsBlank(fs[i]) ==>
      Records(Kept(fs[..i + 1]), serialize) == Records(Kept(fs[..i]), serialize)
    ensures !(fs[i].id in SeenIds(fs[..i]) || IsBlank(fs[i])) ==>
      Records(Kept(fs[..i + 1]), serialize) == Records(Kept(fs[..i]), serialize)
        + [Record(fs[i], serialize, |Kept(fs[..i])|)]
  {
    KeptStep(fs, i);
    FirstOfIdSeen(fs, i);
    if !(fs[i].id in SeenIds(fs[..i]) || IsBlank(fs[i])) {
      RecordsAppend(Kept(fs[..i]), fs[i], serialize);
    } else {
      assert Kept(fs[..i]) + [] == Kept(fs[..i]);
    }
  }

  lemma SeenIdsStep(fs: seq<Found>, i: nat)
    requires i < |fs|
    ensures fs[i].id in SeenIds(fs[..i]) || IsBlank(fs[i]) ==> SeenIds(fs[..i + 1]) == SeenIds(fs[..i])
    ensures !(fs[i].id in SeenIds(fs[..i]) || IsBlank(fs[i])) ==> SeenIds(fs[..i + 1]) == SeenIds(fs[..i]) + {fs[i].id}
  {
    assert fs[..i + 1][..i] == fs[..i];
  }

  /**
   * `extract_questions`: the titles in order, each skipped when its id was
   * already taken or its text is blank; a blank title does not take its id.
   */
  method ExtractXmlQuestions(doc: Option<Element>, serialize: Element -> string) returns (questions: seq<XmlQuestion>)
    ensures questions == XmlQuestions(doc, serialize)
  {
    if doc.None? {
      return [];
    }
    var titles := Titles(doc.value);
    questions := [];
    var seen: set<string> := {};
    var i := 0;
    while i < |titles|
      invariant 0 <= i <= |titles|
      invariant seen == SeenIds(titles[..i])
      invariant questions == Records(Kept(titles[..i]), serialize)
    {
      var title := titles[i];
      RecordsStep(titles, i, serialize);
      SeenIdsStep(titles, i);
      if title.id in seen || Strip(title.text) == [] {
        i := i + 1;
        continue;
      }
      seen := seen + {title.id};
      var context := FindContext(title);
      questions := questions + [XmlQuestion(title.id, Strip(title.text), serialize(context), |questions|)];
      i := i + 1;
    }
    assert titles[..i] == titles;
  }

  /** Whether a title is the first of its id depends only on the titles before it. */
  lemma FirstOfIdPrefix(fs: seq<Found>, m: nat, k: nat)
    requires k < m <= |fs|
    ensures FirstOfId(fs[..m], k) == FirstOfId(fs, k)
  {
    assert forall j :: 0 <= j <= k ==> fs[..m][j] == fs[j];
  }

  /** Every kept title is a title of the document, the first with non-blank text for its id. */
  lemma {:induction false} KeptOnlyFirst(fs: seq<Found>, t: Found)
    requires t in Kept(fs)
    ensures exists k :: 0 <= k < |fs| && fs[k] == t && FirstOfId(fs, k)
    decreases |fs|
  {
    var n := |fs| - 1;
    var init := fs[..n];
    if t in Kept(init) {
      KeptOnlyFirst(init, t);
      var k :| 0 <= k < |init| && init[k] == t && FirstOfId(init, k);
      FirstOfIdPrefix(fs, n, k);
      assert fs[k] == t;
    } else {
      assert fs[n] == t && FirstOfId(fs, n);
    }
  }

  /** The first title with non-blank text for each id is kept: no question is lost. */
  lemma {:induction false} KeptFirst(fs: seq<Found>, k: nat)
    requires k < |fs| && FirstOfId(fs, k)
    ensures fs[k] in Kept(fs)
    decreases |fs|
  {
    var n := |fs| - 1;
    var init := fs[..n];
    if k < n {
      FirstOfIdPrefix(fs, n, k);
      KeptFirst(init, k);
      KeptGrows(fs);
    }
  }

  /** Adding a title keeps every title already kept. */
  lemma KeptGrows(fs: seq<Found>)
    requires fs != []
    ensures forall t :: t in Kept(fs[..|fs| - 1]) ==> t in Kept(fs)
  {
  }

  /** No two kept titles share an id. */
  lemma {:induction false} KeptIdsDistinct(fs: seq<Found>)
    ensures forall i, j :: 0 <= i < j < |Kept(fs)| ==> Kept(fs)[i].id != Kept(fs)[j].id
    decreases |fs|
  {
    if fs != [] {
      var n := |fs| - 1;
      var init := fs[..n];
      KeptIdsDistinct(init);
      if FirstOfId(fs, n) {
        var ks := Kept(init);
        forall i | 0 <= i < |ks| ensures ks[i].id != fs[n].id {
          assert ks[i] in ks;
          KeptOnlyFirst(init, ks[i]);
          var k :| 0 <= k < |init| && init[k] == ks[i] && FirstOfId(init, k);
          assert fs[k] == init[k];
        }
      }
    }
  }

  /**
   * The questions of the titles `fs`: `xml_index` is the position, ids are
   * pairwise distinct, and each text is non-empty and stripped.
   */
  lemma QuestionsShape(fs: seq<Found>, serialize: Element -> string)
    ensures var qs := Questions(fs, serialize);
      forall i :: 0 <= i < |qs| ==> qs[i].xmlIndex == i && qs[i].text != [] && IsStripped(qs[i].text)
    ensures var qs := Questions(fs, serialize);
      forall i, j :: 0 <= i < j < |qs| ==> qs[i].id != qs[j].id
  {
    var ks := Kept(fs);
    var qs := Questions(fs, serialize);
    KeptIdsDistinct(fs);
    RecordFields(ks, serialize);
    forall i | 0 <= i < |qs| ensures qs[i].text != [] && IsStripped(qs[i].text) {
      assert ks[i] in ks;
      KeptOnlyFirst(fs, ks[i]);
      StripIsStripped(ks[i].text);
    }
  }

  /**
   * Each question comes from the first title with non-blank text for its
   * id, with that title's stripped text and its context.
   */
  lemma QuestionsFirstWins(fs: seq<Found>, serialize: Element -> string, i: nat)
    requires i < |Questions(fs, serialize)|
    ensures var q := Questions(fs, serialize)[i];
      exists k :: 0 <= k < |fs| && FirstOfId(fs, k) && q == Record(fs[k], serialize, i)
  {
    var ks := Kept(fs);
    assert ks[i] in ks;
    KeptOnlyFirst(fs, ks[i]);
  }

  /** A record carries its title's id, its stripped text and its position. */
  lemma RecordFields(fs: seq<Found>, serialize: Element -> string)
    ensures forall i :: 0 <= i < |fs| ==>
      var q := Records(fs, serialize)[i]; q.id == fs[i].id && q.text == Strip(fs[i].text) && q.xmlIndex == i
  {
  }

  lemma {:induction false} KeptComplete(fs: seq<Found>, k: nat)
    requires k < |fs| && !IsBlank(fs[k])
    ensures exists i :: 0 <= i < |Kept(fs)| && Kept(fs)[i].id == fs[k].id
  {
    var k0 := FirstNonBlank(fs, fs[k].id, k);
    KeptFirst(fs, k0);
  }

  /** Every id of a title with non-blank text has its question: none is lost. */
  lemma QuestionsComplete(fs: seq<Found>, serialize: Element -> string, k: nat)
    requires k < |fs| && !IsBlank(fs[k])
    ensures var qs := Questions(fs, serialize);
      exists i :: 0 <= i < |qs| && qs[i].id == fs[k].id
  {
    KeptComplete(fs, k);
    var ks := Kept(fs);
    var i :| 0 <= i < |ks| && ks[i].id == fs[k].id;
    RecordId(ks, serialize, i);
    var qs := Questions(fs, serialize);
    assert 0 <= i < |qs| && qs[i].id == fs[k].id;
  }

  lemma RecordId(fs: seq<Found>, serialize: Element -> string, i: nat)
    requires i < |fs|
    ensures Records(fs, serialize)[i].id == fs[i].id
  {
  }

  /** The earliest title with id `id` and non-blank text, given one at `k`. */
  lemma {:induction false} FirstNonBlank(fs: seq<Found>, id: string, k: nat) returns (k0: nat)
    requires k < |fs| && fs[k].id == id && !IsBlank(fs[k])
    ensures k0 <= k && fs[k0].id == id && FirstOfId(fs, k0)
    decreases k
  {
    if FirstOfId(fs, k) {
      k0 := k;
    } else {
      var j :| 0 <= j < k && fs[j].id == fs[k].id && !IsBlank(fs[j]);
      k0 := FirstNonBlank(fs, id, j);
    }
  }
}
