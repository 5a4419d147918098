/** The structural normaliser of `XMLContent`: typing an untyped topic and
    rewriting it into concept, reference or task shape.

    The step conversion walks the tree with lxml's `iter`, whose iterator
    computes the next match before handing out the current one.  Clearing a
    converted element detaches its children one by one; when the precomputed
    next match lies inside one of them, the walk finishes that detached
    child and then ends, because a detached child has neither parent nor
    siblings.  `Walk` models this with a status: `Continue`, `Stop` (the
    iteration ended early) or `Fail` (TypeError on a paragraph without
    text).
 */
module Normaliser {
  import opened Wrappers
  import opened PyStr
  import opened XmlTree
  import opened Content

  // ---------------------------------------------------------------------
  // Renaming tags

  function RenameChildren(cs: seq<Element>, tag: string, newTag: string): (r: seq<Element>)
    ensures |r| == |cs|
    ensures forall j :: 0 <= j < |cs| ==> r[j] == if cs[j].tag == tag then cs[j].(tag := newTag) else cs[j]
  {
    seq(|cs|, j requires 0 <= j < |cs| => if cs[j].tag == tag then cs[j].(tag := newTag) else cs[j])
  }

  /** `rename_tag`: the root when it carries the tag, otherwise its direct
      children that do. */
  function RenameTag(c: Content, tag: string, newTag: string): Content {
    if tag != c.root.tag then c.(root := c.root.(children := RenameChildren(c.root.children, tag, newTag)))
    else c.(root := c.root.(tag := newTag))
  }

  /** The header the typed conversions set: the XML declaration without the
      line break of the default header. */
  const TypedHeader: string := "<?xml version=\"1.0\" encoding=\"UTF-8\"?>"

  lemma TypedHeaderLacksNewline()
    ensures DefaultHeader == TypedHeader + "\n"
  {
  }

  /** The common part of `convert_to_concept`, `convert_to_reference` and
      `convert_to_task`: new header, `topic` to the typed root, `body` to the
      typed body. */
  function Retype(c: Content, rootTag: string, bodyTag: string): Content {
    RenameTag(RenameTag(c.(header := TypedHeader), "topic", rootTag), "body", bodyTag)
  }

  /** A plain topic becomes the typed root whose direct bodies are renamed;
      nothing but tags and the header changes. */
  lemma RetypeTopic(c: Content, rootTag: string, bodyTag: string)
    requires c.root.tag == "topic" && rootTag != "body"
    ensures var r := Retype(c, rootTag, bodyTag);
      r.root.tag == rootTag && r.header == TypedHeader
      && |r.root.children| == |c.root.children|
      && (forall j :: 0 <= j < |c.root.children| ==>
            r.root.children[j].tag == (if c.root.children[j].tag == "body" then bodyTag else c.root.children[j].tag)
            && r.root.children[j].children == c.root.children[j].children
            && r.root.children[j].text == c.root.children[j].text)
      && r.titleRef == c.titleRef && r.links == c.links && r.orphans == c.orphans
  {
  }

  /** Running a conversion twice is the same as running it once, except when
      a plain `topic` root has a nested `topic` child (renamed only by the
      second run) or a `body` root has a `body` child. */
  lemma RetypeIdempotent(c: Content, rootTag: string, bodyTag: string)
    requires rootTag !in ["topic", "body"] && bodyTag !in ["topic", "body"]
    ensures Retype(Retype(c, rootTag, bodyTag), rootTag, bodyTag) == Retype(c, rootTag, bodyTag) <==>
      !(c.root.tag == "topic" && Find(c.root, "topic").Some?) && !(c.root.tag == "body" && Find(c.root, "body").Some?)
  {
    var r1 := Retype(c, rootTag, bodyTag);
    var r2 := Retype(r1, rootTag, bodyTag);
    if c.root.tag == "topic" && Find(c.root, "topic").Some? {
      var j := FindIndex(c.root.children, "topic").value;
      assert r1.root.children[j].tag == "topic";
      assert r2.root.children[j].tag == rootTag;
    } else if c.root.tag == "body" && Find(c.root, "body").Some? {
      var j := FindIndex(c.root.children, "body").value;
      assert r1.root.children[j].tag == "body";
      assert r2.root.children[j].tag == bodyTag;
    } else {
      assert r2.root.children == r1.root.children;
    }
  }

  /** `convert_to_concept`. */
  function ConvertToConcept(c: Content): (r: Content)
    ensures c.root.tag == "topic" ==> r.root.tag == "concept" && r.header == TypedHeader
    ensures c.root.tag == "topic" ==>
      (|r.root.children| == |c.root.children|
       && forall j :: 0 <= j < |c.root.children| ==>
            r.root.children[j].tag == (if c.root.children[j].tag == "body" then "conbody" else c.root.children[j].tag)
            && r.root.children[j].children == c.root.children[j].children
            && r.root.children[j].text == c.root.children[j].text)
    ensures r.titleRef == c.titleRef && r.links == c.links && r.orphans == c.orphans
    ensures c.root.tag !in ["topic", "body"] ==> r.root.tag == c.root.tag
  {
    if c.root.tag == "topic" then RetypeTopic(c, "concept", "conbody"); Retype(c, "concept", "conbody")
    else Retype(c, "concept", "conbody")
  }

  /** `convert_to_reference`: only the renaming and the header.  Its
      section-wrapping branch tests `findall(...) is None`, which a list
      never is, and the generator it calls runs no code. */
  function ConvertToReference(c: Content): (r: Content)
    ensures c.root.tag == "topic" ==> r.root.tag == "reference" && r.header == TypedHeader
    ensures c.root.tag == "topic" ==>
      (|r.root.children| == |c.root.children|
       && forall j :: 0 <= j < |c.root.children| ==>
            r.root.children[j].tag == (if c.root.children[j].tag == "body" then "refbody" else c.root.children[j].tag)
            && r.root.children[j].children == c.root.children[j].children
            && r.root.children[j].text == c.root.children[j].text)
    ensures r.titleRef == c.titleRef && r.links == c.links && r.orphans == c.orphans
    ensures r.header == TypedHeader
  {
    if c.root.tag == "topic" then RetypeTopic(c, "reference", "refbody"); Retype(c, "reference", "refbody")
    else Retype(c, "reference", "refbody")
  }

  // ---------------------------------------------------------------------
  // Steps

  datatype Status = Continue | Stop | Fail

  datatype Walked = Walked(tree: Element, status: Status, detached: seq<Element>)
  datatype WalkedSeq = WalkedSeq(trees: seq<Element>, status: Status, detached: seq<Element>)

  /** `convert_tag_to_step`: tag `step`, cleared, one `cmd` child holding
      the old text. */
  function StepOf(e: Element): (r: Element)
    ensures r.id == e.id && r.tag == "step" && r.attrs == map[] && r.text == None
    ensures r.children == [Element(0, "cmd", map[], e.text, [])]
  {
    Element(e.id, "step", map[], None, [TextElement("cmd", e.text)])
  }

  /** The elements the conversion picks: every `li`; a `p` only when its
      text starts with a number, a dot and a space. */
  predicate Picked(e: Element, tag: string, numbered: bool) {
    e.tag == tag && (!numbered || (e.text.Some? && IsNumbered(e.text.value)))
  }

  /** The walk over `iter(tag)` converting the picked elements.  With
      `numbered`, a `p` without text raises TypeError.  With `eager`, the
      iterator has precomputed the next match (the lxml behaviour); without
      it, the matches were listed before any conversion. */
  function Walk(e: Element, tag: string, numbered: bool, eager: bool): (r: Walked)
    ensures !eager ==> r.status != Stop
    ensures !numbered ==> r.status != Fail
    ensures r.tree.id == e.id
    decreases e, 0
  {
    if e.tag == tag && numbered && e.text.None? then Walked(e, Fail, [])
    else if Picked(e, tag, numbered) then
      Walked(StepOf(e), DetachedStatus(e.children, tag, numbered, eager), e.children)
    else
      var w := WalkSeq(e.children, tag, numbered, eager);
      Walked(e.(children := w.trees), w.status, w.detached)
  }

  function WalkSeq(cs: seq<Element>, tag: string, numbered: bool, eager: bool): (r: WalkedSeq)
    ensures |r.trees| == |cs|
    ensures !eager ==> r.status != Stop
    ensures !numbered ==> r.status != Fail
    decreases cs, 1
  {
    if cs == [] then WalkedSeq([], Continue, [])
    else
      var w := Walk(cs[0], tag, numbered, eager);
      if w.status != Continue then WalkedSeq([w.tree] + cs[1..], w.status, w.detached)
      else
        var rest := WalkSeq(cs[1..], tag, numbered, eager);
        WalkedSeq([w.tree] + rest.trees, rest.status, w.detached + rest.detached)
  }

  /** How the walk goes on after a picked element's children were cleared
      out.  Eagerly: it continues only if none of them holds a match; else
      it walks the first child holding one, detached, and then ends.  From a
      list: it visits all of them. */
  function DetachedStatus(cs: seq<Element>, tag: string, numbered: bool, eager: bool): (r: Status)
    ensures !eager ==> r != Stop
    ensures !numbered ==> r != Fail
    decreases cs, 2
  {
    if !eager then WalkSeq(cs, tag, numbered, eager).status
    else if cs == [] then Continue
    else if HasTag(cs[0], tag) then (if Walk(cs[0], tag, numbered, eager).status == Fail then Fail else Stop)
    else DetachedStatus(cs[1..], tag, numbered, eager)
  }

  /** Reference definition: every picked element not inside another picked
      element becomes a step. */
  function StepsRef(e: Element, tag: string, numbered: bool): Element
    decreases e
  {
    if Picked(e, tag, numbered) then StepOf(e)
    else e.(children := StepsRefSeq(e.children, tag, numbered))
  }

  function StepsRefSeq(cs: seq<Element>, tag: string, numbered: bool): (r: seq<Element>)
    ensures |r| == |cs|
    decreases cs
  {
    if cs == [] then [] else [StepsRef(cs[0], tag, numbered)] + StepsRefSeq(cs[1..], tag, numbered)
  }

  /** Every element with the tag has text. */
  predicate AllTexts(e: Element, tag: string) {
    forall x :: x in Iter(e, tag) ==> x.text.Some?
  }

  predicate AllTextsSeq(cs: seq<Element>, tag: string) {
    forall x :: x in IterSeq(cs, tag) ==> x.text.Some?
  }

  /** Walking a list of matches taken up front converts exactly what the
      reference definition converts, when no paragraph lacks text. */
  lemma {:induction false} WalkListedIsRef(e: Element, tag: string, numbered: bool)
    requires !numbered || AllTexts(e, tag)
    ensures Walk(e, tag, numbered, false).tree == StepsRef(e, tag, numbered)
    ensures Walk(e, tag, numbered, false).status == Continue
    decreases e
  {
    assert Iter(e, tag) == (if e.tag == tag then [e] else []) + IterSeq(e.children, tag);
    if e.tag == tag && numbered {
      assert e in Iter(e, tag);
    }
    WalkListedIsRefSeq(e.children, tag, numbered);
  }

  lemma {:induction false} WalkListedIsRefSeq(cs: seq<Element>, tag: string, numbered: bool)
    requires !numbered || AllTextsSeq(cs, tag)
    ensures WalkSeq(cs, tag, numbered, false).trees == StepsRefSeq(cs, tag, numbered)
    ensures WalkSeq(cs, tag, numbered, false).status == Continue
    decreases cs
  {
    if cs != [] {
      assert IterSeq(cs, tag) == Iter(cs[0], tag) + IterSeq(cs[1..], tag);
      WalkListedIsRef(cs[0], tag, numbered);
      WalkListedIsRefSeq(cs[1..], tag, numbered);
    }
  }

  /** No picked element contains another element with the tag. */
  predicate NoNesting(e: Element, tag: string, numbered: bool) {
    forall x :: x in Nodes(e) && Picked(x, tag, numbered) ==> forall j :: 0 <= j < |x.children| ==> !HasTag(x.children[j], tag)
  }

  predicate NoNestingSeq(cs: seq<Element>, tag: string, numbered: bool) {
    forall x :: x in NodesSeq(cs) && Picked(x, tag, numbered) ==> forall j :: 0 <= j < |x.children| ==> !HasTag(x.children[j], tag)
  }

  lemma {:induction false} DetachedNoMatch(cs: seq<Element>, tag: string, numbered: bool)
    requires forall j :: 0 <= j < |cs| ==> !HasTag(cs[j], tag)
    ensures DetachedStatus(cs, tag, numbered, true) == Continue
    decreases cs
  {
    if cs != [] {
      DetachedNoMatch(cs[1..], tag, numbered);
    }
  }

  /** The eager walk behaves like the listed one as long as no picked
      element contains another element with the tag. */
  lemma {:induction false} WalkEagerAgrees(e: Element, tag: string, numbered: bool)
    requires NoNesting(e, tag, numbered)
    ensures Walk(e, tag, numbered, true).tree == Walk(e, tag, numbered, false).tree
    ensures Walk(e, tag, numbered, true).status == Continue <==> Walk(e, tag, numbered, false).status == Continue
    decreases e
  {
    assert Nodes(e) == [e] + NodesSeq(e.children);
    if e.tag == tag && numbered && e.text.None? {
    } else if Picked(e, tag, numbered) {
      assert e in Nodes(e);
      DetachedNoMatch(e.children, tag, numbered);
      NoMatchWalkSeq(e.children, tag, numbered);
    } else {
      WalkEagerAgreesSeq(e.children, tag, numbered);
    }
  }

  lemma {:induction false} WalkEagerAgreesSeq(cs: seq<Element>, tag: string, numbered: bool)
    requires NoNestingSeq(cs, tag, numbered)
    ensures WalkSeq(cs, tag, numbered, true).trees == WalkSeq(cs, tag, numbered, false).trees
    ensures WalkSeq(cs, tag, numbered, true).status == Continue <==> WalkSeq(cs, tag, numbered, false).status == Continue
    decreases cs
  {
    if cs != [] {
      assert NodesSeq(cs) == Nodes(cs[0]) + NodesSeq(cs[1..]);
      WalkEagerAgrees(cs[0], tag, numbered);
      WalkEagerAgreesSeq(cs[1..], tag, numbered);
      var we := Walk(cs[0], tag, numbered, true);
      var wl := Walk(cs[0], tag, numbered, false);
      if we.status == Continue {
        assert wl.status == Continue;
      } else {
        assert wl.status != Continue;
        assert we.status == Fail || wl.status == Fail ==> true;
        WalkStatusAgrees(cs[0], tag, numbered);
      }
    }
  }

  /** Without nesting, a walk that does not continue failed in both modes. */
  lemma {:induction false} WalkStatusAgrees(e: Element, tag: string, numbered: bool)
    requires NoNesting(e, tag, numbered)
    ensures Walk(e, tag, numbered, true).status == Walk(e, tag, numbered, false).status
    decreases e
  {
    assert Nodes(e) == [e] + NodesSeq(e.children);
    if e.tag == tag && numbered && e.text.None? {
    } else if Picked(e, tag, numbered) {
      assert e in Nodes(e);
      DetachedNoMatch(e.children, tag, numbered);
      NoMatchWalkSeq(e.children, tag, numbered);
    } else {
      WalkStatusAgreesSeq(e.children, tag, numbered);
    }
  }

  lemma {:induction false} WalkStatusAgreesSeq(cs: seq<Element>, tag: string, numbered: bool)
    requires NoNestingSeq(cs, tag, numbered)
    ensures WalkSeq(cs, tag, numbered, true).status == WalkSeq(cs, tag, numbered, false).status
    decreases cs
  {
    if cs != [] {
      assert NodesSeq(cs) == Nodes(cs[0]) + NodesSeq(cs[1..]);
      WalkStatusAgrees(cs[0], tag, numbered);
      WalkEagerAgrees(cs[0], tag, numbered);
      WalkStatusAgreesSeq(cs[1..], tag, numbered);
    }
  }

  /** A subtree without the tag is walked without effect. */
  lemma {:induction false} NoMatchWalk(e: Element, tag: string, numbered: bool, eager: bool)
    requires !HasTag(e, tag)
    ensures Walk(e, tag, numbered, eager) == Walked(e, Continue, [])
    decreases e
  {
    assert Iter(e, tag) == (if e.tag == tag then [e] else []) + IterSeq(e.children, tag);
    NoMatchWalkSeqAny(e.children, tag, numbered, eager);
  }

  lemma {:induction false} NoMatchWalkSeqAny(cs: seq<Element>, tag: string, numbered: bool, eager: bool)
    requires |IterSeq(cs, tag)| == 0
    ensures WalkSeq(cs, tag, numbered, eager) == WalkedSeq(cs, Continue, [])
    decreases cs
  {
    if cs != [] {
      assert IterSeq(cs, tag) == Iter(cs[0], tag) + IterSeq(cs[1..], tag);
      NoMatchWalk(cs[0], tag, numbered, eager);
      NoMatchWalkSeqAny(cs[1..], tag, numbered, eager);
      assert [cs[0]] + cs[1..] == cs;
    }
  }

  lemma NoMatchWalkSeq(cs: seq<Element>, tag: string, numbered: bool)
    requires forall j :: 0 <= j < |cs| ==> !HasTag(cs[j], tag)
    ensures WalkSeq(cs, tag, numbered, false).status == Continue
  {
    NoHasTagSeq(cs, tag);
    NoMatchWalkSeqAny(cs, tag, numbered, false);
  }

  lemma {:induction false} NoHasTagSeq(cs: seq<Element>, tag: string)
    requires forall j :: 0 <= j < |cs| ==> !HasTag(cs[j], tag)
    ensures |IterSeq(cs, tag)| == 0
    decreases cs
  {
    if cs != [] {
      NoHasTagSeq(cs[1..], tag);
    }
  }

  /** `wrap_steps`: when the first `taskbody` has a direct `step`, a deep
      copy of it renamed `steps` becomes its only child; the originals are
      detached.  Asserts the outputclass is `procedure`. */
  function WrapSteps(c: Content): (r: Res<Content>)
    ensures c.outputclass != Some("procedure") ==> r == Raised(c, AssertionError)
    ensures r.Raised? ==> r.partial == c
    ensures r.Ok? ==> r.value.titleRef == c.titleRef && r.value.links == c.links && r.value.outputclass == c.outputclass
  {
    if c.outputclass != Some("procedure") then Raised(c, AssertionError)
    else match FindIndex(c.root.children, "taskbody")
      case None => Raised(c, IndexError)
      case Some(i) =>
        var tb := c.root.children[i];
        if |FindAll(tb, "step")| == 0 then Ok(c)
        else
          var steps := DeepCopy(tb).(tag := "steps");
          var tb2 := Element(tb.id, tb.tag, map[], None, [steps]);
          Ok(c.(root := c.root.(children := c.root.children[i := tb2]), orphans := c.orphans + tb.children))
  }

  /** When it wraps, the task body's only child is `steps`, holding copies of
      all former children (and its former attributes and text). */
  lemma WrapStepsMoves(c: Content)
    requires c.outputclass == Some("procedure")
    requires Find(c.root, "taskbody").Some? && Find(Find(c.root, "taskbody").value, "step").Some?
    ensures WrapSteps(c).Ok?
    ensures var i := FindIndex(c.root.children, "taskbody").value;
      var tb := c.root.children[i];
      var tb2 := WrapSteps(c).value.root.children[i];
      tb2.tag == "taskbody" && |tb2.children| == 1 && tb2.children[0].tag == "steps"
      && tb2.children[0].children == DeepCopySeq(tb.children)
      && tb2.children[0].attrs == tb.attrs && tb2.children[0].text == tb.text
      && Find(tb2, "step").None?
  {
    var i := FindIndex(c.root.children, "taskbody").value;
    var tb := c.root.children[i];
    assert |FindAll(tb, "step")| > 0;
  }

  /** Wrapping twice is wrapping once. */
  lemma WrapStepsIdempotent(c: Content)
    requires WrapSteps(c).Ok?
    ensures WrapSteps(WrapSteps(c).value) == WrapSteps(c)
  {
    var i := FindIndex(c.root.children, "taskbody").value;
    var c2 := WrapSteps(c).value;
    assert c2.root.children[i].tag == "taskbody";
    assert forall j :: 0 <= j < i ==> c2.root.children[j] == c.root.children[j];
    assert FindIndex(c2.root.children, "taskbody") == Some(i);
  }

  /** Each direct `ol` becomes `steps` and each `li` walked in it a step. */
  function OlsPass(cs: seq<Element>, eager: bool): (r: (seq<Element>, seq<Element>))
    ensures |r.0| == |cs|
    decreases cs
  {
    if cs == [] then ([], [])
    else
      var (rest, d1) := OlsPass(cs[1..], eager);
      if cs[0].tag == "ol" then
        var w := Walk(cs[0].(tag := "steps"), "li", false, eager);
        ([w.tree] + rest, w.detached + d1)
      else ([cs[0]] + rest, d1)
  }

  /** `convert_lists_to_steps`; `eager` selects lxml's iteration (the code
      as written) or iteration over a list taken beforehand. */
  function ListsToSteps(c: Content, eager: bool): (r: Res<Content>)
    ensures r.Raised? ==> r.error in [TypeError, AssertionError, IndexError]
    ensures r.State().titleRef == c.titleRef && r.State().links == c.links
    ensures r.State().outputclass == c.outputclass
  {
    if |FindAll(c.root, "ol")| > 0 then
      var (cs, det) := OlsPass(c.root.children, eager);
      Ok(c.(root := c.root.(children := cs), orphans := c.orphans + det))
    else
      var w := Walk(c.root, "p", true, eager);
      var c1 := c.(root := w.tree, orphans := c.orphans + w.detached);
      if w.status == Fail then Raised(c1, TypeError) else WrapSteps(c1)
  }

  /** `convert_to_task` as written. */
  function ConvertToTask(c: Content): (r: Res<Content>)
    ensures c.root.tag == "topic" ==> r.State().root.tag == "task"
    ensures r.State().outputclass == c.outputclass
  {
    ListsToSteps(Retype(c, "task", "taskbody"), true)
  }

  /** `convert_to_task` with the matches listed before converting. */
  function ConvertToTaskFixed(c: Content): (r: Res<Content>)
    ensures c.root.tag == "topic" ==> r.State().root.tag == "task"
  {
    ListsToSteps(Retype(c, "task", "taskbody"), false)
  }

  /** The corrected conversion turns every numbered paragraph that is not
      inside another one into a step holding its full text, numeral
      included, when there is no direct `ol` and every paragraph has text. */
  lemma ConvertToTaskFixedSteps(c: Content)
    requires c.root.tag == "topic" && Find(c.root, "ol").None?
    requires AllTexts(c.root, "p") && c.outputclass == Some("procedure")
    ensures var t := Retype(c, "task", "taskbody");
      ConvertToTaskFixed(c) == WrapSteps(t.(root := StepsRef(t.root, "p", true),
                                             orphans := t.orphans + Walk(t.root, "p", true, false).detached))
  {
    var t := Retype(c, "task", "taskbody");
    assert forall j :: 0 <= j < |t.root.children| ==> t.root.children[j].tag != "ol";
    assert FindAll(t.root, "ol") == [];
    AllTextsRetype(c);
    WalkListedIsRef(t.root, "p", true);
  }

  lemma AllTextsRetype(c: Content)
    requires c.root.tag == "topic"
    requires AllTexts(c.root, "p")
    ensures AllTexts(Retype(c, "task", "taskbody").root, "p")
  {
    var t := Retype(c, "task", "taskbody").root;
    var cs := c.root.children;
    forall x | x in Iter(t, "p")
      ensures x.text.Some?
    {
      assert Iter(t, "p") == IterSeq(t.children, "p");
      assert Iter(c.root, "p") == IterSeq(cs, "p");
      IterRenamed(cs, "body", "taskbody", "p", x);
    }
  }

  /** Renaming `body` children does not change which `p` elements exist. */
  lemma {:induction false} IterRenamed(cs: seq<Element>, from: string, to: string, tag: string, x: Element)
    requires from != tag && to != tag
    requires x in IterSeq(RenameChildren(cs, from, to), tag)
    ensures x in IterSeq(cs, tag)
    decreases |cs|
  {
    var rs := RenameChildren(cs, from, to);
    assert IterSeq(rs, tag) == Iter(rs[0], tag) + IterSeq(rs[1..], tag);
    assert IterSeq(cs, tag) == Iter(cs[0], tag) + IterSeq(cs[1..], tag);
    assert rs[1..] == RenameChildren(cs[1..], from, to);
    if x in Iter(rs[0], tag) {
      assert Iter(rs[0], tag) == (if rs[0].tag == tag then [rs[0]] else []) + IterSeq(rs[0].children, tag);
      assert Iter(cs[0], tag) == (if cs[0].tag == tag then [cs[0]] else []) + IterSeq(cs[0].children, tag);
      assert rs[0].children == cs[0].children;
    } else {
      IterRenamed(cs[1..], from, to, tag, x);
    }
  }

  /** A step's command keeps the paragraph's whole text, numeral included. */
  lemma StepKeepsNumeral()
    ensures StepOf(Element(7, "p", map[], Some("1. Open the lid"), [])).children[0].text == Some("1. Open the lid")
  {
  }

  /** As written, a list item holding a nested list ends the conversion:
      `B` stays an `li`.  With the matches listed first it becomes a step. */
  lemma NestedListStopsConversion()
    ensures var inner := Element(4, "ol", map[], None, [Element(5, "li", map[], Some("A1"), [])]);
      var ol := Element(2, "steps", map[], None,
        [Element(3, "li", map[], Some("A"), [inner]), Element(6, "li", map[], Some("B"), [])]);
      Walk(ol, "li", false, true).tree.children[1].tag == "li"
      && Walk(ol, "li", false, true).status == Stop
      && Walk(ol, "li", false, false).tree.children[1].tag == "step"
  {
    var a1 := Element(5, "li", map[], Some("A1"), []);
    var inner := Element(4, "ol", map[], None, [a1]);
    var a := Element(3, "li", map[], Some("A"), [inner]);
    var b := Element(6, "li", map[], Some("B"), []);
    var ol := Element(2, "steps", map[], None, [a, b]);
    assert Iter(a1, "li") == [a1];
    assert Iter(inner, "li") == [a1];
    assert HasTag(inner, "li");
    assert DetachedStatus([inner], "li", false, true) == Stop;
    assert Walk(a, "li", false, true).status == Stop;
    assert WalkSeq([a, b], "li", false, true).trees == [StepOf(a), b];
    assert Walk(a, "li", false, false).status == Continue;
    assert [a, b][1..] == [b];
    assert Walk(b, "li", false, false).tree == StepOf(b);
    assert WalkSeq([b], "li", false, false).trees == [StepOf(b)];
    assert WalkSeq([a, b], "li", false, false).trees == [StepOf(a), StepOf(b)];
  }

  /** Without nesting the two iterations are the same walk: same tree, same
      status, same detached children. */
  lemma {:induction false} WalkModesEqual(e: Element, tag: string, numbered: bool)
    requires NoNesting(e, tag, numbered)
    ensures Walk(e, tag, numbered, true) == Walk(e, tag, numbered, false)
    decreases e
  {
    assert Nodes(e) == [e] + NodesSeq(e.children);
    if e.tag == tag && numbered && e.text.None? {
    } else if Picked(e, tag, numbered) {
      assert e in Nodes(e);
      DetachedNoMatch(e.children, tag, numbered);
      NoMatchWalkSeq(e.children, tag, numbered);
    } else {
      WalkModesEqualSeq(e.children, tag, numbered);
    }
  }

  lemma {:induction false} WalkModesEqualSeq(cs: seq<Element>, tag: string, numbered: bool)
    requires NoNestingSeq(cs, tag, numbered)
    ensures WalkSeq(cs, tag, numbered, true) == WalkSeq(cs, tag, numbered, false)
    decreases cs
  {
    if cs != [] {
      assert NodesSeq(cs) == Nodes(cs[0]) + NodesSeq(cs[1..]);
      WalkModesEqual(cs[0], tag, numbered);
      WalkModesEqualSeq(cs[1..], tag, numbered);
    }
  }

  /** Each direct `ol` is walked the same way in both modes when no list item
      holds another list item. */
  lemma {:induction false} OlsPassModesEqual(cs: seq<Element>)
    requires NoNestingSeq(cs, "li", false)
    ensures OlsPass(cs, true) == OlsPass(cs, false)
    decreases cs
  {
    if cs != [] {
      assert NodesSeq(cs) == Nodes(cs[0]) + NodesSeq(cs[1..]);
      OlsPassModesEqual(cs[1..]);
      if cs[0].tag == "ol" {
        var ol := cs[0].(tag := "steps");
        assert Nodes(cs[0]) == [cs[0]] + NodesSeq(cs[0].children);
        assert Nodes(ol) == [ol] + NodesSeq(cs[0].children);
        WalkModesEqual(ol, "li", false);
      }
    }
  }

  /** An element of a sequence of subtrees lies in one of them. */
  lemma {:induction false} NodesSeqWhere(cs: seq<Element>, x: Element) returns (k: nat)
    requires x in NodesSeq(cs)
    ensures k < |cs| && x in Nodes(cs[k])
    decreases cs
  {
    if x in Nodes(cs[0]) {
      k := 0;
    } else {
      var k1 := NodesSeqWhere(cs[1..], x);
      k := k1 + 1;
    }
  }

  /** Typing a topic as a task neither creates nor hides a nesting of `li`
      or `p` elements. */
  lemma NoNestingRetype(c: Content, tag: string, numbered: bool)
    requires c.root.tag == "topic" && tag != "task" && tag != "taskbody"
    requires NoNesting(c.root, tag, numbered)
    ensures NoNesting(Retype(c, "task", "taskbody").root, tag, numbered)
  {
    var t := Retype(c, "task", "taskbody").root;
    var cs := c.root.children;
    RetypeTopic(c, "task", "taskbody");
    assert Nodes(t) == [t] + NodesSeq(t.children);
    assert Nodes(c.root) == [c.root] + NodesSeq(cs);
    forall x | x in Nodes(t) && Picked(x, tag, numbered)
      ensures forall j :: 0 <= j < |x.children| ==> !HasTag(x.children[j], tag)
    {
      var k := NodesSeqWhere(t.children, x);
      assert Nodes(t.children[k]) == [t.children[k]] + NodesSeq(cs[k].children);
      assert Nodes(cs[k]) == [cs[k]] + NodesSeq(cs[k].children);
      if x == t.children[k] {
        assert cs[k].tag == x.tag && cs[k].text == x.text && cs[k].children == x.children;
        NodesSeqMember(cs, k, cs[k]);
        assert Picked(cs[k], tag, numbered);
      } else {
        NodesSeqMember(cs, k, x);
      }
    }
  }

  /** Whenever no list item holds another list item (a document with a
      direct `ol`) and no numbered paragraph holds another paragraph (one
      without), the conversion as written gives exactly what the corrected
      one gives, on success and on error alike. */
  lemma ConvertToTaskAgrees(c: Content)
    requires c.root.tag == "topic"
    requires Find(c.root, "ol").Some? ==> NoNesting(c.root, "li", false)
    requires Find(c.root, "ol").None? ==> NoNesting(c.root, "p", true)
    ensures ConvertToTask(c) == ConvertToTaskFixed(c)
  {
    var t := Retype(c, "task", "taskbody");
    RetypeTopic(c, "task", "taskbody");
    assert Nodes(t.root) == [t.root] + NodesSeq(t.root.children);
    if Find(c.root, "ol").Some? {
      var j := FindIndex(c.root.children, "ol").value;
      assert t.root.children[j].tag == "ol";
      assert |FindAll(t.root, "ol")| > 0;
      NoNestingRetype(c, "li", false);
      OlsPassModesEqual(t.root.children);
    } else {
      assert forall j :: 0 <= j < |t.root.children| ==> t.root.children[j].tag != "ol";
      NoNestingRetype(c, "p", true);
      WalkModesEqual(t.root, "p", true);
    }
  }

  /** The conversion as written turns every numbered paragraph into a step
      holding its full text when no numbered paragraph holds another
      paragraph, there is no direct `ol` and every paragraph has text. */
  lemma ConvertToTaskSteps(c: Content)
    requires c.root.tag == "topic" && Find(c.root, "ol").None?
    requires AllTexts(c.root, "p") && c.outputclass == Some("procedure")
    requires NoNesting(c.root, "p", true)
    ensures var t := Retype(c, "task", "taskbody");
      ConvertToTask(c) == WrapSteps(t.(root := StepsRef(t.root, "p", true),
                                       orphans := t.orphans + Walk(t.root, "p", true, false).detached))
  {
    ConvertToTaskAgrees(c);
    ConvertToTaskFixedSteps(c);
  }

  // ---------------------------------------------------------------------
  // Type detection

  /** `is_list_item`: TypeError on a paragraph without text. */
  function IsListItem(p: Element): (r: Result<bool>)
    ensures r.Failure? <==> p.text.None?
    ensures r.Success? ==> (r.value <==> IsNumbered(p.text.value))
  {
    if p.text.None? then Failure(TypeError) else Success(IsNumbered(p.text.value))
  }

  /** The loop of `is_mostly_list` over the paragraphs. */
  function AnyNumbered(ps: seq<Element>): (r: Result<bool>)
    decreases |ps|
  {
    if ps == [] then Success(false)
    else match IsListItem(ps[0])
      case Failure(e) => Failure(e)
      case Success(true) => Success(true)
      case Success(false) => AnyNumbered(ps[1..])
  }

  /** A paragraph the loop passes over: it has text, not numbered. */
  predicate Plain(p: Element) {
    p.text.Some? && !IsNumbered(p.text.value)
  }

  /** Reference definition: the position of the first paragraph the loop
      does not pass over (`|ps|` when there is none). */
  function FirstNonPlain(ps: seq<Element>): (r: nat)
    ensures r <= |ps|
    ensures forall j :: 0 <= j < r ==> Plain(ps[j])
    ensures r < |ps| ==> !Plain(ps[r])
    decreases |ps|
  {
    if ps == [] || !Plain(ps[0]) then 0 else 1 + FirstNonPlain(ps[1..])
  }

  /** The loop's answer is decided by the first paragraph that is not plain:
      none means false, one without text means TypeError, a numbered one
      means true. */
  lemma {:induction false} AnyNumberedMeans(ps: seq<Element>)
    ensures var i := FirstNonPlain(ps);
      AnyNumbered(ps) == if i == |ps| then Success(false)
                         else if ps[i].text.None? then Failure(TypeError)
                         else Success(true)
    decreases |ps|
  {
    if ps != [] && Plain(ps[0]) {
      AnyNumberedMeans(ps[1..]);
    }
  }

  /** `is_mostly_list`: a direct `ol` of the root, or a numbered paragraph
      anywhere. */
  function IsMostlyList(root: Element): (r: Result<bool>)
    ensures Find(root, "ol").Some? ==> r == Success(true)
    ensures Find(root, "ol").None? ==> r == AnyNumbered(Iter(root, "p"))
  {
    if Find(root, "ol").Some? then Success(true) else AnyNumbered(Iter(root, "p"))
  }

  /** `has_table`: a `table` or `simpletable` anywhere, the root included. */
  predicate HasTable(root: Element) {
    HasTag(root, "table") || HasTag(root, "simpletable")
  }

  /** `detect_type`. */
  function DetectType(c: Content): (r: Result<string>)
    ensures r.Success? ==> r.value in ["procedure", "referenceinformation", "explanation"]
    ensures r.Failure? ==> r.error == TypeError
    ensures r == Success("procedure") <==> IsMostlyList(c.root) == Success(true)
    ensures r == Success("referenceinformation") <==> IsMostlyList(c.root) == Success(false) && HasTable(c.root)
    ensures r == Success("explanation") <==> IsMostlyList(c.root) == Success(false) && !HasTable(c.root)
  {
    match IsMostlyList(c.root)
    case Failure(e) =>
      assert e == TypeError by { AnyNumberedMeans(Iter(c.root, "p")); }
      Failure(e)
    case Success(true) => Success("procedure")
    case Success(false) => if HasTable(c.root) then Success("referenceinformation") else Success("explanation")
  }

  /** The detected class is always one the type table knows, and never a
      legal-information, context or cover class. */
  lemma DetectTypeKnown(c: Content)
    requires DetectType(c).Success?
    ensures DetectType(c).value in TypeTable.OutputClasses
    ensures DetectType(c).value !in ["legalinformation", "context", "lpcontext", "frontcover", "backcover"]
  {
  }

  // ---------------------------------------------------------------------
  // Image hrefs

  /** The href `images_to_png` gives: unchanged when the text after the last
      dot is `png`, otherwise the text before the first dot plus `.png`. */
  function PngHref(h: string): string {
    var parts := Split(h, '.');
    if parts[|parts| - 1] != "png" then parts[0] + ".png" else h
  }

  /** A rewritten href ends in `.png` and is left alone by a second pass. */
  lemma PngHrefIdempotent(h: string)
    ensures PngHref(PngHref(h)) == PngHref(h)
    ensures var parts := Split(PngHref(h), '.'); parts[|parts| - 1] == "png"
  {
    var parts := Split(h, '.');
    if parts[|parts| - 1] != "png" {
      SplitFirstNoSep(h, '.');
      SplitPng(parts[0]);
    }
  }

  /** A dot-free stem with `.png` appended splits into the stem and `png`. */
  lemma SplitPng(x: string)
    requires forall i :: 0 <= i < |x| ==> x[i] != '.'
    ensures Split(x + ".png", '.') == [x, "png"]
  {
    SplitDotPng(x, "png");
    DotPng(x);
  }

  lemma DotPng(x: string)
    ensures x + ".png" == x + ['.'] + "png"
  {
  }

  /** `SplitTwo` for the extension `png`, kept apart so that the solver
      does not unfold the split of the literal. */
  lemma SplitDotPng(x: string, png: string)
    requires png == "png"
    requires forall i :: 0 <= i < |x| ==> x[i] != '.'
    ensures Split(x + ['.'] + png, '.') == [x, png]
  {
    assert forall i :: 0 <= i < |png| ==> png[i] != '.';
    SplitTwo(x, '.', png);
  }

  /** For a name with one extension: any extension but `png` is replaced by
      `png`, and a `png` name is kept. */
  lemma PngHrefOneExtension(stem: string, ext: string)
    requires forall i :: 0 <= i < |stem| ==> stem[i] != '.'
    requires forall i :: 0 <= i < |ext| ==> ext[i] != '.'
    ensures PngHref(stem + "." + ext) == stem + ".png"
  {
    SplitAfterPiece(stem, '.', ext);
    SplitNoSep(ext, '.');
  }

  /** Only the first piece survives: `a.b.jpg` becomes `a.png`. */
  lemma PngHrefDropsInnerDots(a: string, b: string, ext: string)
    requires forall i :: 0 <= i < |a| ==> a[i] != '.'
    requires forall i :: 0 <= i < |b| ==> b[i] != '.'
    requires forall i :: 0 <= i < |ext| ==> ext[i] != '.'
    requires ext != "png"
    ensures PngHref(a + "." + b + "." + ext) == a + ".png"
  {
    assert a + "." + b + "." + ext == a + ['.'] + (b + ['.'] + ext);
    SplitAfterPiece(b, '.', ext);
    SplitAfterPiece(a, '.', b + "." + ext);
    SplitNoSep(ext, '.');
  }

  /** The walk of `images_to_png` over `iter('image')`; the flag reports
      the AttributeError of an image without href. */
  function PngWalk(e: Element): (r: (Element, bool))
    decreases e
  {
    if e.tag == "image" && Attr(e, "href").None? then (e, true)
    else
      var e1 := if e.tag == "image" then e.(attrs := e.attrs["href" := PngHref(Attr(e, "href").value)]) else e;
      var (cs, failed) := PngWalkSeq(e.children);
      (e1.(children := cs), failed)
  }

  function PngWalkSeq(cs: seq<Element>): (r: (seq<Element>, bool))
    ensures |r.0| == |cs|
    decreases cs
  {
    if cs == [] then ([], false)
    else
      var (e0, failed) := PngWalk(cs[0]);
      if failed then ([e0] + cs[1..], true)
      else
        var (rest, f2) := PngWalkSeq(cs[1..]);
        ([e0] + rest, f2)
  }

  /** `images_to_png`. */
  function ImagesToPng(c: Content): (r: Res<Content>)
    ensures r.Raised? ==> r.error == AttributeError
    ensures r.State().titleRef == c.titleRef && r.State().links == c.links
  {
    var (root, failed) := PngWalk(c.root);
    if failed then Raised(c.(root := root), AttributeError) else Ok(c.(root := root))
  }

  lemma {:induction false} PngWalkIdempotent(e: Element)
    requires !PngWalk(e).1
    ensures PngWalk(PngWalk(e).0) == PngWalk(e)
    decreases e
  {
    PngWalkSeqIdempotent(e.children);
    if e.tag == "image" {
      var h := Attr(e, "href").value;
      PngHrefIdempotent(h);
      var a2 := e.attrs["href" := PngHref(h)];
      assert a2["href" := PngHref(PngHref(h))] == a2;
    }
  }

  lemma {:induction false} PngWalkSeqIdempotent(cs: seq<Element>)
    requires !PngWalkSeq(cs).1
    ensures PngWalkSeq(PngWalkSeq(cs).0) == PngWalkSeq(cs)
    decreases cs
  {
    if cs != [] {
      PngWalkIdempotent(cs[0]);
      PngWalkSeqIdempotent(cs[1..]);
      var r := PngWalkSeq(cs).0;
      assert r[1..] == PngWalkSeq(cs[1..]).0;
    }
  }

  /** A second `images_to_png` changes nothing. */
  lemma ImagesToPngIdempotent(c: Content)
    requires ImagesToPng(c).Ok?
    ensures ImagesToPng(ImagesToPng(c).value) == ImagesToPng(c)
  {
    PngWalkIdempotent(c.root);
  }
}
