/** The part of lxml's element API the program uses.

    An element has a tag, an attribute map, an optional text and an ordered
    list of children.  `id` stands for the element's object identity: the
    program keeps references to elements (the title, the local links) across
    mutations, and those references are modelled as ids.  Id 0 marks an
    element that nothing refers to.
 */
module XmlTree {
  import opened Wrappers

  datatype Element = Element(
    id: nat,
    tag: string,
    attrs: map<string, string>,
    text: Option<string>,
    children: seq<Element>)

  /** `etree.Element(tag)` with its text set: the program's `TextElement`. */
  function TextElement(tag: string, text: Option<string>): Element {
    Element(0, tag, map[], text, [])
  }

  /** `e.attrib.get(key)`. */
  function Attr(e: Element, key: string): Option<string> {
    if key in e.attrs then Some(e.attrs[key]) else None
  }

  /** `e.clear()`: children, attributes and text all dropped. */
  function Clear(e: Element): (r: Element)
    ensures r.id == e.id && r.tag == e.tag
    ensures r.children == [] && r.attrs == map[] && r.text == None
  {
    e.(attrs := map[], text := None, children := [])
  }

  /** Python's `list.insert(i, x)` for a non-negative index: an index past
      the end appends. */
  function PyInsert<T>(s: seq<T>, i: nat, x: T): (r: seq<T>)
    ensures |r| == |s| + 1
    ensures i <= |s| ==> r == s[..i] + [x] + s[i..]
    ensures i > |s| ==> r == s + [x]
  {
    if i >= |s| then s + [x] else s[..i] + [x] + s[i..]
  }

  // ---------------------------------------------------------------------
  // find / findall: direct children only

  /** Index of the first direct child with the given tag. */
  function FindIndex(cs: seq<Element>, tag: string): (r: Option<nat>)
    ensures r.Some? ==> r.value < |cs| && cs[r.value].tag == tag
    ensures r.Some? ==> forall j :: 0 <= j < r.value ==> cs[j].tag != tag
    ensures r.None? ==> forall j :: 0 <= j < |cs| ==> cs[j].tag != tag
    decreases |cs|
  {
    if cs == [] then None
    else if cs[0].tag == tag then Some(0)
    else match FindIndex(cs[1..], tag)
      case None => None
      case Some(k) => Some(k + 1)
  }

  /** The first child with the tag is at k when the child there has it and
      none before does. */
  lemma FindIndexAt(cs: seq<Element>, tag: string, k: nat)
    requires k < |cs| && cs[k].tag == tag
    requires forall i :: 0 <= i < k ==> cs[i].tag != tag
    ensures FindIndex(cs, tag) == Some(k)
  {
  }

  /** `e.find(tag)`. */
  function Find(e: Element, tag: string): (r: Option<Element>)
    ensures r.Some? ==> r.value in e.children && r.value.tag == tag
    ensures r.None? <==> forall j :: 0 <= j < |e.children| ==> e.children[j].tag != tag
  {
    match FindIndex(e.children, tag)
    case None => None
    case Some(k) => Some(e.children[k])
  }

  /** `e.findall(tag)`. */
  function FindAll(e: Element, tag: string): seq<Element> {
    FilterTag(e.children, tag)
  }

  function FilterTag(cs: seq<Element>, tag: string): (r: seq<Element>)
    ensures forall x :: x in r ==> x in cs && x.tag == tag
    ensures |r| == 0 <==> forall j :: 0 <= j < |cs| ==> cs[j].tag != tag
    decreases |cs|
  {
    if cs == [] then []
    else (if cs[0].tag == tag then [cs[0]] else []) + FilterTag(cs[1..], tag)
  }

  // ---------------------------------------------------------------------
  // iter: the element itself and all its descendants, in document order

  /** All elements of the subtree in document order. */
  function Nodes(e: Element): seq<Element>
    decreases e
  {
    [e] + NodesSeq(e.children)
  }

  function NodesSeq(cs: seq<Element>): seq<Element>
    decreases cs
  {
    if cs == [] then [] else Nodes(cs[0]) + NodesSeq(cs[1..])
  }

  /** `e.iter(tag)`. */
  function Iter(e: Element, tag: string): seq<Element>
    decreases e
  {
    (if e.tag == tag then [e] else []) + IterSeq(e.children, tag)
  }

  function IterSeq(cs: seq<Element>, tag: string): seq<Element>
    decreases cs
  {
    if cs == [] then [] else Iter(cs[0], tag) + IterSeq(cs[1..], tag)
  }

  /** Some element of the subtree carries the tag. */
  predicate HasTag(e: Element, tag: string) {
    |Iter(e, tag)| > 0
  }

  /** `copy.deepcopy(e)`: a structurally equal tree of new objects, which
      no reference points to. */
  function DeepCopy(e: Element): (r: Element)
    ensures r.tag == e.tag && r.attrs == e.attrs && r.text == e.text && r.id == 0
    decreases e
  {
    Element(0, e.tag, e.attrs, e.text, DeepCopySeq(e.children))
  }

  function DeepCopySeq(cs: seq<Element>): (r: seq<Element>)
    ensures |r| == |cs|
    ensures forall j :: 0 <= j < |cs| ==> r[j] == DeepCopy(cs[j])
    decreases cs
  {
    if cs == [] then [] else [DeepCopy(cs[0])] + DeepCopySeq(cs[1..])
  }

  // ---------------------------------------------------------------------
  // Identity: looking up and updating the element a reference points to

  /** The first element of the subtree with the given id. */
  function Lookup(e: Element, id: nat): Option<Element>
    decreases e
  {
    if e.id == id then Some(e) else LookupSeq(e.children, id)
  }

  function LookupSeq(cs: seq<Element>, id: nat): Option<Element>
    decreases cs
  {
    if cs == [] then None
    else match Lookup(cs[0], id)
      case Some(x) => Some(x)
      case None => LookupSeq(cs[1..], id)
  }

  /** Every element with the given id has `key` set to `value`. */
  function SetAttrById(e: Element, id: nat, key: string, value: string): Element
    decreases e
  {
    var cs := SetAttrByIdSeq(e.children, id, key, value);
    if e.id == id then e.(attrs := e.attrs[key := value], children := cs)
    else e.(children := cs)
  }

  function SetAttrByIdSeq(cs: seq<Element>, id: nat, key: string, value: string): (r: seq<Element>)
    ensures |r| == |cs|
    decreases cs
  {
    if cs == [] then [] else [SetAttrById(cs[0], id, key, value)] + SetAttrByIdSeq(cs[1..], id, key, value)
  }

  /** Every element with the given id has its text set. */
  function SetTextById(e: Element, id: nat, text: Option<string>): Element
    decreases e
  {
    var cs := SetTextByIdSeq(e.children, id, text);
    if e.id == id then e.(text := text, children := cs) else e.(children := cs)
  }

  function SetTextByIdSeq(cs: seq<Element>, id: nat, text: Option<string>): (r: seq<Element>)
    ensures |r| == |cs|
    ensures forall j :: 0 <= j < |cs| ==> r[j] == SetTextById(cs[j], id, text)
    decreases cs
  {
    if cs == [] then [] else [SetTextById(cs[0], id, text)] + SetTextByIdSeq(cs[1..], id, text)
  }

  /** Setting an attribute on one element leaves the attributes of the
      element every other id refers to unchanged. */
  lemma {:induction false} LookupSetAttrOther(e: Element, id: nat, key: string, value: string, other: nat)
    requires other != id
    ensures Lookup(SetAttrById(e, id, key, value), other).Some? == Lookup(e, other).Some?
    ensures Lookup(e, other).Some? ==>
      Lookup(SetAttrById(e, id, key, value), other).value.attrs == Lookup(e, other).value.attrs
    ensures Lookup(e, other).Some? ==>
      Lookup(SetAttrById(e, id, key, value), other).value.text == Lookup(e, other).value.text
    ensures Lookup(e, other).Some? ==>
      Lookup(SetAttrById(e, id, key, value), other).value.tag == Lookup(e, other).value.tag
    decreases e
  {
    LookupSetAttrOtherSeq(e.children, id, key, value, other);
  }

  lemma {:induction false} LookupSetAttrOtherSeq(cs: seq<Element>, id: nat, key: string, value: string, other: nat)
    requires other != id
    ensures LookupSeq(SetAttrByIdSeq(cs, id, key, value), other).Some? == LookupSeq(cs, other).Some?
    ensures LookupSeq(cs, other).Some? ==>
      LookupSeq(SetAttrByIdSeq(cs, id, key, value), other).value.attrs == LookupSeq(cs, other).value.attrs
    ensures LookupSeq(cs, other).Some? ==>
      LookupSeq(SetAttrByIdSeq(cs, id, key, value), other).value.text == LookupSeq(cs, other).value.text
    ensures LookupSeq(cs, other).Some? ==>
      LookupSeq(SetAttrByIdSeq(cs, id, key, value), other).value.tag == LookupSeq(cs, other).value.tag
    decreases cs
  {
    if cs != [] {
      LookupSetAttrOther(cs[0], id, key, value, other);
      LookupSetAttrOtherSeq(cs[1..], id, key, value, other);
      assert SetAttrByIdSeq(cs, id, key, value)[1..] == SetAttrByIdSeq(cs[1..], id, key, value);
    }
  }

  /** Setting an attribute on the element an id refers to is visible
      through that id, and nothing else of it changes. */
  lemma {:induction false} LookupSetAttrSame(e: Element, id: nat, key: string, value: string)
    ensures Lookup(SetAttrById(e, id, key, value), id).Some? == Lookup(e, id).Some?
    ensures Lookup(e, id).Some? ==>
      Lookup(SetAttrById(e, id, key, value), id).value.attrs == Lookup(e, id).value.attrs[key := value]
    ensures Lookup(e, id).Some? ==>
      Lookup(SetAttrById(e, id, key, value), id).value.text == Lookup(e, id).value.text
    decreases e
  {
    LookupSetAttrSameSeq(e.children, id, key, value);
  }

  lemma {:induction false} LookupSetAttrSameSeq(cs: seq<Element>, id: nat, key: string, value: string)
    ensures LookupSeq(SetAttrByIdSeq(cs, id, key, value), id).Some? == LookupSeq(cs, id).Some?
    ensures LookupSeq(cs, id).Some? ==>
      LookupSeq(SetAttrByIdSeq(cs, id, key, value), id).value.attrs == LookupSeq(cs, id).value.attrs[key := value]
    ensures LookupSeq(cs, id).Some? ==>
      LookupSeq(SetAttrByIdSeq(cs, id, key, value), id).value.text == LookupSeq(cs, id).value.text
    decreases cs
  {
    if cs != [] {
      LookupSetAttrSame(cs[0], id, key, value);
      LookupSetAttrSameSeq(cs[1..], id, key, value);
      assert SetAttrByIdSeq(cs, id, key, value)[1..] == SetAttrByIdSeq(cs[1..], id, key, value);
    }
  }

  /** Setting the text of one element leaves the element every other id
      refers to unchanged in text and attributes. */
  lemma {:induction false} LookupSetTextOther(e: Element, id: nat, t: Option<string>, other: nat)
    requires other != id
    ensures Lookup(SetTextById(e, id, t), other).Some? == Lookup(e, other).Some?
    ensures Lookup(e, other).Some? ==>
      Lookup(SetTextById(e, id, t), other).value.text == Lookup(e, other).value.text
    ensures Lookup(e, other).Some? ==>
      Lookup(SetTextById(e, id, t), other).value.attrs == Lookup(e, other).value.attrs
    decreases e
  {
    LookupSetTextOtherSeq(e.children, id, t, other);
  }

  lemma {:induction false} LookupSetTextOtherSeq(cs: seq<Element>, id: nat, t: Option<string>, other: nat)
    requires other != id
    ensures LookupSeq(SetTextByIdSeq(cs, id, t), other).Some? == LookupSeq(cs, other).Some?
    ensures LookupSeq(cs, other).Some? ==>
      LookupSeq(SetTextByIdSeq(cs, id, t), other).value.text == LookupSeq(cs, other).value.text
    ensures LookupSeq(cs, other).Some? ==>
      LookupSeq(SetTextByIdSeq(cs, id, t), other).value.attrs == LookupSeq(cs, other).value.attrs
    decreases cs
  {
    if cs != [] {
      LookupSetTextOther(cs[0], id, t, other);
      LookupSetTextOtherSeq(cs[1..], id, t, other);
      assert SetTextByIdSeq(cs, id, t)[1..] == SetTextByIdSeq(cs[1..], id, t);
    }
  }

  /** Setting the text of the element an id refers to is visible through
      that id. */
  lemma {:induction false} LookupSetTextSame(e: Element, id: nat, t: Option<string>)
    ensures Lookup(SetTextById(e, id, t), id).Some? == Lookup(e, id).Some?
    ensures Lookup(e, id).Some? ==> Lookup(SetTextById(e, id, t), id).value.text == t
    ensures Lookup(e, id).Some? ==>
      Lookup(SetTextById(e, id, t), id).value.attrs == Lookup(e, id).value.attrs
    decreases e
  {
    LookupSetTextSameSeq(e.children, id, t);
  }

  lemma {:induction false} LookupSetTextSameSeq(cs: seq<Element>, id: nat, t: Option<string>)
    ensures LookupSeq(SetTextByIdSeq(cs, id, t), id).Some? == LookupSeq(cs, id).Some?
    ensures LookupSeq(cs, id).Some? ==> LookupSeq(SetTextByIdSeq(cs, id, t), id).value.text == t
    ensures LookupSeq(cs, id).Some? ==>
      LookupSeq(SetTextByIdSeq(cs, id, t), id).value.attrs == LookupSeq(cs, id).value.attrs
    decreases cs
  {
    if cs != [] {
      LookupSetTextSame(cs[0], id, t);
      LookupSetTextSameSeq(cs[1..], id, t);
      assert SetTextByIdSeq(cs, id, t)[1..] == SetTextByIdSeq(cs[1..], id, t);
    }
  }

  /** A subtree without the id is unchanged by setting an attribute there. */
  lemma {:induction false} SetAttrAbsent(e: Element, id: nat, key: string, value: string)
    requires Lookup(e, id).None?
    ensures SetAttrById(e, id, key, value) == e
    decreases e
  {
    SetAttrAbsentSeq(e.children, id, key, value);
  }

  lemma {:induction false} SetAttrAbsentSeq(cs: seq<Element>, id: nat, key: string, value: string)
    requires LookupSeq(cs, id).None?
    ensures SetAttrByIdSeq(cs, id, key, value) == cs
    decreases cs
  {
    if cs != [] {
      SetAttrAbsent(cs[0], id, key, value);
      SetAttrAbsentSeq(cs[1..], id, key, value);
    }
  }

  // ---------------------------------------------------------------------
  // Retargeting hrefs

  /** Every element with the given tag, at any depth, whose href equals
      `from` gets href `to`. */
  function Retarget(e: Element, tag: string, from: string, to: string): Element
    decreases e
  {
    var cs := RetargetSeq(e.children, tag, from, to);
    if e.tag == tag && Attr(e, "href") == Some(from) then e.(attrs := e.attrs["href" := to], children := cs)
    else e.(children := cs)
  }

  function RetargetSeq(cs: seq<Element>, tag: string, from: string, to: string): (r: seq<Element>)
    ensures |r| == |cs|
    decreases cs
  {
    if cs == [] then [] else [Retarget(cs[0], tag, from, to)] + RetargetSeq(cs[1..], tag, from, to)
  }

  /** The hrefs of the elements with a given tag, in document order. */
  function Hrefs(e: Element, tag: string): seq<Option<string>> {
    seq(|Iter(e, tag)|, i requires 0 <= i < |Iter(e, tag)| => Attr(Iter(e, tag)[i], "href"))
  }

  /** The tree with attribute `key` of every element of the given tag
      removed: what a rewrite of that attribute must leave alone. */
  function WithoutAttr(e: Element, tag: string, key: string): Element
    decreases e
  {
    var cs := WithoutAttrSeq(e.children, tag, key);
    if e.tag == tag then e.(attrs := e.attrs - {key}, children := cs) else e.(children := cs)
  }

  function WithoutAttrSeq(cs: seq<Element>, tag: string, key: string): (r: seq<Element>)
    ensures |r| == |cs|
    decreases cs
  {
    if cs == [] then [] else [WithoutAttr(cs[0], tag, key)] + WithoutAttrSeq(cs[1..], tag, key)
  }

  /** `h` with `from` mapped to `to`. */
  function Moved(h: Option<string>, from: string, to: string): Option<string> {
    if h == Some(from) then Some(to) else h
  }

  /** Retargeting keeps the element list of the tag and moves each href
      that equals `from`, and only those. */
  lemma {:induction false} RetargetIter(e: Element, tag: string, from: string, to: string)
    ensures |Iter(Retarget(e, tag, from, to), tag)| == |Iter(e, tag)|
    ensures forall i :: 0 <= i < |Iter(e, tag)| ==>
      Attr(Iter(Retarget(e, tag, from, to), tag)[i], "href") == Moved(Attr(Iter(e, tag)[i], "href"), from, to)
    decreases e
  {
    RetargetIterSeq(e.children, tag, from, to);
  }

  lemma {:induction false} RetargetIterSeq(cs: seq<Element>, tag: string, from: string, to: string)
    ensures |IterSeq(RetargetSeq(cs, tag, from, to), tag)| == |IterSeq(cs, tag)|
    ensures forall i :: 0 <= i < |IterSeq(cs, tag)| ==>
      Attr(IterSeq(RetargetSeq(cs, tag, from, to), tag)[i], "href") == Moved(Attr(IterSeq(cs, tag)[i], "href"), from, to)
    decreases cs
  {
    if cs != [] {
      RetargetIter(cs[0], tag, from, to);
      RetargetIterSeq(cs[1..], tag, from, to);
      assert RetargetSeq(cs, tag, from, to)[1..] == RetargetSeq(cs[1..], tag, from, to);
      assert RetargetSeq(cs, tag, from, to)[0] == Retarget(cs[0], tag, from, to);
    }
  }

  /** Retargeting changes nothing but hrefs of elements of the tag. */
  lemma {:induction false} RetargetFrame(e: Element, tag: string, from: string, to: string)
    ensures WithoutAttr(Retarget(e, tag, from, to), tag, "href") == WithoutAttr(e, tag, "href")
    decreases e
  {
    RetargetFrameSeq(e.children, tag, from, to);
    if e.tag == tag && Attr(e, "href") == Some(from) {
      assert e.attrs["href" := to] - {"href"} == e.attrs - {"href"};
    }
  }

  lemma {:induction false} RetargetFrameSeq(cs: seq<Element>, tag: string, from: string, to: string)
    ensures WithoutAttrSeq(RetargetSeq(cs, tag, from, to), tag, "href") == WithoutAttrSeq(cs, tag, "href")
    decreases cs
  {
    if cs != [] {
      RetargetFrame(cs[0], tag, from, to);
      RetargetFrameSeq(cs[1..], tag, from, to);
      assert RetargetSeq(cs, tag, from, to)[1..] == RetargetSeq(cs[1..], tag, from, to);
    }
  }

  /** Retargeting to the same name changes nothing. */
  lemma {:induction false} RetargetSame(e: Element, tag: string, name: string)
    ensures Retarget(e, tag, name, name) == e
    decreases e
  {
    RetargetSameSeq(e.children, tag, name);
    if e.tag == tag && Attr(e, "href") == Some(name) {
      assert e.attrs["href" := name] == e.attrs;
    }
  }

  lemma {:induction false} RetargetSameSeq(cs: seq<Element>, tag: string, name: string)
    ensures RetargetSeq(cs, tag, name, name) == cs
    decreases cs
  {
    if cs != [] {
      RetargetSame(cs[0], tag, name);
      RetargetSameSeq(cs[1..], tag, name);
    }
  }

  // ---------------------------------------------------------------------
  // The text every element with an id carries

  /** Every element of the subtree with the given id has text `t`, so a
      lookup of the id reads `t` whichever copy it reaches first. */
  predicate IdText(e: Element, id: nat, t: Option<string>)
    decreases e
  {
    (e.id == id ==> e.text == t) && IdTextSeq(e.children, id, t)
  }

  predicate IdTextSeq(cs: seq<Element>, id: nat, t: Option<string>)
    decreases cs
  {
    forall k :: 0 <= k < |cs| ==> IdText(cs[k], id, t)
  }

  /** After setting the text of an id, every element with it has that text. */
  lemma {:induction false} IdTextSet(e: Element, id: nat, t: Option<string>)
    ensures IdText(SetTextById(e, id, t), id, t)
    decreases e
  {
    forall k | 0 <= k < |e.children|
      ensures IdText(SetTextById(e.children[k], id, t), id, t)
    {
      IdTextSet(e.children[k], id, t);
    }
  }

  lemma IdTextSetSeq(cs: seq<Element>, id: nat, t: Option<string>)
    ensures IdTextSeq(SetTextByIdSeq(cs, id, t), id, t)
  {
    forall k | 0 <= k < |cs|
      ensures IdText(SetTextById(cs[k], id, t), id, t)
    {
      IdTextSet(cs[k], id, t);
    }
  }

  /** Setting the text of another id keeps what an id's elements carry. */
  lemma {:induction false} IdTextSetOther(e: Element, id: nat, t: Option<string>, other: nat, u: Option<string>)
    requires IdText(e, id, t) && other != id
    ensures IdText(SetTextById(e, other, u), id, t)
    decreases e
  {
    forall k | 0 <= k < |e.children|
      ensures IdText(SetTextById(e.children[k], other, u), id, t)
    {
      IdTextSetOther(e.children[k], id, t, other, u);
    }
  }

  lemma IdTextSetOtherSeq(cs: seq<Element>, id: nat, t: Option<string>, other: nat, u: Option<string>)
    requires IdTextSeq(cs, id, t) && other != id
    ensures IdTextSeq(SetTextByIdSeq(cs, other, u), id, t)
  {
    forall k | 0 <= k < |cs|
      ensures IdText(SetTextById(cs[k], other, u), id, t)
    {
      IdTextSetOther(cs[k], id, t, other, u);
    }
  }

  /** A lookup of the id reads the text its elements carry. */
  lemma {:induction false} IdTextLookup(e: Element, id: nat, t: Option<string>)
    requires IdText(e, id, t) && Lookup(e, id).Some?
    ensures Lookup(e, id).value.text == t
    decreases e
  {
    if e.id != id {
      IdTextLookupSeq(e.children, id, t);
    }
  }

  lemma {:induction false} IdTextLookupSeq(cs: seq<Element>, id: nat, t: Option<string>)
    requires IdTextSeq(cs, id, t) && LookupSeq(cs, id).Some?
    ensures LookupSeq(cs, id).value.text == t
    decreases cs
  {
    assert IdText(cs[0], id, t);
    if Lookup(cs[0], id).Some? {
      IdTextLookup(cs[0], id, t);
    } else {
      assert IdTextSeq(cs[1..], id, t) by {
        forall k | 0 <= k < |cs[1..]|
          ensures IdText(cs[1..][k], id, t)
        {
          assert cs[1..][k] == cs[k + 1];
        }
      }
      IdTextLookupSeq(cs[1..], id, t);
    }
  }

  // ---------------------------------------------------------------------
  // Where a lookup succeeds

  /** A lookup over a sequence succeeds exactly when it succeeds in one
      of the subtrees. */
  lemma {:induction false} LookupSeqSome(cs: seq<Element>, id: nat)
    ensures LookupSeq(cs, id).Some? <==> exists k :: 0 <= k < |cs| && Lookup(cs[k], id).Some?
    decreases cs
  {
    if cs != [] {
      LookupSeqSome(cs[1..], id);
      if exists k :: 0 <= k < |cs| && Lookup(cs[k], id).Some? {
        var k :| 0 <= k < |cs| && Lookup(cs[k], id).Some?;
        if k > 0 {
          assert cs[1..][k - 1] == cs[k];
        }
      }
      if LookupSeq(cs[1..], id).Some? {
        var k :| 0 <= k < |cs[1..]| && Lookup(cs[1..][k], id).Some?;
        assert Lookup(cs[k + 1], id).Some?;
      }
    }
  }

  /** Replacing one subtree by one that still holds the id keeps a
      successful lookup successful. */
  lemma LookupSeqReplaceSome(cs: seq<Element>, k: nat, y: Element, id: nat)
    requires k < |cs| && LookupSeq(cs, id).Some?
    requires Lookup(cs[k], id).Some? ==> Lookup(y, id).Some?
    ensures LookupSeq(cs[k := y], id).Some?
  {
    LookupSeqSome(cs, id);
    LookupSeqSome(cs[k := y], id);
    var i :| 0 <= i < |cs| && Lookup(cs[i], id).Some?;
    assert Lookup(cs[k := y][i], id).Some?;
  }

  /** Appending a subtree keeps a successful lookup successful, and a
      lookup that fails before succeeds when the new subtree holds the id. */
  lemma LookupSeqAppendSome(cs: seq<Element>, y: Element, id: nat)
    requires LookupSeq(cs, id).Some? || Lookup(y, id).Some?
    ensures LookupSeq(cs + [y], id).Some?
  {
    LookupSeqSome(cs, id);
    LookupSeqSome(cs + [y], id);
    if LookupSeq(cs, id).Some? {
      var i :| 0 <= i < |cs| && Lookup(cs[i], id).Some?;
      assert (cs + [y])[i] == cs[i];
    } else {
      assert (cs + [y])[|cs|] == y;
    }
  }

  /** Dropping an element's first child: an id it held is still held, or
      it was in the dropped child. */
  lemma LookupDropFirst(x: Element, id: nat)
    requires x.children != [] && Lookup(x, id).Some?
    ensures Lookup(x.(children := x.children[1..]), id).Some? || Lookup(x.children[0], id).Some?
  {
  }
}
