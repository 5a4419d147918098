/** `XMLContent`: one parsed DITA document together with the references its
    constructor takes.

    The constructor records the direct `title` and `shortdesc` children, the
    root's `outputclass` and every local `xref` below the root.  These are
    snapshots: later edits of the tree do not refresh them, and elements that
    are cleared out of the tree stay reachable through them.  Detached
    elements are kept in `orphans` so that writes through a stale reference
    still land somewhere, as they do on the Python objects.
 */
module Content {
  import opened Wrappers
  import opened PyStr
  import opened XmlTree
  import opened Numbering
  import opened TypeTable

  datatype Content = Content(
    root: Element,
    header: string,
    outputclass: Option<string>,
    titleRef: Option<nat>,       // `title_tag`
    shortdescRef: Option<nat>,   // `shortdesc_tag`
    links: seq<nat>,             // `local_links`
    orphans: seq<Element>,       // subtrees cleared out of the tree
    nextId: nat)                  // next unused id

  const DefaultHeader: string := "<?xml version=\"1.0\" encoding=\"UTF-8\"?>\n"

  // ---------------------------------------------------------------------
  // Construction

  predicate IsLocalXref(x: Element) {
    x.tag == "xref" && Attr(x, "scope") == Some("local")
  }

  /** The ids of `.//xref[@scope="local"]` among the given nodes, in order. */
  function LocalXrefIds(ns: seq<Element>): (r: seq<nat>)
    ensures forall k :: k in r ==> k in Ids(ns)
    decreases |ns|
  {
    if ns == [] then []
    else
      var rest := LocalXrefIds(ns[1..]);
      assert forall k :: k in rest ==> k in Ids(ns) by {
        forall k | k in rest
          ensures k in Ids(ns)
        {
          assert k in Ids(ns[1..]);
          var i :| 0 <= i < |ns[1..]| && Ids(ns[1..])[i] == k;
          assert Ids(ns)[i + 1] == k;
        }
      }
      assert Ids(ns)[0] == ns[0].id;
      (if IsLocalXref(ns[0]) then [ns[0].id] else []) + rest
  }

  lemma {:induction false} LocalXrefIdsDistinct(ns: seq<Element>)
    requires Distinct(Ids(ns))
    ensures Distinct(LocalXrefIds(ns))
    decreases |ns|
  {
    if ns != [] {
      IdsConcat([ns[0]], ns[1..]);
      assert ns == [ns[0]] + ns[1..];
      DistinctConcat(Ids([ns[0]]), Ids(ns[1..]));
      LocalXrefIdsDistinct(ns[1..]);
      assert Ids([ns[0]])[0] == ns[0].id;
      var rest := LocalXrefIds(ns[1..]);
      assert ns[0].id !in rest;
      DistinctCons(ns[0].id, rest);
    }
  }

  lemma DistinctCons(x: nat, s: seq<nat>)
    requires Distinct(s) && x !in s
    ensures Distinct([x] + s)
  {
    forall i, j | 0 <= i < j < |[x] + s|
      ensures ([x] + s)[i] != ([x] + s)[j]
    {
      assert ([x] + s)[j] == s[j - 1];
      if i > 0 {
        assert ([x] + s)[i] == s[i - 1];
      }
    }
  }

  /** Every element of the content carries an id below the counter. */
  predicate IdsBelowFresh(c: Content) {
    (forall x :: x in Nodes(c.root) ==> x.id < c.nextId)
    && (forall x :: x in NodesSeq(c.orphans) ==> x.id < c.nextId)
  }

  /** The state a freshly constructed object is in: ids distinct, below
      the counter, and the link snapshot free of repetitions. */
  predicate WellFormed(c: Content) {
    IdsBelowFresh(c) && Distinct(Ids(Nodes(c.root))) && c.orphans == [] && Distinct(c.links)
  }

  /** `XMLContent(root, header)`. */
  function Load(root: Element, header: string): (c: Content)
    ensures c.header == header && c.orphans == []
    ensures c.root.tag == root.tag && c.root.attrs == root.attrs && c.root.text == root.text
    ensures c.outputclass == Attr(root, "outputclass")
    ensures c.titleRef.Some? <==> Find(root, "title").Some?
    ensures c.shortdescRef.Some? <==> Find(root, "shortdesc").Some?
    ensures WellFormed(c)
  {
    var (r, n) := Number(root, 1);
    NumberDistinct(root, 1);
    IdsConcat([r], NodesSeq(r.children));
    DistinctConcat(Ids([r]), Ids(NodesSeq(r.children)));
    LocalXrefIdsDistinct(NodesSeq(r.children));
    var t := Find(r, "title");
    var s := Find(r, "shortdesc");
    Content(r, header, Attr(r, "outputclass"),
      if t.None? then None else Some(t.value.id),
      if s.None? then None else Some(s.value.id),
      LocalXrefIds(NodesSeq(r.children)), [], n)
  }

  // ---------------------------------------------------------------------
  // Reading and writing through references

  /** The element an id refers to: in the tree, or among detached subtrees. */
  function Node(c: Content, id: nat): Option<Element> {
    match Lookup(c.root, id)
    case Some(x) => Some(x)
    case None => LookupSeq(c.orphans, id)
  }

  function RefNode(c: Content, ref: Option<nat>): Option<Element> {
    if ref.None? then None else Node(c, ref.value)
  }

  function TitleTag(c: Content): Option<Element> {
    RefNode(c, c.titleRef)
  }

  function ShortdescTag(c: Content): Option<Element> {
    RefNode(c, c.shortdescRef)
  }

  function NodeHref(c: Content, id: nat): Option<string> {
    match Node(c, id)
    case None => None
    case Some(x) => Attr(x, "href")
  }

  function SetNodeAttr(c: Content, id: nat, key: string, value: string): Content {
    c.(root := SetAttrById(c.root, id, key, value), orphans := SetAttrByIdSeq(c.orphans, id, key, value))
  }

  function SetNodeText(c: Content, id: nat, t: Option<string>): Content {
    c.(root := SetTextById(c.root, id, t), orphans := SetTextByIdSeq(c.orphans, id, t))
  }

  /** Writing an attribute through one reference is seen through it and
      through no other reference. */
  lemma NodeSetAttr(c: Content, id: nat, key: string, value: string, other: nat)
    ensures Node(SetNodeAttr(c, id, key, value), other).Some? == Node(c, other).Some?
    ensures Node(c, other).Some? ==> Node(SetNodeAttr(c, id, key, value), other).value.attrs ==
                                     if other == id then Node(c, other).value.attrs[key := value] else Node(c, other).value.attrs
    ensures Node(c, other).Some? ==>
      Node(SetNodeAttr(c, id, key, value), other).value.text == Node(c, other).value.text
  {
    if other == id {
      LookupSetAttrSame(c.root, id, key, value);
      LookupSetAttrSameSeq(c.orphans, id, key, value);
    } else {
      LookupSetAttrOther(c.root, id, key, value, other);
      LookupSetAttrOtherSeq(c.orphans, id, key, value, other);
    }
  }

  /** Writing text through one reference is seen through it and through no
      other reference. */
  lemma NodeSetText(c: Content, id: nat, t: Option<string>, other: nat)
    ensures Node(SetNodeText(c, id, t), other).Some? == Node(c, other).Some?
    ensures Node(c, other).Some? ==> Node(SetNodeText(c, id, t), other).value.text ==
                                     if other == id then t else Node(c, other).value.text
    ensures Node(c, other).Some? ==>
      Node(SetNodeText(c, id, t), other).value.attrs == Node(c, other).value.attrs
  {
    if other == id {
      LookupSetTextSame(c.root, id, t);
      LookupSetTextSameSeq(c.orphans, id, t);
    } else {
      LookupSetTextOther(c.root, id, t, other);
      LookupSetTextOtherSeq(c.orphans, id, t, other);
    }
  }

  /** Every element the id names, in the tree or detached, has text `t`;
      a reference to the id then reads `t`. */
  predicate NodeText(c: Content, id: nat, t: Option<string>) {
    IdText(c.root, id, t) && IdTextSeq(c.orphans, id, t)
  }

  lemma NodeTextRead(c: Content, id: nat, t: Option<string>)
    requires NodeText(c, id, t) && Node(c, id).Some?
    ensures Node(c, id).value.text == t
  {
    if Lookup(c.root, id).Some? {
      IdTextLookup(c.root, id, t);
    } else {
      IdTextLookupSeq(c.orphans, id, t);
    }
  }

  lemma NodeTextSet(c: Content, id: nat, t: Option<string>)
    ensures NodeText(SetNodeText(c, id, t), id, t)
  {
    IdTextSet(c.root, id, t);
    IdTextSetSeq(c.orphans, id, t);
  }

  lemma NodeTextSetOther(c: Content, id: nat, t: Option<string>, other: nat, u: Option<string>)
    requires NodeText(c, id, t) && other != id
    ensures NodeText(SetNodeText(c, other, u), id, t)
  {
    IdTextSetOther(c.root, id, t, other, u);
    IdTextSetOtherSeq(c.orphans, id, t, other, u);
  }

  // ---------------------------------------------------------------------
  // Missing title and short description

  /** `title_missing`: no title element, no text, or the placeholder. */
  predicate TitleMissing(c: Content) {
    match TitleTag(c)
    case None => true
    case Some(t) => t.text.None? || Contains(t.text.value, "MISSING TITLE")
  }

  /** `shortdesc_missing`: no element, or text holding the placeholder; an
      element without text counts as present. */
  predicate ShortdescMissing(c: Content) {
    match ShortdescTag(c)
    case None => true
    case Some(s) => s.text.Some? && Contains(s.text.value, "SHORT DESCRIPTION")
  }

  /** On a freshly loaded document the title is missing exactly when the
      root has no direct `title` child, the first one has no text, or its
      text contains "MISSING TITLE" anywhere. */
  lemma LoadTitleMissing(root: Element, header: string)
    ensures var c := Load(root, header);
      var t := Find(c.root, "title");
      TitleMissing(c) <==>
        (t.None? || t.value.text.None? || exists i :: OccursAt(t.value.text.value, "MISSING TITLE", i))
  {
    var c := Load(root, header);
    var t := Find(c.root, "title");
    if t.Some? {
      ChildInNodesSeq(c.root.children, t.value);
      LookupFinds(c.root, t.value);
      if t.value.text.Some? {
        ContainsAt(t.value.text.value, "MISSING TITLE");
      }
    }
  }

  /** On a freshly loaded document the short description is missing
      exactly when there is no direct `shortdesc` child or its text is
      present and contains "SHORT DESCRIPTION". */
  lemma LoadShortdescMissing(root: Element, header: string)
    ensures var c := Load(root, header);
      var s := Find(c.root, "shortdesc");
      ShortdescMissing(c) <==>
        (s.None? || (s.value.text.Some? && exists i :: OccursAt(s.value.text.value, "SHORT DESCRIPTION", i)))
  {
    var c := Load(root, header);
    var s := Find(c.root, "shortdesc");
    if s.Some? {
      ChildInNodesSeq(c.root.children, s.value);
      LookupFinds(c.root, s.value);
      if s.value.text.Some? {
        ContainsAt(s.value.text.value, "SHORT DESCRIPTION");
      }
    }
  }

  // ---------------------------------------------------------------------
  // Title and short description

  /** `set_outputclass`: the attribute and the cached class both change;
      the DOCTYPE follows the new class. */
  function SetOutputclass(c: Content, oc: string): (r: Content)
    ensures Attr(r.root, "outputclass") == Some(oc) && r.outputclass == Some(oc)
    ensures r.root.tag == c.root.tag && r.root.children == c.root.children && r.root.text == c.root.text
    ensures forall k :: k in c.root.attrs && k != "outputclass" ==> k in r.root.attrs && r.root.attrs[k] == c.root.attrs[k]
    ensures oc in OutputClasses ==> Doctype(r) == Some(OutputClasses[oc].doctype)
    ensures oc !in OutputClasses ==> (Doctype(r).Some? <==> c.root.tag == "map")
  {
    c.(root := c.root.(attrs := c.root.attrs["outputclass" := oc]), outputclass := Some(oc))
  }

  /** `set_title`: writes through the title reference; AttributeError when
      there is none. */
  function SetTitle(c: Content, s: string): (r: Res<Content>)
    ensures r.Raised? <==> TitleTag(c).None?
    ensures r.Raised? ==> r == Raised(c, AttributeError)
    ensures r.Ok? ==> TitleTag(r.value).Some? && TitleTag(r.value).value.text == Some(s)
    ensures r.Ok? ==> (TitleMissing(r.value) <==> Contains(s, "MISSING TITLE"))
  {
    if TitleTag(c).None? then Raised(c, AttributeError)
    else
      NodeSetText(c, c.titleRef.value, Some(s), c.titleRef.value);
      Ok(SetNodeText(c, c.titleRef.value, Some(s)))
  }

  predicate IsCover(c: Content) {
    c.outputclass == Some("frontcover") || c.outputclass == Some("backcover")
  }

  const ShortdescPlaceholder: string := "SHORT DESCRIPTION"

  /** `insert_shortdesc_tag`: covers are left alone; otherwise the title's
      parent (the root) gets a placeholder short description at index 1
      unless it already has a direct `shortdesc`. */
  function InsertShortdesc(c: Content): (r: Res<Content>)
    ensures IsCover(c) ==> r == Ok(c)
    ensures r.Raised? <==> !IsCover(c) && c.titleRef.None?
    ensures r.Raised? ==> r == Raised(c, KeyError)
    ensures r.Ok? && !IsCover(c) ==> Find(r.value.root, "shortdesc").Some?
    ensures r.Ok? ==> r.value.titleRef == c.titleRef && r.value.links == c.links
    ensures r.Ok? ==> r.value == c || r.value == WithShortdesc(c)
  {
    if IsCover(c) then Ok(c)
    else if c.titleRef.None? then Raised(c, KeyError)
    else if |FindAll(c.root, "shortdesc")| >= 1 then Ok(c)
    else Ok(WithShortdesc(c))
  }

  /** The new placeholder element, numbered with the fresh id. */
  function PlaceholderShortdesc(c: Content): Element {
    Element(c.nextId, "shortdesc", map[], Some(ShortdescPlaceholder), [])
  }

  /** The document with the placeholder inserted at index 1 of the root
      and the short description reference pointing at it. */
  function WithShortdesc(c: Content): (r: Content)
    ensures Find(r.root, "shortdesc").Some?
    ensures r.titleRef == c.titleRef && r.links == c.links && r.outputclass == c.outputclass
    ensures r.shortdescRef == Some(c.nextId) && r.nextId == c.nextId + 1
  {
    var sd := PlaceholderShortdesc(c);
    var cs := PyInsert(c.root.children, 1, sd);
    assert cs[if |c.root.children| >= 1 then 1 else 0] == sd;
    c.(root := c.root.(children := cs), shortdescRef := Some(c.nextId), nextId := c.nextId + 1)
  }

  /** The insertion leaves every other id as it was: found where it was
      found, with the same text. */
  lemma WithShortdescKeeps(c: Content, id: nat, t: Option<string>)
    requires id != c.nextId
    ensures Node(WithShortdesc(c), id).Some? == Node(c, id).Some?
    ensures Node(c, id).Some? ==> Node(WithShortdesc(c), id).value.text == Node(c, id).value.text
    ensures NodeText(c, id, t) ==> NodeText(WithShortdesc(c), id, t)
  {
    var sd := PlaceholderShortdesc(c);
    var cs := c.root.children;
    var ins := PyInsert(cs, 1, sd);
    assert Nodes(sd) == [sd];
    assert Ids(Nodes(sd)) == [sd.id];
    LookupSeqInsert(cs, 1, sd, id);
    if IdText(c.root, id, t) {
      assert IdTextSeq(cs, id, t);
      forall k | 0 <= k < |ins|
        ensures IdText(ins[k], id, t)
      {
        if |cs| == 0 || k == 1 {
          assert ins[k] == sd;
          assert IdTextSeq(sd.children, id, t);
        } else if k == 0 {
          assert ins[k] == cs[0];
        } else {
          assert ins[k] == cs[k - 1];
        }
      }
      assert IdTextSeq(ins, id, t);
    }
  }

  /** The references a constructed object holds: positive ids below the
      counter, and a title reference that is not the short description's.
      Id 0 is left to elements nothing refers to. */
  predicate RefsSound(c: Content) {
    c.nextId > 0
    && (c.titleRef.Some? ==> 0 < c.titleRef.value < c.nextId && c.shortdescRef != c.titleRef)
    && (c.shortdescRef.Some? ==> 0 < c.shortdescRef.value < c.nextId)
  }

  /** A freshly loaded document holds sound references. */
  lemma LoadRefsSound(root: Element, header: string)
    ensures RefsSound(Load(root, header))
  {
    var c := Load(root, header);
    NumberIds(root, 1);
    assert Nodes(c.root)[0] == c.root;
    IdOfMember(Nodes(c.root), c.root);
    forall x | x in c.root.children
      ensures 0 < x.id < c.nextId
    {
      ChildInNodesSeq(c.root.children, x);
      assert x in Nodes(c.root);
      IdOfMember(Nodes(c.root), x);
    }
    var t := Find(c.root, "title");
    var sd := Find(c.root, "shortdesc");
    if t.Some? && sd.Some? {
      ChildInNodesSeq(c.root.children, t.value);
      ChildInNodesSeq(c.root.children, sd.value);
      LookupFinds(c.root, t.value);
      LookupFinds(c.root, sd.value);
    }
  }

  lemma RefsSoundWithShortdesc(c: Content)
    requires RefsSound(c)
    ensures RefsSound(WithShortdesc(c))
  {
  }

  /** A second insertion changes nothing. */
  lemma InsertShortdescIdempotent(c: Content)
    requires InsertShortdesc(c).Ok?
    ensures InsertShortdesc(InsertShortdesc(c).value) == InsertShortdesc(c)
  {
    var c2 := InsertShortdesc(c).value;
    if !IsCover(c) {
      assert |FindAll(c2.root, "shortdesc")| >= 1;
    }
  }

  /** Looking up an id that an inserted subtree does not carry is not
      affected by the insertion. */
  lemma {:induction false} LookupSeqInsert(cs: seq<Element>, i: nat, x: Element, id: nat)
    requires id !in Ids(Nodes(x))
    ensures LookupSeq(PyInsert(cs, i, x), id) == LookupSeq(cs, id)
    decreases cs
  {
    LookupAbsent(x, id);
    if cs == [] {
      assert PyInsert(cs, i, x) == [x];
      assert PyInsert(cs, i, x)[1..] == [];
    } else if i == 0 {
      assert PyInsert(cs, i, x) == [x] + cs;
      assert PyInsert(cs, i, x)[1..] == cs;
    } else {
      LookupSeqInsert(cs[1..], i - 1, x, id);
      assert PyInsert(cs, i, x) == [cs[0]] + PyInsert(cs[1..], i - 1, x);
      assert PyInsert(cs, i, x)[1..] == PyInsert(cs[1..], i - 1, x);
    }
  }

  /** Every element below a child is an element of the tree. */
  lemma {:induction false} NodesSeqMember(cs: seq<Element>, j: nat, x: Element)
    requires j < |cs| && x in Nodes(cs[j])
    ensures x in NodesSeq(cs)
    decreases j
  {
    if j > 0 {
      NodesSeqMember(cs[1..], j - 1, x);
    }
  }

  /** An element inserted at index 1 with an id no element of the tree
      carries is what a lookup of that id finds. */
  lemma LookupInsertedAtOne(root: Element, x: Element)
    requires forall y :: y in Nodes(root) ==> y.id < x.id
    ensures Lookup(root.(children := PyInsert(root.children, 1, x)), x.id) == Some(x)
  {
    var cs := root.children;
    assert root in Nodes(root);
    assert root.id < x.id;
    var ins := PyInsert(cs, 1, x);
    assert Lookup(root.(children := ins), x.id) == LookupSeq(ins, x.id);
    assert Lookup(x, x.id) == Some(x);
    if cs == [] {
      assert ins == [x];
      assert ins[1..] == [];
    } else {
      assert ins == [cs[0]] + ([x] + cs[1..]);
      assert ins[1..] == [x] + cs[1..];
      var ids := Ids(Nodes(cs[0]));
      forall i | 0 <= i < |ids|
        ensures ids[i] != x.id
      {
        NodesSeqMember(cs, 0, Nodes(cs[0])[i]);
        assert Nodes(cs[0])[i] in Nodes(root);
      }
      LookupAbsent(cs[0], x.id);
      assert LookupSeq(ins, x.id) == LookupSeq(ins[1..], x.id);
    }
  }

  /** When the placeholder is inserted, the new reference reads it back: the
      short description is then "missing". */
  lemma InsertShortdescPlaceholder(c: Content)
    requires IdsBelowFresh(c)
    requires !IsCover(c) && c.titleRef.Some? && Find(c.root, "shortdesc").None?
    ensures InsertShortdesc(c).Ok?
    ensures ShortdescTag(InsertShortdesc(c).value) ==
      Some(Element(c.nextId, "shortdesc", map[], Some(ShortdescPlaceholder), []))
    ensures ShortdescMissing(InsertShortdesc(c).value)
  {
    var sd := Element(c.nextId, "shortdesc", map[], Some(ShortdescPlaceholder), []);
    LookupInsertedAtOne(c.root, sd);
    ContainsSelf(ShortdescPlaceholder);
  }

  /** `set_shortdesc`: inserts the element first when there is no reference
      (which raises for a topic without title and does nothing for a
      cover, so the write then fails with AttributeError). */
  function SetShortdesc(c: Content, s: string): (r: Res<Content>)
    ensures r.Ok? ==> ShortdescTag(r.value).Some? && ShortdescTag(r.value).value.text == Some(s)
    ensures r.Ok? ==> (ShortdescMissing(r.value) <==> Contains(s, "SHORT DESCRIPTION"))
    ensures r.Ok? ==> r.value.titleRef == c.titleRef && r.value.links == c.links
    ensures c.shortdescRef.None? && IsCover(c) ==> r == Raised(c, AttributeError)
    ensures c.shortdescRef.None? && !IsCover(c) && c.titleRef.None? ==> r == Raised(c, KeyError)
  {
    var c1 := if c.shortdescRef.None? then InsertShortdesc(c) else Ok(c);
    if c1.Raised? then c1
    else
      var c2 := c1.value;
      if ShortdescTag(c2).None? then Raised(c2, AttributeError)
      else
        NodeSetText(c2, c2.shortdescRef.value, Some(s), c2.shortdescRef.value);
        Ok(SetNodeText(c2, c2.shortdescRef.value, Some(s)))
  }

  /** With sound references, setting the short description leaves the
      title's text alone. */
  lemma SetShortdescKeepsTitle(c: Content, s: string)
    ensures RefsSound(c) && SetShortdesc(c, s).Ok? && TitleTag(c).Some? ==>
      TitleTag(SetShortdesc(c, s).value).Some?
      && TitleTag(SetShortdesc(c, s).value).value.text == TitleTag(c).value.text
    ensures RefsSound(c) && SetShortdesc(c, s).Ok? ==> RefsSound(SetShortdesc(c, s).value)
  {
    if RefsSound(c) && SetShortdesc(c, s).Ok? && TitleTag(c).Some? {
      var tid := c.titleRef.value;
      var c2 := if c.shortdescRef.None? then InsertShortdesc(c).value else c;
      if c2 != c {
        WithShortdescKeeps(c, tid, None);
      }
      NodeSetText(c2, c2.shortdescRef.value, Some(s), tid);
    }
  }

  // ---------------------------------------------------------------------
  // Local links

  /** The loop of `update_local_links` over the snapshot links.  `chain`
      selects the code as written, where the replacement text of the
      previous match becomes the replacement for the next; without it every
      match is replaced by the caller's new name. */
  function LinksLoop(c: Content, ls: seq<nat>, pat: string, rep: string, chain: bool): (r: Res<Content>)
    ensures r.State().links == c.links && r.State().titleRef == c.titleRef
    ensures r.Raised? ==> r.error in [AttributeError, TypeError]
    decreases |ls|
  {
    if ls == [] then Ok(c)
    else
      var href := NodeHref(c, ls[0]);
      if href.None? then Raised(c, TypeError)
      else if Contains(href.value, pat) then
        if TitleTag(c).None? then Raised(c, AttributeError)
        else if TitleTag(c).value.text.None? then Raised(c, TypeError)
        else
          var moved := Replace(href.value, pat, rep);
          LinksLoop(SetNodeAttr(c, ls[0], "href", moved), ls[1..], pat, if chain then moved else rep, chain)
      else LinksLoop(c, ls[1..], pat, rep, chain)
  }

  /** `update_local_links(old_name, new_name)` as written. */
  function UpdateLocalLinks(c: Content, oldName: string, newName: string): (r: Res<Content>)
    ensures c.links == [] ==> r == Ok(c)
    ensures c.links != [] && TitleTag(c).None? ==> r == Raised(c, AttributeError)
    ensures r.Raised? ==> r.error in [AttributeError, TypeError]
  {
    if |c.links| == 0 then Ok(c)
    else if TitleTag(c).None? then Raised(c, AttributeError)
    else LinksLoop(c, c.links, oldName, newName, true)
  }

  /** `update_local_links` with the caller's new name used for every match. */
  function UpdateLocalLinksFixed(c: Content, oldName: string, newName: string): (r: Res<Content>)
    ensures c.links == [] ==> r == Ok(c)
    ensures c.links != [] && TitleTag(c).None? ==> r == Raised(c, AttributeError)
    ensures r.Raised? ==> r.error in [AttributeError, TypeError]
  {
    if |c.links| == 0 then Ok(c)
    else if TitleTag(c).None? then Raised(c, AttributeError)
    else LinksLoop(c, c.links, oldName, newName, false)
  }

  /** The href a link should end up with. */
  function Rewritten(h: Option<string>, pat: string, rep: string): Option<string> {
    if h.Some? && Contains(h.value, pat) then Some(Replace(h.value, pat, rep)) else h
  }

  /** The loop without chaining rewrites each listed link's href by one
      substring replacement, touches no other href, and changes no text. */
  lemma {:induction false} LinksLoopFixedEffect(c: Content, ls: seq<nat>, pat: string, rep: string, k: nat)
    requires Distinct(ls)
    requires LinksLoop(c, ls, pat, rep, false).Ok?
    ensures var r := LinksLoop(c, ls, pat, rep, false).value;
      Node(r, k).Some? == Node(c, k).Some?
      && NodeHref(r, k) == (if k in ls then Rewritten(NodeHref(c, k), pat, rep) else NodeHref(c, k))
      && (Node(c, k).Some? ==> Node(r, k).Some? && Node(r, k).value.text == Node(c, k).value.text)
    decreases |ls|
  {
    if ls != [] {
      var href := NodeHref(c, ls[0]);
      assert Distinct(ls[1..]) by {
        forall i, j | 0 <= i < j < |ls[1..]|
          ensures ls[1..][i] != ls[1..][j]
        {
          assert ls[1..][i] == ls[i + 1] && ls[1..][j] == ls[j + 1];
        }
      }
      assert ls[0] !in ls[1..] by {
        forall j | 0 <= j < |ls[1..]|
          ensures ls[1..][j] != ls[0]
        {
          assert ls[1..][j] == ls[j + 1];
        }
      }
      if Contains(href.value, pat) {
        var moved := Replace(href.value, pat, rep);
        var c1 := SetNodeAttr(c, ls[0], "href", moved);
        NodeSetAttr(c, ls[0], "href", moved, k);
        NodeSetAttr(c, ls[0], "href", moved, ls[0]);
        LinksLoopFixedEffect(c1, ls[1..], pat, rep, k);
      } else {
        LinksLoopFixedEffect(c, ls[1..], pat, rep, k);
      }
    }
  }

  /** The corrected rewrite: on a loaded document every local link whose
      href contains the old name has that substring replaced by the new
      name, so a link equal to the old name now equals the new name; every
      other element keeps its href and every element its text. */
  lemma UpdateLocalLinksFixedCorrect(c: Content, oldName: string, newName: string, k: nat)
    requires WellFormed(c)
    requires oldName != []
    requires UpdateLocalLinksFixed(c, oldName, newName).Ok?
    ensures var r := UpdateLocalLinksFixed(c, oldName, newName).value;
      NodeHref(r, k) == (if k in c.links then Rewritten(NodeHref(c, k), oldName, newName) else NodeHref(c, k))
      && (NodeHref(c, k) == Some(oldName) && k in c.links ==> NodeHref(r, k) == Some(newName))
      && (Node(c, k).Some? ==> Node(r, k).Some? && Node(r, k).value.text == Node(c, k).value.text)
  {
    if c.links != [] {
      LinksLoopFixedEffect(c, c.links, oldName, newName, k);
    }
    ContainsSelf(oldName);
    ReplaceWhole(oldName, newName);
  }

  /** In both versions a link whose href does not contain the old name keeps
      its href. */
  lemma {:induction false} LinksLoopKeepsUnmatched(c: Content, ls: seq<nat>, pat: string, rep: string, chain: bool, k: nat)
    requires NodeHref(c, k).Some? && !Contains(NodeHref(c, k).value, pat)
    ensures NodeHref(LinksLoop(c, ls, pat, rep, chain).State(), k) == NodeHref(c, k)
    decreases |ls|
  {
    if ls != [] {
      var href := NodeHref(c, ls[0]);
      if href.Some? && Contains(href.value, pat) && TitleTag(c).Some? && TitleTag(c).value.text.Some? {
        var moved := Replace(href.value, pat, rep);
        NodeSetAttr(c, ls[0], "href", moved, k);
        assert k != ls[0];
        LinksLoopKeepsUnmatched(SetNodeAttr(c, ls[0], "href", moved), ls[1..], pat, if chain then moved else rep, chain, k);
      } else if href.Some? && !Contains(href.value, pat) {
        LinksLoopKeepsUnmatched(c, ls[1..], pat, rep, chain, k);
      }
    }
  }

  lemma UpdateLocalLinksKeepsUnmatched(c: Content, oldName: string, newName: string, k: nat)
    requires NodeHref(c, k).Some? && !Contains(NodeHref(c, k).value, oldName)
    ensures NodeHref(UpdateLocalLinks(c, oldName, newName).State(), k) == NodeHref(c, k)
  {
    if c.links != [] && TitleTag(c).Some? {
      LinksLoopKeepsUnmatched(c, c.links, oldName, newName, true, k);
    }
  }

  /** When no listed link matches, the replacement text is irrelevant. */
  lemma {:induction false} LinksLoopNoMatch(c: Content, ls: seq<nat>, pat: string, rep1: string, rep2: string)
    requires forall j :: 0 <= j < |ls| && NodeHref(c, ls[j]).Some? ==> !Contains(NodeHref(c, ls[j]).value, pat)
    ensures LinksLoop(c, ls, pat, rep1, true) == LinksLoop(c, ls, pat, rep2, false)
    decreases |ls|
  {
    if ls != [] {
      assert forall j :: 0 <= j < |ls[1..]| ==> ls[1..][j] == ls[j + 1];
      LinksLoopNoMatch(c, ls[1..], pat, rep1, rep2);
    }
  }

  /** The code as written agrees with the corrected rewrite as long as at
      most one local link matches. */
  lemma {:induction false} LinksLoopOneMatch(c: Content, ls: seq<nat>, pat: string, rep: string)
    requires Distinct(ls)
    requires forall i, j :: 0 <= i < j < |ls| && NodeHref(c, ls[i]).Some? && NodeHref(c, ls[j]).Some? ==>
      !(Contains(NodeHref(c, ls[i]).value, pat) && Contains(NodeHref(c, ls[j]).value, pat))
    ensures LinksLoop(c, ls, pat, rep, true) == LinksLoop(c, ls, pat, rep, false)
    decreases |ls|
  {
    if ls != [] {
      assert forall j :: 0 <= j < |ls[1..]| ==> ls[1..][j] == ls[j + 1];
      assert Distinct(ls[1..]);
      var href := NodeHref(c, ls[0]);
      if href.Some? && Contains(href.value, pat) && TitleTag(c).Some? && TitleTag(c).value.text.Some? {
        var moved := Replace(href.value, pat, rep);
        var c1 := SetNodeAttr(c, ls[0], "href", moved);
        forall j | 0 <= j < |ls[1..]| && NodeHref(c1, ls[1..][j]).Some?
          ensures !Contains(NodeHref(c1, ls[1..][j]).value, pat)
        {
          assert ls[1..][j] == ls[j + 1] && ls[j + 1] != ls[0];
          NodeSetAttr(c, ls[0], "href", moved, ls[j + 1]);
        }
        LinksLoopNoMatch(c1, ls[1..], pat, moved, rep);
      } else if href.Some? && !Contains(href.value, pat) {
        LinksLoopOneMatch(c, ls[1..], pat, rep);
      }
    }
  }

  lemma UpdateLocalLinksOneMatch(c: Content, oldName: string, newName: string)
    requires WellFormed(c)
    requires forall i, j :: 0 <= i < j < |c.links| && NodeHref(c, c.links[i]).Some? && NodeHref(c, c.links[j]).Some? ==>
      !(Contains(NodeHref(c, c.links[i]).value, oldName) && Contains(NodeHref(c, c.links[j]).value, oldName))
    ensures UpdateLocalLinks(c, oldName, newName) == UpdateLocalLinksFixed(c, oldName, newName)
  {
    if c.links != [] && TitleTag(c).Some? {
      LinksLoopOneMatch(c, c.links, oldName, newName);
    }
  }

  /** A topic with a title and the local links `a#` (node 3) and `a`
      (node 4). */
  function TwoLinks(): Content {
    var root := Element(1, "topic", map[], None, [
      Element(2, "title", map[], Some("T"), []),
      Element(3, "xref", map["scope" := "local", "href" := "a#"], None, []),
      Element(4, "xref", map["scope" := "local", "href" := "a"], None, [])]);
    Content(root, DefaultHeader, None, Some(2), None, [3, 4], [], 5)
  }

  /** What the loop reads from `TwoLinks()`, before and after the first
      link's href is rewritten to `h`. */
  lemma TwoLinksFacts(h: string)
    ensures var c := TwoLinks();
      c.links == [3, 4] && NodeHref(c, 3) == Some("a#") && NodeHref(c, 4) == Some("a")
      && TitleTag(c).Some? && TitleTag(c).value.text.Some?
    ensures var c1 := SetNodeAttr(TwoLinks(), 3, "href", h);
      NodeHref(c1, 4) == Some("a") && TitleTag(c1).Some? && TitleTag(c1).value.text.Some?
  {
    var c := TwoLinks();
    var t := c.root.children[0];
    var x3 := c.root.children[1];
    var x4 := c.root.children[2];
    assert c.root.children[1..] == [x3, x4] && [x3, x4][1..] == [x4];
    assert Lookup(t, 3) == None && Lookup(t, 4) == None;
    assert Lookup(x3, 4) == None;
    assert LookupSeq([x3, x4], 3) == Some(x3);
    assert LookupSeq([x4], 4) == Some(x4);
    assert LookupSeq([x3, x4], 4) == Some(x4);
    assert Lookup(c.root, 3) == Some(x3);
    assert Lookup(c.root, 4) == Some(x4);
    assert Lookup(c.root, 2) == Some(t);
    NodeSetAttr(c, 3, "href", h, 4);
    NodeSetAttr(c, 3, "href", h, 2);
  }

  /** As written, the second of two matching links takes the first one's
      rewritten href as its replacement: renaming `a` to `b` in the links
      `a#` and `a` yields `b#` for the second. */
  lemma ChainedReplacementExample()
    ensures UpdateLocalLinks(TwoLinks(), "a", "b").Ok?
    ensures NodeHref(UpdateLocalLinks(TwoLinks(), "a", "b").value, 4) == Some("b#")
  {
    TwoLinksFacts("b#");
    assert Replace("#", "a", "b") == "#";
    assert Replace("a#", "a", "b") == "b#";
    ReplaceWhole("a", "b#");
    assert Contains("a#", "a") && Contains("a", "a");
    var c1 := SetNodeAttr(TwoLinks(), 3, "href", "b#");
    NodeSetAttr(c1, 4, "href", "b#", 4);
  }

  /** The corrected loop gives the second link `b`. */
  lemma ChainedReplacementFixed()
    ensures UpdateLocalLinksFixed(TwoLinks(), "a", "b").Ok?
    ensures NodeHref(UpdateLocalLinksFixed(TwoLinks(), "a", "b").value, 4) == Some("b")
  {
    TwoLinksFacts("b#");
    assert Replace("#", "a", "b") == "#";
    assert Replace("a#", "a", "b") == "b#";
    ReplaceWhole("a", "b");
    assert Contains("a#", "a") && Contains("a", "a");
    var c1 := SetNodeAttr(TwoLinks(), 3, "href", "b#");
    NodeSetAttr(c1, 4, "href", "b", 4);
  }

  // ---------------------------------------------------------------------
  // ISH fields (`fattribute`)

  predicate IsField(x: Element, name: string) {
    x.tag == "ishfield" && Attr(x, "name") == Some(name)
  }

  /** The text of the first direct `ishfield` child named `name`. */
  function FieldText(fs: seq<Element>, name: string): (r: Option<string>)
    ensures (forall j :: 0 <= j < |fs| ==> !IsField(fs[j], name)) ==> r.None?
    decreases |fs|
  {
    if fs == [] then None
    else if IsField(fs[0], name) then fs[0].text
    else FieldText(fs[1..], name)
  }

  /** Every direct `ishfield` child named `name` gets the text `v`. */
  function SetFieldTexts(fs: seq<Element>, name: string, v: string): (r: seq<Element>)
    ensures |r| == |fs|
    ensures forall j :: 0 <= j < |fs| ==>
      r[j] == (if IsField(fs[j], name) then fs[j].(text := Some(v)) else fs[j])
  {
    seq(|fs|, j requires 0 <= j < |fs| => if IsField(fs[j], name) then fs[j].(text := Some(v)) else fs[j])
  }

  /** `fattribute(name, 'get')`: None when there is no direct `ishfields`
      child or no field of that name, else the first such field's text. */
  function FGet(c: Content, name: string): (r: Option<string>)
    ensures Find(c.root, "ishfields").None? ==> r.None?
  {
    match FindIndex(c.root.children, "ishfields")
    case None => None
    case Some(k) => FieldText(c.root.children[k].children, name)
  }

  /** Python truthiness of an optional string. */
  predicate Truthy(v: Option<string>) {
    v.Some? && v.value != []
  }

  /** The href of a figure's first direct `image`. */
  function FigImageHref(fig: Element): Option<string> {
    match Find(fig, "image")
    case None => None
    case Some(i) => Attr(i, "href")
  }

  /** `fattribute(name, 'set', v)`: every field of that name in the first
      `ishfields` child gets text `v`, but only when `v` is truthy. */
  function FSet(c: Content, name: string, v: Option<string>): (r: Content)
    ensures !Truthy(v) ==> r == c
    ensures r.titleRef == c.titleRef && r.links == c.links && r.outputclass == c.outputclass
  {
    match FindIndex(c.root.children, "ishfields")
    case None => c
    case Some(k) =>
      if !Truthy(v) then c
      else
        var fs := c.root.children[k];
        c.(root := c.root.(children := c.root.children[k := fs.(children := SetFieldTexts(fs.children, name, v.value))]))
  }

  lemma {:induction false} FieldTextAfterSet(fs: seq<Element>, name: string, v: string, other: string)
    ensures FieldText(SetFieldTexts(fs, name, v), other) ==
      if other == name && (exists j :: 0 <= j < |fs| && IsField(fs[j], name)) then Some(v)
      else FieldText(fs, other)
    decreases |fs|
  {
    if fs != [] {
      var r := SetFieldTexts(fs, name, v);
      assert r[1..] == SetFieldTexts(fs[1..], name, v);
      FieldTextAfterSet(fs[1..], name, v, other);
      if other == name && !IsField(fs[0], name) {
        if exists j :: 0 <= j < |fs| && IsField(fs[j], name) {
          var j :| 0 <= j < |fs| && IsField(fs[j], name);
          assert IsField(fs[1..][j - 1], name);
        }
      }
      if other == name && IsField(fs[0], name) {
        assert IsField(fs[0], name);
      }
    }
  }

  /** Reading a field after setting it gives the value set; other fields
      read as before. */
  lemma FGetAfterSet(c: Content, name: string, v: string, other: string)
    requires Find(c.root, "ishfields").Some?
    requires exists j :: 0 <= j < |Find(c.root, "ishfields").value.children| &&
                         IsField(Find(c.root, "ishfields").value.children[j], name)
    requires v != []
    ensures FGet(FSet(c, name, Some(v)), other) == if other == name then Some(v) else FGet(c, other)
  {
    var k := FindIndex(c.root.children, "ishfields").value;
    var fs := c.root.children[k];
    var c2 := FSet(c, name, Some(v));
    assert c2.root.children[k].tag == "ishfields";
    assert FindIndex(c2.root.children, "ishfields") == Some(k);
    FieldTextAfterSet(fs.children, name, v, other);
  }

  // ---------------------------------------------------------------------
  // Document details, legal information, DOCTYPE

  /** The topic is the document-details topic: its first `ph` anywhere
      refers to the variable DocTitle. */
  predicate IsDocDetails(c: Content) {
    var phs := Iter(c.root, "ph");
    |phs| > 0 && Attr(phs[0], "varref") == Some("DocTitle")
  }

  /** `process_docdetails` as written: the missing-shortdesc test is the
      bound method itself, which is always true, so an existing short
      description is overwritten too.  The generator it then calls runs no
      code. */
  function ProcessDocdetails(c: Content): (r: Res<Content>)
    ensures !IsDocDetails(c) ==> r == Ok(c)
    ensures IsDocDetails(c) && r.Ok? ==>
      ShortdescTag(r.value).Some? && ShortdescTag(r.value).value.text == Some("Document details")
    ensures IsDocDetails(c) && ShortdescTag(c).Some? ==> r.Ok?
    ensures IsDocDetails(c) && c.shortdescRef.Some? && ShortdescTag(c).None? ==> r == Raised(c, AttributeError)
    ensures IsDocDetails(c) && c.shortdescRef.None? && IsCover(c) ==> r == Raised(c, AttributeError)
    ensures IsDocDetails(c) && c.shortdescRef.None? && !IsCover(c) && c.titleRef.None? ==> r == Raised(c, KeyError)
    ensures r.Ok? ==> r.value.titleRef == c.titleRef && r.value.links == c.links
    ensures RefsSound(c) && r.Ok? && TitleTag(c).Some? ==>
      TitleTag(r.value).Some? && TitleTag(r.value).value.text == TitleTag(c).value.text
  {
    if IsDocDetails(c) then
      SetShortdescKeepsTitle(c, "Document details");
      SetShortdesc(c, "Document details")
    else Ok(c)
  }

  /** `process_docdetails` with the test called. */
  function ProcessDocdetailsFixed(c: Content): (r: Res<Content>)
    ensures !ShortdescMissing(c) ==> r == Ok(c)
    ensures ShortdescMissing(c) ==> r == ProcessDocdetails(c)
  {
    if IsDocDetails(c) && ShortdescMissing(c) then SetShortdesc(c, "Document details") else Ok(c)
  }

  /** As written, a document-details topic with a real short description
      loses it. */
  lemma ProcessDocdetailsOverwrites(c: Content)
    requires IsDocDetails(c) && ShortdescTag(c).Some?
    ensures ProcessDocdetails(c).Ok?
    ensures ShortdescTag(ProcessDocdetails(c).value).value.text == Some("Document details")
  {
  }

  /** The grandchildren of the root, in document order. */
  function Grandchildren(cs: seq<Element>): seq<Element>
    decreases |cs|
  {
    if cs == [] then [] else cs[0].children + Grandchildren(cs[1..])
  }

  /** The grandchildren from position (j, m) on: the rest of the j-th
      child's children, then those of the later children. */
  function GrandchildrenFrom(cs: seq<Element>, j: nat, m: nat): seq<Element>
    requires j <= |cs| && (j < |cs| ==> m <= |cs[j].children|)
  {
    if j == |cs| then [] else cs[j].children[m..] + Grandchildren(cs[j + 1..])
  }

  /** Outcome of the copyright scan over the root's grandchildren. */
  datatype Scan = NotFound | Found(j: nat, m: nat) | ScanError(error: PyError)

  /** A grandchild the scan walks past: not a copyright paragraph, or one
      whose first child's text lacks "Copyright". */
  predicate Passes(x: Element) {
    Attr(x, "outputclass") != Some("copyright")
    || (x.children != [] && x.children[0].text.Some? && !Contains(x.children[0].text.value, "Copyright"))
  }

  /** Position (a, b) comes before (j, m) in document order. */
  predicate Before(a: nat, b: nat, j: nat, m: nat) {
    a < j || (a == j && b < m)
  }

  /** The scan from position (j, m) on, by position: the first copyright
      grandchild either supplies the match or raises (IndexError without a
      first child, TypeError when that child has no text). */
  function CopyrightAt(cs: seq<Element>, j: nat, m: nat): (r: Scan)
    requires j <= |cs|
    ensures r.Found? ==> r.j < |cs| && r.m < |cs[r.j].children|
    ensures r.Found? ==>
      var x := cs[r.j].children[r.m];
      Attr(x, "outputclass") == Some("copyright") && x.children != [] && x.children[0].text.Some?
      && Contains(x.children[0].text.value, "Copyright")
    ensures r.Found? ==> forall a: nat, b: nat :: a < |cs| && b < |cs[a].children| && !Before(a, b, j, m) && Before(a, b, r.j, r.m) ==>
      Passes(cs[a].children[b])
    ensures r.NotFound? ==> forall a: nat, b: nat :: a < |cs| && b < |cs[a].children| && !Before(a, b, j, m) ==>
      Passes(cs[a].children[b])
    ensures r.ScanError? ==> r.error in [IndexError, TypeError]
    decreases |cs| - j, if j < |cs| then |cs[j].children| - m else 0
  {
    if j == |cs| then NotFound
    else if m >= |cs[j].children| then CopyrightAt(cs, j + 1, 0)
    else
      var x := cs[j].children[m];
      if Attr(x, "outputclass") == Some("copyright") then
        if x.children == [] then ScanError(IndexError)
        else if x.children[0].text.None? then ScanError(TypeError)
        else if Contains(x.children[0].text.value, "Copyright") then Found(j, m)
        else CopyrightAt(cs, j, m + 1)
      else CopyrightAt(cs, j, m + 1)
  }

  /** The scan of `add_legal_title_and_shortdesc` for the copyright line. */
  function CopyrightScan(c: Content, gs: seq<Element>): (r: Res<Content>)
    ensures r.Ok? ==> r.value.titleRef == c.titleRef
    decreases |gs|
  {
    if gs == [] then Ok(c)
    else if Attr(gs[0], "outputclass") == Some("copyright") then
      if gs[0].children == [] then Raised(c, IndexError)
      else if gs[0].children[0].text.None? then Raised(c, TypeError)
      else if Contains(gs[0].children[0].text.value, "Copyright") then SetShortdesc(c, gs[0].children[0].text.value)
      else CopyrightScan(c, gs[1..])
    else CopyrightScan(c, gs[1..])
  }

  /** What a scan outcome does to the document: nothing on a miss, the
      error raised, or the short description set to the hit's text. */
  function Settle(c: Content, cs: seq<Element>, s: Scan): Res<Content>
    requires s.Found? ==>
      (s.j < |cs| && s.m < |cs[s.j].children|
       && cs[s.j].children[s.m].children != [] && cs[s.j].children[s.m].children[0].text.Some?)
  {
    match s
    case NotFound => Ok(c)
    case ScanError(e) => Raised(c, e)
    case Found(a, b) => SetShortdesc(c, cs[a].children[b].children[0].text.value)
  }

  /** The scan over the flattened grandchildren stops where the scan by
      position finds its first copyright grandchild: nothing changes on a
      miss, a scan error is raised, and a hit sets the short description
      to the first child's text. */
  lemma {:induction false} CopyrightScanAt(c: Content, cs: seq<Element>, j: nat, m: nat)
    requires j <= |cs| && (j < |cs| ==> m <= |cs[j].children|)
    ensures CopyrightScan(c, GrandchildrenFrom(cs, j, m)) == Settle(c, cs, CopyrightAt(cs, j, m))
    decreases |cs| - j, if j < |cs| then |cs[j].children| - m else 0
  {
    if j < |cs| {
      if m == |cs[j].children| {
        GrandchildrenFromNext(cs, j);
        CopyrightScanAt(c, cs, j + 1, 0);
      } else {
        var x := cs[j].children[m];
        GrandchildrenFromStep(cs, j, m);
        if Passes(x) {
          CopyrightScanAt(c, cs, j, m + 1);
        }
      }
    }
  }

  /** Past the last child of the j-th child, the grandchildren continue
      with the next child's. */
  lemma GrandchildrenFromNext(cs: seq<Element>, j: nat)
    requires j < |cs|
    ensures GrandchildrenFrom(cs, j, |cs[j].children|) == GrandchildrenFrom(cs, j + 1, 0)
  {
    assert cs[j].children[|cs[j].children|..] == [];
    if j + 1 < |cs| {
      assert cs[j + 1..][1..] == cs[j + 2..];
      assert cs[j + 1].children[0..] == cs[j + 1].children;
    }
  }

  /** The grandchildren from a position inside the j-th child start with
      the one at that position. */
  lemma GrandchildrenFromStep(cs: seq<Element>, j: nat, m: nat)
    requires j < |cs| && m < |cs[j].children|
    ensures GrandchildrenFrom(cs, j, m) != []
    ensures GrandchildrenFrom(cs, j, m)[0] == cs[j].children[m]
    ensures GrandchildrenFrom(cs, j, m)[1..] == GrandchildrenFrom(cs, j, m + 1)
  {
    assert cs[j].children[m..][1..] == cs[j].children[m + 1..];
  }

  /** `set_title('Legal information')` followed by `insert_shortdesc_tag()`. */
  function LegalDefaults(c: Content): (r: Res<Content>)
    ensures r.Raised? <==> TitleTag(c).None?
    ensures r.Raised? ==> r == Raised(c, AttributeError)
    ensures r.Ok? ==> r.value.titleRef == c.titleRef
    ensures r.Ok? && !IsCover(c) ==> Find(r.value.root, "shortdesc").Some?
  {
    match SetTitle(c, "Legal information")
    case Raised(p, e) => Raised(p, e)
    case Ok(c1) => InsertShortdesc(c1)
  }

  /** `add_legal_title_and_shortdesc`: title "Legal information", a short
      description slot, and the text of the first copyright grandchild's
      first child as short description. */
  function AddLegalTitleAndShortdesc(c: Content): (r: Res<Content>)
    ensures TitleTag(c).None? ==> r == Raised(c, AttributeError)
    ensures LegalDefaults(c).Ok? ==>
      var c2 := LegalDefaults(c).value;
      match CopyrightAt(c2.root.children, 0, 0)
      case NotFound => r == Ok(c2)
      case ScanError(e) => r == Raised(c2, e)
      case Found(j, m) =>
        var text := c2.root.children[j].children[m].children[0].text.value;
        r == SetShortdesc(c2, text)
        && (r.Ok? ==> ShortdescTag(r.value).Some? && ShortdescTag(r.value).value.text == Some(text))
  {
    match LegalDefaults(c)
    case Raised(p, e) => Raised(p, e)
    case Ok(c2) =>
      CopyrightScanAt(c2, c2.root.children, 0, 0);
      assert c2.root.children == [] || c2.root.children[0].children[0..] == c2.root.children[0].children;
      CopyrightScan(c2, Grandchildren(c2.root.children))
  }

  /** With sound references the prepared legal topic is titled "Legal
      information" and its references stay sound. */
  lemma LegalDefaultsTitle(c: Content)
    requires RefsSound(c) && TitleTag(c).Some?
    ensures LegalDefaults(c).Ok? && RefsSound(LegalDefaults(c).value)
    ensures TitleTag(LegalDefaults(c).value).Some?
    ensures TitleTag(LegalDefaults(c).value).value.text == Some("Legal information")
  {
    var c1 := SetTitle(c, "Legal information").value;
    var c2 := LegalDefaults(c).value;
    if c2 != c1 {
      WithShortdescKeeps(c1, c.titleRef.value, None);
    }
  }

  /** With sound references the legal topic ends titled "Legal
      information", whatever the scan does to the short description. */
  lemma AddLegalKeepsTitle(c: Content)
    requires RefsSound(c)
    ensures AddLegalTitleAndShortdesc(c).Ok? ==>
      TitleTag(AddLegalTitleAndShortdesc(c).value).Some?
      && TitleTag(AddLegalTitleAndShortdesc(c).value).value.text == Some("Legal information")
  {
    if TitleTag(c).Some? {
      LegalDefaultsTitle(c);
      var c2 := LegalDefaults(c).value;
      match CopyrightAt(c2.root.children, 0, 0)
      case Found(j, m) =>
        SetShortdescKeepsTitle(c2, c2.root.children[j].children[m].children[0].text.value);
      case _ =>
    }
  }

  /** `doctype`: the table's DOCTYPE for a known class, the map DOCTYPE for
      a map, nothing otherwise. */
  function Doctype(c: Content): (r: Option<string>)
    ensures Params(c.outputclass).Some? ==> r.Some? && DeclaresRoot(r.value, Params(c.outputclass).value.rootTag)
    ensures Params(c.outputclass).None? ==> (r.Some? <==> c.root.tag == "map")
    ensures Params(c.outputclass).None? && c.root.tag == "map" ==> DeclaresRoot(r.value, "map")
  {
    EntriesConsistentAll();
    LineDeclaresRoot("map", "\"-//OASIS//DTD DITA Map//EN\" \"map.dtd\"");
    match Params(c.outputclass)
    case Some(p) => Some(p.doctype)
    case None => if c.root.tag == "map" then Some(MapDoctype) else None
  }

  lemma EntriesConsistentAll()
    ensures forall oc :: oc in OutputClasses ==> DeclaresRoot(OutputClasses[oc].doctype, OutputClasses[oc].rootTag)
  {
    forall oc | oc in OutputClasses
      ensures DeclaresRoot(OutputClasses[oc].doctype, OutputClasses[oc].rootTag)
    {
      EntriesConsistent(oc);
    }
  }
}
