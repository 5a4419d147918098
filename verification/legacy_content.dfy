/** The earlier `XMLContent` (the top-level mary_xml.py).

    It shares the constructor snapshots, `set_title` and the local-link loop
    with the packaged class, and differs in four places: a short description
    without text counts as missing, the placeholder is inserted for covers
    too, `add_nbsp_after_table` is an ordinary method that really appends a
    paragraph, and the legal-information topic loses the copyright paragraph
    it takes its short description from.  `fattribute` tests the
    `ishfields` element for truthiness, so a childless one reads as absent.
 */
module LegacyContent {
  import opened Wrappers
  import opened PyStr
  import opened XmlTree
  import opened Numbering
  import opened Content

  // ---------------------------------------------------------------------
  // Missing short description

  /** `shortdesc_missing`: no element, no text, or the placeholder. */
  predicate LegacyShortdescMissing(c: Content) {
    match ShortdescTag(c)
    case None => true
    case Some(s) => s.text.None? || Contains(s.text.value, "SHORT DESCRIPTION")
  }

  /** The two versions disagree exactly on a short description element
      whose text is None: missing here, present in the packaged class. */
  lemma LegacyShortdescMissingDiffers(c: Content)
    ensures LegacyShortdescMissing(c) <==>
      (ShortdescMissing(c) || (ShortdescTag(c).Some? && ShortdescTag(c).value.text.None?))
  {
  }

  /** On a freshly loaded document the short description is missing
      exactly when there is no direct `shortdesc` child, it has no text, or
      its text contains "SHORT DESCRIPTION". */
  lemma LegacyLoadShortdescMissing(root: Element, header: string)
    ensures var c := Load(root, header);
      var s := Find(c.root, "shortdesc");
      LegacyShortdescMissing(c) <==>
        (s.None? || s.value.text.None? || exists i :: OccursAt(s.value.text.value, "SHORT DESCRIPTION", i))
  {
    var c := Load(root, header);
    var s := Find(c.root, "shortdesc");
    if s.Some? {
      ChildInNodesSeq(c.root.children, s.value);
      LookupFinds(c.root, s.value);
      if s.value.text.Some? {
        ContainsAt(s.value.text.value, "SHORT DESCRIPTION");
      }
    }
  }

  // ---------------------------------------------------------------------
  // Inserting and setting the short description

  /** `insert_shortdesc_tag`: the title's parent (the root) gets the
      placeholder at index 1 unless it has a direct `shortdesc`; with no
      title the parent-map lookup raises KeyError.  There is no exemption
      for covers. */
  function LegacyInsertShortdesc(c: Content): (r: Res<Content>)
    ensures r.Raised? <==> c.titleRef.None?
    ensures r.Raised? ==> r == Raised(c, KeyError)
    ensures r.Ok? ==> Find(r.value.root, "shortdesc").Some?
    ensures Find(c.root, "shortdesc").Some? && c.titleRef.Some? ==> r == Ok(c)
    ensures r.Ok? ==> r.value.titleRef == c.titleRef && r.value.links == c.links
    ensures r.Ok? ==> r.value == c || r.value == WithShortdesc(c)
  {
    if c.titleRef.None? then Raised(c, KeyError)
    else if |FindAll(c.root, "shortdesc")| >= 1 then Ok(c)
    else Ok(WithShortdesc(c))
  }

  /** Outside covers the two versions insert alike. */
  lemma LegacyInsertAgrees(c: Content)
    requires !IsCover(c)
    ensures LegacyInsertShortdesc(c) == InsertShortdesc(c)
  {
  }

  /** A cover without short description gets the placeholder here, while
      the packaged class leaves it alone. */
  lemma LegacyInsertCovers(c: Content)
    requires IsCover(c) && c.titleRef.Some? && Find(c.root, "shortdesc").None?
    ensures InsertShortdesc(c) == Ok(c)
    ensures LegacyInsertShortdesc(c).Ok? && Find(LegacyInsertShortdesc(c).value.root, "shortdesc").Some?
  {
  }

  /** A second insertion changes nothing. */
  lemma LegacyInsertIdempotent(c: Content)
    requires LegacyInsertShortdesc(c).Ok?
    ensures LegacyInsertShortdesc(LegacyInsertShortdesc(c).value) == LegacyInsertShortdesc(c)
  {
  }

  /** Every element keeps its tag and its number of children, recursively:
      the tree has the same shape. */
  predicate SameShape(a: Element, b: Element)
    decreases a
  {
    a.tag == b.tag && |a.children| == |b.children|
    && forall i :: 0 <= i < |a.children| ==> SameShape(a.children[i], b.children[i])
  }

  /** Writing a text changes no element's position. */
  lemma {:induction false} SetTextSameShape(e: Element, id: nat, t: Option<string>)
    ensures SameShape(SetTextById(e, id, t), e)
    decreases e
  {
    var r := SetTextById(e, id, t);
    forall i | 0 <= i < |e.children|
      ensures SameShape(r.children[i], e.children[i])
    {
      SetTextSameShape(e.children[i], id, t);
    }
  }

  /** `set_shortdesc`: inserts the element first when there is no
      reference; the write then lands on the new element, or fails with
      AttributeError when the root already had a `shortdesc` the snapshot
      did not record. */
  function LegacySetShortdesc(c: Content, s: string): (r: Res<Content>)
    ensures r.Ok? ==> ShortdescTag(r.value).Some? && ShortdescTag(r.value).value.text == Some(s)
    ensures r.Ok? ==> (!LegacyShortdescMissing(r.value) <==> !Contains(s, "SHORT DESCRIPTION"))
    ensures r.Ok? ==> r.value.titleRef == c.titleRef && r.value.links == c.links
    ensures c.shortdescRef.None? && c.titleRef.None? ==> r == Raised(c, KeyError)
    ensures ShortdescTag(c).Some? ==> r.Ok?
    ensures c.shortdescRef.Some? && ShortdescTag(c).None? ==> r == Raised(c, AttributeError)
    ensures c.shortdescRef.None? && c.titleRef.Some? && Find(c.root, "shortdesc").Some? ==>
      r == Raised(c, AttributeError)
    ensures r.Ok? && Find(c.root, "shortdesc").Some? ==> SameShape(r.value.root, c.root)
  {
    var c1 := if c.shortdescRef.None? then LegacyInsertShortdesc(c) else Ok(c);
    if c1.Raised? then c1
    else
      var c2 := c1.value;
      if ShortdescTag(c2).None? then Raised(c2, AttributeError)
      else
        NodeSetText(c2, c2.shortdescRef.value, Some(s), c2.shortdescRef.value);
        SetTextSameShape(c2.root, c2.shortdescRef.value, Some(s));
        Ok(SetNodeText(c2, c2.shortdescRef.value, Some(s)))
  }

  /** On a well-formed document without a short description the element is
      inserted and the text lands on it. */
  lemma LegacySetShortdescInserts(c: Content, s: string)
    requires IdsBelowFresh(c)
    requires c.titleRef.Some? && c.shortdescRef.None? && Find(c.root, "shortdesc").None?
    ensures LegacySetShortdesc(c, s).Ok?
    ensures Find(LegacySetShortdesc(c, s).value.root, "shortdesc").Some?
    ensures ShortdescTag(LegacySetShortdesc(c, s).value).value.text == Some(s)
  {
    var sd := Element(c.nextId, "shortdesc", map[], Some(ShortdescPlaceholder), []);
    LookupInsertedAtOne(c.root, sd);
    var c2 := LegacyInsertShortdesc(c).value;
    assert ShortdescTag(c2) == Some(sd);
    var r := SetNodeText(c2, c.nextId, Some(s));
    var i := FindIndex(c2.root.children, "shortdesc").value;
    assert SetTextById(c2.root, c.nextId, Some(s)).children[i].tag == "shortdesc";
  }

  /** On success the reference is the old one, or the fresh id of the
      inserted element, and every element it names holds the new text. */
  lemma LegacySetShortdescText(c: Content, s: string)
    ensures LegacySetShortdesc(c, s).Ok? ==>
      var r := LegacySetShortdesc(c, s).value;
      r.shortdescRef == (if c.shortdescRef.Some? then c.shortdescRef else Some(c.nextId))
      && Node(r, r.shortdescRef.value).Some?
      && NodeText(r, r.shortdescRef.value, Some(s))
  {
    if LegacySetShortdesc(c, s).Ok? {
      var c2 := if c.shortdescRef.None? then LegacyInsertShortdesc(c).value else c;
      NodeTextSet(c2, c2.shortdescRef.value, Some(s));
    }
  }

  /** Setting the short description leaves every other id as it was. */
  lemma LegacySetShortdescKeeps(c: Content, s: string, id: nat, t: Option<string>)
    requires id != c.nextId && (c.shortdescRef.Some? ==> id != c.shortdescRef.value)
    ensures LegacySetShortdesc(c, s).Ok? && Node(c, id).Some? ==> Node(LegacySetShortdesc(c, s).value, id).Some?
    ensures LegacySetShortdesc(c, s).Ok? && NodeText(c, id, t) ==> NodeText(LegacySetShortdesc(c, s).value, id, t)
  {
    if LegacySetShortdesc(c, s).Ok? {
      var c2 := if c.shortdescRef.None? then LegacyInsertShortdesc(c).value else c;
      if c2 != c {
        WithShortdescKeeps(c, id, t);
      }
      NodeSetText(c2, c2.shortdescRef.value, Some(s), id);
      if NodeText(c2, id, t) {
        NodeTextSetOther(c2, id, t, c2.shortdescRef.value, Some(s));
      }
    }
  }

  /** The first direct `section` exists and has children. */
  predicate SectionFilled(c: Content) {
    var k := FindIndex(c.root.children, "section");
    k.Some? && c.root.children[k.value].children != []
  }

  /** Setting the short description keeps a first section with children:
      the placeholder is not a section and a text write moves nothing. */
  lemma LegacySetShortdescSection(c: Content, s: string)
    ensures LegacySetShortdesc(c, s).Ok? && SectionFilled(c) ==> SectionFilled(LegacySetShortdesc(c, s).value)
  {
    if LegacySetShortdesc(c, s).Ok? && SectionFilled(c) {
      var c2 := if c.shortdescRef.None? then LegacyInsertShortdesc(c).value else c;
      if c2 != c {
        var cs := c.root.children;
        var k0 := FindIndex(cs, "section").value;
        var ins := c2.root.children;
        assert ins == PyInsert(cs, 1, PlaceholderShortdesc(c));
        var k := if k0 == 0 then 0 else k0 + 1;
        assert ins[k] == cs[k0];
        forall i | 0 <= i < k
          ensures ins[i].tag != "section"
        {
          if i == 1 {
            assert ins[i] == PlaceholderShortdesc(c);
          } else if i == 0 {
            assert ins[i] == cs[0];
          } else {
            assert ins[i] == cs[i - 1];
          }
        }
        FindIndexAt(ins, "section", k);
      }
      assert SectionFilled(c2);
      var sid := c2.shortdescRef.value;
      var root := SetTextById(c2.root, sid, Some(s));
      SetTextSameShape(c2.root, sid, Some(s));
      var k := FindIndex(c2.root.children, "section").value;
      forall i | 0 <= i <= k
        ensures root.children[i].tag == c2.root.children[i].tag
        ensures |root.children[i].children| == |c2.root.children[i].children|
      {
        assert SameShape(root.children[i], c2.root.children[i]);
      }
      FindIndexAt(root.children, "section", k);
    }
  }

  // ---------------------------------------------------------------------
  // The paragraph after the table

  const Nbsp: string := "\U{00A0}"

  /** `add_nbsp_after_table`: a paragraph holding one no-break space is
      appended to the first direct `section`, but only when that section
      has children (an lxml element without children is false). */
  function LegacyAddNbsp(c: Content): (r: Content)
    ensures FindIndex(c.root.children, "section").None? ==> r == c
    ensures FindIndex(c.root.children, "section").Some? ==>
      var k := FindIndex(c.root.children, "section").value;
      var sec := c.root.children[k];
      |r.root.children| == |c.root.children|
      && (forall j :: 0 <= j < |c.root.children| && j != k ==> r.root.children[j] == c.root.children[j])
      && (sec.children == [] ==> r == c)
      && (sec.children != [] ==>
            r.root.children[k] == sec.(children := sec.children + [TextElement("p", Some(Nbsp))]))
    ensures r.root.tag == c.root.tag && r.titleRef == c.titleRef && r.shortdescRef == c.shortdescRef
  {
    match FindIndex(c.root.children, "section")
    case None => c
    case Some(k) =>
      var sec := c.root.children[k];
      if sec.children == [] then c
      else
        var p := TextElement("p", Some(Nbsp));
        c.(root := c.root.(children := c.root.children[k := sec.(children := sec.children + [p])]))
  }

  /** With a first section that has children, the result's first section
      ends with the no-break-space paragraph. */
  lemma AddNbspFilled(c: Content)
    requires SectionFilled(c)
    ensures SectionFilled(LegacyAddNbsp(c))
    ensures FirstSectionLast(LegacyAddNbsp(c)) == TextElement("p", Some(Nbsp))
  {
    var k := FindIndex(c.root.children, "section").value;
    var r := LegacyAddNbsp(c);
    assert r.root.children[k].tag == "section";
    SectionIndexKept(c.root.children, r.root.children, k);
  }

  /** The appended paragraph (id 0) hides no referenced element: every
      other id is still found, with its text. */
  lemma AddNbspKeeps(c: Content, id: nat, t: Option<string>)
    ensures id != 0 && Node(c, id).Some? ==> Node(LegacyAddNbsp(c), id).Some?
    ensures id != 0 && NodeText(c, id, t) ==> NodeText(LegacyAddNbsp(c), id, t)
    ensures id != 0 && Node(c, id).Some? && NodeText(c, id, t) ==> Node(LegacyAddNbsp(c), id).value.text == t
  {
    var r := LegacyAddNbsp(c);
    match FindIndex(c.root.children, "section") {
      case None =>
      case Some(k) =>
        var cs := c.root.children;
        var sec := cs[k];
        if sec.children != [] && id != 0 {
          var p := TextElement("p", Some(Nbsp));
          var sec2 := sec.(children := sec.children + [p]);
          var cs2 := cs[k := sec2];
          assert r.root == c.root.(children := cs2);
          if NodeText(c, id, t) {
            assert IdTextSeq(cs, id, t);
            assert IdText(sec, id, t);
            assert IdTextSeq(sec.children, id, t);
            assert IdText(p, id, t) by {
              assert IdTextSeq(p.children, id, t);
            }
            var ch2 := sec.children + [p];
            assert IdTextSeq(ch2, id, t) by {
              forall i | 0 <= i < |ch2|
                ensures IdText(ch2[i], id, t)
              {
                if i < |sec.children| {
                  assert ch2[i] == sec.children[i];
                }
              }
            }
            assert IdText(sec2, id, t);
            assert IdTextSeq(cs2, id, t) by {
              forall i | 0 <= i < |cs2|
                ensures IdText(cs2[i], id, t)
              {
                if i != k {
                  assert cs2[i] == cs[i];
                }
              }
            }
          }
          if Lookup(c.root, id).Some? && c.root.id != id {
            if Lookup(sec, id).Some? && sec.id != id {
              LookupSeqAppendSome(sec.children, p, id);
            }
            LookupSeqReplaceSome(cs, k, sec2, id);
          }
        }
    }
    if id != 0 && Node(c, id).Some? && NodeText(c, id, t) {
      assert Node(r, id).Some? && NodeText(r, id, t);
      NodeTextRead(r, id, t);
    }
  }

  /** Each call appends another paragraph: two calls leave two. */
  lemma LegacyAddNbspTwice(c: Content)
    requires FindIndex(c.root.children, "section").Some?
    requires c.root.children[FindIndex(c.root.children, "section").value].children != []
    ensures var k := FindIndex(c.root.children, "section").value;
      var twice := LegacyAddNbsp(LegacyAddNbsp(c));
      FindIndex(twice.root.children, "section") == Some(k)
      && twice.root.children[k].children ==
           c.root.children[k].children + [TextElement("p", Some(Nbsp)), TextElement("p", Some(Nbsp))]
    ensures LegacyAddNbsp(LegacyAddNbsp(c)) != LegacyAddNbsp(c)
  {
    var k := FindIndex(c.root.children, "section").value;
    var once := LegacyAddNbsp(c);
    assert once.root.children[k].tag == "section";
    SectionIndexKept(c.root.children, once.root.children, k);
    var twice := LegacyAddNbsp(once);
    assert twice.root.children[k].tag == "section";
    SectionIndexKept(once.root.children, twice.root.children, k);
    assert |twice.root.children[k].children| == |once.root.children[k].children| + 1;
  }

  /** The first `section` stays first when it changes only inside. */
  lemma SectionIndexKept(a: seq<Element>, b: seq<Element>, k: nat)
    requires FindIndex(a, "section") == Some(k)
    requires |a| == |b| && b[k].tag == "section"
    requires forall j :: 0 <= j < |a| && j != k ==> b[j] == a[j]
    ensures FindIndex(b, "section") == Some(k)
  {
    assert forall j :: 0 <= j < k ==> b[j].tag != "section" by {
      forall j | 0 <= j < k
        ensures b[j].tag != "section"
      {
        assert b[j] == a[j];
      }
    }
  }

  // ---------------------------------------------------------------------
  // Local links, ISH fields, document details

  /** `update_local_links` of this version: no title access before the
      loop, so only a matching link needs the title. */
  function LegacyUpdateLocalLinks(c: Content, oldName: string, newName: string): (r: Res<Content>)
    ensures c.links == [] ==> r == Ok(c)
    ensures r.State().links == c.links && r.State().titleRef == c.titleRef
    ensures r.Raised? ==> r.error in [AttributeError, TypeError]
  {
    if |c.links| == 0 then Ok(c) else LinksLoop(c, c.links, oldName, newName, true)
  }

  /** An href without the old name is never altered. */
  lemma LegacyUpdateLocalLinksKeepsUnmatched(c: Content, oldName: string, newName: string, k: nat)
    requires k in c.links
    requires NodeHref(c, k).Some? && !Contains(NodeHref(c, k).value, oldName)
    ensures NodeHref(LegacyUpdateLocalLinks(c, oldName, newName).State(), k) == NodeHref(c, k)
  {
    LinksLoopKeepsUnmatched(c, c.links, oldName, newName, true, k);
  }

  /** With a title both versions do the same; without one, a document
      whose links do not mention the old name is left alone here but
      raises AttributeError in the packaged class. */
  lemma LegacyUpdateLocalLinksAgrees(c: Content, oldName: string, newName: string)
    ensures TitleTag(c).Some? ==> LegacyUpdateLocalLinks(c, oldName, newName) == UpdateLocalLinks(c, oldName, newName)
    ensures TitleTag(c).None? && c.links != [] &&
            (forall i :: 0 <= i < |c.links| ==> NodeHref(c, c.links[i]).Some? && !Contains(NodeHref(c, c.links[i]).value, oldName)) ==>
      LegacyUpdateLocalLinks(c, oldName, newName) == Ok(c) && UpdateLocalLinks(c, oldName, newName).Raised?
  {
    if TitleTag(c).None? && c.links != [] &&
       (forall i :: 0 <= i < |c.links| ==> NodeHref(c, c.links[i]).Some? && !Contains(NodeHref(c, c.links[i]).value, oldName)) {
      LinksLoopSkips(c, c.links, oldName, newName);
    }
  }

  /** A loop over links none of which matches changes nothing. */
  lemma {:induction false} LinksLoopSkips(c: Content, ls: seq<nat>, pat: string, rep: string)
    requires forall i :: 0 <= i < |ls| ==> NodeHref(c, ls[i]).Some? && !Contains(NodeHref(c, ls[i]).value, pat)
    ensures LinksLoop(c, ls, pat, rep, true) == Ok(c)
    decreases |ls|
  {
    if ls != [] {
      assert NodeHref(c, ls[0]).Some?;
      LinksLoopSkips(c, ls[1..], pat, rep);
    }
  }

  /** `fattribute(name, 'get')`: None without an `ishfields` child with
      children, else the first matching field's text. */
  function LegacyFGet(c: Content, name: string): (r: Option<string>)
    ensures Find(c.root, "ishfields").None? ==> r.None?
    ensures Find(c.root, "ishfields").Some? && Find(c.root, "ishfields").value.children == [] ==> r.None?
  {
    match FindIndex(c.root.children, "ishfields")
    case None => None
    case Some(k) =>
      if c.root.children[k].children == [] then None
      else FieldText(c.root.children[k].children, name)
  }

  /** `fattribute(name, 'set', v)`. */
  function LegacyFSet(c: Content, name: string, v: Option<string>): (r: Content)
    ensures !Truthy(v) ==> r == c
    ensures Find(c.root, "ishfields").None? ==> r == c
    ensures r.titleRef == c.titleRef && r.links == c.links && r.outputclass == c.outputclass
  {
    match FindIndex(c.root.children, "ishfields")
    case None => c
    case Some(k) =>
      var fs := c.root.children[k];
      if fs.children == [] || !Truthy(v) then c
      else c.(root := c.root.(children := c.root.children[k := fs.(children := SetFieldTexts(fs.children, name, v.value))]))
  }

  /** The truthiness test and the packaged `is None` test behave alike:
      a childless `ishfields` has no field to read or write either way. */
  lemma LegacyFieldsAgree(c: Content, name: string, v: Option<string>)
    ensures LegacyFGet(c, name) == FGet(c, name)
    ensures LegacyFSet(c, name, v) == FSet(c, name, v)
  {
    match FindIndex(c.root.children, "ishfields")
    case None =>
    case Some(k) =>
      var fs := c.root.children[k];
      if fs.children == [] && Truthy(v) {
        assert SetFieldTexts(fs.children, name, v.value) == [];
        assert fs.(children := []) == fs;
        assert c.root.children[k := fs] == c.root.children;
      }
  }

  /** `process_docdetails` of this version: the same uncalled test as the
      packaged class, followed by the paragraph after the table. */
  function LegacyProcessDocdetails(c: Content): (r: Res<Content>)
    ensures !IsDocDetails(c) ==> r == Ok(c)
    ensures IsDocDetails(c) && ShortdescTag(c).Some? ==> r.Ok?
    ensures IsDocDetails(c) && c.shortdescRef.None? && c.titleRef.None? ==> r == Raised(c, KeyError)
    ensures IsDocDetails(c) && c.shortdescRef.Some? && ShortdescTag(c).None? ==> r == Raised(c, AttributeError)
    ensures r.Ok? ==> r.value.titleRef == c.titleRef && r.value.links == c.links
    ensures IsDocDetails(c) && RefsSound(c) && r.Ok? ==>
      ShortdescTag(r.value).Some? && ShortdescTag(r.value).value.text == Some("Document details")
    ensures IsDocDetails(c) && r.Ok? && SectionFilled(c) ==>
      SectionFilled(r.value) && FirstSectionLast(r.value) == TextElement("p", Some(Nbsp))
  {
    if !IsDocDetails(c) then Ok(c)
    else
      match LegacySetShortdesc(c, "Document details")
      case Raised(p, e) => Raised(p, e)
      case Ok(c1) =>
        SetThenNbsp(c, "Document details");
        Ok(LegacyAddNbsp(c1))
  }

  /** The last child of the first section. */
  function FirstSectionLast(c: Content): Element
    requires SectionFilled(c)
  {
    var ch := c.root.children[FindIndex(c.root.children, "section").value].children;
    ch[|ch| - 1]
  }

  /** Setting the short description and then appending the paragraph: the
      text survives the append, and the first section ends with the
      paragraph. */
  lemma SetThenNbsp(c: Content, s: string)
    requires LegacySetShortdesc(c, s).Ok?
    ensures var r := LegacyAddNbsp(LegacySetShortdesc(c, s).value);
      (RefsSound(c) ==> ShortdescTag(r).Some? && ShortdescTag(r).value.text == Some(s))
      && (SectionFilled(c) ==> SectionFilled(r) && FirstSectionLast(r) == TextElement("p", Some(Nbsp)))
  {
    var c1 := LegacySetShortdesc(c, s).value;
    LegacySetShortdescText(c, s);
    AddNbspKeeps(c1, c1.shortdescRef.value, Some(s));
    LegacySetShortdescSection(c, s);
    if SectionFilled(c) {
      AddNbspFilled(c1);
    }
  }

  // ---------------------------------------------------------------------
  // Legal information

  /** `set_title('Legal information')` followed by `insert_shortdesc_tag()`. */
  function LegalPrepared(c: Content): (r: Res<Content>)
    ensures r.Raised? <==> TitleTag(c).None?
    ensures r.Raised? ==> r == Raised(c, AttributeError)
    ensures r.Ok? ==> Find(r.value.root, "shortdesc").Some? && r.value.titleRef == c.titleRef
  {
    match SetTitle(c, "Legal information")
    case Raised(p, e) => Raised(p, e)
    case Ok(c1) => LegacyInsertShortdesc(c1)
  }

  /** Removes the first child of the grandchild at (j, m); the removed
      element stays alive as a detached subtree. */
  function RemoveFirstAt(c: Content, j: nat, m: nat): (r: Content)
    requires j < |c.root.children| && m < |c.root.children[j].children|
    requires c.root.children[j].children[m].children != []
    ensures |r.root.children| == |c.root.children|
    ensures |r.root.children[j].children| == |c.root.children[j].children|
    ensures r.root.children[j].children[m].children == c.root.children[j].children[m].children[1..]
    ensures r.orphans == c.orphans + [c.root.children[j].children[m].children[0]]
    ensures forall a :: 0 <= a < |c.root.children| && a != j ==> r.root.children[a] == c.root.children[a]
    ensures forall b :: 0 <= b < |c.root.children[j].children| && b != m ==>
      r.root.children[j].children[b] == c.root.children[j].children[b]
  {
    var fl := c.root.children[j];
    var x := fl.children[m];
    var x2 := x.(children := x.children[1..]);
    var fl2 := fl.(children := fl.children[m := x2]);
    c.(root := c.root.(children := c.root.children[j := fl2]), orphans := c.orphans + [x.children[0]])
  }

  /** Moving the paragraph out of its section and among the detached
      subtrees loses no referenced element and changes no text. */
  lemma RemoveFirstAtKeeps(c: Content, j: nat, m: nat, id: nat, t: Option<string>)
    requires j < |c.root.children| && m < |c.root.children[j].children|
    requires c.root.children[j].children[m].children != []
    ensures Node(c, id).Some? ==> Node(RemoveFirstAt(c, j, m), id).Some?
    ensures NodeText(c, id, t) ==> NodeText(RemoveFirstAt(c, j, m), id, t)
  {
    var r := RemoveFirstAt(c, j, m);
    var cs := c.root.children;
    var fl := cs[j];
    var x := fl.children[m];
    var p := x.children[0];
    var x2 := x.(children := x.children[1..]);
    var fl2 := fl.(children := fl.children[m := x2]);
    var cs2 := cs[j := fl2];
    var os := c.orphans + [p];
    assert r.root == c.root.(children := cs2);
    assert r.orphans == os;
    if NodeText(c, id, t) {
      assert IdTextSeq(cs, id, t);
      assert IdText(fl, id, t) && IdTextSeq(fl.children, id, t);
      assert IdText(x, id, t) && IdTextSeq(x.children, id, t);
      assert IdText(p, id, t);
      assert IdTextSeq(x2.children, id, t) by {
        forall i | 0 <= i < |x2.children|
          ensures IdText(x2.children[i], id, t)
        {
          assert x2.children[i] == x.children[i + 1];
        }
      }
      assert IdText(x2, id, t);
      assert IdTextSeq(fl2.children, id, t) by {
        forall i | 0 <= i < |fl2.children|
          ensures IdText(fl2.children[i], id, t)
        {
          if i != m {
            assert fl2.children[i] == fl.children[i];
          }
        }
      }
      assert IdText(fl2, id, t);
      assert IdTextSeq(cs2, id, t) by {
        forall i | 0 <= i < |cs2|
          ensures IdText(cs2[i], id, t)
        {
          if i != j {
            assert cs2[i] == cs[i];
          }
        }
      }
      assert IdTextSeq(os, id, t) by {
        forall i | 0 <= i < |os|
          ensures IdText(os[i], id, t)
        {
          if i < |c.orphans| {
            assert os[i] == c.orphans[i];
          }
        }
      }
    }
    if Node(c, id).Some? {
      if Lookup(c.root, id).None? {
        LookupSeqAppendSome(c.orphans, p, id);
      } else if c.root.id != id {
        if Lookup(x, id).Some? && Lookup(x2, id).None? {
          LookupDropFirst(x, id);
          LookupSeqAppendSome(c.orphans, p, id);
        } else {
          if Lookup(fl, id).Some? && fl.id != id {
            LookupSeqReplaceSome(fl.children, m, x2, id);
          }
          LookupSeqReplaceSome(cs, j, fl2, id);
        }
      }
    }
  }

  /** `add_legal_title_and_shortdesc`: the title becomes "Legal
      information", the placeholder is inserted, and the first copyright
      grandchild whose first paragraph mentions "Copyright" gives its text
      to the short description and loses that paragraph. */
  function LegacyAddLegal(c: Content): (r: Res<Content>)
    ensures TitleTag(c).None? ==> r == Raised(c, AttributeError)
    ensures LegalPrepared(c).Ok? ==>
      var c2 := LegalPrepared(c).value;
      var s := CopyrightAt(c2.root.children, 0, 0);
      (s.NotFound? ==> r == Ok(c2))
      && (s.ScanError? ==> r == Raised(c2, s.error))
      && (s.Found? ==> (r.Ok? <==> ShortdescTag(c2).Some?))
      && (s.Found? && r.Raised? ==> r == Raised(c2, AttributeError))
      && (s.Found? && r.Ok? ==>
            ShortdescTag(r.value).Some?
            && ShortdescTag(r.value).value.text == Some(c2.root.children[s.j].children[s.m].children[0].text.value))
      && (s.Found? && r.Ok? ==>
            |r.value.root.children| == |c2.root.children|
            && |r.value.root.children[s.j].children| == |c2.root.children[s.j].children|
            && |r.value.root.children[s.j].children[s.m].children| == |c2.root.children[s.j].children[s.m].children| - 1
            && |r.value.orphans| == |c2.orphans| + 1)
  {
    match LegalPrepared(c)
    case Raised(p, e) => Raised(p, e)
    case Ok(c2) =>
      match CopyrightAt(c2.root.children, 0, 0)
      case NotFound => Ok(c2)
      case ScanError(e) => Raised(c2, e)
      case Found(j, m) => LegalFound(c2, j, m)
  }

  /** The copyright paragraph found: its text becomes the short
      description and the paragraph leaves its section. */
  function LegalFound(c2: Content, j: nat, m: nat): (r: Res<Content>)
    requires CopyrightAt(c2.root.children, 0, 0) == Found(j, m) && Find(c2.root, "shortdesc").Some? && c2.titleRef.Some?
    ensures r.Ok? <==> ShortdescTag(c2).Some?
    ensures r.Raised? ==> r == Raised(c2, AttributeError)
    ensures r.Ok? ==>
      |r.value.root.children| == |c2.root.children|
      && |r.value.root.children[j].children| == |c2.root.children[j].children|
      && |r.value.root.children[j].children[m].children| == |c2.root.children[j].children[m].children| - 1
      && |r.value.orphans| == |c2.orphans| + 1
    ensures r.Ok? ==>
      (ShortdescTag(r.value).Some?
       && ShortdescTag(r.value).value.text == Some(c2.root.children[j].children[m].children[0].text.value))
  {
    var text := c2.root.children[j].children[m].children[0].text.value;
    match LegacySetShortdesc(c2, text)
    case Raised(p, e) => Raised(p, e)
    case Ok(c3) =>
      assert SameShape(c3.root, c2.root);
      assert SameShape(c3.root.children[j], c2.root.children[j]);
      assert SameShape(c3.root.children[j].children[m], c2.root.children[j].children[m]);
      LegacySetShortdescText(c2, text);
      RemoveFirstAtKeeps(c3, j, m, c3.shortdescRef.value, Some(text));
      NodeTextRead(RemoveFirstAt(c3, j, m), c3.shortdescRef.value, Some(text));
      Ok(RemoveFirstAt(c3, j, m))
  }

  /** With sound references the prepared legal topic holds "Legal
      information" wherever its title id occurs, and its references stay
      sound. */
  lemma LegalPreparedTitle(c: Content)
    requires RefsSound(c) && TitleTag(c).Some?
    ensures LegalPrepared(c).Ok? && RefsSound(LegalPrepared(c).value)
    ensures Node(LegalPrepared(c).value, c.titleRef.value).Some?
    ensures NodeText(LegalPrepared(c).value, c.titleRef.value, Some("Legal information"))
  {
    var tid := c.titleRef.value;
    var lit := Some("Legal information");
    var c1 := SetTitle(c, "Legal information").value;
    NodeTextSet(c, tid, lit);
    var c2 := LegalPrepared(c).value;
    if c2 != c1 {
      WithShortdescKeeps(c1, tid, lit);
      RefsSoundWithShortdesc(c1);
    }
  }

  /** Setting the found text and removing its paragraph keep every id other
      than the short description's as it was. */
  lemma LegalFoundKeeps(c2: Content, j: nat, m: nat, id: nat, t: Option<string>)
    requires CopyrightAt(c2.root.children, 0, 0) == Found(j, m) && Find(c2.root, "shortdesc").Some? && c2.titleRef.Some?
    requires id != c2.nextId && (c2.shortdescRef.Some? ==> id != c2.shortdescRef.value)
    requires Node(c2, id).Some? && NodeText(c2, id, t)
    ensures LegalFound(c2, j, m).Ok? ==>
      Node(LegalFound(c2, j, m).value, id).Some? && NodeText(LegalFound(c2, j, m).value, id, t)
  {
    var text := c2.root.children[j].children[m].children[0].text.value;
    if LegacySetShortdesc(c2, text).Ok? {
      var c3 := LegacySetShortdesc(c2, text).value;
      LegacySetShortdescKeeps(c2, text, id, t);
      assert SameShape(c3.root, c2.root);
      assert SameShape(c3.root.children[j], c2.root.children[j]);
      assert SameShape(c3.root.children[j].children[m], c2.root.children[j].children[m]);
      RemoveFirstAtKeeps(c3, j, m, id, t);
    }
  }

  /** With sound references the legal topic ends titled "Legal
      information": the title is written first, and neither the inserted
      placeholder, the short description write nor the removed paragraph
      touches it. */
  lemma LegacyAddLegalKeepsTitle(c: Content)
    requires RefsSound(c)
    ensures LegacyAddLegal(c).Ok? ==>
      TitleTag(LegacyAddLegal(c).value).Some?
      && TitleTag(LegacyAddLegal(c).value).value.text == Some("Legal information")
  {
    if TitleTag(c).Some? {
      var tid := c.titleRef.value;
      var lit := Some("Legal information");
      LegalPreparedTitle(c);
      var c2 := LegalPrepared(c).value;
      match CopyrightAt(c2.root.children, 0, 0)
      case NotFound =>
        NodeTextRead(c2, tid, lit);
      case ScanError(_) =>
      case Found(j, m) =>
        LegalFoundKeeps(c2, j, m, tid, lit);
        if LegalFound(c2, j, m).Ok? {
          NodeTextRead(LegalFound(c2, j, m).value, tid, lit);
        }
    }
  }

  /** The short description the legal topic ends with is the text of the
      copyright paragraph the scan found, which mentions "Copyright". */
  lemma LegacyAddLegalShortdesc(c: Content)
    requires LegalPrepared(c).Ok? && LegacyAddLegal(c).Ok?
    requires CopyrightAt(LegalPrepared(c).value.root.children, 0, 0).Found?
    ensures var c2 := LegalPrepared(c).value;
      var s := CopyrightAt(c2.root.children, 0, 0);
      var text := c2.root.children[s.j].children[s.m].children[0].text.value;
      LegacySetShortdesc(c2, text).Ok?
      && ShortdescTag(LegacySetShortdesc(c2, text).value).value.text == Some(text)
      && ShortdescTag(LegacyAddLegal(c).value).Some?
      && ShortdescTag(LegacyAddLegal(c).value).value.text == Some(text)
      && Contains(text, "Copyright")
  {
  }
}
