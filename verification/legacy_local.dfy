/** The earlier local module (the top-level local.py).

    Compared with the later utils module: `file_rename` has no destination
    check, topics compare and hash by path, a topic collects its images by
    walking its figures (giving every untitled figure a no-break-space
    title on the way), and the typed topic classes assert their class.  The
    map class spells its initialiser `__init`, so constructing a map runs
    only the base initialiser and leaves `images` and `topics` unset.
 */
module LegacyLocal {
  import opened Wrappers
  import opened PyStr
  import opened XmlTree
  import opened Content
  import opened Naming
  import opened Project
  import opened LegacyContent

  // ---------------------------------------------------------------------
  // Renaming files

  /** `file_rename(old, new)`: nothing when the source is missing or the
      names are equal; otherwise the file moves, replacing whatever the
      destination held. */
  function LegacyFileRename<T>(f: map<string, T>, src: string, dst: string): (r: map<string, T>)
    ensures src !in f || src == dst ==> r == f
    ensures src in f && src != dst ==> dst in r && r[dst] == f[src] && src !in r
    ensures forall k :: k != src && k != dst ==> (k in r <==> k in f) && (k in r ==> r[k] == f[k])
  {
    if src !in f then f
    else if src == dst then f
    else (f - {src})[dst := f[src]]
  }

  /** With a free destination both versions move the file alike. */
  lemma LegacyFileRenameAgrees<T>(f: map<string, T>, src: string, dst: string)
    requires dst !in f
    ensures LegacyFileRename(f, src, dst) == FileRename(f, src, dst)
  {
  }

  /** An existing destination is overwritten, where the later utils module
      refuses: the destination's former document is lost. */
  lemma LegacyFileRenameOverwrites<T>(f: map<string, T>, src: string, dst: string)
    requires src in f && dst in f && src != dst && f[src] != f[dst]
    ensures LegacyFileRename(f, src, dst)[dst] != f[dst]
    ensures FileRename(f, src, dst) == f
  {
  }

  /** `LocalTopic.rename_in_pair(old_path, new_name)`: the object always
      takes the new name; the file moves only if the destination is free. */
  function LegacyRenameInPair(w: World, t: Topic, oldName: string, newName: string): (r: (World, Topic))
    ensures r.1 == t.(name := newName + t.ext)
    ensures r.1.name in w.folder ==> r.0 == w
    ensures r.0.ditamap == w.ditamap && r.0.mapName == w.mapName
    ensures forall k :: k in w.folder && k != oldName ==> k in r.0.folder && r.0.folder[k] == w.folder[k]
  {
    var name := newName + t.ext;
    if name in w.folder then (w, t.(name := name))
    else (w.(folder := LegacyFileRename(w.folder, oldName, name)), t.(name := name))
  }

  /** The destination check in `rename_in_pair` makes the missing check in
      `file_rename` harmless: the result is the later utils module's `rename_path`. */
  lemma LegacyRenameInPairAgrees(w: World, t: Topic, oldName: string, newName: string)
    ensures LegacyRenameInPair(w, t, oldName, newName) == RenamePath(w, t, oldName, newName)
  {
    var name := newName + t.ext;
    if name !in w.folder {
      LegacyFileRenameAgrees(w.folder, oldName, name);
    }
  }

  // ---------------------------------------------------------------------
  // Figure titles

  /** A figure ready for matching: it has a direct `title` and a direct
      `image`. */
  predicate FigReady(x: Element) {
    Find(x, "title").Some? && Find(x, "image").Some?
  }

  /** An untitled figure gets a title holding one no-break space, appended
      as its last child. */
  function FigTitled(e: Element): (r: Element)
    ensures Find(r, "title").Some?
    ensures r.tag == e.tag
  {
    if Find(e, "title").None? then
      var r := e.(children := e.children + [TextElement("title", Some(Nbsp))]);
      assert r.children[|e.children|].tag == "title";
      r
    else e
  }

  /** The walk over `iter('fig')` during the first image: each figure is
      titled, then its `image` child is read; a figure without one stops
      the walk with AttributeError (the flag is false), leaving the rest of
      the tree untouched. */
  function TitleFigs(e: Element): (r: (Element, bool))
    ensures r.0.tag == e.tag
    decreases e
  {
    if e.tag == "fig" && Find(e, "image").None? then (FigTitled(e), false)
    else
      var (cs, ok) := TitleFigsSeq(e.children);
      var extra := if e.tag == "fig" && Find(e, "title").None? then [TextElement("title", Some(Nbsp))] else [];
      (e.(children := cs + extra), ok)
  }

  function TitleFigsSeq(cs: seq<Element>): (r: (seq<Element>, bool))
    ensures |r.0| == |cs|
    ensures forall i :: 0 <= i < |cs| ==> r.0[i].tag == cs[i].tag
    decreases cs
  {
    if cs == [] then ([], true)
    else
      var (x, ok) := TitleFigs(cs[0]);
      if !ok then ([x] + cs[1..], false)
      else
        var (rest, ok2) := TitleFigsSeq(cs[1..]);
        ([x] + rest, ok2)
  }

  lemma {:induction false} IterSeqAppend(a: seq<Element>, b: seq<Element>, tag: string)
    ensures IterSeq(a + b, tag) == IterSeq(a, tag) + IterSeq(b, tag)
    decreases |a|
  {
    if a == [] {
      assert a + b == b;
    } else {
      assert (a + b)[0] == a[0];
      assert (a + b)[1..] == a[1..] + b;
      IterSeqAppend(a[1..], b, tag);
    }
  }

  /** A direct child with a tag is still found after a change that keeps
      every child's tag and only appends. */
  lemma FindKept(e: Element, cs: seq<Element>, extra: seq<Element>, tag: string)
    requires |cs| == |e.children|
    requires forall i :: 0 <= i < |cs| ==> cs[i].tag == e.children[i].tag
    requires Find(e, tag).Some?
    ensures Find(e.(children := cs + extra), tag).Some?
  {
    var k := FindIndex(e.children, tag).value;
    assert (cs + extra)[k].tag == tag;
  }

  /** After a completed walk every figure has a title and an image. */
  lemma {:induction false} TitleFigsReady(e: Element)
    ensures TitleFigs(e).1 ==> forall x :: x in Iter(TitleFigs(e).0, "fig") ==> FigReady(x)
    decreases e
  {
    if !(e.tag == "fig" && Find(e, "image").None?) {
      var (cs, ok) := TitleFigsSeq(e.children);
      var extra := if e.tag == "fig" && Find(e, "title").None? then [TextElement("title", Some(Nbsp))] else [];
      var r := e.(children := cs + extra);
      assert TitleFigs(e) == (r, ok);
      if ok {
        TitleFigsSeqReady(e.children);
        IterSeqAppend(cs, extra, "fig");
        if extra != [] {
          assert extra == [TextElement("title", Some(Nbsp))];
          assert IterSeq(extra, "fig") == Iter(extra[0], "fig") + IterSeq([], "fig");
        }
        assert IterSeq(r.children, "fig") == IterSeq(cs, "fig");
        if e.tag == "fig" {
          FindKept(e, cs, extra, "image");
          if extra == [] {
            FindKept(e, cs, extra, "title");
          } else {
            assert (cs + extra)[|cs|].tag == "title";
          }
          assert FigReady(r);
        }
      }
    }
  }

  lemma {:induction false} TitleFigsSeqReady(cs: seq<Element>)
    ensures TitleFigsSeq(cs).1 ==> forall x :: x in IterSeq(TitleFigsSeq(cs).0, "fig") ==> FigReady(x)
    decreases cs
  {
    if cs != [] {
      var (x, ok) := TitleFigs(cs[0]);
      if ok {
        var (rest, ok2) := TitleFigsSeq(cs[1..]);
        var r := [x] + rest;
        assert TitleFigsSeq(cs) == (r, ok2);
        assert r[0] == x && r[1..] == rest;
        assert IterSeq(r, "fig") == Iter(x, "fig") + IterSeq(rest, "fig");
        TitleFigsReady(cs[0]);
        TitleFigsSeqReady(cs[1..]);
      }
    }
  }

  /** The title a figure lacking one receives is truthy but strips to the
      empty string, so its image is named after an empty caption. */
  lemma AddedTitleStripsEmpty(e: Element)
    requires Find(e, "title").None?
    ensures Find(FigTitled(e), "title").Some?
    ensures var t := Find(FigTitled(e), "title").value.text;
      Truthy(t) && Strip(t.value) == []
  {
    var r := FigTitled(e);
    var k := FindIndex(r.children, "title").value;
    assert k == |e.children|;
    StripAllSpace(Nbsp);
  }

  // ---------------------------------------------------------------------
  // Collecting a topic's images

  /** The stripped caption a figure gives an image, when its title text is
      truthy and it shows that image. */
  function Hit(fig: Element, href: string): Option<string> {
    match Find(fig, "title")
    case None => None
    case Some(t) =>
      if FigImageHref(fig) == Some(href) && Truthy(t.text) then Some(Strip(t.text.value)) else None
  }

  /** The loop over the figures for one image: each hit overwrites the
      image's title. */
  function TitleLoop(figs: seq<Element>, href: string, cur: Option<string>): Option<string>
    decreases |figs|
  {
    if figs == [] then cur
    else TitleLoop(figs[1..], href, Override(Hit(figs[0], href), cur))
  }

  /** Reference: the caption of the last figure that hits. */
  function LastHit(figs: seq<Element>, href: string): (r: Option<string>)
    decreases |figs|
  {
    if figs == [] then None else Override(LastHit(figs[1..], href), Hit(figs[0], href))
  }

  /** No figure from index `k` on hits. */
  predicate NoHitFrom(figs: seq<Element>, href: string, k: nat) {
    forall j :: k <= j < |figs| ==> Hit(figs[j], href).None?
  }

  /** `LastHit` picks a hit after which no figure hits. */
  lemma {:induction false} LastHitIsLast(figs: seq<Element>, href: string)
    ensures LastHit(figs, href).None? <==> NoHitFrom(figs, href, 0)
    ensures LastHit(figs, href).Some? ==>
      exists i :: 0 <= i < |figs| && Hit(figs[i], href) == LastHit(figs, href) && NoHitFrom(figs, href, i + 1)
    decreases |figs|
  {
    if figs != [] {
      LastHitIsLast(figs[1..], href);
      if LastHit(figs[1..], href).Some? {
        var i :| 0 <= i < |figs[1..]| && Hit(figs[1..][i], href) == LastHit(figs[1..], href)
          && NoHitFrom(figs[1..], href, i + 1);
        assert Hit(figs[i + 1], href) == LastHit(figs, href);
        assert NoHitFrom(figs, href, i + 2) by {
          forall j | i + 2 <= j < |figs|
            ensures Hit(figs[j], href).None?
          {
            assert figs[j] == figs[1..][j - 1];
          }
        }
      } else if Hit(figs[0], href).Some? {
        assert NoHitFrom(figs, href, 1) by {
          forall j | 1 <= j < |figs|
            ensures Hit(figs[j], href).None?
          {
            assert figs[j] == figs[1..][j - 1];
          }
        }
      } else {
        assert NoHitFrom(figs, href, 0) by {
          forall i | 0 <= i < |figs|
            ensures Hit(figs[i], href).None?
          {
            if i > 0 {
              assert figs[i] == figs[1..][i - 1];
            }
          }
        }
      }
    }
  }

  /** The loop leaves the title of the last hit, or the old title. */
  lemma {:induction false} TitleLoopIsLastHit(figs: seq<Element>, href: string, cur: Option<string>)
    ensures TitleLoop(figs, href, cur) == Override(LastHit(figs, href), cur)
    decreases |figs|
  {
    if figs != [] {
      TitleLoopIsLastHit(figs[1..], href, Override(Hit(figs[0], href), cur));
    }
  }

  /** Some figure shows the image. */
  predicate Shows(figs: seq<Element>, href: string) {
    exists i :: 0 <= i < |figs| && FigImageHref(figs[i]) == Some(href)
  }

  /** The hrefs of the images some figure shows, in image order. */
  function ShownHrefs(figs: seq<Element>, ims: seq<Image>): (r: seq<string>)
    ensures forall h :: h in r <==> exists k :: 0 <= k < |ims| && ims[k].href == h && Shows(figs, h)
    decreases |ims|
  {
    if ims == [] then []
    else
      var rest := ShownHrefs(figs, ims[1..]);
      assert forall k :: 1 <= k < |ims| ==> ims[k] == ims[1..][k - 1];
      (if Shows(figs, ims[0].href) then [ims[0].href] else []) + rest
  }

  /** What a topic's constructor gathers: its document, the map's images
      (whose titles it overwrites) and the hrefs of the images it shows. */
  datatype Gathered = Gathered(content: Content, images: seq<Image>, hrefs: seq<string>)

  /** `LocalTopic.get_images`: for each of the map's images, walk the
      figures; the first image's walk titles every untitled figure.  The
      image's title becomes the stripped caption of the last figure that
      shows it with a truthy title. */
  function LegacyGetImages(c: Content, ims: seq<Image>): (r: Res<Gathered>)
    ensures ims == [] ==> r == Ok(Gathered(c, ims, []))
    ensures r.Raised? ==> r.error == AttributeError && ims != []
    ensures r.Ok? ==> r.value.content.titleRef == c.titleRef && r.value.content.shortdescRef == c.shortdescRef
    ensures r.Ok? && ims != [] ==> forall x :: x in Iter(r.value.content.root, "fig") ==> FigReady(x)
    ensures r.Ok? ==> |r.value.images| == |ims|
    ensures r.Ok? ==> forall k :: 0 <= k < |ims| ==>
      r.value.images[k].href == ims[k].href && r.value.images[k].ext == ims[k].ext
      && r.value.images[k].title == Override(LastHit(Iter(r.value.content.root, "fig"), ims[k].href), ims[k].title)
    ensures r.Ok? ==> forall h :: h in r.value.hrefs <==>
      exists k :: 0 <= k < |ims| && ims[k].href == h && Shows(Iter(r.value.content.root, "fig"), h)
  {
    if ims == [] then Ok(Gathered(c, ims, []))
    else
      var (root, ok) := TitleFigs(c.root);
      var c1 := c.(root := root);
      if !ok then Raised(Gathered(c1, ims, []), AttributeError)
      else
        TitleFigsReady(c.root);
        var figs := Iter(root, "fig");
        var out := seq(|ims|, k requires 0 <= k < |ims| => ims[k].(title := TitleLoop(figs, ims[k].href, ims[k].title)));
        assert forall k :: 0 <= k < |ims| ==> out[k].title == Override(LastHit(figs, ims[k].href), ims[k].title) by {
          forall k | 0 <= k < |ims|
            ensures out[k].title == Override(LastHit(figs, ims[k].href), ims[k].title)
          {
            TitleLoopIsLastHit(figs, ims[k].href, ims[k].title);
          }
        }
        Ok(Gathered(c1, out, ShownHrefs(figs, ims)))
  }

  // ---------------------------------------------------------------------
  // Typed topics and the map

  /** `LocalMap.oc_object_types`: the class a topic is constructed as. */
  function LegacyKindOf(oc: Option<string>): Kind {
    match oc
    case Some("referenceinformation") => ReferenceInfo
    case Some("procedure") => TaskTopic
    case Some("legalinformation") => LegalInfo
    case Some("context") => ConceptTopic
    case Some("lpcontext") => ConceptTopic
    case _ => GenericTopic
  }

  /** The assertion each typed constructor makes about the class. */
  predicate Accepts(k: Kind, oc: Option<string>) {
    match k
    case ReferenceInfo => oc == Some("referenceinformation")
    case LegalInfo => oc == Some("legalinformation")
    case ConceptTopic => oc == Some("context") || oc == Some("lpcontext")
    case TaskTopic => oc == Some("procedure")
    case GenericTopic => true
  }

  /** A topic constructed as `k` with the map's images (None when the map
      never set them): the short description is inserted when the snapshot
      has none (KeyError without a title), the images are gathered, and the
      typed class asserts its outputclass. */
  function LegacyNewTopic(c: Content, k: Kind, ims: Option<seq<Image>>): (r: Res<Gathered>)
    ensures r.Ok? ==> Accepts(k, r.value.content.outputclass) && r.value.content.outputclass == c.outputclass
    ensures c.shortdescRef.None? && c.titleRef.None? ==> r == Raised(Gathered(c, [], []), KeyError)
    ensures (c.shortdescRef.Some? || c.titleRef.Some?) && ims.None? ==> r.Raised? && r.error == AttributeError
    ensures c.shortdescRef.Some? && ims.Some? && LegacyGetImages(c, ims.value).Ok? && !Accepts(k, c.outputclass) ==>
      r == Raised(LegacyGetImages(c, ims.value).value, AssertionError)
    ensures r.Raised? ==> r.error in [KeyError, AttributeError, AssertionError]
    ensures r.Ok? ==> r.value.content.titleRef == c.titleRef
  {
    var c1 := if c.shortdescRef.None? then LegacyInsertShortdesc(c) else Ok(c);
    if c1.Raised? then Raised(Gathered(c, [], []), KeyError)
    else if ims.None? then Raised(Gathered(c1.value, [], []), AttributeError)
    else
      match LegacyGetImages(c1.value, ims.value)
      case Raised(p, e) => Raised(p, e)
      case Ok(g) =>
        if Accepts(k, c.outputclass) then Ok(g) else Raised(g, AssertionError)
  }

  /** The map picks the class from the outputclass the typed constructor
      asserts, so that assertion never fails for a topic the map builds. */
  lemma LegacyKindAccepted(oc: Option<string>)
    ensures Accepts(LegacyKindOf(oc), oc)
  {
  }

  /** A `LocalMap` object: its document and the two attributes its
      intended initialiser would set. */
  datatype LegacyMap = LegacyMap(name: string, content: Content, images: Option<seq<Image>>, topics: Option<seq<Topic>>)

  /** `LocalMap(path)`: only the base initialiser runs. */
  function OpenLegacyMap(name: string, content: Content): LegacyMap {
    LegacyMap(name, content, None, None)
  }

  /** `item in map`: reads `topics`. */
  function LegacyMapContains(m: LegacyMap, t: Topic): (r: Result<bool>)
    ensures m.topics.None? ==> r == Failure(AttributeError)
    ensures m.topics.Some? ==> r == Success(t in m.topics.value)
  {
    if m.topics.None? then Failure(AttributeError) else Success(t in m.topics.value)
  }

  /** Because of the misspelled initialiser, a map object answers no
      membership question and no topic can be constructed with it: every
      attempt raises. */
  lemma MisspelledInitBreaksMap(name: string, content: Content, t: Topic, c: Content, k: Kind)
    ensures LegacyMapContains(OpenLegacyMap(name, content), t).Failure?
    ensures LegacyNewTopic(c, k, OpenLegacyMap(name, content).images).Raised?
  {
  }

  // ---------------------------------------------------------------------
  // Ordering by path

  /** Python's `<` on strings: code-point lexicographic order. */
  predicate PathLess(a: string, b: string)
    decreases |a|
  {
    if a == [] then b != []
    else if b == [] then false
    else if a[0] != b[0] then a[0] < b[0]
    else PathLess(a[1..], b[1..])
  }

  /** Files compare through their paths: `<` is a strict total order whose
      incomparable pairs are exactly the `==` pairs, so sorting topics is
      deterministic. */
  lemma {:induction false} PathLessIrreflexive(a: string)
    ensures !PathLess(a, a)
    decreases |a|
  {
    if a != [] {
      PathLessIrreflexive(a[1..]);
    }
  }

  lemma {:induction false} PathLessTransitive(a: string, b: string, c: string)
    requires PathLess(a, b) && PathLess(b, c)
    ensures PathLess(a, c)
    decreases |a|
  {
    if a != [] && b != [] && c != [] && a[0] == b[0] && b[0] == c[0] {
      PathLessTransitive(a[1..], b[1..], c[1..]);
    }
  }

  lemma {:induction false} PathLessTrichotomy(a: string, b: string)
    ensures a == b || PathLess(a, b) || PathLess(b, a)
    ensures !(PathLess(a, b) && PathLess(b, a))
    decreases |a|
  {
    if a != [] && b != [] && a[0] == b[0] {
      PathLessTrichotomy(a[1..], b[1..]);
      if a[1..] == b[1..] {
        assert a == [a[0]] + a[1..] && b == [b[0]] + b[1..];
      }
    }
  }
}
