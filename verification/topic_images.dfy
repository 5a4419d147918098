/** `LocalTopic.get_images` of the later utils module (utils/local.py),
    run by the topic constructor.

    For each of the map's images, in the map's order, the figures of the
    topic are walked in document order.  A figure refers to the image when
    the href of its first direct `image` is truthy and is the image's href
    or ends in it as its last path segment.  A referring figure marks the
    image as shown; when its first direct `title` has text, the stripped
    text becomes the image's title and the text of the figure's first
    direct `alt`, and a figure without an `alt` raises AttributeError.  The
    guard that would add a missing `alt` tests `findall('alt') is None`,
    which never holds, so no `alt` is ever added.

    Only `alt` texts change, so what the walk reads of each figure (its
    "view") is the same for every image: the lemmas below state the result
    over the views of the original document.
 */
module TopicImages {
  import opened Wrappers
  import opened PyStr
  import opened XmlTree
  import opened Content
  import opened Naming

  /** `h.split('/')[-1]`: the text after the last slash, or all of it. */
  function LastSegment(h: string): string {
    match RSplitOnce(h, '/')
    case None => h
    case Some((_, s)) => s
  }

  // ---------------------------------------------------------------------
  // What the walk reads of a figure

  /** The stripped text of a figure's first direct `title`, when that text
      is not None; an empty text counts. */
  function Caption(fig: Element): Option<string> {
    match Find(fig, "title")
    case None => None
    case Some(t) => if t.text.Some? then Some(Strip(t.text.value)) else None
  }

  /** The text of a figure's first direct `alt`, when it has one. */
  function AltText(fig: Element): Option<string> {
    match Find(fig, "alt")
    case None => None
    case Some(a) => a.text
  }

  /** The image href, the caption and whether there is an `alt`. */
  datatype FigView = FigView(href: Option<string>, caption: Option<string>, hasAlt: bool)

  function View(fig: Element): FigView {
    FigView(FigImageHref(fig), Caption(fig), Find(fig, "alt").Some?)
  }

  function Views(figs: seq<Element>): (r: seq<FigView>)
    ensures |r| == |figs| && forall j :: 0 <= j < |figs| ==> r[j] == View(figs[j])
  {
    seq(|figs|, j requires 0 <= j < |figs| => View(figs[j]))
  }

  function AltTexts(figs: seq<Element>): (r: seq<Option<string>>)
    ensures |r| == |figs| && forall j :: 0 <= j < |figs| ==> r[j] == AltText(figs[j])
  {
    seq(|figs|, j requires 0 <= j < |figs| => AltText(figs[j]))
  }

  /** The figure refers to the map image `href`. */
  predicate Refers(v: FigView, href: string) {
    v.href.Some? && v.href.value != [] && (v.href.value == href || LastSegment(v.href.value) == href)
  }

  /** The figure refers to the image and gives it a caption. */
  predicate Captions(v: FigView, href: string) {
    Refers(v, href) && v.caption.Some?
  }

  /** The figure gives the image a caption but has no `alt` to hold it. */
  predicate AltMissing(v: FigView, href: string) {
    Captions(v, href) && !v.hasAlt
  }

  predicate NoneMissing(vs: seq<FigView>, href: string) {
    forall j :: 0 <= j < |vs| ==> !AltMissing(vs[j], href)
  }

  /** Some figure lacks the `alt` for some of the images. */
  predicate SomeMissing(vs: seq<FigView>, ims: seq<Image>) {
    exists k :: 0 <= k < |ims| && !NoneMissing(vs, ims[k].href)
  }

  /** Some figure refers to the image. */
  predicate Shown(vs: seq<FigView>, href: string) {
    exists j :: 0 <= j < |vs| && Refers(vs[j], href)
  }

  /** Some image gets its caption from the figure. */
  predicate CaptionedBy(v: FigView, ims: seq<Image>) {
    exists k :: 0 <= k < |ims| && Captions(v, ims[k].href)
  }

  // ---------------------------------------------------------------------
  // One image: writing the alt texts

  /** The figure walk of one image as a rewrite of the tree: each `fig`
      that captions the image gets the caption as the text of its first
      direct `alt`.  The flag is false when one of them has none; the tree
      is then dropped with the exception. */
  function AltWalk(e: Element, href: string): (r: (Element, bool))
    ensures r.0.id == e.id && r.0.tag == e.tag && r.0.attrs == e.attrs && r.0.text == e.text
    ensures |r.0.children| == |e.children|
    decreases e
  {
    var (cs, ok) := AltWalkSeq(e.children, href);
    if e.tag == "fig" && Captions(View(e), href) then
      match FindIndex(e.children, "alt")
      case None => (e.(children := cs), false)
      case Some(k) => (e.(children := cs[k := cs[k].(text := Caption(e))]), ok)
    else (e.(children := cs), ok)
  }

  function AltWalkSeq(cs: seq<Element>, href: string): (r: (seq<Element>, bool))
    ensures |r.0| == |cs|
    ensures forall j :: 0 <= j < |cs| ==> r.0[j] == AltWalk(cs[j], href).0
    decreases cs
  {
    if cs == [] then ([], true)
    else
      var (x, ok) := AltWalk(cs[0], href);
      var (rest, ok2) := AltWalkSeq(cs[1..], href);
      ([x] + rest, ok && ok2)
  }

  /** The alt texts after one image's walk. */
  function Written(vs: seq<FigView>, ts: seq<Option<string>>, href: string): (r: seq<Option<string>>)
    requires |vs| == |ts|
    ensures |r| == |ts|
    ensures forall j :: 0 <= j < |ts| ==>
      r[j] == if Captions(vs[j], href) && vs[j].hasAlt then vs[j].caption else ts[j]
  {
    seq(|ts|, j requires 0 <= j < |ts| => if Captions(vs[j], href) && vs[j].hasAlt then vs[j].caption else ts[j])
  }

  /** `find` looks at tags only. */
  lemma {:induction false} FindIndexTags(a: seq<Element>, b: seq<Element>, tag: string)
    requires |a| == |b| && forall j :: 0 <= j < |a| ==> a[j].tag == b[j].tag
    ensures FindIndex(a, tag) == FindIndex(b, tag)
    decreases |a|
  {
    if a != [] {
      FindIndexTags(a[1..], b[1..], tag);
    }
  }

  /** Changing the text of a child that is not a `fig` hides no figure. */
  lemma {:induction false} IterSeqRetext(cs: seq<Element>, k: nat, t: Option<string>)
    requires k < |cs| && cs[k].tag != "fig"
    ensures IterSeq(cs[k := cs[k].(text := t)], "fig") == IterSeq(cs, "fig")
    decreases |cs|
  {
    var ds := cs[k := cs[k].(text := t)];
    if k == 0 {
      assert ds[1..] == cs[1..];
      assert Iter(ds[0], "fig") == IterSeq(cs[0].children, "fig") == Iter(cs[0], "fig");
    } else {
      assert ds[1..] == cs[1..][k - 1 := cs[k].(text := t)];
      IterSeqRetext(cs[1..], k - 1, t);
    }
  }

  /** The walk keeps each child's tag and attributes, and the text of
      every child but the `alt` it writes. */
  lemma ChildrenKept(e: Element, href: string)
    ensures var r := AltWalk(e, href).0;
      forall j :: 0 <= j < |e.children| ==>
        r.children[j].tag == e.children[j].tag && r.children[j].attrs == e.children[j].attrs
        && (e.children[j].tag != "alt" ==> r.children[j].text == e.children[j].text)
  {
  }

  /** A walked figure reads as before; its alt text is the caption when it
      captions the image. */
  lemma FigHead(e: Element, href: string)
    requires e.tag == "fig"
    ensures View(AltWalk(e, href).0) == View(e)
    ensures AltText(AltWalk(e, href).0) ==
      if Captions(View(e), href) && View(e).hasAlt then View(e).caption else AltText(e)
  {
    FigHeadHref(e, href);
    FigHeadCaption(e, href);
    FigHeadAlt(e, href);
  }

  lemma FigHeadHref(e: Element, href: string)
    ensures FigImageHref(AltWalk(e, href).0) == FigImageHref(e)
  {
    ChildrenKept(e, href);
    FindIndexTags(AltWalk(e, href).0.children, e.children, "image");
  }

  lemma FigHeadCaption(e: Element, href: string)
    ensures Caption(AltWalk(e, href).0) == Caption(e)
  {
    ChildrenKept(e, href);
    FindIndexTags(AltWalk(e, href).0.children, e.children, "title");
  }

  lemma FigHeadAlt(e: Element, href: string)
    requires e.tag == "fig"
    ensures Find(AltWalk(e, href).0, "alt").Some? == Find(e, "alt").Some?
    ensures AltText(AltWalk(e, href).0) ==
      if Captions(View(e), href) && View(e).hasAlt then View(e).caption else AltText(e)
  {
    var r := AltWalk(e, href).0;
    ChildrenKept(e, href);
    FindIndexTags(r.children, e.children, "alt");
    match FindIndex(e.children, "alt")
    case None =>
    case Some(k) =>
      var cs := AltWalkSeq(e.children, href).0;
      assert cs[k].text == e.children[k].text;
  }

  /** The figures `rs` are the figures `es` after one image's walk, which
      succeeded exactly when `ok`: they read as before, the captioning
      ones with an `alt` hold the caption, and the walk failed exactly when
      a captioning figure has no `alt`. */
  predicate WalkedAs(rs: seq<Element>, es: seq<Element>, ok: bool, href: string) {
    Views(rs) == Views(es)
    && AltTexts(rs) == Written(Views(es), AltTexts(es), href)
    && (ok <==> NoneMissing(Views(es), href))
  }

  lemma WalkedAppend(ra: seq<Element>, ea: seq<Element>, oka: bool, rb: seq<Element>, eb: seq<Element>, okb: bool, href: string)
    requires WalkedAs(ra, ea, oka, href) && WalkedAs(rb, eb, okb, href)
    ensures WalkedAs(ra + rb, ea + eb, oka && okb, href)
  {
    ViewsAppend(ra, rb);
    ViewsAppend(ea, eb);
    WrittenAppend(Views(ea), Views(eb), AltTexts(ea), AltTexts(eb), href);
    NoneMissingAppend(Views(ea), Views(eb), href);
  }

  lemma ViewsAppend(a: seq<Element>, b: seq<Element>)
    ensures Views(a + b) == Views(a) + Views(b)
    ensures AltTexts(a + b) == AltTexts(a) + AltTexts(b)
  {
  }

  lemma WrittenAppend(va: seq<FigView>, vb: seq<FigView>, ta: seq<Option<string>>, tb: seq<Option<string>>, href: string)
    requires |va| == |ta| && |vb| == |tb|
    ensures Written(va + vb, ta + tb, href) == Written(va, ta, href) + Written(vb, tb, href)
  {
  }

  lemma NoneMissingAppend(va: seq<FigView>, vb: seq<FigView>, href: string)
    ensures NoneMissing(va + vb, href) <==> NoneMissing(va, href) && NoneMissing(vb, href)
  {
    assert forall j :: 0 <= j < |va| ==> (va + vb)[j] == va[j];
    assert forall j :: 0 <= j < |vb| ==> (va + vb)[|va| + j] == vb[j];
  }

  /** The walk fails at this element when it is a figure without the
      `alt` for its caption, or somewhere below. */
  lemma WalkFlag(e: Element, href: string)
    ensures AltWalk(e, href).1 == (!(e.tag == "fig" && AltMissing(View(e), href)) && AltWalkSeq(e.children, href).1)
  {
  }

  /** The element itself, when it is a figure, as one image's walk leaves it. */
  lemma HeadWalked(e: Element, href: string)
    ensures var r := AltWalk(e, href).0;
      WalkedAs(if e.tag == "fig" then [r] else [], if e.tag == "fig" then [e] else [],
        !(e.tag == "fig" && AltMissing(View(e), href)), href)
  {
    if e.tag == "fig" {
      FigHead(e, href);
      OneWalked(AltWalk(e, href).0, e, href);
    } else {
      assert Views([]) == [] && AltTexts([]) == [];
    }
  }

  lemma OneWalked(r: Element, e: Element, href: string)
    requires View(r) == View(e)
    requires AltText(r) == if Captions(View(e), href) && View(e).hasAlt then View(e).caption else AltText(e)
    ensures WalkedAs([r], [e], !AltMissing(View(e), href), href)
  {
    var v := View(e);
    assert Views([r]) == [v] == Views([e]);
    assert AltTexts([r]) == [AltText(r)] && AltTexts([e]) == [AltText(e)];
    assert [v][0] == v;
  }

  /** What one image's walk does to the figures of a subtree. */
  lemma {:induction false} AltWalkFigs(e: Element, href: string)
    ensures WalkedAs(Iter(AltWalk(e, href).0, "fig"), Iter(e, "fig"), AltWalk(e, href).1, href)
    decreases e
  {
    var (cs, ok) := AltWalkSeq(e.children, href);
    var r := AltWalk(e, href).0;
    AltWalkSeqFigs(e.children, href);
    if e.tag == "fig" && Captions(View(e), href) && FindIndex(e.children, "alt").Some? {
      IterSeqRetext(cs, FindIndex(e.children, "alt").value, Caption(e));
    }
    assert IterSeq(r.children, "fig") == IterSeq(cs, "fig");
    HeadWalked(e, href);
    WalkFlag(e, href);
    WalkedAppend(if e.tag == "fig" then [r] else [], if e.tag == "fig" then [e] else [],
      !(e.tag == "fig" && AltMissing(View(e), href)), IterSeq(cs, "fig"), IterSeq(e.children, "fig"), ok, href);
  }

  lemma {:induction false} AltWalkSeqFigs(cs: seq<Element>, href: string)
    ensures WalkedAs(IterSeq(AltWalkSeq(cs, href).0, "fig"), IterSeq(cs, "fig"), AltWalkSeq(cs, href).1, href)
    decreases cs
  {
    if cs != [] {
      var (x, ok) := AltWalk(cs[0], href);
      var (rest, ok2) := AltWalkSeq(cs[1..], href);
      assert AltWalkSeq(cs, href).0 == [x] + rest;
      assert ([x] + rest)[1..] == rest;
      AltWalkFigs(cs[0], href);
      AltWalkSeqFigs(cs[1..], href);
      WalkedAppend(Iter(x, "fig"), Iter(cs[0], "fig"), ok, IterSeq(rest, "fig"), IterSeq(cs[1..], "fig"), ok2, href);
    }
  }

  // ---------------------------------------------------------------------
  // One image: its title and whether the topic shows it

  /** The figure loop of one image over the views: a referring figure
      marks the image shown, and one with a caption sets its title. */
  function FigLoop(vs: seq<FigView>, href: string, title: Option<string>, shown: bool): (r: (Option<string>, bool))
    decreases |vs|
  {
    if vs == [] then (title, shown)
    else if !Refers(vs[0], href) then FigLoop(vs[1..], href, title, shown)
    else FigLoop(vs[1..], href, Override(vs[0].caption, title), true)
  }

  /** Reference: the caption of the last figure that captions the image. */
  function LastCaption(vs: seq<FigView>, href: string): Option<string>
    decreases |vs|
  {
    if vs == [] then None
    else Override(LastCaption(vs[1..], href), if Captions(vs[0], href) then vs[0].caption else None)
  }

  /** `LastCaption` is a caption after which no figure captions the image. */
  lemma {:induction false} LastCaptionIsLast(vs: seq<FigView>, href: string)
    ensures LastCaption(vs, href).None? <==> forall j :: 0 <= j < |vs| ==> !Captions(vs[j], href)
    ensures LastCaption(vs, href).Some? ==>
      exists i :: 0 <= i < |vs| && Captions(vs[i], href) && vs[i].caption == LastCaption(vs, href)
        && forall j :: i < j < |vs| ==> !Captions(vs[j], href)
    decreases |vs|
  {
    if vs != [] {
      LastCaptionIsLast(vs[1..], href);
      if LastCaption(vs[1..], href).Some? {
        var i :| 0 <= i < |vs[1..]| && Captions(vs[1..][i], href) && vs[1..][i].caption == LastCaption(vs[1..], href)
          && forall j :: i < j < |vs[1..]| ==> !Captions(vs[1..][j], href);
        assert Captions(vs[i + 1], href) && vs[i + 1].caption == LastCaption(vs, href);
        assert forall j :: i + 1 < j < |vs| ==> !Captions(vs[j], href) by {
          forall j | i + 1 < j < |vs| ensures !Captions(vs[j], href) {
            assert vs[j] == vs[1..][j - 1];
          }
        }
      } else {
        assert forall j :: 1 <= j < |vs| ==> !Captions(vs[j], href) by {
          forall j | 1 <= j < |vs| ensures !Captions(vs[j], href) {
            assert vs[j] == vs[1..][j - 1];
          }
        }
      }
    }
  }

  /** The loop ends with the last caption, or the title it started with,
      and marks the image shown exactly when some figure refers to it. */
  lemma {:induction false} FigLoopSpec(vs: seq<FigView>, href: string, title: Option<string>, shown: bool)
    ensures FigLoop(vs, href, title, shown) == (Override(LastCaption(vs, href), title), shown || Shown(vs, href))
    decreases |vs|
  {
    if vs != [] {
      var t1 := if Refers(vs[0], href) then Override(vs[0].caption, title) else title;
      FigLoopSpec(vs[1..], href, t1, shown || Refers(vs[0], href));
      assert Shown(vs, href) <==> Refers(vs[0], href) || Shown(vs[1..], href) by {
        if Shown(vs[1..], href) {
          var j :| 0 <= j < |vs[1..]| && Refers(vs[1..][j], href);
          assert Refers(vs[j + 1], href);
        }
        if Shown(vs, href) && !Refers(vs[0], href) {
          var j :| 0 <= j < |vs| && Refers(vs[j], href);
          assert Refers(vs[1..][j - 1], href);
        }
      }
    }
  }

  // ---------------------------------------------------------------------
  // All images

  /** One image's turn: its walk over the figures, then its new title and
      whether it is shown. */
  function ImageTurn(root: Element, im: Image): (r: Res<(Element, Image, bool)>)
    ensures r.Raised? ==> r.error == AttributeError
  {
    var (root1, ok) := AltWalk(root, im.href);
    if !ok then Raised((root, im, false), AttributeError)
    else
      var (title, shown) := FigLoop(Views(Iter(root, "fig")), im.href, im.title, false);
      Ok((root1, im.(title := title), shown))
  }

  /** The loop over the map's images: the tree, the images retitled, and
      the hrefs of the images shown, in the map's order. */
  function GatherLoop(root: Element, ims: seq<Image>): (r: Res<(Element, seq<Image>, seq<string>)>)
    ensures r.Raised? ==> r.error == AttributeError
    ensures r.Ok? ==> |r.value.1| == |ims| && |r.value.2| <= |ims|
    decreases |ims|
  {
    if ims == [] then Ok((root, [], []))
    else
      match ImageTurn(root, ims[0])
      case Raised(_, e) => Raised((root, ims, []), e)
      case Ok((root1, im1, shown)) =>
        match GatherLoop(root1, ims[1..])
        case Raised(p, e) => Raised(p, e)
        case Ok((root2, rest, hs)) => Ok((root2, [im1] + rest, (if shown then [im1.href] else []) + hs))
  }

  /** The alt texts once every image has had its turn. */
  function FinalAlts(vs: seq<FigView>, ts: seq<Option<string>>, ims: seq<Image>): (r: seq<Option<string>>)
    requires |vs| == |ts|
    ensures |r| == |ts|
    ensures forall j :: 0 <= j < |ts| ==>
      r[j] == if CaptionedBy(vs[j], ims) && vs[j].hasAlt then vs[j].caption else ts[j]
  {
    seq(|ts|, j requires 0 <= j < |ts| => if CaptionedBy(vs[j], ims) && vs[j].hasAlt then vs[j].caption else ts[j])
  }

  /** The first image's writes, then the rest's, are all the writes. */
  lemma FinalAltsStep(vs: seq<FigView>, ts: seq<Option<string>>, ims: seq<Image>)
    requires |vs| == |ts| && ims != []
    ensures FinalAlts(vs, Written(vs, ts, ims[0].href), ims[1..]) == FinalAlts(vs, ts, ims)
  {
    forall j | 0 <= j < |vs|
      ensures CaptionedBy(vs[j], ims) <==> Captions(vs[j], ims[0].href) || CaptionedBy(vs[j], ims[1..])
    {
      if CaptionedBy(vs[j], ims[1..]) {
        var k :| 0 <= k < |ims[1..]| && Captions(vs[j], ims[1..][k].href);
        assert Captions(vs[j], ims[k + 1].href);
      }
      if CaptionedBy(vs[j], ims) && !Captions(vs[j], ims[0].href) {
        var k :| 0 <= k < |ims| && Captions(vs[j], ims[k].href);
        assert Captions(vs[j], ims[1..][k - 1].href);
      }
    }
  }

  /** Some image lacks an alt exactly when the first does or one of the
      rest does. */
  lemma SomeMissingStep(vs: seq<FigView>, ims: seq<Image>)
    requires ims != []
    ensures SomeMissing(vs, ims) <==> !NoneMissing(vs, ims[0].href) || SomeMissing(vs, ims[1..])
  {
    if SomeMissing(vs, ims[1..]) {
      var k :| 0 <= k < |ims[1..]| && !NoneMissing(vs, ims[1..][k].href);
      assert !NoneMissing(vs, ims[k + 1].href);
    }
    if SomeMissing(vs, ims) && NoneMissing(vs, ims[0].href) {
      var k :| 0 <= k < |ims| && !NoneMissing(vs, ims[k].href);
      assert !NoneMissing(vs, ims[1..][k - 1].href);
    }
  }

  /** The loop raises exactly when a captioning figure has no `alt`; when
      it does not, the figures read as before and hold the final alt
      texts. */
  lemma {:induction false} GatherLoopAlts(root: Element, ims: seq<Image>)
    ensures GatherLoop(root, ims).Raised? <==> SomeMissing(Views(Iter(root, "fig")), ims)
    ensures GatherLoop(root, ims).Ok? ==>
      Views(Iter(GatherLoop(root, ims).value.0, "fig")) == Views(Iter(root, "fig"))
      && AltTexts(Iter(GatherLoop(root, ims).value.0, "fig"))
         == FinalAlts(Views(Iter(root, "fig")), AltTexts(Iter(root, "fig")), ims)
    decreases |ims|
  {
    var vs := Views(Iter(root, "fig"));
    if ims == [] {
      assert FinalAlts(vs, AltTexts(Iter(root, "fig")), ims) == AltTexts(Iter(root, "fig"));
    } else {
      AltWalkFigs(root, ims[0].href);
      SomeMissingStep(vs, ims);
      var (root1, ok) := AltWalk(root, ims[0].href);
      if ok {
        GatherLoopAlts(root1, ims[1..]);
        FinalAltsStep(vs, AltTexts(Iter(root, "fig")), ims);
      }
    }
  }

  /** When the loop does not raise, each image's title is the last caption
      a figure gives it, or the title it had. */
  lemma {:induction false} GatherLoopTitles(root: Element, ims: seq<Image>)
    requires GatherLoop(root, ims).Ok?
    ensures forall k :: 0 <= k < |ims| ==>
      GatherLoop(root, ims).value.1[k] == ims[k].(title := Override(LastCaption(Views(Iter(root, "fig")), ims[k].href), ims[k].title))
    decreases |ims|
  {
    if ims != [] {
      var vs := Views(Iter(root, "fig"));
      var root1 := AltWalk(root, ims[0].href).0;
      AltWalkFigs(root, ims[0].href);
      FigLoopSpec(vs, ims[0].href, ims[0].title, false);
      GatherLoopTitles(root1, ims[1..]);
      var out := GatherLoop(root, ims).value.1;
      var rest := GatherLoop(root1, ims[1..]).value.1;
      assert out == [out[0]] + rest;
      forall k | 0 < k < |ims|
        ensures out[k] == ims[k].(title := Override(LastCaption(vs, ims[k].href), ims[k].title))
      {
        assert out[k] == rest[k - 1];
        assert ims[k] == ims[1..][k - 1];
      }
    }
  }

  /** `hs` holds exactly the hrefs of the images some figure refers to. */
  ghost predicate ListsShown(hs: seq<string>, ims: seq<Image>, vs: seq<FigView>) {
    forall h :: h in hs <==> exists k :: 0 <= k < |ims| && ims[k].href == h && Shown(vs, h)
  }

  lemma ListsShownStep(hs: seq<string>, rest: seq<string>, ims: seq<Image>, vs: seq<FigView>)
    requires ims != [] && ListsShown(rest, ims[1..], vs)
    requires hs == (if Shown(vs, ims[0].href) then [ims[0].href] else []) + rest
    ensures ListsShown(hs, ims, vs)
  {
    forall h
      ensures h in hs <==> exists k :: 0 <= k < |ims| && ims[k].href == h && Shown(vs, h)
    {
      if h in rest {
        var k :| 0 <= k < |ims[1..]| && ims[1..][k].href == h && Shown(vs, h);
        assert ims[k + 1].href == h;
      }
      if exists k :: 0 <= k < |ims| && ims[k].href == h && Shown(vs, h) {
        var k :| 0 <= k < |ims| && ims[k].href == h && Shown(vs, h);
        if k > 0 {
          assert ims[1..][k - 1].href == h;
        }
      }
    }
  }

  /** When the loop does not raise, the hrefs listed are those of the
      images some figure refers to. */
  lemma {:induction false} GatherLoopShown(root: Element, ims: seq<Image>)
    requires GatherLoop(root, ims).Ok?
    ensures ListsShown(GatherLoop(root, ims).value.2, ims, Views(Iter(root, "fig")))
    decreases |ims|
  {
    var vs := Views(Iter(root, "fig"));
    if ims != [] {
      var root1 := AltWalk(root, ims[0].href).0;
      AltWalkFigs(root, ims[0].href);
      FigLoopSpec(vs, ims[0].href, ims[0].title, false);
      GatherLoopShown(root1, ims[1..]);
      ListsShownStep(GatherLoop(root, ims).value.2, GatherLoop(root1, ims[1..]).value.2, ims, vs);
    }
  }

  // ---------------------------------------------------------------------
  // get_images

  /** The topic's document with the alt texts written, the map's images
      with the titles this topic gave them, and the hrefs of the images the
      topic shows. */
  datatype Gathering = Gathering(content: Content, images: seq<Image>, hrefs: seq<string>)

  /** `get_images`, as the topic constructor calls it. */
  function GetImages(c: Content, ims: seq<Image>): (r: Res<Gathering>)
    ensures r.Raised? <==> SomeMissing(Views(Iter(c.root, "fig")), ims)
    ensures r.Raised? ==> r.error == AttributeError
    ensures r.Ok? ==> r.value.content == c.(root := r.value.content.root)
    ensures r.Ok? ==> Views(Iter(r.value.content.root, "fig")) == Views(Iter(c.root, "fig"))
    ensures r.Ok? ==>
      AltTexts(Iter(r.value.content.root, "fig")) == FinalAlts(Views(Iter(c.root, "fig")), AltTexts(Iter(c.root, "fig")), ims)
    ensures r.Ok? ==> |r.value.images| == |ims| && forall k :: 0 <= k < |ims| ==>
      r.value.images[k] == ims[k].(title := Override(LastCaption(Views(Iter(c.root, "fig")), ims[k].href), ims[k].title))
    ensures r.Ok? ==> |r.value.hrefs| <= |ims| && ListsShown(r.value.hrefs, ims, Views(Iter(c.root, "fig")))
  {
    GatherLoopAlts(c.root, ims);
    match GatherLoop(c.root, ims)
    case Raised(_, e) => Raised(Gathering(c, ims, []), e)
    case Ok((root, out, hs)) =>
      GatherLoopTitles(c.root, ims);
      GatherLoopShown(c.root, ims);
      Ok(Gathering(c.(root := root), out, hs))
  }

  /** Every figure that captions one of the images holds the caption in
      its `alt`. */
  ghost predicate AltsHoldCaptions(figs: seq<Element>, ims: seq<Image>) {
    forall j :: 0 <= j < |figs| && CaptionedBy(View(figs[j]), ims) ==> AltText(figs[j]) == View(figs[j]).caption
  }

  /** After a run that does not raise, every captioning figure holds its
      caption in its `alt`. */
  lemma GetImagesAltsHold(c: Content, ims: seq<Image>)
    requires GetImages(c, ims).Ok?
    ensures AltsHoldCaptions(Iter(GetImages(c, ims).value.content.root, "fig"), ims)
  {
    var vs := Views(Iter(c.root, "fig"));
    var figs := Iter(GetImages(c, ims).value.content.root, "fig");
    forall j | 0 <= j < |figs| && CaptionedBy(View(figs[j]), ims)
      ensures AltText(figs[j]) == View(figs[j]).caption
    {
      assert View(figs[j]) == Views(figs)[j] == vs[j];
      var k :| 0 <= k < |ims| && Captions(vs[j], ims[k].href);
      assert NoneMissing(vs, ims[k].href);
      assert !AltMissing(vs[j], ims[k].href);
      assert AltText(figs[j]) == AltTexts(figs)[j];
    }
  }

  /** A captioned figure whose `alt` sits inside its `image` rather than
      directly inside the figure. */
  function AltInImageFig(): Element {
    Element(1, "fig", map[], None, [
      Element(2, "title", map[], Some("Chart"), []),
      Element(3, "image", map["href" := "img/a.png"], None, [Element(4, "alt", map[], None, [])])])
  }

  lemma AltInImageFigView()
    ensures Iter(AltInImageFig(), "fig") == [AltInImageFig()]
    ensures AltMissing(View(AltInImageFig()), "a.png")
  {
    var root := AltInImageFig();
    assert Iter(root.children[0], "fig") == [];
    assert Iter(root.children[1].children[0], "fig") == [];
    assert Iter(root.children[1], "fig") == [];
    assert root.children[1..][1..] == [];
    RSplitOnceAppend("img", '/', "a.png");
    assert "img" + ['/'] + "a.png" == "img/a.png";
  }

  /** The nested `alt` is not found: a figure whose image's last path
      segment names the map image raises. */
  lemma AltInsideImageRaises(c: Content, im: Image)
    requires im.href == "a.png" && c.root == AltInImageFig()
    ensures GetImages(c, [im]) == Raised(Gathering(c, [im], []), AttributeError)
  {
    AltInImageFigView();
    assert Views([c.root])[0] == View(c.root);
    assert !NoneMissing(Views(Iter(c.root, "fig")), [im][0].href);
  }
}
