/** The whole second pass of `edit_image_names` (utils/local.py): where the
    image files and the `fig` image references of every topic end up, for
    the pass as written and for the corrected caption count alike. */
module ImagePass {
  import opened Wrappers
  import opened XmlTree
  import opened Content
  import opened Naming
  import opened Project
  import opened Images

  /** No image is listed twice. */
  predicate Distinct(order: seq<string>) {
    forall a, b :: 0 <= a < b < |order| ==> order[a] != order[b]
  }

  /** No image's new name is another image's old name, so a reference is
      moved at most once. */
  predicate NoChains(imgs: ImageMap, order: seq<string>, prefix: string)
    requires Known(imgs, order)
  {
    forall j, l :: 0 <= j < |order| && 0 <= l < |order| && j != l ==> ImageName(imgs[order[j]], prefix) != order[l]
  }

  /** No two images get the same new name. */
  predicate NamesApart(imgs: ImageMap, order: seq<string>, prefix: string)
    requires Known(imgs, order)
  {
    forall j, l :: 0 <= j < |order| && 0 <= l < |order| && j != l ==>
      ImageName(imgs[order[j]], prefix) != ImageName(imgs[order[l]], prefix)
  }

  /** Every new name is free in the folder, or is the image's own name. */
  predicate DestinationsFree<T>(files: map<string, T>, imgs: ImageMap, order: seq<string>, prefix: string)
    requires Known(imgs, order)
  {
    forall j :: 0 <= j < |order| ==>
      ImageName(imgs[order[j]], prefix) !in files || ImageName(imgs[order[j]], prefix) == order[j]
  }

  /** Where a reference to `h` inside a `fig` of topic `i` ends after the
      pass over `order`: at the new name when `h` is in `order` and the
      topic uses it, unchanged otherwise. */
  function FinalHref(vs: seq<Visit>, order: seq<string>, imgs: ImageMap, prefix: string, i: nat, h: Option<string>): Option<string>
    requires Known(imgs, order)
  {
    if h.Some? && h.value in order && i in Users(vs, h.value) then Some(ImageName(imgs[h.value], prefix)) else h
  }

  /** `res` has the `image` elements of `orig`; those inside a `fig` point
      where `FinalHref` says, the others keep their href. */
  predicate Retargeted(orig: Element, res: Element, vs: seq<Visit>, order: seq<string>, imgs: ImageMap, prefix: string, i: nat)
    requires Known(imgs, order)
  {
    var a := Iter(orig, "image");
    var b := Iter(res, "image");
    var fl := InFig(orig, false);
    |b| == |a| && |fl| == |a|
    && forall p :: 0 <= p < |a| ==>
      Attr(b[p], "href") == (if fl[p] then FinalHref(vs, order, imgs, prefix, i, Attr(a[p], "href")) else Attr(a[p], "href"))
  }

  /** One flag per `image` element. */
  lemma {:induction false} InFigLength(e: Element, inFig: bool)
    ensures |InFig(e, inFig)| == |Iter(e, "image")|
    decreases e
  {
    InFigLengthSeq(e.children, inFig || e.tag == "fig");
  }

  lemma {:induction false} InFigLengthSeq(cs: seq<Element>, inFig: bool)
    ensures |InFigSeq(cs, inFig)| == |IterSeq(cs, "image")|
    decreases cs
  {
    if cs != [] {
      InFigLength(cs[0], inFig);
      InFigLengthSeq(cs[1..], inFig);
    }
  }

  /** The rewrite keeps every tag, so which images lie inside a `fig` does
      not change. */
  lemma {:induction false} RetargetFigInFig(e: Element, inFig: bool, from: string, to: string)
    ensures InFig(RetargetFig(e, inFig, from, to), inFig) == InFig(e, inFig)
    decreases e
  {
    RetargetFigInFigSeq(e.children, inFig || e.tag == "fig", from, to);
  }

  lemma {:induction false} RetargetFigInFigSeq(cs: seq<Element>, inFig: bool, from: string, to: string)
    ensures InFigSeq(RetargetFigSeq(cs, inFig, from, to), inFig) == InFigSeq(cs, inFig)
    decreases cs
  {
    if cs != [] {
      RetargetFigInFig(cs[0], inFig, from, to);
      RetargetFigInFigSeq(cs[1..], inFig, from, to);
      assert RetargetFigSeq(cs, inFig, from, to)[1..] == RetargetFigSeq(cs[1..], inFig, from, to);
    }
  }

  /** The conditions on the order carry over to its tail, and the head is
      neither an old nor a new name of the tail. */
  lemma OrderTail(imgs: ImageMap, order: seq<string>, prefix: string)
    requires order != [] && Known(imgs, order)
    requires Distinct(order) && NoChains(imgs, order, prefix)
    ensures Known(imgs, order[1..]) && Distinct(order[1..]) && NoChains(imgs, order[1..], prefix)
    ensures order[0] !in order[1..] && ImageName(imgs[order[0]], prefix) !in order[1..]
    ensures forall l :: 0 <= l < |order[1..]| ==> order[0] != ImageName(imgs[order[1..][l]], prefix)
  {
    assert forall l :: 0 <= l < |order[1..]| ==> order[1..][l] == order[l + 1];
  }

  /** One image of the pass followed by the rest is the pass over all. */
  lemma RetargetedStep(e: Element, e1: Element, e2: Element, vs: seq<Visit>, order: seq<string>, imgs: ImageMap, prefix: string, i: nat)
    requires order != [] && Known(imgs, order)
    requires Distinct(order) && NoChains(imgs, order, prefix)
    requires e1 == if i in Users(vs, order[0]) then RetargetFig(e, false, order[0], ImageName(imgs[order[0]], prefix)) else e
    requires Known(imgs, order[1..]) && Retargeted(e1, e2, vs, order[1..], imgs, prefix, i)
    ensures Retargeted(e, e2, vs, order, imgs, prefix, i)
  {
    var h := order[0];
    var n := ImageName(imgs[h], prefix);
    OrderTail(imgs, order, prefix);
    RetargetFigIter(e, false, h, n);
    RetargetFigInFig(e, false, h, n);
    InFigLength(e, false);
    var a := Iter(e, "image");
    var a1 := Iter(e1, "image");
    var b := Iter(e2, "image");
    var fl := InFig(e, false);
    assert InFig(e1, false) == fl;
    assert forall x :: x in order <==> x == h || x in order[1..];
    forall p | 0 <= p < |a|
      ensures Attr(b[p], "href") == (if fl[p] then FinalHref(vs, order, imgs, prefix, i, Attr(a[p], "href")) else Attr(a[p], "href"))
    {
      if i in Users(vs, h) {
        assert Attr(a1[p], "href") == if fl[p] then Moved(Attr(a[p], "href"), h, n) else Attr(a[p], "href");
      }
    }
  }

  /** The pass over `order` leaves every `fig` image reference of a topic
      that uses an image of `order` at that image's new name, whether or not
      the folder let the file move, and every other reference as it was. */
  lemma {:induction false} RenameLoopHrefs<T>(w: World, topics: seq<Topic>, files: map<string, T>, imgs: ImageMap, vs: seq<Visit>, order: seq<string>, prefix: string)
    requires forall j :: 0 <= j < |vs| ==> vs[j].topic < |topics|
    requires Known(imgs, order)
    requires Distinct(order) && NoChains(imgs, order, prefix)
    ensures var r := RenameLoop(w, topics, files, imgs, vs, order, prefix);
      forall i :: 0 <= i < |topics| ==> Retargeted(topics[i].content.root, r.1[i].content.root, vs, order, imgs, prefix, i)
    decreases |order|
  {
    var r := RenameLoop(w, topics, files, imgs, vs, order, prefix);
    if order == [] {
      forall i | 0 <= i < |topics|
        ensures Retargeted(topics[i].content.root, r.1[i].content.root, vs, order, imgs, prefix, i)
      {
        InFigLength(topics[i].content.root, false);
      }
    } else {
      var h := order[0];
      var us := Users(vs, h);
      assert forall j :: 0 <= j < |us| ==> us[j] < |topics|;
      var q := RenameImage(w, topics, files, us, h, ImageName(imgs[h], prefix));
      OrderTail(imgs, order, prefix);
      RenameLoopHrefs(q.0, q.1, q.2, imgs, vs, order[1..], prefix);
      assert r == RenameLoop(q.0, q.1, q.2, imgs, vs, order[1..], prefix);
      forall i | 0 <= i < |topics|
        ensures Retargeted(topics[i].content.root, r.1[i].content.root, vs, order, imgs, prefix, i)
      {
        RetargetedStep(topics[i].content.root, q.1[i].content.root, r.1[i].content.root, vs, order, imgs, prefix, i);
      }
    }
  }

  /** A file that is absent and is no image's new name stays absent. */
  lemma {:induction false} RenameLoopKeepsAbsent<T>(w: World, topics: seq<Topic>, files: map<string, T>, imgs: ImageMap, vs: seq<Visit>, order: seq<string>, prefix: string)
    requires forall j :: 0 <= j < |vs| ==> vs[j].topic < |topics|
    requires Known(imgs, order)
    ensures var r := RenameLoop(w, topics, files, imgs, vs, order, prefix);
      forall k :: k !in files && (forall j :: 0 <= j < |order| ==> k != ImageName(imgs[order[j]], prefix)) ==> k !in r.2
    decreases |order|
  {
    if order != [] {
      var q := RenameLoopUnfold(w, topics, files, imgs, vs, order, prefix);
      RenameLoopKeepsAbsent(q.0, q.1, q.2, imgs, vs, order[1..], prefix);
      assert forall l :: 0 <= l < |order[1..]| ==> order[1..][l] == order[l + 1];
    }
  }

  /** The first rename of the pass: the head's file moves, the other files
      of the order stay, and the conditions hold for the rest. */
  lemma FirstMove<T>(files: map<string, T>, imgs: ImageMap, order: seq<string>, prefix: string)
    requires order != [] && Known(imgs, order)
    requires Distinct(order) && NoChains(imgs, order, prefix) && NamesApart(imgs, order, prefix)
    requires DestinationsFree(files, imgs, order, prefix)
    ensures var n := ImageName(imgs[order[0]], prefix);
      var f1 := FileRename(files, order[0], n);
      Known(imgs, order[1..]) && Distinct(order[1..]) && NoChains(imgs, order[1..], prefix)
      && NamesApart(imgs, order[1..], prefix) && DestinationsFree(f1, imgs, order[1..], prefix)
      && (order[0] in files ==> n in f1 && f1[n] == files[order[0]])
      && (n != order[0] ==> order[0] !in f1)
      && n !in order[1..]
      && (forall l :: 0 <= l < |order[1..]| ==> n != ImageName(imgs[order[1..][l]], prefix))
      && (forall l :: 0 <= l < |order[1..]| ==> order[0] != ImageName(imgs[order[1..][l]], prefix))
      && (forall l :: 0 <= l < |order[1..]| && order[1..][l] in files ==> order[1..][l] in f1 && f1[order[1..][l]] == files[order[1..][l]])
  {
    OrderTail(imgs, order, prefix);
    assert forall l :: 0 <= l < |order[1..]| ==> order[1..][l] == order[l + 1];
  }

  /** With distinct new names that are free in the folder and are no other
      image's old name, the pass moves every image file of `order` to its
      new name, and the old name is gone unless it was the new one. */
  lemma {:induction false} RenameLoopMovesFiles<T>(w: World, topics: seq<Topic>, files: map<string, T>, imgs: ImageMap, vs: seq<Visit>, order: seq<string>, prefix: string)
    requires forall j :: 0 <= j < |vs| ==> vs[j].topic < |topics|
    requires Known(imgs, order)
    requires Distinct(order) && NoChains(imgs, order, prefix) && NamesApart(imgs, order, prefix)
    requires DestinationsFree(files, imgs, order, prefix)
    ensures var r := RenameLoop(w, topics, files, imgs, vs, order, prefix);
      forall j :: 0 <= j < |order| && order[j] in files ==>
        ImageName(imgs[order[j]], prefix) in r.2 && r.2[ImageName(imgs[order[j]], prefix)] == files[order[j]]
    ensures var r := RenameLoop(w, topics, files, imgs, vs, order, prefix);
      forall j :: 0 <= j < |order| && ImageName(imgs[order[j]], prefix) != order[j] ==> order[j] !in r.2
    decreases |order|
  {
    if order != [] {
      var q := RenameLoopUnfold(w, topics, files, imgs, vs, order, prefix);
      var r := RenameLoop(w, topics, files, imgs, vs, order, prefix);
      FirstMove(files, imgs, order, prefix);
      RenameLoopMovesFiles(q.0, q.1, q.2, imgs, vs, order[1..], prefix);
      RenameLoopKeepsFiles(q.0, q.1, q.2, imgs, vs, order[1..], prefix);
      RenameLoopKeepsAbsent(q.0, q.1, q.2, imgs, vs, order[1..], prefix);
      forall j | 0 <= j < |order| && order[j] in files
        ensures ImageName(imgs[order[j]], prefix) in r.2 && r.2[ImageName(imgs[order[j]], prefix)] == files[order[j]]
      {
        if j > 0 {
          assert order[1..][j - 1] == order[j];
        }
      }
      forall j | 0 <= j < |order| && ImageName(imgs[order[j]], prefix) != order[j]
        ensures order[j] !in r.2
      {
        if j > 0 {
          assert order[1..][j - 1] == order[j];
        }
      }
    }
  }

  /** The references of topic `t2` are those of `t`: each one inside a
      `fig` that names an image `t` uses points at that image's new name,
      and every other one keeps its href. */
  predicate PointsAtNewNames(t: Topic, t2: Topic, imgs: ImageMap, prefix: string) {
    var a := Iter(t.content.root, "image");
    var b := Iter(t2.content.root, "image");
    var fl := InFig(t.content.root, false);
    |b| == |a| && |fl| == |a|
    && forall p :: 0 <= p < |a| ==>
      Attr(b[p], "href") ==
        (if fl[p] && Attr(a[p], "href").Some? && Attr(a[p], "href").value in t.images && Attr(a[p], "href").value in imgs
         then Some(ImageName(imgs[Attr(a[p], "href").value], prefix))
         else Attr(a[p], "href"))
  }

  /** Each topic of `ts` is its counterpart in `topics` pointed at the new
      names. */
  predicate AllPointAtNewNames(topics: seq<Topic>, ts: seq<Topic>, imgs: ImageMap, prefix: string) {
    |ts| == |topics| && forall i :: 0 <= i < |topics| ==> PointsAtNewNames(topics[i], ts[i], imgs, prefix)
  }

  /** Every image of topic `i` is visited in it by the first pass. */
  lemma {:induction false} VisitOf(topics: seq<Topic>, i0: nat, i: nat, h: string)
    requires i0 <= i < |topics| && h in topics[i].images
    ensures Visit(i, h) in Visits(topics, i0)
    decreases |topics| - i0
  {
    if i0 < i {
      VisitOf(topics, i0 + 1, i, h);
    } else {
      var hs := topics[i].images;
      var k :| 0 <= k < |hs| && hs[k] == h;
      assert Visits(topics, i0)[k] == Visit(i, h);
    }
  }

  /** A topic is among the users of `h` exactly when it shows `h`. */
  lemma UsersOfVisits(topics: seq<Topic>, i: nat, h: string)
    requires i < |topics|
    ensures i in Users(Visits(topics, 0), h) <==> h in topics[i].images
    ensures h in topics[i].images ==> h in Images.Hrefs(Visits(topics, 0))
  {
    var vs := Visits(topics, 0);
    if h in topics[i].images {
      VisitOf(topics, 0, i, h);
      var k :| 0 <= k < |vs| && vs[k] == Visit(i, h);
      assert Images.Hrefs(vs)[k] == h;
    }
    if i in Users(vs, h) {
      assert Visit(i, h) in vs;
      var k :| 0 <= k < |vs| && vs[k] == Visit(i, h);
    }
  }

  /** The renaming pass over the images in order of first visit, when no
      image's new name is another image's old name: in every topic, each
      `fig` reference to an image the topic shows ends at that image's new
      name, whether or not the folder let the file move. */
  lemma RenamePassRetargets<T>(w: World, topics: seq<Topic>, files: map<string, T>, imgs1: ImageMap, ts: seq<Topic>, prefix: string)
    requires Known(imgs1, Dedupe(Images.Hrefs(Visits(topics, 0))))
    requires NoChains(imgs1, Dedupe(Images.Hrefs(Visits(topics, 0))), prefix)
    requires ts == RenameLoop(w, topics, files, imgs1, Visits(topics, 0), Dedupe(Images.Hrefs(Visits(topics, 0))), prefix).1
    ensures AllPointAtNewNames(topics, ts, imgs1, prefix)
  {
    var vs := Visits(topics, 0);
    var order := Dedupe(Images.Hrefs(vs));
    RenameLoopHrefs(w, topics, files, imgs1, vs, order, prefix);
    forall i | 0 <= i < |topics|
      ensures PointsAtNewNames(topics[i], ts[i], imgs1, prefix)
    {
      RetargetedPoints(topics, i, ts[i], imgs1, prefix);
    }
  }

  /** For a topic, the pass's final href is the new name exactly for the
      images the topic shows. */
  lemma FinalHrefShown(topics: seq<Topic>, i: nat, imgs1: ImageMap, prefix: string, o: Option<string>)
    requires i < |topics| && Known(imgs1, Dedupe(Images.Hrefs(Visits(topics, 0))))
    ensures FinalHref(Visits(topics, 0), Dedupe(Images.Hrefs(Visits(topics, 0))), imgs1, prefix, i, o) ==
      (if o.Some? && o.value in topics[i].images && o.value in imgs1 then Some(ImageName(imgs1[o.value], prefix)) else o)
  {
    var order := Dedupe(Images.Hrefs(Visits(topics, 0)));
    if o.Some? {
      UsersOfVisits(topics, i, o.value);
      if o.value in order {
        var j :| 0 <= j < |order| && order[j] == o.value;
      }
    }
  }

  /** One topic of the pass: `Retargeted` over the visit order is
      `PointsAtNewNames`. */
  lemma RetargetedPoints(topics: seq<Topic>, i: nat, t2: Topic, imgs1: ImageMap, prefix: string)
    requires i < |topics| && Known(imgs1, Dedupe(Images.Hrefs(Visits(topics, 0))))
    requires Retargeted(topics[i].content.root, t2.content.root, Visits(topics, 0), Dedupe(Images.Hrefs(Visits(topics, 0))), imgs1, prefix, i)
    ensures PointsAtNewNames(topics[i], t2, imgs1, prefix)
  {
    var a := Iter(topics[i].content.root, "image");
    forall p | 0 <= p < |a|
      ensures FinalHref(Visits(topics, 0), Dedupe(Images.Hrefs(Visits(topics, 0))), imgs1, prefix, i, Attr(a[p], "href")) ==
        (if Attr(a[p], "href").Some? && Attr(a[p], "href").value in topics[i].images && Attr(a[p], "href").value in imgs1
         then Some(ImageName(imgs1[Attr(a[p], "href").value], prefix)) else Attr(a[p], "href"))
    {
      FinalHrefShown(topics, i, imgs1, prefix, Attr(a[p], "href"));
    }
  }

  /** The renaming pass, when no two images share a new name, no new name
      is another image's old name, and every new name is free in the
      folder: each shown image's file moves to its new name, and its old
      name is gone unless the two coincide. */
  lemma RenamePassMovesFiles<T>(w: World, topics: seq<Topic>, files: map<string, T>, imgs1: ImageMap, prefix: string)
    requires Known(imgs1, Dedupe(Images.Hrefs(Visits(topics, 0))))
    requires var order := Dedupe(Images.Hrefs(Visits(topics, 0)));
      NoChains(imgs1, order, prefix) && NamesApart(imgs1, order, prefix) && DestinationsFree(files, imgs1, order, prefix)
    ensures var vs := Visits(topics, 0);
      var r := RenameLoop(w, topics, files, imgs1, vs, Dedupe(Images.Hrefs(vs)), prefix);
      forall h :: h in Images.Hrefs(vs) && h in files ==>
        h in imgs1 && ImageName(imgs1[h], prefix) in r.2 && r.2[ImageName(imgs1[h], prefix)] == files[h]
    ensures var vs := Visits(topics, 0);
      var r := RenameLoop(w, topics, files, imgs1, vs, Dedupe(Images.Hrefs(vs)), prefix);
      forall h :: h in Images.Hrefs(vs) ==> h in imgs1 && (ImageName(imgs1[h], prefix) != h ==> h !in r.2)
  {
    var vs := Visits(topics, 0);
    var order := Dedupe(Images.Hrefs(vs));
    RenameLoopMovesFiles(w, topics, files, imgs1, vs, order, prefix);
    forall h | h in Images.Hrefs(vs)
      ensures exists j :: 0 <= j < |order| && order[j] == h
    {
      assert h in order;
    }
  }
}
