/** Renaming the map's image files after their captions
    (utils/local.py, `edit_image_names`).

    The first pass walks every image of every topic, in topic order, and
    numbers repeated captions: the first visit of a caption keeps it, the
    k-th visit appends " k".  It also records which topics use each image,
    keyed by image in order of first visit.  The second pass renames each
    image file to its generated name and points the `image` elements inside
    `fig` elements of every using topic at the new name.
 */
module Images {
  import opened Wrappers
  import opened PyStr
  import opened XmlTree
  import opened Content
  import opened Naming
  import opened Project

  /** The map's images, by file name; topics refer to them by file name. */
  type ImageMap = map<string, Image>

  /** One step of the first pass: image `href` seen in topic `topic`. */
  datatype Visit = Visit(topic: nat, href: string)

  /** The visits of topic `i` onward, in order. */
  function Visits(topics: seq<Topic>, i: nat): (r: seq<Visit>)
    requires i <= |topics|
    ensures forall j :: 0 <= j < |r| ==> i <= r[j].topic < |topics| && r[j].href in topics[r[j].topic].images
    decreases |topics| - i
  {
    if i == |topics| then []
    else
      var hs := topics[i].images;
      seq(|hs|, j requires 0 <= j < |hs| => Visit(i, hs[j])) + Visits(topics, i + 1)
  }

  function Hrefs(vs: seq<Visit>): (r: seq<string>)
    ensures |r| == |vs| && forall j :: 0 <= j < |vs| ==> r[j] == vs[j].href
  {
    seq(|vs|, j requires 0 <= j < |vs| => vs[j].href)
  }

  /** Every image a topic mentions is one of the map's images. */
  predicate Known(imgs: ImageMap, hs: seq<string>) {
    forall j :: 0 <= j < |hs| ==> hs[j] in imgs
  }

  // ---------------------------------------------------------------------
  // Numbering the captions

  /** The caption of the k-th visit of a caption. */
  function Label(t: string, k: nat): string {
    if k <= 1 then t else t + " " + NatToString(k)
  }

  /** How many of the visits see an image whose caption is `t`. */
  function CaptionCount(hs: seq<string>, imgs: ImageMap, t: string): nat
    requires Known(imgs, hs)
  {
    if hs == [] then 0
    else
      var h := hs[|hs| - 1];
      CaptionCount(hs[..|hs| - 1], imgs, t) + (if Truthy(imgs[h].title) && imgs[h].title.value == t then 1 else 0)
  }

  /** The counter of the first pass agrees with `CaptionCount`. */
  ghost predicate TitleCounts(titles: map<string, nat>, hs: seq<string>, imgs: ImageMap)
    requires Known(imgs, hs)
  {
    forall t :: (t in titles <==> CaptionCount(hs, imgs, t) > 0) && (t in titles ==> titles[t] == CaptionCount(hs, imgs, t))
  }

  /** The first pass from visit `i` on.  Untitled images (None or empty
      after stripping) are skipped; a titled image gets its caption, or its
      caption numbered when the caption was seen before. */
  function CaptionLoop(hs: seq<string>, i: nat, imgs: ImageMap, titles: map<string, nat>): (r: ImageMap)
    requires i <= |hs| && Known(imgs, hs)
    ensures r.Keys == imgs.Keys
    ensures forall h :: h in imgs ==> r[h] == imgs[h].(tempTitle := r[h].tempTitle)
    decreases |hs| - i
  {
    if i == |hs| then imgs
    else
      var h := hs[i];
      var img := imgs[h];
      if !Truthy(img.title) then CaptionLoop(hs, i + 1, imgs, titles)
      else
        var t := img.title.value;
        if t in titles then
          var n := titles[t] + 1;
          CaptionLoop(hs, i + 1, imgs[h := img.(tempTitle := Some(t + " " + NatToString(n)))], titles[t := n])
        else
          CaptionLoop(hs, i + 1, imgs[h := img.(tempTitle := Some(t))], titles[t := 1])
  }

  /** Reference definition: the label an image ends with is the one its
      last visit gave it, numbered by the visits of its caption up to then;
      None when no visit labels it. */
  function LastLabel(hs: seq<string>, imgs: ImageMap, h: string): Option<string>
    requires Known(imgs, hs)
  {
    if hs == [] then None
    else
      var last := hs[|hs| - 1];
      if last == h && Truthy(imgs[h].title) then Some(Label(imgs[h].title.value, CaptionCount(hs, imgs, imgs[h].title.value)))
      else LastLabel(hs[..|hs| - 1], imgs, h)
  }

  function OrElse(a: Option<string>, b: Option<string>): Option<string> {
    if a.Some? then a else b
  }

  lemma CountsStep(titles: map<string, nat>, hs: seq<string>, i: nat, imgs: ImageMap)
    requires i < |hs| && Known(imgs, hs) && TitleCounts(titles, hs[..i], imgs)
    ensures Truthy(imgs[hs[i]].title) ==>
      var t := imgs[hs[i]].title.value;
      TitleCounts(titles[t := if t in titles then titles[t] + 1 else 1], hs[..i + 1], imgs)
      && CaptionCount(hs[..i + 1], imgs, t) == (if t in titles then titles[t] + 1 else 1)
    ensures !Truthy(imgs[hs[i]].title) ==> TitleCounts(titles, hs[..i + 1], imgs)
  {
    assert hs[..i + 1][..i] == hs[..i];
  }

  /** What the first pass keeps true after `i` visits: only temporary
      titles change, each is the reference label so far, and the counter
      agrees with `CaptionCount`. */
  ghost predicate CaptionInv(hs: seq<string>, i: nat, orig: ImageMap, imgs: ImageMap, titles: map<string, nat>) {
    i <= |hs| && Known(orig, hs)
    && imgs.Keys == orig.Keys
    && (forall h :: h in orig ==> imgs[h] == orig[h].(tempTitle := imgs[h].tempTitle))
    && (forall h :: h in orig ==> imgs[h].tempTitle == OrElse(LastLabel(hs[..i], orig, h), orig[h].tempTitle))
    && TitleCounts(titles, hs[..i], orig)
  }

  /** The first pass computes the reference labels: an image keeps its
      previous temporary title exactly when no visit labels it. */
  lemma {:induction false} CaptionLoopSpec(hs: seq<string>, i: nat, orig: ImageMap, imgs: ImageMap, titles: map<string, nat>)
    requires CaptionInv(hs, i, orig, imgs, titles)
    ensures forall h :: h in orig ==>
      CaptionLoop(hs, i, imgs, titles)[h].tempTitle == OrElse(LastLabel(hs, orig, h), orig[h].tempTitle)
    decreases |hs| - i, 1
  {
    if i == |hs| {
      assert hs[..i] == hs;
    } else if !Truthy(orig[hs[i]].title) {
      CaptionSkipSpec(hs, i, orig, imgs, titles);
    } else {
      CaptionTitledSpec(hs, i, orig, imgs, titles);
    }
  }

  /** Before the first visit nothing is labelled and nothing counted. */
  lemma CaptionInvStart(hs: seq<string>, imgs: ImageMap)
    requires Known(imgs, hs)
    ensures CaptionInv(hs, 0, imgs, imgs, map[])
  {
    assert hs[..0] == [];
  }

  /** Setting one temporary title keeps every other field. */
  lemma TempTitleFrame(orig: ImageMap, imgs: ImageMap, h: string, v: Option<string>)
    requires h in orig && imgs.Keys == orig.Keys
    requires forall g :: g in orig ==> imgs[g] == orig[g].(tempTitle := imgs[g].tempTitle)
    ensures var imgs1 := imgs[h := imgs[h].(tempTitle := v)];
      imgs1.Keys == orig.Keys && forall g :: g in orig ==> imgs1[g] == orig[g].(tempTitle := imgs1[g].tempTitle)
  {
  }

  /** The invariant's parts after one more visit. */
  lemma CaptionInvNext(hs: seq<string>, i: nat, orig: ImageMap, imgs: ImageMap, titles: map<string, nat>)
    requires i < |hs| && Known(orig, hs) && imgs.Keys == orig.Keys
    requires forall h :: h in orig ==> imgs[h] == orig[h].(tempTitle := imgs[h].tempTitle)
    requires forall h :: h in orig ==> imgs[h].tempTitle == OrElse(LastLabel(hs[..i + 1], orig, h), orig[h].tempTitle)
    requires TitleCounts(titles, hs[..i + 1], orig)
    ensures CaptionInv(hs, i + 1, orig, imgs, titles)
  {
  }

  /** `CaptionLoopSpec` at an untitled visit. */
  lemma {:induction false} CaptionSkipSpec(hs: seq<string>, i: nat, orig: ImageMap, imgs: ImageMap, titles: map<string, nat>)
    requires CaptionInv(hs, i, orig, imgs, titles) && i < |hs| && !Truthy(orig[hs[i]].title)
    ensures forall h :: h in orig ==>
      CaptionLoop(hs, i, imgs, titles)[h].tempTitle == OrElse(LastLabel(hs, orig, h), orig[h].tempTitle)
    decreases |hs| - i, 0
  {
    CountsStep(titles, hs, i, orig);
    LabelsSkipStep(hs, i, orig, imgs);
    assert CaptionInv(hs, i + 1, orig, imgs, titles);
    CaptionLoopSpec(hs, i + 1, orig, imgs, titles);
  }

  /** `CaptionLoopSpec` at a titled visit. */
  lemma {:induction false} CaptionTitledSpec(hs: seq<string>, i: nat, orig: ImageMap, imgs: ImageMap, titles: map<string, nat>)
    requires CaptionInv(hs, i, orig, imgs, titles) && i < |hs| && Truthy(orig[hs[i]].title)
    ensures forall h :: h in orig ==>
      CaptionLoop(hs, i, imgs, titles)[h].tempTitle == OrElse(LastLabel(hs, orig, h), orig[h].tempTitle)
    decreases |hs| - i, 0
  {
    var h := hs[i];
    var t := orig[h].title.value;
    var n := if t in titles then titles[t] + 1 else 1;
    var imgs1 := imgs[h := imgs[h].(tempTitle := Some(Label(t, n)))];
    CaptionTitledStep(hs, i, orig, imgs, titles);
    CaptionLoopSpec(hs, i + 1, orig, imgs1, titles[t := n]);
  }

  /** The invariant over a titled visit, and the pass's step there. */
  lemma CaptionTitledStep(hs: seq<string>, i: nat, orig: ImageMap, imgs: ImageMap, titles: map<string, nat>)
    requires CaptionInv(hs, i, orig, imgs, titles) && i < |hs| && Truthy(orig[hs[i]].title)
    ensures Known(imgs, hs)
    ensures var h := hs[i];
      var t := orig[h].title.value;
      var n := if t in titles then titles[t] + 1 else 1;
      var imgs1 := imgs[h := imgs[h].(tempTitle := Some(Label(t, n)))];
      CaptionInv(hs, i + 1, orig, imgs1, titles[t := n])
      && CaptionLoop(hs, i, imgs, titles) == CaptionLoop(hs, i + 1, imgs1, titles[t := n])
  {
    var h := hs[i];
    var t := orig[h].title.value;
    var n := if t in titles then titles[t] + 1 else 1;
    var imgs1 := imgs[h := imgs[h].(tempTitle := Some(Label(t, n)))];
    CountsStep(titles, hs, i, orig);
    assert imgs[h].title == orig[h].title && Known(imgs, hs);
    CaptionLoopTitled(hs, i, imgs, titles);
    LabelsTitledStep(hs, i, orig, imgs, n);
    TempTitleFrame(orig, imgs, h, Some(Label(t, n)));
    CaptionInvNext(hs, i, orig, imgs1, titles[t := n]);
  }

  /** One titled visit of the first pass: the image gets its caption
      numbered by the count so far. */
  lemma CaptionLoopTitled(hs: seq<string>, i: nat, imgs: ImageMap, titles: map<string, nat>)
    requires i < |hs| && Known(imgs, hs) && Truthy(imgs[hs[i]].title)
    requires var t := imgs[hs[i]].title.value; t in titles ==> titles[t] >= 1
    ensures var t := imgs[hs[i]].title.value;
      var n := if t in titles then titles[t] + 1 else 1;
      CaptionLoop(hs, i, imgs, titles) == CaptionLoop(hs, i + 1, imgs[hs[i] := imgs[hs[i]].(tempTitle := Some(Label(t, n)))], titles[t := n])
  {
  }

  /** The last label of `g` over one more visit. */
  lemma LastLabelStep(hs: seq<string>, i: nat, orig: ImageMap, g: string)
    requires i < |hs| && Known(orig, hs)
    ensures Known(orig, hs[..i + 1]) && Known(orig, hs[..i])
    ensures LastLabel(hs[..i + 1], orig, g) ==
      if hs[i] == g && Truthy(orig[g].title) then Some(Label(orig[g].title.value, CaptionCount(hs[..i + 1], orig, orig[g].title.value)))
      else LastLabel(hs[..i], orig, g)
  {
    assert hs[..i + 1][..i] == hs[..i];
  }

  /** An untitled visit changes no image's label. */
  lemma LabelsSkipStep(hs: seq<string>, i: nat, orig: ImageMap, imgs: ImageMap)
    requires i < |hs| && Known(orig, hs) && !Truthy(orig[hs[i]].title)
    requires forall h :: h in orig ==> h in imgs && imgs[h].tempTitle == OrElse(LastLabel(hs[..i], orig, h), orig[h].tempTitle)
    ensures Known(orig, hs[..i + 1])
    ensures forall h :: h in orig ==> imgs[h].tempTitle == OrElse(LastLabel(hs[..i + 1], orig, h), orig[h].tempTitle)
  {
    forall g | g in orig
      ensures imgs[g].tempTitle == OrElse(LastLabel(hs[..i + 1], orig, g), orig[g].tempTitle)
    {
      LastLabelStep(hs, i, orig, g);
    }
  }

  /** A titled visit gives its image the label numbered `n`, its caption's
      count so far, and changes no other label. */
  lemma LabelsTitledStep(hs: seq<string>, i: nat, orig: ImageMap, imgs: ImageMap, n: nat)
    requires i < |hs| && Known(orig, hs) && Truthy(orig[hs[i]].title)
    requires Known(orig, hs[..i + 1]) && CaptionCount(hs[..i + 1], orig, orig[hs[i]].title.value) == n
    requires forall h :: h in orig ==> h in imgs && imgs[h].tempTitle == OrElse(LastLabel(hs[..i], orig, h), orig[h].tempTitle)
    ensures var imgs1 := imgs[hs[i] := imgs[hs[i]].(tempTitle := Some(Label(orig[hs[i]].title.value, n)))];
      forall h :: h in orig ==> imgs1[h].tempTitle == OrElse(LastLabel(hs[..i + 1], orig, h), orig[h].tempTitle)
  {
    forall g | g in orig
      ensures (imgs[hs[i] := imgs[hs[i]].(tempTitle := Some(Label(orig[hs[i]].title.value, n)))])[g].tempTitle
        == OrElse(LastLabel(hs[..i + 1], orig, g), orig[g].tempTitle)
    {
      LastLabelStep(hs, i, orig, g);
    }
  }

  /** The caption pass of `edit_image_names` as written: every visit
      counts. */
  function TitlesOf(topics: seq<Topic>, imgs: ImageMap): (r: ImageMap)
    requires Known(imgs, Hrefs(Visits(topics, 0)))
    ensures r.Keys == imgs.Keys && Known(r, Dedupe(Hrefs(Visits(topics, 0))))
    ensures forall h :: h in imgs ==>
      r[h] == imgs[h].(tempTitle := OrElse(LastLabel(Hrefs(Visits(topics, 0)), imgs, h), imgs[h].tempTitle))
  {
    var hs := Hrefs(Visits(topics, 0));
    KnownDedupe(imgs, hs);
    CaptionInvStart(hs, imgs);
    CaptionLoopSpec(hs, 0, imgs, imgs, map[]);
    CaptionLoop(hs, 0, imgs, map[])
  }

  /** Two topics that each show image `h` and nothing else make two
      visits of `h`. */
  lemma {:induction false} TwoVisits(topics: seq<Topic>, h: string)
    requires |topics| == 2 && topics[0].images == [h] && topics[1].images == [h]
    ensures var hs := Hrefs(Visits(topics, 0)); |hs| == 2 && hs[0] == h && hs[1] == h
  {
    assert |Visits(topics, 2)| == 0;
    assert |Visits(topics, 1)| == 1 && Visits(topics, 1)[0] == Visit(1, h);
  }

  /** As written, an image used by two topics is visited twice and so is
      numbered as a repeat of its own caption: one image captioned "Pump"
      is named after "Pump 2" though no other image shares its caption. */
  lemma {:induction false} SharedImageCountedTwice(topics: seq<Topic>, imgs: ImageMap, h: string)
    requires |topics| == 2 && topics[0].images == [h] && topics[1].images == [h]
    requires h in imgs && Truthy(imgs[h].title)
    ensures Known(imgs, Hrefs(Visits(topics, 0)))
    ensures TitlesOf(topics, imgs)[h].tempTitle == Some(imgs[h].title.value + " 2")
  {
    TwoVisits(topics, h);
    var t := imgs[h].title.value;
    var hs := Hrefs(Visits(topics, 0));
    var one := hs[..1];
    assert |one| == 1 && one[0] == h;
    assert CaptionCount(one[..0], imgs, t) == 0;
    assert CaptionCount(one, imgs, t) == 1;
    assert CaptionCount(hs, imgs, t) == 2;
    assert LastLabel(hs, imgs, h) == Some(Label(t, 2));
    assert NatToString(2) == "2";
    assert Label(t, 2) == t + " 2";
    var r := TitlesOf(topics, imgs);
    assert r[h].tempTitle == OrElse(LastLabel(hs, imgs, h), imgs[h].tempTitle);
  }

  // ---------------------------------------------------------------------
  // Counting each image once

  /** The distinct entries of `hs` in order of first occurrence: the key
      order of the dict of uses. */
  function Dedupe(hs: seq<string>): (r: seq<string>)
    ensures forall x :: x in r <==> x in hs
    ensures forall a, b :: 0 <= a < b < |r| ==> r[a] != r[b]
  {
    if hs == [] then []
    else
      var d := Dedupe(hs[..|hs| - 1]);
      assert forall x :: x in hs <==> x in hs[..|hs| - 1] || x == hs[|hs| - 1];
      if hs[|hs| - 1] in d then d else d + [hs[|hs| - 1]]
  }

  lemma KnownDedupe(imgs: ImageMap, hs: seq<string>)
    requires Known(imgs, hs)
    ensures Known(imgs, Dedupe(hs))
  {
    var d := Dedupe(hs);
    forall j | 0 <= j < |d| ensures d[j] in imgs {
      assert d[j] in hs;
    }
  }

  /** The caption pass as evidently intended: each image is numbered once,
      at its first visit. */
  function TitlesOfFixed(topics: seq<Topic>, imgs: ImageMap): (r: ImageMap)
    requires Known(imgs, Hrefs(Visits(topics, 0)))
    ensures Known(imgs, Dedupe(Hrefs(Visits(topics, 0))))
    ensures r.Keys == imgs.Keys && Known(r, Dedupe(Hrefs(Visits(topics, 0))))
    ensures forall h :: h in imgs ==>
      r[h] == imgs[h].(tempTitle := OrElse(LastLabel(Dedupe(Hrefs(Visits(topics, 0))), imgs, h), imgs[h].tempTitle))
  {
    var d := Dedupe(Hrefs(Visits(topics, 0)));
    KnownDedupe(imgs, Hrefs(Visits(topics, 0)));
    CaptionInvStart(d, imgs);
    CaptionLoopSpec(d, 0, imgs, imgs, map[]);
    CaptionLoop(d, 0, imgs, map[])
  }

  /** The label of an entry that does not occur again later. */
  lemma {:induction false} LastLabelAt(hs: seq<string>, imgs: ImageMap, p: nat)
    requires Known(imgs, hs) && p < |hs| && Truthy(imgs[hs[p]].title)
    requires forall j :: p < j < |hs| ==> hs[j] != hs[p]
    ensures LastLabel(hs, imgs, hs[p]) == Some(Label(imgs[hs[p]].title.value, CaptionCount(hs[..p + 1], imgs, imgs[hs[p]].title.value)))
    decreases |hs|
  {
    if p == |hs| - 1 {
      assert hs[..p + 1] == hs;
    } else {
      var pre := hs[..|hs| - 1];
      assert pre[p] == hs[p] && pre[..p + 1] == hs[..p + 1];
      LastLabelAt(pre, imgs, p);
    }
  }

  lemma {:induction false} CaptionCountMonotone(hs: seq<string>, imgs: ImageMap, t: string, m: nat)
    requires Known(imgs, hs) && m <= |hs|
    ensures CaptionCount(hs[..m], imgs, t) <= CaptionCount(hs, imgs, t)
    decreases |hs|
  {
    if m < |hs| {
      CaptionCountMonotone(hs[..|hs| - 1], imgs, t, m);
      assert hs[..|hs| - 1][..m] == hs[..m];
    } else {
      assert hs[..m] == hs;
    }
  }

  /** A later visit of a caption counts strictly more of it. */
  lemma CaptionCountIncreases(hs: seq<string>, imgs: ImageMap, t: string, a: nat, b: nat)
    requires Known(imgs, hs) && a < b < |hs|
    requires Truthy(imgs[hs[b]].title) && imgs[hs[b]].title.value == t
    ensures CaptionCount(hs[..a + 1], imgs, t) < CaptionCount(hs[..b + 1], imgs, t)
  {
    var s := hs[..b + 1];
    assert s[..|s| - 1] == hs[..b];
    CaptionCountMonotone(hs[..b], imgs, t, a + 1);
    assert hs[..b][..a + 1] == hs[..a + 1];
  }

  /** Labels of different counts differ. */
  lemma LabelInjective(t: string, k: nat, m: nat)
    requires 1 <= k < m
    ensures Label(t, k) != Label(t, m)
  {
    if k > 1 {
      var a := t + " " + NatToString(k);
      var b := t + " " + NatToString(m);
      if a == b {
        assert a[|t| + 1..] == NatToString(k);
        assert b[|t| + 1..] == NatToString(m);
        NatToStringInjective(k, m);
      }
    }
  }

  /** In a sequence without repeats, two entries with the same caption
      get different labels. */
  lemma DistinctLabelsAt(d: seq<string>, imgs: ImageMap, a: nat, b: nat)
    requires Known(imgs, d) && a < b < |d|
    requires forall x, y :: 0 <= x < y < |d| ==> d[x] != d[y]
    requires Truthy(imgs[d[a]].title) && imgs[d[a]].title == imgs[d[b]].title
    ensures LastLabel(d, imgs, d[a]).Some? && LastLabel(d, imgs, d[b]).Some?
    ensures LastLabel(d, imgs, d[a]) != LastLabel(d, imgs, d[b])
  {
    var t := imgs[d[a]].title.value;
    LastLabelAt(d, imgs, a);
    LastLabelAt(d, imgs, b);
    CaptionCountIncreases(d, imgs, t, a, b);
    var s := d[..a + 1];
    assert s[..|s| - 1] == d[..a] && s[|s| - 1] == d[a];
    LabelInjective(t, CaptionCount(s, imgs, t), CaptionCount(d[..b + 1], imgs, t));
  }

  /** Counted once per image, two different images with the same caption
      get different labels. */
  lemma FixedLabelsDistinct(topics: seq<Topic>, imgs: ImageMap, g: string, h: string)
    requires Known(imgs, Hrefs(Visits(topics, 0)))
    requires g != h && g in Hrefs(Visits(topics, 0)) && h in Hrefs(Visits(topics, 0))
    requires Truthy(imgs[g].title) && imgs[g].title == imgs[h].title
    ensures TitlesOfFixed(topics, imgs)[g].tempTitle != TitlesOfFixed(topics, imgs)[h].tempTitle
  {
    var hs := Hrefs(Visits(topics, 0));
    var d := Dedupe(hs);
    var r := TitlesOfFixed(topics, imgs);
    assert r[g].tempTitle == OrElse(LastLabel(d, imgs, g), imgs[g].tempTitle);
    assert r[h].tempTitle == OrElse(LastLabel(d, imgs, h), imgs[h].tempTitle);
    assert g in d && h in d;
    var a :| 0 <= a < |d| && d[a] == g;
    var b :| 0 <= b < |d| && d[b] == h;
    if a < b {
      DistinctLabelsAt(d, imgs, a, b);
    } else {
      DistinctLabelsAt(d, imgs, b, a);
    }
  }

  /** The shared image of `SharedImageCountedTwice` keeps its caption when
      each image is counted once. */
  lemma {:induction false} SharedImageCountedOnce(topics: seq<Topic>, imgs: ImageMap, h: string)
    requires |topics| == 2 && topics[0].images == [h] && topics[1].images == [h]
    requires h in imgs && Truthy(imgs[h].title)
    ensures Known(imgs, Hrefs(Visits(topics, 0)))
    ensures TitlesOfFixed(topics, imgs)[h].tempTitle == imgs[h].title
  {
    TwoVisits(topics, h);
    var t := imgs[h].title.value;
    var hs := Hrefs(Visits(topics, 0));
    var d := Dedupe(hs);
    var one := hs[..1];
    assert |one| == 1 && one[0] == h;
    assert |Dedupe(one[..0])| == 0;
    assert |Dedupe(one)| == 1 && Dedupe(one)[0] == h;
    assert hs[..|hs| - 1] == one;
    assert |d| == 1 && d[0] == h;
    assert d[..0] == [];
    assert CaptionCount(d, imgs, t) == 1;
  }

  // ---------------------------------------------------------------------
  // Rewriting the image references

  /** The `image` elements inside a `fig` whose href equals `from` get href
      `to`; `inFig` says whether `e` lies inside a `fig`. */
  function RetargetFig(e: Element, inFig: bool, from: string, to: string): Element
    decreases e
  {
    var cs := RetargetFigSeq(e.children, inFig || e.tag == "fig", from, to);
    if inFig && e.tag == "image" && Attr(e, "href") == Some(from) then e.(attrs := e.attrs["href" := to], children := cs)
    else e.(children := cs)
  }

  function RetargetFigSeq(cs: seq<Element>, inFig: bool, from: string, to: string): (r: seq<Element>)
    ensures |r| == |cs|
    decreases cs
  {
    if cs == [] then [] else [RetargetFig(cs[0], inFig, from, to)] + RetargetFigSeq(cs[1..], inFig, from, to)
  }

  /** For each `image` element in document order, whether it lies inside
      a `fig`. */
  function InFig(e: Element, inFig: bool): (r: seq<bool>)
    decreases e
  {
    (if e.tag == "image" then [inFig] else []) + InFigSeq(e.children, inFig || e.tag == "fig")
  }

  function InFigSeq(cs: seq<Element>, inFig: bool): seq<bool>
    decreases cs
  {
    if cs == [] then [] else InFig(cs[0], inFig) + InFigSeq(cs[1..], inFig)
  }

  /** `res` is `orig` with the href moved from `from` to `to` exactly at
      the positions `flags` marks. */
  predicate MovesWhere(orig: seq<Element>, res: seq<Element>, flags: seq<bool>, from: string, to: string) {
    |flags| == |orig| && |res| == |orig|
    && forall i :: 0 <= i < |orig| ==>
      Attr(res[i], "href") == (if flags[i] then Moved(Attr(orig[i], "href"), from, to) else Attr(orig[i], "href"))
  }

  lemma MovesWhereAppend(a: seq<Element>, ra: seq<Element>, fa: seq<bool>, b: seq<Element>, rb: seq<Element>, fb: seq<bool>, from: string, to: string)
    requires MovesWhere(a, ra, fa, from, to) && MovesWhere(b, rb, fb, from, to)
    ensures MovesWhere(a + b, ra + rb, fa + fb, from, to)
  {
    forall i | |a| <= i < |a| + |b|
      ensures (a + b)[i] == b[i - |a|] && (ra + rb)[i] == rb[i - |a|] && (fa + fb)[i] == fb[i - |a|]
    {
    }
  }

  /** The rewrite moves the href of exactly the `image` elements inside a
      `fig` whose href is `from`. */
  lemma {:induction false} RetargetFigIter(e: Element, inFig: bool, from: string, to: string)
    ensures MovesWhere(Iter(e, "image"), Iter(RetargetFig(e, inFig, from, to), "image"), InFig(e, inFig), from, to)
    decreases e
  {
    var fig := inFig || e.tag == "fig";
    var r := RetargetFig(e, inFig, from, to);
    RetargetFigIterSeq(e.children, fig, from, to);
    assert r.tag == e.tag && r.children == RetargetFigSeq(e.children, fig, from, to);
    var h: seq<Element> := if e.tag == "image" then [e] else [];
    var hr: seq<Element> := if e.tag == "image" then [r] else [];
    var hf: seq<bool> := if e.tag == "image" then [inFig] else [];
    assert MovesWhere(h, hr, hf, from, to);
    MovesWhereAppend(h, hr, hf, IterSeq(e.children, "image"), IterSeq(r.children, "image"), InFigSeq(e.children, fig), from, to);
  }

  lemma {:induction false} RetargetFigIterSeq(cs: seq<Element>, inFig: bool, from: string, to: string)
    ensures MovesWhere(IterSeq(cs, "image"), IterSeq(RetargetFigSeq(cs, inFig, from, to), "image"), InFigSeq(cs, inFig), from, to)
    decreases cs
  {
    if cs != [] {
      var rs := RetargetFigSeq(cs, inFig, from, to);
      RetargetFigIter(cs[0], inFig, from, to);
      RetargetFigIterSeq(cs[1..], inFig, from, to);
      assert rs[1..] == RetargetFigSeq(cs[1..], inFig, from, to);
      assert rs[0] == RetargetFig(cs[0], inFig, from, to);
      MovesWhereAppend(Iter(cs[0], "image"), Iter(rs[0], "image"), InFig(cs[0], inFig),
        IterSeq(cs[1..], "image"), IterSeq(rs[1..], "image"), InFigSeq(cs[1..], inFig), from, to);
    }
  }

  /** The rewrite changes nothing but `image` hrefs. */
  lemma {:induction false} RetargetFigFrame(e: Element, inFig: bool, from: string, to: string)
    ensures WithoutAttr(RetargetFig(e, inFig, from, to), "image", "href") == WithoutAttr(e, "image", "href")
    decreases e
  {
    RetargetFigFrameSeq(e.children, inFig || e.tag == "fig", from, to);
    if inFig && e.tag == "image" && Attr(e, "href") == Some(from) {
      assert e.attrs["href" := to] - {"href"} == e.attrs - {"href"};
    }
  }

  lemma {:induction false} RetargetFigFrameSeq(cs: seq<Element>, inFig: bool, from: string, to: string)
    ensures WithoutAttrSeq(RetargetFigSeq(cs, inFig, from, to), "image", "href") == WithoutAttrSeq(cs, "image", "href")
    decreases cs
  {
    if cs != [] {
      RetargetFigFrame(cs[0], inFig, from, to);
      RetargetFigFrameSeq(cs[1..], inFig, from, to);
      assert RetargetFigSeq(cs, inFig, from, to)[1..] == RetargetFigSeq(cs[1..], inFig, from, to);
    }
  }

  /** Rewriting twice is rewriting once, so a topic listed twice among an
      image's users ends as if listed once. */
  lemma {:induction false} RetargetFigIdempotent(e: Element, inFig: bool, from: string, to: string)
    ensures RetargetFig(RetargetFig(e, inFig, from, to), inFig, from, to) == RetargetFig(e, inFig, from, to)
    decreases e
  {
    RetargetFigIdempotentSeq(e.children, inFig || e.tag == "fig", from, to);
    if inFig && e.tag == "image" && Attr(e, "href") == Some(from) {
      assert e.attrs["href" := to]["href" := to] == e.attrs["href" := to];
    }
  }

  lemma {:induction false} RetargetFigIdempotentSeq(cs: seq<Element>, inFig: bool, from: string, to: string)
    ensures RetargetFigSeq(RetargetFigSeq(cs, inFig, from, to), inFig, from, to) == RetargetFigSeq(cs, inFig, from, to)
    decreases cs
  {
    if cs != [] {
      RetargetFigIdempotent(cs[0], inFig, from, to);
      RetargetFigIdempotentSeq(cs[1..], inFig, from, to);
      var r := RetargetFigSeq(cs, inFig, from, to);
      assert r[1..] == RetargetFigSeq(cs[1..], inFig, from, to);
      assert r == [r[0]] + r[1..];
    }
  }

  /** The topics that visit image `h`, in visit order. */
  function Users(vs: seq<Visit>, h: string): (r: seq<nat>)
    ensures forall j :: 0 <= j < |r| ==> Visit(r[j], h) in vs
    ensures forall v :: v in vs && v.href == h ==> v.topic in r
  {
    if vs == [] then []
    else (if vs[0].href == h then [vs[0].topic] else []) + Users(vs[1..], h)
  }

  function RetargetTopic(t: Topic, from: string, to: string): Topic {
    t.(content := t.content.(root := RetargetFig(t.content.root, false, from, to)))
  }

  lemma RetargetTopicIdempotent(t: Topic, from: string, to: string)
    ensures RetargetTopic(RetargetTopic(t, from, to), from, to) == RetargetTopic(t, from, to)
  {
    RetargetFigIdempotent(t.content.root, false, from, to);
  }

  /** Rewrite and write each using topic in turn. */
  function RetargetUsers(w: World, topics: seq<Topic>, us: seq<nat>, from: string, to: string): (r: (World, seq<Topic>))
    requires forall j :: 0 <= j < |us| ==> us[j] < |topics|
    ensures |r.1| == |topics|
    ensures forall i :: 0 <= i < |topics| ==> r.1[i] == (if i in us then RetargetTopic(topics[i], from, to) else topics[i])
    ensures r.0.ditamap == w.ditamap && r.0.mapName == w.mapName
    ensures forall k :: (forall j :: 0 <= j < |us| ==> topics[us[j]].name != k) ==>
      (k in r.0.folder <==> k in w.folder) && (k in r.0.folder ==> r.0.folder[k] == w.folder[k])
    decreases |us|
  {
    if us == [] then (w, topics)
    else
      var i := us[0];
      var t := RetargetTopic(topics[i], from, to);
      var r := RetargetUsers(WriteTopic(w, t), topics[i := t], us[1..], from, to);
      UsersStep(topics, us, from, to, r.1);
      UsersFolderStep(w, topics, us, from, to, r.0);
      r
  }

  /** One user of `RetargetUsers` done: the files the rest of the pass
      leaves. */
  lemma UsersFolderStep(w: World, topics: seq<Topic>, us: seq<nat>, from: string, to: string, w2: World)
    requires us != [] && forall j :: 0 <= j < |us| ==> us[j] < |topics|
    requires var t := RetargetTopic(topics[us[0]], from, to);
      var t1 := topics[us[0] := t];
      var w1 := WriteTopic(w, t);
      forall k :: (forall j :: 0 <= j < |us[1..]| ==> t1[us[1..][j]].name != k) ==>
        (k in w2.folder <==> k in w1.folder) && (k in w2.folder ==> w2.folder[k] == w1.folder[k])
    ensures forall k :: (forall j :: 0 <= j < |us| ==> topics[us[j]].name != k) ==>
      (k in w2.folder <==> k in w.folder) && (k in w2.folder ==> w2.folder[k] == w.folder[k])
  {
    var t := RetargetTopic(topics[us[0]], from, to);
    var t1 := topics[us[0] := t];
    forall k | forall j :: 0 <= j < |us| ==> topics[us[j]].name != k
      ensures (k in w2.folder <==> k in w.folder) && (k in w2.folder ==> w2.folder[k] == w.folder[k])
    {
      forall j | 0 <= j < |us[1..]| ensures t1[us[1..][j]].name != k {
        assert us[1..][j] == us[j + 1];
      }
      assert topics[us[0]].name != k;
    }
  }

  /** One user of `RetargetUsers` done: the topics the rest of the pass
      leaves. */
  lemma UsersStep(topics: seq<Topic>, us: seq<nat>, from: string, to: string, rest: seq<Topic>)
    requires us != [] && forall j :: 0 <= j < |us| ==> us[j] < |topics|
    requires var t1 := topics[us[0] := RetargetTopic(topics[us[0]], from, to)];
      |rest| == |topics| && forall i :: 0 <= i < |topics| ==> rest[i] == (if i in us[1..] then RetargetTopic(t1[i], from, to) else t1[i])
    ensures forall i :: 0 <= i < |topics| ==> rest[i] == (if i in us then RetargetTopic(topics[i], from, to) else topics[i])
  {
    RetargetTopicIdempotent(topics[us[0]], from, to);
    assert forall i :: i in us <==> i == us[0] || i in us[1..];
    assert forall j :: 0 <= j < |us[1..]| ==> us[1..][j] == us[j + 1];
  }

  /** One image of the second pass: the file is renamed (refused when the
      source is missing or the destination exists), and the references in
      every using topic are rewritten either way. */
  function RenameImage<T>(w: World, topics: seq<Topic>, files: map<string, T>, us: seq<nat>, h: string, newName: string): (r: (World, seq<Topic>, map<string, T>))
    requires forall j :: 0 <= j < |us| ==> us[j] < |topics|
    ensures r.2 == FileRename(files, h, newName)
    ensures |r.1| == |topics|
    ensures forall i :: 0 <= i < |topics| ==> r.1[i] == (if i in us then RetargetTopic(topics[i], h, newName) else topics[i])
    ensures r.0.ditamap == w.ditamap && r.0.mapName == w.mapName
  {
    var q := RetargetUsers(w, topics, us, h, newName);
    (q.0, q.1, FileRename(files, h, newName))
  }

  /** A rename that the folder refuses still rewrites the references: the
      topics then point at the file that already had the new name. */
  lemma RefusedRenameStillRetargets<T>(w: World, topics: seq<Topic>, files: map<string, T>, us: seq<nat>, h: string, newName: string, i: nat)
    requires forall j :: 0 <= j < |us| ==> us[j] < |topics|
    requires newName in files && h != newName
    requires i in us && i < |topics|
    ensures var r := RenameImage(w, topics, files, us, h, newName);
      r.2 == files && r.1[i] == RetargetTopic(topics[i], h, newName)
  {
  }

  /** The second pass over the images in order of first visit. */
  function RenameLoop<T>(w: World, topics: seq<Topic>, files: map<string, T>, imgs: ImageMap, vs: seq<Visit>, order: seq<string>, prefix: string): (r: (World, seq<Topic>, map<string, T>))
    requires forall j :: 0 <= j < |vs| ==> vs[j].topic < |topics|
    requires forall j :: 0 <= j < |order| ==> order[j] in imgs
    ensures |r.1| == |topics|
    ensures r.0.ditamap == w.ditamap && r.0.mapName == w.mapName
    decreases |order|
  {
    if order == [] then (w, topics, files)
    else
      var h := order[0];
      var us := Users(vs, h);
      assert forall j :: 0 <= j < |us| ==> us[j] < |topics|;
      var q := RenameImage(w, topics, files, us, h, ImageName(imgs[h], prefix));
      RenameLoop(q.0, q.1, q.2, imgs, vs, order[1..], prefix)
  }

  /** A file that is neither an image of `order` nor any image's new name
      is left alone. */
  lemma {:induction false} RenameLoopKeepsFiles<T>(w: World, topics: seq<Topic>, files: map<string, T>, imgs: ImageMap, vs: seq<Visit>, order: seq<string>, prefix: string)
    requires forall j :: 0 <= j < |vs| ==> vs[j].topic < |topics|
    requires forall j :: 0 <= j < |order| ==> order[j] in imgs
    ensures var r := RenameLoop(w, topics, files, imgs, vs, order, prefix);
      forall k :: k in files && k !in order && (forall j :: 0 <= j < |order| ==> k != ImageName(imgs[order[j]], prefix)) ==>
        k in r.2 && r.2[k] == files[k]
    decreases |order|
  {
    if order != [] {
      var q := RenameLoopUnfold(w, topics, files, imgs, vs, order, prefix);
      RenameLoopKeepsFiles(q.0, q.1, q.2, imgs, vs, order[1..], prefix);
      forall k | k in files && k !in order && (forall j :: 0 <= j < |order| ==> k != ImageName(imgs[order[j]], prefix))
        ensures k in q.2 && k !in order[1..] && q.2[k] == files[k]
        ensures forall j :: 0 <= j < |order[1..]| ==> k != ImageName(imgs[order[1..][j]], prefix)
      {
        OrderStep(files, imgs, order, prefix, k);
      }
    }
  }

  /** One turn of the renaming loop: the first image is renamed and the
      loop goes on with the rest of the order. */
  lemma RenameLoopUnfold<T>(w: World, topics: seq<Topic>, files: map<string, T>, imgs: ImageMap, vs: seq<Visit>, order: seq<string>, prefix: string)
    returns (q: (World, seq<Topic>, map<string, T>))
    requires forall j :: 0 <= j < |vs| ==> vs[j].topic < |topics|
    requires forall j :: 0 <= j < |order| ==> order[j] in imgs
    requires order != []
    ensures q.2 == FileRename(files, order[0], ImageName(imgs[order[0]], prefix))
    ensures |q.1| == |topics|
    ensures forall j :: 0 <= j < |order[1..]| ==> order[1..][j] in imgs
    ensures RenameLoop(w, topics, files, imgs, vs, order, prefix) == RenameLoop(q.0, q.1, q.2, imgs, vs, order[1..], prefix)
  {
    var h := order[0];
    var us := Users(vs, h);
    assert forall j :: 0 <= j < |us| ==> us[j] < |topics|;
    q := RenameImage(w, topics, files, us, h, ImageName(imgs[h], prefix));
  }

  /** A topic no visit names is left alone. */
  lemma {:induction false} RenameLoopKeepsTopics<T>(w: World, topics: seq<Topic>, files: map<string, T>, imgs: ImageMap, vs: seq<Visit>, order: seq<string>, prefix: string)
    requires forall j :: 0 <= j < |vs| ==> vs[j].topic < |topics|
    requires forall j :: 0 <= j < |order| ==> order[j] in imgs
    ensures var r := RenameLoop(w, topics, files, imgs, vs, order, prefix);
      forall i :: 0 <= i < |topics| && (forall v :: v in vs ==> v.topic != i) ==> r.1[i] == topics[i]
    decreases |order|
  {
    if order != [] {
      var h := order[0];
      var us := Users(vs, h);
      assert forall j :: 0 <= j < |us| ==> us[j] < |topics|;
      var q := RenameImage(w, topics, files, us, h, ImageName(imgs[h], prefix));
      UsersVisit(vs, h, ImageName(imgs[h], prefix), topics, q.1);
      RenameLoopKeepsTopics(q.0, q.1, q.2, imgs, vs, order[1..], prefix);
    }
  }

  /** A file that no image of `order` names, and that no new name hits, is
      left by the first rename and still qualifies for the rest. */
  lemma OrderStep<T>(files: map<string, T>, imgs: ImageMap, order: seq<string>, prefix: string, k: string)
    requires order != [] && forall j :: 0 <= j < |order| ==> order[j] in imgs
    requires k in files && k !in order && forall j :: 0 <= j < |order| ==> k != ImageName(imgs[order[j]], prefix)
    ensures var f1 := FileRename(files, order[0], ImageName(imgs[order[0]], prefix));
      k in f1 && f1[k] == files[k] && k !in order[1..]
    ensures forall j :: 0 <= j < |order[1..]| ==> k != ImageName(imgs[order[1..][j]], prefix)
  {
    assert forall j :: 0 <= j < |order[1..]| ==> order[1..][j] == order[j + 1];
  }

  /** Only the topics that visit `h` are rewritten for it. */
  lemma UsersVisit(vs: seq<Visit>, h: string, newName: string, topics: seq<Topic>, ts: seq<Topic>)
    requires |ts| == |topics|
    requires forall i :: 0 <= i < |topics| ==> ts[i] == (if i in Users(vs, h) then RetargetTopic(topics[i], h, newName) else topics[i])
    ensures forall i :: 0 <= i < |topics| && (forall v :: v in vs ==> v.topic != i) ==> ts[i] == topics[i]
  {
    var us := Users(vs, h);
    forall i | 0 <= i < |topics| && (forall v :: v in vs ==> v.topic != i)
      ensures i !in us
    {
      forall j | 0 <= j < |us|
        ensures us[j] != i
      {
        assert Visit(us[j], h) in vs;
      }
    }
  }

  /** `LocalMap.edit_image_names(prefix)` as written: captions are counted
      per visit, then each image, in order of first visit, is renamed. */
  function EditImageNames<T>(w: World, topics: seq<Topic>, imgs: ImageMap, files: map<string, T>, prefix: string): (r: (World, seq<Topic>, ImageMap, map<string, T>))
    requires Known(imgs, Hrefs(Visits(topics, 0)))
    ensures r.2 == TitlesOf(topics, imgs) && |r.1| == |topics|
    ensures r.0.ditamap == w.ditamap && r.0.mapName == w.mapName
    ensures forall k :: (k in files && k !in Hrefs(Visits(topics, 0))
                         && (forall h :: h in imgs ==> k != ImageName(r.2[h], prefix)))
                        ==> k in r.3 && r.3[k] == files[k]
    ensures forall i :: 0 <= i < |topics| && topics[i].images == [] ==> r.1[i] == topics[i]
  {
    var vs := Visits(topics, 0);
    var imgs1 := TitlesOf(topics, imgs);
    var order := Dedupe(Hrefs(vs));
    KnownDedupe(imgs, Hrefs(vs));
    EditFrames(w, topics, files, imgs, imgs1, prefix);
    var q := RenameLoop(w, topics, files, imgs1, vs, order, prefix);
    (q.0, q.1, imgs1, q.2)
  }

  /** The renaming pass of `edit_image_names`, whatever the labels: a
      file that is no image and no image's new name is kept, and a topic
      without images is not touched. */
  lemma EditFrames<T>(w: World, topics: seq<Topic>, files: map<string, T>, imgs: ImageMap, imgs1: ImageMap, prefix: string)
    requires Known(imgs, Dedupe(Hrefs(Visits(topics, 0)))) && imgs1.Keys == imgs.Keys
    ensures var vs := Visits(topics, 0);
      var r := RenameLoop(w, topics, files, imgs1, vs, Dedupe(Hrefs(vs)), prefix);
      (forall k :: (k in files && k !in Hrefs(vs) && (forall h :: h in imgs ==> k != ImageName(imgs1[h], prefix)))
                   ==> k in r.2 && r.2[k] == files[k])
      && (forall i :: 0 <= i < |topics| && topics[i].images == [] ==> r.1[i] == topics[i])
  {
    var vs := Visits(topics, 0);
    var order := Dedupe(Hrefs(vs));
    NoVisitsWithoutImages(topics, 0);
    RenameLoopKeepsFiles(w, topics, files, imgs1, vs, order, prefix);
    RenameLoopKeepsTopics(w, topics, files, imgs1, vs, order, prefix);
  }

  /** `edit_image_names` as evidently intended: as written, but each image
      is counted once. */
  function EditImageNamesFixed<T>(w: World, topics: seq<Topic>, imgs: ImageMap, files: map<string, T>, prefix: string): (r: (World, seq<Topic>, ImageMap, map<string, T>))
    requires Known(imgs, Hrefs(Visits(topics, 0)))
    ensures r.2 == TitlesOfFixed(topics, imgs) && |r.1| == |topics|
    ensures r.0.ditamap == w.ditamap && r.0.mapName == w.mapName
    ensures forall k :: (k in files && k !in Hrefs(Visits(topics, 0))
                         && (forall h :: h in imgs ==> k != ImageName(r.2[h], prefix)))
                        ==> k in r.3 && r.3[k] == files[k]
    ensures forall i :: 0 <= i < |topics| && topics[i].images == [] ==> r.1[i] == topics[i]
  {
    var vs := Visits(topics, 0);
    var imgs1 := TitlesOfFixed(topics, imgs);
    var order := Dedupe(Hrefs(vs));
    KnownDedupe(imgs, Hrefs(vs));
    EditFrames(w, topics, files, imgs, imgs1, prefix);
    var q := RenameLoop(w, topics, files, imgs1, vs, order, prefix);
    (q.0, q.1, imgs1, q.2)
  }

  /** A topic without images is never visited. */
  lemma {:induction false} NoVisitsWithoutImages(topics: seq<Topic>, i: nat)
    requires i <= |topics|
    ensures forall v :: v in Visits(topics, i) ==> topics[v.topic].images != []
  {
    var vs := Visits(topics, i);
    forall v | v in vs ensures topics[v.topic].images != [] {
      var j :| 0 <= j < |vs| && vs[j] == v;
      assert v.href in topics[v.topic].images;
    }
  }
}
