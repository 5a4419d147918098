/** Renaming with the first script (rename_step1.py).

    The script predates the local module: a topic reads its title, short
    description and local links straight from the parsed tree, a rename
    rewrites links with a plain substring test (no chaining, no title
    access), the sidecar keeps its document as it was, and image files are
    renamed without any check for an existing destination.  Pairs are those
    of the Cheetah script: a topic and its sidecar.
 */
module Step1 {
  import opened Wrappers
  import opened PyStr
  import opened XmlTree
  import opened TypeTable
  import opened Content
  import opened Naming
  import opened Project
  import opened LegacyContent
  import opened LegacyLocal
  import opened Cheetah
  import opened Images
  import opened Step1Files

  // ---------------------------------------------------------------------
  // Missing title and short description

  /** `title_missing()`: reading the title's text raises when the topic has
      no title element. */
  function Step1TitleMissing(c: Content): (r: Result<bool>)
    ensures r.Failure? <==> TitleTag(c).None?
    ensures r.Failure? ==> r.error == AttributeError
    ensures r.Success? ==> (r.value <==> TitleMissing(c))
  {
    match TitleTag(c)
    case None => Failure(AttributeError)
    case Some(t) => Success(t.text.None? || Contains(t.text.value, "MISSING TITLE"))
  }

  /** `shortdesc_missing()` on the tree: no element, no text, empty text,
      or the placeholder. */
  function Step1ShortdescMissing(c: Content): (r: bool)
    ensures r <==> LegacyShortdescMissing(c) || (ShortdescTag(c).Some? && ShortdescTag(c).value.text == Some(""))
    ensures !r ==> !ShortdescMissing(c)
  {
    match ShortdescTag(c)
    case None => true
    case Some(s) => s.text.None? || s.text.value == "" || Contains(s.text.value, "SHORT DESCRIPTION")
  }

  /** `shortdesc_missing()` with its side effect on the file: when there is
      no element, the placeholder line is inserted into the file's lines
      (None when that loop does not finish within `fuel` steps). */
  function ShortdescCheck(c: Content, lines: seq<string>, fuel: nat): (r: (bool, Option<seq<string>>))
    ensures r.0 <==> Step1ShortdescMissing(c)
    ensures ShortdescTag(c).Some? ==> r.1 == Some(lines)
    ensures ShortdescTag(c).None? && DistinctMarked(lines, IsTitleLine) && fuel >= |InsertAfterTitles(lines)| ==>
      r.1 == Some(InsertAfterTitles(lines))
  {
    if ShortdescTag(c).None? then
      InsertionWhenDistinct(lines, fuel);
      (true, InsertShortdescTag(lines, fuel))
    else (Step1ShortdescMissing(c), Some(lines))
  }

  lemma InsertionWhenDistinct(lines: seq<string>, fuel: nat)
    ensures DistinctMarked(lines, IsTitleLine) && fuel >= |InsertAfterTitles(lines)| ==>
      InsertShortdescTag(lines, fuel) == Some(InsertAfterTitles(lines))
  {
    if DistinctMarked(lines, IsTitleLine) && fuel >= |InsertAfterTitles(lines)| {
      InsertShortdescTagAgrees(lines, fuel);
    }
  }

  /** `set_shortdesc(s)`: writes through the short description found at
      load time; AttributeError when there was none. */
  function Step1SetShortdesc(c: Content, s: string): (r: Res<Content>)
    ensures r.Raised? <==> ShortdescTag(c).None?
    ensures r.Raised? ==> r == Raised(c, AttributeError)
    ensures r.Ok? ==> ShortdescTag(r.value).Some? && ShortdescTag(r.value).value.text == Some(s)
    ensures r.Ok? ==> (Step1ShortdescMissing(r.value) <==> s == "" || Contains(s, "SHORT DESCRIPTION"))
    ensures r.Ok? ==> r.value.titleRef == c.titleRef && r.value.links == c.links
  {
    if ShortdescTag(c).None? then Raised(c, AttributeError)
    else
      NodeSetText(c, c.shortdescRef.value, Some(s), c.shortdescRef.value);
      Ok(SetNodeText(c, c.shortdescRef.value, Some(s)))
  }

  // ---------------------------------------------------------------------
  // Links to a renamed topic

  /** The link loop of `update_old_links_to_self` in one topic: a link
      whose href contains `pat` gets `pat` replaced by `rep`; a link without
      href raises TypeError at the `in` test. */
  function Step1LinksLoop(c: Content, ls: seq<nat>, pat: string, rep: string): (r: Res<Content>)
    ensures r.State().links == c.links && r.State().titleRef == c.titleRef
    ensures r.Raised? ==> r.error == TypeError
    decreases |ls|
  {
    if ls == [] then Ok(c)
    else
      var href := NodeHref(c, ls[0]);
      if href.None? then Raised(c, TypeError)
      else if Contains(href.value, pat) then
        Step1LinksLoop(SetNodeAttr(c, ls[0], "href", Replace(href.value, pat, rep)), ls[1..], pat, rep)
      else Step1LinksLoop(c, ls[1..], pat, rep)
  }

  /** For a topic whose title has text, the loop is the later
      `update_local_links` loop without chaining: that one differs only in
      reading the title on a match. */
  lemma {:induction false} Step1LinksLoopAgrees(c: Content, ls: seq<nat>, pat: string, rep: string)
    requires TitleTag(c).Some? && TitleTag(c).value.text.Some?
    ensures Step1LinksLoop(c, ls, pat, rep) == LinksLoop(c, ls, pat, rep, false)
    decreases |ls|
  {
    if ls != [] {
      var href := NodeHref(c, ls[0]);
      if href.Some? {
        if Contains(href.value, pat) {
          var c1 := SetNodeAttr(c, ls[0], "href", Replace(href.value, pat, rep));
          NodeSetAttr(c, ls[0], "href", Replace(href.value, pat, rep), c.titleRef.value);
          Step1LinksLoopAgrees(c1, ls[1..], pat, rep);
        } else {
          Step1LinksLoopAgrees(c, ls[1..], pat, rep);
        }
      }
    }
  }

  /** The loop changes neither the root tag nor the title. */
  lemma {:induction false} Step1LinksKeepHead(c: Content, ls: seq<nat>, pat: string, rep: string)
    ensures SameHead(Step1LinksLoop(c, ls, pat, rep).State(), c)
    decreases |ls|
  {
    if ls != [] {
      var href := NodeHref(c, ls[0]);
      if href.Some? {
        if Contains(href.value, pat) {
          var c1 := SetNodeAttr(c, ls[0], "href", Replace(href.value, pat, rep));
          if c.titleRef.Some? {
            NodeSetAttr(c, ls[0], "href", Replace(href.value, pat, rep), c.titleRef.value);
          }
          assert SameHead(c1, c);
          Step1LinksKeepHead(c1, ls[1..], pat, rep);
        } else {
          Step1LinksKeepHead(c, ls[1..], pat, rep);
        }
      }
    }
  }

  /** A topic needs writing in the link pass only if it has local links. */
  predicate Written(p: Pair) {
    p.dita.content.links != []
  }

  /** `update_old_links_to_self(old)` from pair `j` on: each topic with
      local links has them rewritten and is written; a topic without local
      links is skipped and not written. */
  function Step1LinksAll(w: World, ps: seq<Pair>, j: nat, oldName: string, newName: string): (r: Res<(World, seq<Pair>)>)
    requires j <= |ps|
    ensures |r.State().1| == |ps|
    ensures r.State().0.ditamap == w.ditamap && r.State().0.mapName == w.mapName
    ensures forall k :: 0 <= k < j ==> r.State().1[k] == ps[k]
    decreases |ps| - j
  {
    if j == |ps| then Ok((w, ps))
    else
      var t := ps[j].dita;
      if !Written(ps[j]) then Step1LinksAll(w, ps, j + 1, oldName, newName)
      else match Step1LinksLoop(t.content, t.content.links, oldName, newName)
        case Raised(c, e) => Raised((w, ps[j := ps[j].(dita := t.(content := c))]), e)
        case Ok(c) =>
          var t1 := t.(content := c);
          Step1LinksAll(WriteTopic(w, t1), ps[j := ps[j].(dita := t1)], j + 1, oldName, newName)
  }

  /** Only topic contents change, and never a topic's root tag or title. */
  lemma {:induction false} Step1LinksAllKeepsHeads(w: World, ps: seq<Pair>, j: nat, oldName: string, newName: string)
    requires j <= |ps|
    ensures forall k :: 0 <= k < |ps| ==>
      SameHead(Step1LinksAll(w, ps, j, oldName, newName).State().1[k].dita.content, ps[k].dita.content)
      && Step1LinksAll(w, ps, j, oldName, newName).State().1[k] ==
         ps[k].(dita := ps[k].dita.(content := Step1LinksAll(w, ps, j, oldName, newName).State().1[k].dita.content))
    decreases |ps| - j
  {
    if j < |ps| {
      var t := ps[j].dita;
      if !Written(ps[j]) {
        Step1LinksAllKeepsHeads(w, ps, j + 1, oldName, newName);
      } else {
        Step1LinksKeepHead(t.content, t.content.links, oldName, newName);
        var r := Step1LinksLoop(t.content, t.content.links, oldName, newName);
        if r.Ok? {
          var t1 := t.(content := r.value);
          Step1LinksAllKeepsHeads(WriteTopic(w, t1), ps[j := ps[j].(dita := t1)], j + 1, oldName, newName);
        }
      }
    }
  }

  /** When the pass completes, every topic from `j` on holds what the link
      loop made of it: unchanged without local links, rewritten with. */
  lemma {:induction false} Step1LinksAllRewrites(w: World, ps: seq<Pair>, j: nat, oldName: string, newName: string)
    requires j <= |ps|
    ensures Step1LinksAll(w, ps, j, oldName, newName).Ok? ==> forall k :: j <= k < |ps| ==>
      var c := Step1LinksAll(w, ps, j, oldName, newName).value.1[k].dita.content;
      (!Written(ps[k]) ==> c == ps[k].dita.content)
      && (Written(ps[k]) ==> Step1LinksLoop(ps[k].dita.content, ps[k].dita.content.links, oldName, newName) == Ok(c))
    decreases |ps| - j
  {
    if j < |ps| {
      var t := ps[j].dita;
      if !Written(ps[j]) {
        Step1LinksAllRewrites(w, ps, j + 1, oldName, newName);
      } else {
        var r := Step1LinksLoop(t.content, t.content.links, oldName, newName);
        if r.Ok? {
          var t1 := t.(content := r.value);
          var ps1 := ps[j := ps[j].(dita := t1)];
          Step1LinksAllRewrites(WriteTopic(w, t1), ps1, j + 1, oldName, newName);
        }
      }
    }
  }

  /** No pair from `j` on that gets written has the name `k`. */
  predicate NotWrittenLater(ps: seq<Pair>, j: nat, k: string) {
    forall m :: j <= m < |ps| && Written(ps[m]) ==> ps[m].dita.name != k
  }

  /** The pass writes no file but those of topics with local links. */
  lemma {:induction false} Step1LinksAllFrame(w: World, ps: seq<Pair>, j: nat, oldName: string, newName: string)
    requires j <= |ps|
    ensures forall key :: NotWrittenLater(ps, j, key) ==>
      var f := Step1LinksAll(w, ps, j, oldName, newName).State().0.folder;
      (key in f <==> key in w.folder) && (key in w.folder ==> f[key] == w.folder[key])
    decreases |ps| - j
  {
    if j < |ps| {
      var t := ps[j].dita;
      if !Written(ps[j]) {
        Step1LinksAllFrame(w, ps, j + 1, oldName, newName);
      } else {
        var r := Step1LinksLoop(t.content, t.content.links, oldName, newName);
        if r.Ok? {
          var t1 := t.(content := r.value);
          var ps1 := ps[j := ps[j].(dita := t1)];
          Step1LinksAllFrame(WriteTopic(w, t1), ps1, j + 1, oldName, newName);
          assert forall key :: NotWrittenLater(ps, j, key) ==> NotWrittenLater(ps1, j + 1, key);
        }
      }
    }
  }

  // ---------------------------------------------------------------------
  // The sidecar

  /** The sidecar step of `update_name`: the document is written under the
      new name and the old file deleted.  FTITLE is set on the object only,
      so the document keeps its old FTITLE. */
  function Step1IshMove(w: World, ish: Ish, newName: string): (r: (World, Ish))
    ensures r.1 == Ish(newName + ish.ext, ish.ext, ish.content)
    ensures r.0.ditamap == w.ditamap && r.0.mapName == w.mapName
    ensures ish.name != r.1.name ==> r.1.name in r.0.folder && r.0.folder[r.1.name] == ish.content && ish.name !in r.0.folder
    ensures ish.name == r.1.name ==> ish.name !in r.0.folder
    ensures forall k :: k != ish.name && k != r.1.name ==>
      (k in r.0.folder <==> k in w.folder) && (k in r.0.folder ==> r.0.folder[k] == w.folder[k])
  {
    var name := newName + ish.ext;
    var f := w.folder[name := ish.content];
    (w.(folder := if ish.name in f then f - {ish.name} else f), Ish(name, ish.ext, ish.content))
  }

  /** The Cheetah script's sidecar step moves the same files and differs
      only in the FTITLE field of the written document. */
  lemma Step1IshMoveVsCheetah(w: World, ish: Ish, newName: string)
    ensures var a := Step1IshMove(w, ish, newName);
      var b := IshRenameInPair(w, ish, ish.name, newName);
      b.1 == a.1.(content := LegacyFSet(ish.content, "FTITLE", Some(newName)))
      && a.0.folder.Keys == b.0.folder.Keys
      && forall k :: k in a.0.folder && k != a.1.name ==> a.0.folder[k] == b.0.folder[k]
  {
  }

  /** As written, the renamed sidecar's FTITLE still reads as before. */
  lemma Step1IshKeepsTitle(w: World, ish: Ish, newName: string)
    ensures LegacyFGet(Step1IshMove(w, ish, newName).1.content, "FTITLE") == LegacyFGet(ish.content, "FTITLE")
  {
  }

  // ---------------------------------------------------------------------
  // update_name

  const LegalTitle: string := "Legal information"
  const LegalShortdesc: string := "\U{00C2}\U{00A9} Copyright 2017-2019 HP Development Company, L.P."

  /** The document of a legal-information topic with a missing title: title
      text `title`, then short description text `sd`, which raises when the
      topic has no short description. */
  function Step1LegalContent(c: Content, title: string, sd: string): (r: Res<Content>)
    requires TitleTag(c).Some?
    ensures TitleTag(r.State()).Some?
    ensures r.Raised? || c.shortdescRef != c.titleRef ==> TitleTag(r.State()).value.text == Some(title)
    ensures r.Raised? <==> ShortdescTag(c).None?
    ensures r.Raised? ==> r.error == AttributeError
    ensures r.Ok? ==> ShortdescTag(r.value).Some? && ShortdescTag(r.value).value.text == Some(sd)
    ensures r.State().titleRef == c.titleRef && r.State().links == c.links
  {
    NodeSetText(c, c.titleRef.value, Some(title), c.titleRef.value);
    var c1 := SetNodeText(c, c.titleRef.value, Some(title));
    assert ShortdescTag(c1).Some? == ShortdescTag(c).Some? by {
      if c.shortdescRef.Some? {
        NodeSetText(c, c.titleRef.value, Some(title), c.shortdescRef.value);
      }
    }
    if ShortdescTag(c1).None? then Raised(c1, AttributeError)
    else
      NodeSetText(c1, c1.shortdescRef.value, Some(sd), c1.shortdescRef.value);
      NodeSetText(c1, c1.shortdescRef.value, Some(sd), c1.titleRef.value);
      Ok(SetNodeText(c1, c1.shortdescRef.value, Some(sd)))
  }

  /** The fixed title and short description go through `set_title` and
      `set_shortdesc`. */
  lemma Step1LegalContentSets(c: Content, title: string, sd: string)
    requires TitleTag(c).Some?
    ensures SetTitle(c, title).Ok?
    ensures var r := Step1LegalContent(c, title, sd);
      r == (match Step1SetShortdesc(SetTitle(c, title).value, sd)
            case Ok(c2) => Ok(c2)
            case Raised(c2, e) => Raised(c2, e))
  {
  }

  /** `set_title` and `set_shortdesc` each write the topic; both writes go
      to the same file, so the document last set is what remains. */
  function Step1Legal(w: World, ps: seq<Pair>, i: nat): (r: Res<(World, seq<Pair>)>)
    requires i < |ps| && TitleTag(ps[i].dita.content).Some?
    ensures |r.State().1| == |ps|
    ensures forall j :: 0 <= j < |ps| && j != i ==> r.State().1[j] == ps[j]
    ensures r.State().1[i] == ps[i].(dita := ps[i].dita.(content := r.State().1[i].dita.content))
    ensures r.State().0 == WriteTopic(w, r.State().1[i].dita)
    ensures r.Raised? <==> ShortdescTag(ps[i].dita.content).None?
    ensures r.Raised? ==> r.error == AttributeError
    ensures TitleTag(r.State().1[i].dita.content).Some?
  {
    var t := ps[i].dita;
    var l := Step1LegalContent(t.content, LegalTitle, LegalShortdesc);
    var t1 := t.(content := l.State());
    var q := (WriteTopic(w, t1), ps[i := ps[i].(dita := t1)]);
    if l.Ok? then Ok(q) else Raised(q, l.error)
  }

  /** The rename proper once the new name is known: the topic file moves
      unless the destination exists, every pair's links to the old file
      name are rewritten to the new one, the sidecar moves and the map's
      topicrefs are retargeted. */
  function Step1PairMove(w: World, ps: seq<Pair>, i: nat, newName: string): (r: Res<(World, seq<Pair>)>)
    requires i < |ps|
    ensures |r.State().1| == |ps|
    ensures r.State().0.mapName == w.mapName
    ensures forall j :: 0 <= j < |ps| && j != i ==>
      SameHead(r.State().1[j].dita.content, ps[j].dita.content) && r.State().1[j].dita.kind == ps[j].dita.kind
  {
    var p := ps[i];
    var oldDita := p.dita.name;
    var q := LegacyRenameInPair(w, p.dita, oldDita, newName);
    var ps2 := ps[i := p.(dita := q.1)];
    Step1LinksAllKeepsHeads(q.0, ps2, 0, oldDita, q.1.name);
    match Step1LinksAll(q.0, ps2, 0, oldDita, q.1.name)
    case Raised(s, e) => Raised(s, e)
    case Ok((w3, ps3)) =>
      var (w4, ish2) := Step1IshMove(w3, ps3[i].ish, newName);
      Ok((UpdateTopicref(w4, oldDita, q.1.name), ps3[i := ps3[i].(ish := ish2)]))
  }

  /** What a completed move leaves behind: the topic under its new name,
      the sidecar renamed with its document unchanged, the map's topicrefs
      retargeted, and every pair's links rewritten by the loop. */
  lemma Step1PairMoveEffects(w: World, ps: seq<Pair>, i: nat, newName: string)
    requires i < |ps|
    requires Step1PairMove(w, ps, i, newName).Ok?
    ensures var r := Step1PairMove(w, ps, i, newName).value;
      var newDita := newName + ps[i].dita.ext;
      r.1[i].dita == ps[i].dita.(name := newDita, content := r.1[i].dita.content)
      && r.1[i].ish == Ish(newName + ps[i].ish.ext, ps[i].ish.ext, ps[i].ish.content)
      && r.0.ditamap == UpdateTopicref(w, ps[i].dita.name, newDita).ditamap
      && (forall k :: 0 <= k < |ps| && !Written(ps[k]) ==> r.1[k].dita.content == ps[k].dita.content)
      && (forall k :: 0 <= k < |ps| && Written(ps[k]) ==>
            Step1LinksLoop(ps[k].dita.content, ps[k].dita.content.links, ps[i].dita.name, newDita) == Ok(r.1[k].dita.content))
  {
    var p := ps[i];
    var q := LegacyRenameInPair(w, p.dita, p.dita.name, newName);
    var ps2 := ps[i := p.(dita := q.1)];
    Step1LinksAllKeepsHeads(q.0, ps2, 0, p.dita.name, q.1.name);
    Step1LinksAllRewrites(q.0, ps2, 0, p.dita.name, q.1.name);
    assert forall k :: 0 <= k < |ps| ==> ps2[k].dita.content == ps[k].dita.content;
  }

  /** A move whose destination exists leaves the other file in place when
      the renamed topic has no local links: nothing writes that name. */
  lemma Step1MoveKeepsExisting(w: World, ps: seq<Pair>, i: nat, newName: string)
    requires i < |ps|
    requires newName + ps[i].dita.ext in w.folder
    requires forall j :: 0 <= j < |ps| && Written(ps[j]) ==> ps[j].dita.name != newName + ps[i].dita.ext
    requires !Written(ps[i])
    requires ps[i].ish.name != newName + ps[i].dita.ext && newName + ps[i].ish.ext != newName + ps[i].dita.ext
    requires w.mapName != newName + ps[i].dita.ext
    ensures var f := Step1PairMove(w, ps, i, newName).State().0.folder;
      newName + ps[i].dita.ext in f && f[newName + ps[i].dita.ext] == w.folder[newName + ps[i].dita.ext]
  {
    var p := ps[i];
    var key := newName + p.dita.ext;
    var q := LegacyRenameInPair(w, p.dita, p.dita.name, newName);
    var ps2 := ps[i := p.(dita := q.1)];
    assert q.0 == w;
    assert NotWrittenLater(ps2, 0, key) by {
      assert forall m :: 0 <= m < |ps2| ==> ps2[m].dita.content == ps[m].dita.content;
    }
    Step1LinksAllFrame(q.0, ps2, 0, p.dita.name, q.1.name);
    Step1LinksAllKeepsHeads(q.0, ps2, 0, p.dita.name, q.1.name);
    var l := Step1LinksAll(q.0, ps2, 0, p.dita.name, q.1.name);
    assert key in l.State().0.folder && l.State().0.folder[key] == w.folder[key];
    if l.Ok? {
      var (w3, ps3) := l.value;
      assert ps3[i].ish == ps[i].ish;
      var (w4, ish2) := Step1IshMove(w3, ps3[i].ish, newName);
      assert key in w4.folder && w4.folder[key] == w.folder[key];
      var w5 := UpdateTopicref(w4, p.dita.name, q.1.name);
      assert Step1PairMove(w, ps, i, newName).State().0 == w5;
    }
  }

  /** `Pair.update_name()` on the i-th pair.  Reading the title raises
      when there is none; a missing title on a legal-information topic is
      synthesised, on any other topic the rename goes on regardless; a
      title without text fails in the name clean-up, a title too short to
      name raises; a name equal to the topic's base name stops; otherwise
      the pair is moved. */
  function Step1UpdateName(w: World, ps: seq<Pair>, i: nat): (r: Res<(World, seq<Pair>)>)
    requires i < |ps|
    ensures |r.State().1| == |ps|
    ensures r.State().0.mapName == w.mapName
    ensures forall j :: 0 <= j < |ps| && j != i ==>
      SameHead(r.State().1[j].dita.content, ps[j].dita.content) && r.State().1[j].dita.kind == ps[j].dita.kind
  {
    var t := ps[i].dita;
    match Step1Prelude(w, ps, i)
    case Raised(s, e) => Raised(s, e)
    case Ok((w1, ps1)) =>
      var title := TitleTag(ps1[i].dita.content);
      if title.None? then Raised((w1, ps1), AttributeError)
      else if title.value.text.None? then Raised((w1, ps1), TypeError)
      else match Step1NewName(title.value.text.value, t.content.outputclass)
        case Failure(e) => Raised((w1, ps1), e)
        case Success(newName) =>
          if SplitExt(t.name).0 == newName then Ok((w1, ps1))
          else Step1PairMove(w1, ps1, i, newName)
  }

  /** The first steps of `update_name`: reading the title raises when there
      is none, and a legal-information topic whose title is missing gets the
      fixed title and short description. Nothing but pair `i` changes. */
  function Step1Prelude(w: World, ps: seq<Pair>, i: nat): (r: Res<(World, seq<Pair>)>)
    requires i < |ps|
    ensures |r.State().1| == |ps| && r.State().0.mapName == w.mapName
    ensures forall j :: 0 <= j < |ps| && j != i ==> r.State().1[j] == ps[j]
    ensures r.State().1[i].dita.name == ps[i].dita.name
    ensures r.Raised? ==> r.error == AttributeError
    ensures TitleTag(ps[i].dita.content).None? ==> r == Raised((w, ps), AttributeError)
    ensures TitleTag(ps[i].dita.content).Some? ==> TitleTag(r.State().1[i].dita.content).Some?
    ensures r.Ok? && !TitleMissing(ps[i].dita.content) ==> r.value == (w, ps)
  {
    var t := ps[i].dita;
    match Step1TitleMissing(t.content)
    case Failure(e) => Raised((w, ps), e)
    case Success(missing) =>
      if missing && t.content.outputclass == Some("legalinformation") then
        Step1Legal(w, ps, i)
      else Ok((w, ps))
  }

  /** The order of the steps for a topic whose title is present: the name
      comes from the title text, a name that cannot be formed raises before
      any file moves, and a name already in place changes nothing. */
  lemma Step1UpdateNameSteps(w: World, ps: seq<Pair>, i: nat)
    requires i < |ps|
    ensures TitleTag(ps[i].dita.content).None? ==> Step1UpdateName(w, ps, i) == Raised((w, ps), AttributeError)
    ensures TitleTag(ps[i].dita.content).Some? && !TitleMissing(ps[i].dita.content) ==>
      var nm := Step1NewName(TitleTag(ps[i].dita.content).value.text.value, ps[i].dita.content.outputclass);
      var r := Step1UpdateName(w, ps, i);
      (nm.Failure? ==> r == Raised((w, ps), nm.error))
      && (nm.Success? && SplitExt(ps[i].dita.name).0 == nm.value ==> r == Ok((w, ps)))
      && (nm.Success? && SplitExt(ps[i].dita.name).0 != nm.value ==> r == Step1PairMove(w, ps, i, nm.value))
  {
  }

  /** A missing title does not stop the rename: a topic other than legal
      information whose title has no text raises in the name clean-up, and
      one whose title holds the placeholder is named after it. */
  lemma Step1MissingTitleGoesOn(w: World, ps: seq<Pair>, i: nat)
    requires i < |ps| && TitleTag(ps[i].dita.content).Some? && TitleMissing(ps[i].dita.content)
    requires ps[i].dita.content.outputclass != Some("legalinformation")
    ensures TitleTag(ps[i].dita.content).value.text.None? ==> Step1UpdateName(w, ps, i) == Raised((w, ps), TypeError)
    ensures TitleTag(ps[i].dita.content).value.text.Some? ==>
      var nm := Step1NewName(TitleTag(ps[i].dita.content).value.text.value, ps[i].dita.content.outputclass);
      nm.Success? && SplitExt(ps[i].dita.name).0 != nm.value ==> Step1UpdateName(w, ps, i) == Step1PairMove(w, ps, i, nm.value)
  {
  }

  /** A legal-information topic with a missing title and no short
      description stops with AttributeError, its new title already written. */
  lemma Step1LegalWithoutShortdesc(w: World, ps: seq<Pair>, i: nat)
    requires i < |ps| && TitleTag(ps[i].dita.content).Some? && TitleMissing(ps[i].dita.content)
    requires ps[i].dita.content.outputclass == Some("legalinformation")
    requires ShortdescTag(ps[i].dita.content).None?
    ensures var r := Step1UpdateName(w, ps, i);
      r.Raised? && r.error == AttributeError
      && TitleTag(r.State().1[i].dita.content).Some? && TitleTag(r.State().1[i].dita.content).value.text == Some(LegalTitle)
      && ps[i].dita.name in r.State().0.folder && r.State().0.folder[ps[i].dita.name] == r.State().1[i].dita.content
  {
  }

  // ---------------------------------------------------------------------
  // rename_all

  /** What `rename_all` makes of a pair: passed over (not a typed topic,
      or its title is missing), an error (typed topic without title), or
      renamed and counted. */
  datatype Outcome = Passed | Untitled | Counted

  function OutcomeOf(p: Pair): Outcome {
    if p.dita.content.root.tag !in Doctypes then Passed
    else match Step1TitleMissing(p.dita.content)
      case Failure(_) => Untitled
      case Success(missing) => if missing then Passed else Counted
  }

  lemma OutcomeKept(a: Pair, b: Pair)
    requires SameHead(a.dita.content, b.dita.content)
    ensures OutcomeOf(a) == OutcomeOf(b)
  {
  }

  function Outcomes(ps: seq<Pair>): (r: seq<Outcome>)
    ensures |r| == |ps| && forall j :: 0 <= j < |ps| ==> r[j] == OutcomeOf(ps[j])
  {
    seq(|ps|, j requires 0 <= j < |ps| => OutcomeOf(ps[j]))
  }

  /** The number of counted outcomes. */
  function CountCounted(os: seq<Outcome>): (r: nat)
    ensures r <= |os|
  {
    if os == [] then 0 else (if os[0] == Counted then 1 else 0) + CountCounted(os[1..])
  }

  /** The loop of `rename_all` from pair `i` on, with the counter so far. */
  function RenameAllLoop(w: World, ps: seq<Pair>, i: nat, count: nat): (r: Res<(World, seq<Pair>, nat)>)
    requires i <= |ps|
    ensures |r.State().1| == |ps|
    decreases |ps| - i
  {
    if i == |ps| then Ok((w, ps, count))
    else match OutcomeOf(ps[i])
      case Passed => RenameAllLoop(w, ps, i + 1, count)
      case Untitled => Raised((w, ps, count), AttributeError)
      case Counted =>
        match Step1UpdateName(w, ps, i)
        case Raised((w1, ps1), e) => Raised((w1, ps1, count), e)
        case Ok((w1, ps1)) => RenameAllLoop(w1, ps1, i + 1, count + 1)
  }

  /** `DITAMap.rename_all()` over the pairs in iteration order: the world,
      the pairs afterwards and `rename_counter`. */
  function RenameAll(w: World, ps: seq<Pair>): (r: Res<(World, seq<Pair>, nat)>)
    ensures |r.State().1| == |ps|
  {
    RenameAllLoop(w, ps, 0, 0)
  }

  /** Reference definition: the outcomes are those of the pairs as they
      were at the start. */
  function RenameAllSpec(w: World, os: seq<Outcome>, ps: seq<Pair>, i: nat, count: nat): (r: Res<(World, seq<Pair>, nat)>)
    requires i <= |os| == |ps|
    decreases |os| - i
  {
    if i == |os| then Ok((w, ps, count))
    else match os[i]
      case Passed => RenameAllSpec(w, os, ps, i + 1, count)
      case Untitled => Raised((w, ps, count), AttributeError)
      case Counted =>
        match Step1UpdateName(w, ps, i)
        case Raised((w1, ps1), e) => Raised((w1, ps1, count), e)
        case Ok((w1, ps1)) =>
          if |ps1| == |ps| then RenameAllSpec(w1, os, ps1, i + 1, count + 1)
          else Ok((w1, ps1, count))
  }

  /** The loop decides each pair on its state at the start, because a
      rename changes no other pair's root tag or title; it counts the
      counted outcomes. */
  lemma {:induction false} RenameAllLoopIsSpec(w: World, os: seq<Outcome>, ps: seq<Pair>, i: nat, count: nat)
    requires i <= |os| == |ps|
    requires forall j :: i <= j < |ps| ==> OutcomeOf(ps[j]) == os[j]
    ensures RenameAllLoop(w, ps, i, count) == RenameAllSpec(w, os, ps, i, count)
    ensures RenameAllSpec(w, os, ps, i, count).Ok? ==>
      RenameAllSpec(w, os, ps, i, count).value.2 == count + CountCounted(os[i..])
    decreases |os| - i, 1
  {
    if i < |os| {
      assert os[i..] == [os[i]] + os[i + 1..];
      match os[i]
      case Passed =>
        RenameAllLoopIsSpec(w, os, ps, i + 1, count);
      case Untitled =>
      case Counted =>
        RenameAllCountedStep(w, os, ps, i, count);
    } else {
      assert os[i..] == [];
    }
  }

  /** One renamed pair: the later pairs still show their outcomes. */
  lemma {:induction false} RenameAllCountedStep(w: World, os: seq<Outcome>, ps: seq<Pair>, i: nat, count: nat)
    requires i < |os| == |ps| && os[i] == Counted
    requires forall j :: i <= j < |ps| ==> OutcomeOf(ps[j]) == os[j]
    ensures RenameAllLoop(w, ps, i, count) == RenameAllSpec(w, os, ps, i, count)
    ensures RenameAllSpec(w, os, ps, i, count).Ok? ==>
      RenameAllSpec(w, os, ps, i, count).value.2 == count + 1 + CountCounted(os[i + 1..])
    decreases |os| - i, 0
  {
    var r := Step1UpdateName(w, ps, i);
    if r.Ok? {
      var ps1 := r.value.1;
      forall j | i + 1 <= j < |ps1|
        ensures OutcomeOf(ps1[j]) == os[j]
      {
        OutcomeKept(ps1[j], ps[j]);
      }
      RenameAllLoopIsSpec(r.value.0, os, ps1, i + 1, count + 1);
    }
  }

  /** `rename_all` renames exactly the typed pairs whose title is present
      and not missing, and its counter is their number. */
  lemma RenameAllCounts(w: World, ps: seq<Pair>)
    ensures RenameAll(w, ps) == RenameAllSpec(w, Outcomes(ps), ps, 0, 0)
    ensures RenameAll(w, ps).Ok? ==> RenameAll(w, ps).value.2 == CountCounted(Outcomes(ps))
  {
    RenameAllLoopIsSpec(w, Outcomes(ps), ps, 0, 0);
    assert Outcomes(ps)[0..] == Outcomes(ps);
  }

  // ---------------------------------------------------------------------
  // edit_image_names

  /** The caption pass of `edit_image_names` here: every image whose title
      is not None is labelled, an empty caption included. */
  function Step1CaptionLoop(hs: seq<string>, i: nat, imgs: ImageMap, titles: map<string, nat>): (r: ImageMap)
    requires i <= |hs| && Known(imgs, hs)
    ensures r.Keys == imgs.Keys
    ensures forall h :: h in imgs ==> r[h] == imgs[h].(tempTitle := r[h].tempTitle)
    decreases |hs| - i
  {
    if i == |hs| then imgs
    else
      var h := hs[i];
      var img := imgs[h];
      if img.title.None? then Step1CaptionLoop(hs, i + 1, imgs, titles)
      else
        var t := img.title.value;
        if t in titles then
          var n := titles[t] + 1;
          Step1CaptionLoop(hs, i + 1, imgs[h := img.(tempTitle := Some(t + " " + NatToString(n)))], titles[t := n])
        else
          Step1CaptionLoop(hs, i + 1, imgs[h := img.(tempTitle := Some(t))], titles[t := 1])
  }

  /** No image has an empty caption. */
  predicate NoEmptyCaption(imgs: ImageMap) {
    forall h :: h in imgs ==> imgs[h].title != Some("")
  }

  /** Without empty captions the pass is the later one, which skips them. */
  lemma {:induction false} Step1CaptionLoopAgrees(hs: seq<string>, i: nat, imgs: ImageMap, titles: map<string, nat>)
    requires i <= |hs| && Known(imgs, hs) && NoEmptyCaption(imgs)
    ensures Step1CaptionLoop(hs, i, imgs, titles) == CaptionLoop(hs, i, imgs, titles)
    decreases |hs| - i
  {
    if i < |hs| {
      var h := hs[i];
      var img := imgs[h];
      if img.title.Some? {
        var t := img.title.value;
        var n := if t in titles then titles[t] + 1 else 1;
        var lab := if t in titles then t + " " + NatToString(n) else t;
        var imgs1 := imgs[h := img.(tempTitle := Some(lab))];
        CaptionStepBoth(hs, i, imgs, titles, imgs1, titles[t := n]);
        Step1CaptionLoopAgrees(hs, i + 1, imgs1, titles[t := n]);
      } else {
        CaptionSkipBoth(hs, i, imgs, titles);
        Step1CaptionLoopAgrees(hs, i + 1, imgs, titles);
      }
    }
  }

  /** One image without a caption: both passes leave it. */
  lemma CaptionSkipBoth(hs: seq<string>, i: nat, imgs: ImageMap, titles: map<string, nat>)
    requires i < |hs| && Known(imgs, hs) && imgs[hs[i]].title.None?
    ensures Step1CaptionLoop(hs, i, imgs, titles) == Step1CaptionLoop(hs, i + 1, imgs, titles)
    ensures CaptionLoop(hs, i, imgs, titles) == CaptionLoop(hs, i + 1, imgs, titles)
  {
  }

  /** One labelled image: both passes take the same step. */
  lemma CaptionStepBoth(hs: seq<string>, i: nat, imgs: ImageMap, titles: map<string, nat>, imgs1: ImageMap, titles1: map<string, nat>)
    requires i < |hs| && Known(imgs, hs) && NoEmptyCaption(imgs) && imgs[hs[i]].title.Some?
    requires var t := imgs[hs[i]].title.value;
      var n := if t in titles then titles[t] + 1 else 1;
      titles1 == titles[t := n] &&
      imgs1 == imgs[hs[i] := imgs[hs[i]].(tempTitle := Some(if t in titles then t + " " + NatToString(n) else t))]
    ensures Known(imgs1, hs) && NoEmptyCaption(imgs1)
    ensures Step1CaptionLoop(hs, i, imgs, titles) == Step1CaptionLoop(hs, i + 1, imgs1, titles1)
    ensures CaptionLoop(hs, i, imgs, titles) == CaptionLoop(hs, i + 1, imgs1, titles1)
  {
    Step1CaptionStep(hs, i, imgs, titles, imgs1, titles1);
    assert Truthy(imgs[hs[i]].title);
    CaptionStep(hs, i, imgs, titles, imgs1, titles1);
  }

  lemma Step1CaptionStep(hs: seq<string>, i: nat, imgs: ImageMap, titles: map<string, nat>, imgs1: ImageMap, titles1: map<string, nat>)
    requires i < |hs| && Known(imgs, hs) && imgs[hs[i]].title.Some?
    requires var t := imgs[hs[i]].title.value;
      var n := if t in titles then titles[t] + 1 else 1;
      titles1 == titles[t := n] &&
      imgs1 == imgs[hs[i] := imgs[hs[i]].(tempTitle := Some(if t in titles then t + " " + NatToString(n) else t))]
    ensures Known(imgs1, hs)
    ensures Step1CaptionLoop(hs, i, imgs, titles) == Step1CaptionLoop(hs, i + 1, imgs1, titles1)
  {
  }

  lemma CaptionStep(hs: seq<string>, i: nat, imgs: ImageMap, titles: map<string, nat>, imgs1: ImageMap, titles1: map<string, nat>)
    requires i < |hs| && Known(imgs, hs) && Truthy(imgs[hs[i]].title)
    requires var t := imgs[hs[i]].title.value;
      var n := if t in titles then titles[t] + 1 else 1;
      titles1 == titles[t := n] &&
      imgs1 == imgs[hs[i] := imgs[hs[i]].(tempTitle := Some(if t in titles then t + " " + NatToString(n) else t))]
    ensures Known(imgs1, hs)
    ensures CaptionLoop(hs, i, imgs, titles) == CaptionLoop(hs, i + 1, imgs1, titles1)
  {
  }

  /** An empty caption is labelled here, where the later pass leaves it. */
  lemma EmptyCaptionLabelled(h: string, img: Image)
    requires img.title == Some("")
    ensures Step1CaptionLoop([h], 0, map[h := img], map[])[h].tempTitle == Some("")
    ensures CaptionLoop([h], 0, map[h := img], map[])[h].tempTitle == img.tempTitle
  {
  }

  /** One image of the second pass: the file is renamed (replacing any
      file of the new name), and the references in every using topic are
      rewritten and written. */
  function Step1RenameImage<T>(w: World, topics: seq<Topic>, files: map<string, T>, us: seq<nat>, h: string, newName: string): (r: (World, seq<Topic>, map<string, T>))
    requires forall j :: 0 <= j < |us| ==> us[j] < |topics|
    ensures h in files && h != newName ==> newName in r.2 && r.2[newName] == files[h] && h !in r.2
    ensures h !in files || h == newName ==> r.2 == files
    ensures forall k :: k != h && k != newName ==> (k in r.2 <==> k in files) && (k in r.2 ==> r.2[k] == files[k])
    ensures |r.1| == |topics|
    ensures forall i :: 0 <= i < |topics| ==> r.1[i] == (if i in us then RetargetTopic(topics[i], h, newName) else topics[i])
    ensures r.0.ditamap == w.ditamap && r.0.mapName == w.mapName
  {
    var q := RetargetUsers(w, topics, us, h, newName);
    (q.0, q.1, LegacyFileRename(files, h, newName))
  }

  /** Where the later version refuses, an image file whose new name is
      taken replaces that file. */
  lemma Step1ImageOverwrites<T>(w: World, topics: seq<Topic>, files: map<string, T>, us: seq<nat>, h: string, newName: string)
    requires forall j :: 0 <= j < |us| ==> us[j] < |topics|
    requires h in files && newName in files && h != newName && files[h] != files[newName]
    ensures Step1RenameImage(w, topics, files, us, h, newName).2[newName] != files[newName]
    ensures RenameImage(w, topics, files, us, h, newName).2 == files
  {
  }

  /** The second pass over the images in order of first visit. */
  function Step1RenameLoop<T>(w: World, topics: seq<Topic>, files: map<string, T>, imgs: ImageMap, vs: seq<Images.Visit>, order: seq<string>, prefix: string): (r: (World, seq<Topic>, map<string, T>))
    requires forall j :: 0 <= j < |vs| ==> vs[j].topic < |topics|
    requires forall j :: 0 <= j < |order| ==> order[j] in imgs
    ensures |r.1| == |topics|
    ensures r.0.ditamap == w.ditamap && r.0.mapName == w.mapName
    ensures forall k :: k in files && k !in order && (forall j :: 0 <= j < |order| ==> k != Step1ImageName(imgs[order[j]], prefix)) ==>
      k in r.2 && r.2[k] == files[k]
    ensures forall i :: 0 <= i < |topics| && (forall v :: v in vs ==> v.topic != i) ==> r.1[i] == topics[i]
    decreases |order|
  {
    if order == [] then (w, topics, files)
    else
      var h := order[0];
      var us := Users(vs, h);
      assert forall j :: 0 <= j < |us| ==> us[j] < |topics|;
      var q := Step1RenameImage(w, topics, files, us, h, Step1ImageName(imgs[h], prefix));
      var r := Step1RenameLoop(q.0, q.1, q.2, imgs, vs, order[1..], prefix);
      Step1LoopFilesFrame(files, q.2, r.2, imgs, order, prefix);
      Step1LoopTopicsFrame(vs, h, Step1ImageName(imgs[h], prefix), topics, q.1, r.1);
      r
  }

  /** The file frame of one rename followed by the rest of the pass. */
  lemma Step1LoopFilesFrame<T>(files: map<string, T>, f1: map<string, T>, f2: map<string, T>, imgs: ImageMap, order: seq<string>, prefix: string)
    requires order != [] && forall j :: 0 <= j < |order| ==> order[j] in imgs
    requires forall k :: k != order[0] && k != Step1ImageName(imgs[order[0]], prefix) ==>
      (k in f1 <==> k in files) && (k in f1 ==> f1[k] == files[k])
    requires forall k :: k in f1 && k !in order[1..] && (forall j :: 0 <= j < |order[1..]| ==> k != Step1ImageName(imgs[order[1..][j]], prefix)) ==>
      k in f2 && f2[k] == f1[k]
    ensures forall k :: k in files && k !in order && (forall j :: 0 <= j < |order| ==> k != Step1ImageName(imgs[order[j]], prefix)) ==>
      k in f2 && f2[k] == files[k]
  {
    forall k | k in files && k !in order && (forall j :: 0 <= j < |order| ==> k != Step1ImageName(imgs[order[j]], prefix))
      ensures k in f2 && f2[k] == files[k]
    {
      assert k != Step1ImageName(imgs[order[0]], prefix);
      forall j | 0 <= j < |order[1..]|
        ensures k != Step1ImageName(imgs[order[1..][j]], prefix)
      {
        assert order[1..][j] == order[j + 1];
      }
    }
  }

  /** A topic no visit names is none of an image's users, so one rename
      followed by the rest of the pass leaves it as it was. */
  lemma Step1LoopTopicsFrame(vs: seq<Images.Visit>, h: string, newName: string, topics: seq<Topic>, t1: seq<Topic>, t2: seq<Topic>)
    requires |t1| == |topics| && |t2| == |topics|
    requires forall i :: 0 <= i < |topics| ==> t1[i] == (if i in Users(vs, h) then RetargetTopic(topics[i], h, newName) else topics[i])
    requires forall i :: 0 <= i < |topics| && (forall v :: v in vs ==> v.topic != i) ==> t2[i] == t1[i]
    ensures forall i :: 0 <= i < |topics| && (forall v :: v in vs ==> v.topic != i) ==> t2[i] == topics[i]
  {
    forall i | 0 <= i < |topics| && (forall v :: v in vs ==> v.topic != i)
      ensures t2[i] == topics[i]
    {
      var us := Users(vs, h);
      forall j | 0 <= j < |us|
        ensures us[j] != i
      {
        assert Visit(us[j], h) in vs;
      }
    }
  }

  /** `DITAMap.edit_image_names(prefix)`: captions counted per visit, then
      each image, in order of first visit, renamed after its label. */
  function Step1EditImageNames<T>(w: World, topics: seq<Topic>, imgs: ImageMap, files: map<string, T>, prefix: string): (r: (World, seq<Topic>, ImageMap, map<string, T>))
    requires Known(imgs, Images.Hrefs(Images.Visits(topics, 0)))
    ensures r.2.Keys == imgs.Keys && |r.1| == |topics|
    ensures r.0.ditamap == w.ditamap && r.0.mapName == w.mapName
    ensures forall k :: (k in files && k !in Images.Hrefs(Images.Visits(topics, 0))
                         && (forall h :: h in imgs ==> k != Step1ImageName(r.2[h], prefix)))
                        ==> k in r.3 && r.3[k] == files[k]
    ensures forall i :: 0 <= i < |topics| && topics[i].images == [] ==> r.1[i] == topics[i]
  {
    var vs := Images.Visits(topics, 0);
    var imgs1 := Step1CaptionLoop(Images.Hrefs(vs), 0, imgs, map[]);
    var order := Dedupe(Images.Hrefs(vs));
    KnownDedupe(imgs, Images.Hrefs(vs));
    NoVisitsWithoutImages(topics, 0);
    var q := Step1RenameLoop(w, topics, files, imgs1, vs, order, prefix);
    (q.0, q.1, imgs1, q.2)
  }

  /** Without empty captions the labels are those of the later version:
      the k-th visit of a caption gives "caption k". */
  lemma Step1LabelsAgree<T>(w: World, topics: seq<Topic>, imgs: ImageMap, files: map<string, T>, prefix: string)
    requires Known(imgs, Images.Hrefs(Images.Visits(topics, 0))) && NoEmptyCaption(imgs)
    ensures Step1EditImageNames(w, topics, imgs, files, prefix).2 == TitlesOf(topics, imgs)
  {
    Step1CaptionLoopAgrees(Images.Hrefs(Images.Visits(topics, 0)), 0, imgs, map[]);
  }
}
