/** Renaming Cheetah-to-DITA projects (cheetah_to_dita.py).

    Every topic comes paired with its ISH sidecar.  `rename_pairs` walks the
    pairs (a set, so in no fixed order: the order is an input here) and
    numbers repeated titles; `update_name` renames one pair: the topic file,
    the local links to it in every pair's topic, the sidecar, and the map's
    topicrefs.  Only a `TopicFromCheetah` has the link pass: a pair whose
    topic loaded as a plain `LocalTopic` raises AttributeError right after
    its file has moved, and that ends the batch.  The script builds on the
    earlier local module and the earlier `XMLContent`.
 */
module Cheetah {
  import opened Wrappers
  import opened PyStr
  import opened XmlTree
  import opened TypeTable
  import opened Content
  import opened Naming
  import opened Project
  import opened LegacyContent
  import opened LegacyLocal

  /** A topic and its sidecar. */
  datatype Pair = Pair(dita: Topic, ish: Ish)

  /** The outputclasses `get_topic_from_topicref` builds a `TopicFromCheetah`
      for, with the kind of the subclass it picks (cheetah_to_dita.py:13-20).
      Any other outputclass, or none, gives a plain `LocalTopic`, which has no
      `update_old_links_to_self`. */
  const TopicClasses: map<string, Kind> := map[
    "referenceinformation" := ReferenceInfo,
    "procedure" := TaskTopic,
    "legalinformation" := LegalInfo,
    "context" := ConceptTopic,
    "lpcontext" := ConceptTopic,
    "explanation" := GenericTopic]

  /** The pair's topic object is a `TopicFromCheetah`: its class, read from
      the root attribute when the map was loaded, is one of the table's. */
  predicate FromCheetah(t: Topic) {
    t.content.outputclass.Some? && t.content.outputclass.value in TopicClasses
  }

  // ---------------------------------------------------------------------
  // What the rename keeps

  /** The facts `rename_pairs` reads from a topic: its root tag and its
      title text. */
  predicate SameHead(a: Content, b: Content) {
    a.root.tag == b.root.tag && TitleTag(a).Some? == TitleTag(b).Some?
    && (TitleTag(a).Some? ==> TitleTag(a).value.text == TitleTag(b).value.text)
  }

  /** Rewriting link hrefs changes neither the root tag nor the title. */
  lemma {:induction false} LinksLoopKeepsHead(c: Content, ls: seq<nat>, pat: string, rep: string, chain: bool)
    ensures SameHead(LinksLoop(c, ls, pat, rep, chain).State(), c)
    decreases |ls|
  {
    if ls != [] {
      var href := NodeHref(c, ls[0]);
      if href.Some? && Contains(href.value, pat) && TitleTag(c).Some? && TitleTag(c).value.text.Some? {
        var moved := Replace(href.value, pat, rep);
        var c1 := SetNodeAttr(c, ls[0], "href", moved);
        NodeSetAttr(c, ls[0], "href", moved, c.titleRef.value);
        assert SameHead(c1, c);
        LinksLoopKeepsHead(c1, ls[1..], pat, if chain then moved else rep, chain);
      } else if href.Some? && !Contains(href.value, pat) {
        LinksLoopKeepsHead(c, ls[1..], pat, rep, chain);
      }
    }
  }

  lemma LegacyLinksKeepHead(c: Content, oldName: string, newName: string)
    ensures SameHead(LegacyUpdateLocalLinks(c, oldName, newName).State(), c)
  {
    if c.links != [] {
      LinksLoopKeepsHead(c, c.links, oldName, newName, true);
    }
  }

  /** Every pair has its own topic file name. */
  predicate DistinctNames(ps: seq<Pair>) {
    forall a, b :: 0 <= a < b < |ps| ==> ps[a].dita.name != ps[b].dita.name
  }

  /** No pair from `j` on has the name `k`. */
  predicate NotLaterName(ps: seq<Pair>, j: nat, k: string) {
    forall m :: j <= m < |ps| ==> ps[m].dita.name != k
  }

  // ---------------------------------------------------------------------
  // update_old_links_to_self

  /** `update_old_links_to_self(old)` from pair `j` on: each pair's topic
      has its local links rewritten and is written, changed or not. */
  function LinksAll(w: World, ps: seq<Pair>, j: nat, oldName: string, newName: string): (r: Res<(World, seq<Pair>)>)
    requires j <= |ps|
    ensures |r.State().1| == |ps|
    ensures r.State().0.ditamap == w.ditamap && r.State().0.mapName == w.mapName
    ensures forall k :: 0 <= k < j ==> r.State().1[k] == ps[k]
    decreases |ps| - j
  {
    if j == |ps| then Ok((w, ps))
    else
      var t := ps[j].dita;
      match LegacyUpdateLocalLinks(t.content, oldName, newName)
      case Raised(c, e) => Raised((w, ps[j := ps[j].(dita := t.(content := c))]), e)
      case Ok(c) =>
        var t1 := t.(content := c);
        LinksAll(WriteTopic(w, t1), ps[j := ps[j].(dita := t1)], j + 1, oldName, newName)
  }

  /** Only topic contents change, and never a topic's root tag or title. */
  lemma {:induction false} LinksAllKeepsHeads(w: World, ps: seq<Pair>, j: nat, oldName: string, newName: string)
    requires j <= |ps|
    ensures var r := LinksAll(w, ps, j, oldName, newName).State().1;
      forall k :: 0 <= k < |ps| ==>
        SameHead(r[k].dita.content, ps[k].dita.content)
        && r[k] == ps[k].(dita := ps[k].dita.(content := r[k].dita.content))
    decreases |ps| - j
  {
    if j < |ps| {
      var t := ps[j].dita;
      LegacyLinksKeepHead(t.content, oldName, newName);
      match LegacyUpdateLocalLinks(t.content, oldName, newName)
      case Raised(c, e) =>
      case Ok(c) =>
        var t1 := t.(content := c);
        LinksAllKeepsHeads(WriteTopic(w, t1), ps[j := ps[j].(dita := t1)], j + 1, oldName, newName);
    }
  }

  /** When the pass completes, every topic from `j` on holds exactly what
      `update_local_links` made of it, and its file is written. */
  lemma {:induction false} LinksAllRewrites(w: World, ps: seq<Pair>, j: nat, oldName: string, newName: string)
    requires j <= |ps|
    ensures var r := LinksAll(w, ps, j, oldName, newName);
      r.Ok? ==> forall k :: j <= k < |ps| ==>
        LegacyUpdateLocalLinks(ps[k].dita.content, oldName, newName) == Ok(r.value.1[k].dita.content)
        && ps[k].dita.name in r.value.0.folder
    decreases |ps| - j
  {
    if j < |ps| {
      var t := ps[j].dita;
      match LegacyUpdateLocalLinks(t.content, oldName, newName)
      case Raised(c, e) =>
      case Ok(c) =>
        var t1 := t.(content := c);
        var w1 := WriteTopic(w, t1);
        var ps1 := ps[j := ps[j].(dita := t1)];
        LinksAllRewrites(w1, ps1, j + 1, oldName, newName);
        LinksAllFrame(w1, ps1, j + 1, oldName, newName);
    }
  }

  /** The pass touches no file but the topics' own from `j` on. */
  lemma {:induction false} LinksAllFrame(w: World, ps: seq<Pair>, j: nat, oldName: string, newName: string)
    requires j <= |ps|
    ensures var f := LinksAll(w, ps, j, oldName, newName).State().0.folder;
      forall key :: NotLaterName(ps, j, key) ==>
        (key in f <==> key in w.folder) && (key in w.folder ==> f[key] == w.folder[key])
    ensures var f := LinksAll(w, ps, j, oldName, newName).State().0.folder;
      forall key :: key in w.folder ==> key in f
    decreases |ps| - j
  {
    if j < |ps| {
      var t := ps[j].dita;
      match LegacyUpdateLocalLinks(t.content, oldName, newName)
      case Raised(c, e) =>
      case Ok(c) =>
        var t1 := t.(content := c);
        var ps1 := ps[j := ps[j].(dita := t1)];
        LinksAllFrame(WriteTopic(w, t1), ps1, j + 1, oldName, newName);
        assert forall key :: NotLaterName(ps, j, key) ==> NotLaterName(ps1, j + 1, key);
    }
  }

  /** With distinct file names, each topic's file holds its rewritten
      document. */
  lemma {:induction false} LinksAllWritesEach(w: World, ps: seq<Pair>, j: nat, oldName: string, newName: string)
    requires j <= |ps| && DistinctNames(ps)
    ensures var r := LinksAll(w, ps, j, oldName, newName);
      r.Ok? ==> forall k :: j <= k < |ps| ==>
        ps[k].dita.name in r.value.0.folder && r.value.0.folder[ps[k].dita.name] == r.value.1[k].dita.content
    decreases |ps| - j
  {
    if j < |ps| {
      var t := ps[j].dita;
      match LegacyUpdateLocalLinks(t.content, oldName, newName)
      case Raised(c, e) =>
      case Ok(c) =>
        var t1 := t.(content := c);
        var w1 := WriteTopic(w, t1);
        var ps1 := ps[j := ps[j].(dita := t1)];
        DistinctAfterWrite(ps, j, t1);
        LinksAllWritesEach(w1, ps1, j + 1, oldName, newName);
        LinksAllFrame(w1, ps1, j + 1, oldName, newName);
        var r := LinksAll(w1, ps1, j + 1, oldName, newName);
        if r.Ok? {
          WritesEachStep(ps, ps1, r.value.1, r.value.0.folder, j);
        }
    }
  }

  /** Replacing the document of pair `j` keeps the names distinct, and no
      later pair has its name. */
  lemma DistinctAfterWrite(ps: seq<Pair>, j: nat, t1: Topic)
    requires j < |ps| && DistinctNames(ps) && t1.name == ps[j].dita.name
    ensures DistinctNames(ps[j := ps[j].(dita := t1)])
    ensures NotLaterName(ps[j := ps[j].(dita := t1)], j + 1, t1.name)
  {
  }

  /** One more written topic: if the file of `ps[j]` holds its document
      and the later files hold theirs, all files from `j` on do. */
  lemma WritesEachStep(ps: seq<Pair>, ps1: seq<Pair>, qs: seq<Pair>, f: map<string, Content>, j: nat)
    requires j < |ps| == |ps1| == |qs|
    requires forall k :: j < k < |ps| ==> ps1[k] == ps[k]
    requires qs[j] == ps1[j] && ps1[j].dita.name == ps[j].dita.name
    requires ps[j].dita.name in f && f[ps[j].dita.name] == ps1[j].dita.content
    requires forall k :: j + 1 <= k < |ps1| ==> ps1[k].dita.name in f && f[ps1[k].dita.name] == qs[k].dita.content
    ensures forall k :: j <= k < |ps| ==> ps[k].dita.name in f && f[ps[k].dita.name] == qs[k].dita.content
  {
  }

  // ---------------------------------------------------------------------
  // The sidecar

  /** `LocalISHFile.rename_in_pair(old_path, new_name)`: FTITLE becomes the
      new name, the document is written under the new name and the old
      file is deleted. */
  function IshRenameInPair(w: World, ish: Ish, oldName: string, newName: string): (r: (World, Ish))
    ensures r.1 == Ish(newName + ish.ext, ish.ext, LegacyFSet(ish.content, "FTITLE", Some(newName)))
    ensures r.0.ditamap == w.ditamap && r.0.mapName == w.mapName
    ensures oldName != r.1.name ==> r.1.name in r.0.folder && r.0.folder[r.1.name] == r.1.content && oldName !in r.0.folder
    ensures oldName == r.1.name ==> oldName !in r.0.folder
    ensures forall k :: k != oldName && k != r.1.name ==>
      (k in r.0.folder <==> k in w.folder) && (k in r.0.folder ==> r.0.folder[k] == w.folder[k])
  {
    var c := LegacyFSet(ish.content, "FTITLE", Some(newName));
    var name := newName + ish.ext;
    var f := w.folder[name := c];
    (w.(folder := if oldName in f then f - {oldName} else f), Ish(name, ish.ext, c))
  }

  /** With the old file present and the new name free, the sidecar ends up
      where the later utils module's `rename_with_path` puts it. */
  lemma IshRenameAgrees(w: World, ish: Ish, oldName: string, newName: string)
    requires oldName in w.folder && newName + ish.ext !in w.folder
    ensures IshRenameInPair(w, ish, oldName, newName) == RenameWithPath(w, ish, oldName, newName)
  {
    LegacyFieldsAgree(ish.content, "FTITLE", Some(newName));
    var name := newName + ish.ext;
    var c := FSet(ish.content, "FTITLE", Some(newName));
    var f := FileRename(w.folder, oldName, name);
    assert f == (w.folder - {oldName})[name := w.folder[oldName]];
    assert f[name := c] == w.folder[name := c] - {oldName};
  }

  /** The sidecar's FTITLE field reads back as the new name. */
  lemma IshRenameSetsTitle(w: World, ish: Ish, oldName: string, newName: string)
    requires Find(ish.content.root, "ishfields").Some?
    requires exists j :: 0 <= j < |Find(ish.content.root, "ishfields").value.children| &&
                         IsField(Find(ish.content.root, "ishfields").value.children[j], "FTITLE")
    requires newName != []
    ensures LegacyFGet(IshRenameInPair(w, ish, oldName, newName).1.content, "FTITLE") == Some(newName)
  {
    LegacyFieldsAgree(ish.content, "FTITLE", Some(newName));
    LegacyFieldsAgree(FSet(ish.content, "FTITLE", Some(newName)), "FTITLE", Some(newName));
    FGetAfterSet(ish.content, "FTITLE", newName, "FTITLE");
  }

  // ---------------------------------------------------------------------
  // update_name

  /** A legal-information pair gets its title and short description first,
      and its topic is written. */
  function PairLegal(w: World, ps: seq<Pair>, i: nat): (r: Res<(World, seq<Pair>)>)
    requires i < |ps|
    ensures ps[i].dita.kind != LegalInfo ==> r == Ok((w, ps))
    ensures ps[i].dita.kind == LegalInfo && TitleTag(ps[i].dita.content).None? ==> r.Raised? && r.error == AttributeError
    ensures |r.State().1| == |ps|
    ensures forall j :: 0 <= j < |ps| && j != i ==> r.State().1[j] == ps[j]
    ensures r.State().1[i] == ps[i].(dita := ps[i].dita.(content := r.State().1[i].dita.content))
    ensures r.State().0.ditamap == w.ditamap && r.State().0.mapName == w.mapName
    ensures ps[i].dita.name in w.folder ==> r.State().0.folder.Keys == w.folder.Keys
  {
    var t := ps[i].dita;
    if t.kind != LegalInfo then Ok((w, ps))
    else match LegacyAddLegal(t.content)
      case Raised(c, e) => Raised((w, WithContent(ps, i, c)), e)
      case Ok(c) => Ok((WriteTopic(w, t.(content := c)), WithContent(ps, i, c)))
  }

  /** Pair `i` with its topic's document replaced by `c`. */
  function WithContent(ps: seq<Pair>, i: nat, c: Content): (r: seq<Pair>)
    requires i < |ps|
    ensures |r| == |ps| && forall j :: 0 <= j < |ps| && j != i ==> r[j] == ps[j]
    ensures r[i] == ps[i].(dita := ps[i].dita.(content := c))
  {
    ps[i := ps[i].(dita := ps[i].dita.(content := c))]
  }

  /** The rename proper once the new name is known: the topic file moves
      (unless the destination exists), every pair's links are rewritten to
      the new file name, the sidecar is renamed and the map retargeted.  A
      plain `LocalTopic` has no `update_old_links_to_self`, so for it the
      call after the move raises AttributeError and nothing else happens. */
  function PairMove(w: World, ps: seq<Pair>, i: nat, newName: string): (r: Res<(World, seq<Pair>)>)
    requires i < |ps|
    ensures |r.State().1| == |ps|
    ensures r.State().0.mapName == w.mapName
    ensures forall j :: 0 <= j < |ps| && j != i ==>
      SameHead(r.State().1[j].dita.content, ps[j].dita.content) && r.State().1[j].dita.kind == ps[j].dita.kind
    ensures r.Ok? ==> FromCheetah(ps[i].dita)
    ensures !FromCheetah(ps[i].dita) ==>
      r.Raised? && r.error == AttributeError
      && r.State().0.ditamap == w.ditamap
      && r.State().0.folder == FileRename(w.folder, ps[i].dita.name, newName + ps[i].dita.ext)
      && r.State().1[i] == ps[i].(dita := ps[i].dita.(name := newName + ps[i].dita.ext))
      && forall j :: 0 <= j < |ps| && j != i ==> r.State().1[j] == ps[j]
  {
    var p := ps[i];
    var oldDita := p.dita.name;
    var q := LegacyRenameInPair(w, p.dita, oldDita, newName);
    var ps2 := ps[i := p.(dita := q.1)];
    if !FromCheetah(p.dita) then
      LegacyRenameInPairAgrees(w, p.dita, oldDita, newName);
      Raised((q.0, ps2), AttributeError)
    else
      LinksAllKeepsHeads(q.0, ps2, 0, oldDita, q.1.name);
      match LinksAll(q.0, ps2, 0, oldDita, q.1.name)
      case Raised(s, e) => Raised(s, e)
      case Ok((w3, ps3)) =>
        var (w4, ish2) := IshRenameInPair(w3, ps3[i].ish, ps3[i].ish.name, newName);
        var w5 := UpdateTopicref(w4, oldDita, q.1.name);
        Ok((w5, ps3[i := ps3[i].(ish := ish2)]))
  }

  /** What a completed move leaves behind: the topic under its new file
      name, every pair's links pointing at it, the sidecar renamed with its
      FTITLE set, and the map's topicrefs retargeted. */
  lemma PairMoveEffects(w: World, ps: seq<Pair>, i: nat, newName: string)
    requires i < |ps|
    requires PairMove(w, ps, i, newName).Ok?
    ensures FromCheetah(ps[i].dita)
    ensures var r := PairMove(w, ps, i, newName).value;
      var newDita := newName + ps[i].dita.ext;
      r.1[i].dita == ps[i].dita.(name := newDita, content := r.1[i].dita.content)
      && r.1[i].ish == Ish(newName + ps[i].ish.ext, ps[i].ish.ext, LegacyFSet(ps[i].ish.content, "FTITLE", Some(newName)))
      && r.0.ditamap == UpdateTopicref(w, ps[i].dita.name, newDita).ditamap
      && (forall k :: 0 <= k < |ps| ==>
            LegacyUpdateLocalLinks(ps[k].dita.content, ps[i].dita.name, newDita) == Ok(r.1[k].dita.content))
  {
    var p := ps[i];
    var q := LegacyRenameInPair(w, p.dita, p.dita.name, newName);
    var ps2 := ps[i := p.(dita := q.1)];
    LinksAllKeepsHeads(q.0, ps2, 0, p.dita.name, q.1.name);
    LinksAllRewrites(q.0, ps2, 0, p.dita.name, q.1.name);
  }

  /** `Pair.update_name(num_rep)` on the i-th pair.  Legal information is
      synthesised before the title test; a missing title stops; a title too
      short to name raises; a name equal to the topic's base name stops;
      otherwise the pair is moved. */
  function CheetahUpdateName(w: World, ps: seq<Pair>, i: nat, n: nat): (r: Res<(World, seq<Pair>)>)
    requires i < |ps|
    ensures |r.State().1| == |ps|
    ensures r.State().0.mapName == w.mapName
    ensures forall j :: 0 <= j < |ps| && j != i ==>
      SameHead(r.State().1[j].dita.content, ps[j].dita.content) && r.State().1[j].dita.kind == ps[j].dita.kind
  {
    match PairLegal(w, ps, i)
    case Raised(s, e) => Raised(s, e)
    case Ok((w1, ps1)) =>
      var t := ps1[i].dita;
      if TitleMissing(t.content) then Ok((w1, ps1))
      else match CheetahNewName(TitleTag(t.content).value.text.value, t.content.outputclass, n)
        case Failure(e) => Raised((w1, ps1), e)
        case Success(newName) =>
          if SplitExt(t.name).0 == newName then Ok((w1, ps1))
          else
            LegalThenMove(w, ps, i, w1, ps1, newName);
            PairMove(w1, ps1, i, newName)
  }

  /** The legal-information step and then the move keep every other
      pair's head and kind. */
  lemma LegalThenMove(w: World, ps: seq<Pair>, i: nat, w1: World, ps1: seq<Pair>, newName: string)
    requires i < |ps| && PairLegal(w, ps, i) == Ok((w1, ps1))
    ensures var r := PairMove(w1, ps1, i, newName);
      |r.State().1| == |ps| && r.State().0.mapName == w.mapName
      && forall j :: 0 <= j < |ps| && j != i ==>
        SameHead(r.State().1[j].dita.content, ps[j].dita.content) && r.State().1[j].dita.kind == ps[j].dita.kind
  {
    var r := PairMove(w1, ps1, i, newName);
    forall j | 0 <= j < |ps| && j != i
      ensures SameHead(r.State().1[j].dita.content, ps[j].dita.content) && r.State().1[j].dita.kind == ps[j].dita.kind
    {
      assert ps1[j] == ps[j];
    }
  }

  /** The order of the steps: a legal topic without title raises before
      anything is named; otherwise a missing title, a name that cannot be
      formed, or a name already in place each stop before any file moves. */
  lemma CheetahUpdateNameSteps(w: World, ps: seq<Pair>, i: nat, n: nat)
    requires i < |ps|
    ensures var r := CheetahUpdateName(w, ps, i, n);
      ps[i].dita.kind == LegalInfo && TitleTag(ps[i].dita.content).None? ==> r.Raised? && r.error == AttributeError
    ensures var r := CheetahUpdateName(w, ps, i, n);
      ps[i].dita.kind != LegalInfo && TitleMissing(ps[i].dita.content) ==> r == Ok((w, ps))
    ensures var r := CheetahUpdateName(w, ps, i, n);
      ps[i].dita.kind != LegalInfo && !TitleMissing(ps[i].dita.content) ==>
      var nm := CheetahNewName(TitleTag(ps[i].dita.content).value.text.value, ps[i].dita.content.outputclass, n);
      (nm.Failure? ==> r == Raised((w, ps), nm.error))
      && (nm.Success? && SplitExt(ps[i].dita.name).0 == nm.value ==> r == Ok((w, ps)))
      && (nm.Success? && SplitExt(ps[i].dita.name).0 != nm.value ==> r == PairMove(w, ps, i, nm.value))
      && (nm.Success? && SplitExt(ps[i].dita.name).0 != nm.value && !FromCheetah(ps[i].dita) ==>
            r.Raised? && r.error == AttributeError && r.State().0.ditamap == w.ditamap
            && r.State().0.folder == FileRename(w.folder, ps[i].dita.name, nm.value + ps[i].dita.ext)
            && r.State().1 == ps[i := ps[i].(dita := ps[i].dita.(name := nm.value + ps[i].dita.ext))])
  {
  }

  /** A renamed topic's base name is the new name, so running
      `update_name` again with the same title and number stops at the
      already-renamed test. */
  lemma RenamedBaseName(newName: string, ext: string)
    requires AllWordChars(newName) && newName != []
    requires ext == [] || (ext[0] == '.' && forall j :: 1 <= j < |ext| ==> ext[j] != '.')
    ensures SplitExt(newName + ext).0 == newName
  {
    var s := newName + ext;
    assert forall j :: 0 <= j < |newName| ==> newName[j] != '.';
    if ext == [] {
      assert RSplitOnce(newName, '.').None?;
    } else {
      var e := ext[1..];
      assert s == newName + ['.'] + e;
      assert forall j :: 0 <= j < |e| ==> e[j] != '.';
      RSplitOnceAppend(newName, '.', e);
      assert newName[0] != '.';
    }
  }

  /** As written, a topic whose new file name is taken is not moved, but
      the link pass then writes it under the new name all the same: the
      other file's document is replaced. */
  lemma CheetahMoveOverwrites(w: World, ps: seq<Pair>, i: nat, newName: string)
    requires i < |ps| && DistinctNames(ps)
    requires newName + ps[i].dita.ext in w.folder && newName + ps[i].dita.ext != ps[i].dita.name
    requires forall j :: 0 <= j < |ps| ==> ps[j].dita.name != newName + ps[i].dita.ext
    requires PairMove(w, ps, i, newName).Ok?
    requires newName + ps[i].ish.ext != newName + ps[i].dita.ext && newName + ps[i].dita.ext != w.mapName
    requires ps[i].ish.name != newName + ps[i].dita.ext
    ensures var r := PairMove(w, ps, i, newName).value;
      newName + ps[i].dita.ext in r.0.folder && r.0.folder[newName + ps[i].dita.ext] == r.1[i].dita.content
  {
    var p := ps[i];
    var q := LegacyRenameInPair(w, p.dita, p.dita.name, newName);
    var ps2 := ps[i := p.(dita := q.1)];
    assert DistinctNames(ps2);
    LinksAllKeepsHeads(q.0, ps2, 0, p.dita.name, q.1.name);
    LinksAllWritesEach(q.0, ps2, 0, p.dita.name, q.1.name);
  }

  // ---------------------------------------------------------------------
  // rename_pairs

  /** What `rename_pairs` sees in a pair: not a typed topic, a typed topic
      without title (reading its text raises), or a title text. */
  datatype Visit = Skip | NoTitle | Titled(text: Option<string>)

  function VisitOf(p: Pair): Visit {
    if p.dita.content.root.tag !in Doctypes then Skip
    else match TitleTag(p.dita.content)
      case None => NoTitle
      case Some(t) => Titled(t.text)
  }

  lemma VisitKept(a: Pair, b: Pair)
    requires SameHead(a.dita.content, b.dita.content)
    ensures VisitOf(a) == VisitOf(b)
  {
  }

  function Visits(ps: seq<Pair>): (r: seq<Visit>)
    ensures |r| == |ps| && forall j :: 0 <= j < |ps| ==> r[j] == VisitOf(ps[j])
  {
    seq(|ps|, j requires 0 <= j < |ps| => VisitOf(ps[j]))
  }

  /** Visits with title text `key`. */
  function CountKey(vs: seq<Visit>, key: Option<string>): (r: nat)
    ensures r <= |vs|
    decreases |vs|
  {
    if vs == [] then 0
    else CountKey(vs[..|vs| - 1], key) + (if vs[|vs| - 1] == Titled(key) then 1 else 0)
  }

  /** Visits of typed topics. */
  function CountTyped(vs: seq<Visit>): (r: nat)
    ensures r <= |vs|
    decreases |vs|
  {
    if vs == [] then 0 else CountTyped(vs[..|vs| - 1]) + (if vs[|vs| - 1] != Skip then 1 else 0)
  }

  /** The repetition number of the i-th visit. */
  function Occurrence(vs: seq<Visit>, i: nat): nat
    requires i < |vs| && vs[i].Titled?
  {
    CountKey(vs[..i + 1], vs[i].text)
  }

  ghost predicate CountsOf(counts: map<Option<string>, nat>, seen: seq<Visit>) {
    forall key :: (key in counts <==> CountKey(seen, key) > 0) && (key in counts ==> counts[key] == CountKey(seen, key))
  }

  /** The loop of `rename_pairs` from pair `i` on. */
  function RenamePairsLoop(w: World, ps: seq<Pair>, i: nat, counts: map<Option<string>, nat>, visited: nat): (r: Res<(World, seq<Pair>, nat)>)
    requires i <= |ps|
    ensures |r.State().1| == |ps|
    decreases |ps| - i, 1
  {
    if i == |ps| then Ok((w, ps, visited))
    else match VisitOf(ps[i])
      case Skip => RenamePairsLoop(w, ps, i + 1, counts, visited)
      case NoTitle => Raised((w, ps, visited), AttributeError)
      case Titled(key) => RenamePairsTitled(w, ps, i, counts, visited, key)
  }

  /** One typed pair of the loop, titled `key`: it is renamed with the next
      number for its title, and the loop goes on unless that raises. */
  function RenamePairsTitled(w: World, ps: seq<Pair>, i: nat, counts: map<Option<string>, nat>, visited: nat, key: Option<string>): (r: Res<(World, seq<Pair>, nat)>)
    requires i < |ps|
    ensures |r.State().1| == |ps|
    decreases |ps| - i, 0
  {
    var n := if key in counts then counts[key] + 1 else 1;
    match CheetahUpdateName(w, ps, i, n)
    case Raised((w1, ps1), e) => Raised((w1, ps1, visited), e)
    case Ok((w1, ps1)) => RenamePairsLoop(w1, ps1, i + 1, counts[key := n], visited + 1)
  }

  /** `LocalMapFromCheetah.rename_pairs()` over the pairs in iteration
      order: the world, the pairs afterwards, and the returned counter. */
  function RenamePairs(w: World, ps: seq<Pair>): (r: Res<(World, seq<Pair>, nat)>)
    ensures |r.State().1| == |ps|
  {
    RenamePairsLoop(w, ps, 0, map[], 0)
  }

  /** Reference definition: each typed pair is renamed with its title's
      occurrence number among the pairs as they were at the start. */
  function RenamePairsSpec(w: World, vs: seq<Visit>, ps: seq<Pair>, i: nat, visited: nat): (r: Res<(World, seq<Pair>, nat)>)
    requires i <= |vs| == |ps|
    decreases |vs| - i
  {
    if i == |vs| then Ok((w, ps, visited))
    else match vs[i]
      case Skip => RenamePairsSpec(w, vs, ps, i + 1, visited)
      case NoTitle => Raised((w, ps, visited), AttributeError)
      case Titled(_) =>
        match CheetahUpdateName(w, ps, i, Occurrence(vs, i))
        case Raised((w1, ps1), e) => Raised((w1, ps1, visited), e)
        case Ok((w1, ps1)) =>
          if |ps1| == |ps| then RenamePairsSpec(w1, vs, ps1, i + 1, visited + 1)
          else Ok((w1, ps1, visited))
  }

  lemma CountKeySnoc(vs: seq<Visit>, v: Visit, key: Option<string>)
    ensures CountKey(vs + [v], key) == CountKey(vs, key) + (if v == Titled(key) then 1 else 0)
  {
    assert (vs + [v])[..|vs|] == vs;
  }

  lemma CountTypedSnoc(vs: seq<Visit>, v: Visit)
    ensures CountTyped(vs + [v]) == CountTyped(vs) + (if v != Skip then 1 else 0)
  {
    assert (vs + [v])[..|vs|] == vs;
  }

  lemma CountsOfStep(counts: map<Option<string>, nat>, seen: seq<Visit>, v: Visit)
    requires CountsOf(counts, seen)
    ensures v.Skip? ==> CountsOf(counts, seen + [v])
    ensures v.Titled? ==>
      CountsOf(counts[v.text := if v.text in counts then counts[v.text] + 1 else 1], seen + [v])
  {
    forall k
      ensures CountKey(seen + [v], k) == CountKey(seen, k) + (if v == Titled(k) then 1 else 0)
    {
      CountKeySnoc(seen, v, k);
    }
  }

  /** The loop keeps its counter equal to the occurrence counts over the
      original pairs, because renaming one pair leaves every other pair's
      root tag and title text alone; its tally counts the typed pairs. */
  lemma {:induction false} RenamePairsLoopIsSpec(w: World, vs: seq<Visit>, ps: seq<Pair>, i: nat, counts: map<Option<string>, nat>, visited: nat)
    requires i <= |vs| == |ps|
    requires forall j :: i <= j < |ps| ==> VisitOf(ps[j]) == vs[j]
    requires CountsOf(counts, vs[..i])
    ensures RenamePairsLoop(w, ps, i, counts, visited) == RenamePairsSpec(w, vs, ps, i, visited)
    ensures RenamePairsSpec(w, vs, ps, i, visited).Ok? ==>
      RenamePairsSpec(w, vs, ps, i, visited).value.2 == visited + CountTyped(vs) - CountTyped(vs[..i])
    decreases |vs| - i, 1
  {
    if i == |vs| {
      assert vs[..i] == vs;
    } else {
      var v := vs[i];
      assert vs[..i + 1] == vs[..i] + [v];
      CountTypedSnoc(vs[..i], v);
      CountsOfStep(counts, vs[..i], v);
      match v
      case Skip =>
        RenamePairsLoopIsSpec(w, vs, ps, i + 1, counts, visited);
      case NoTitle =>
      case Titled(key) =>
        RenamePairsTitledStep(w, vs, ps, i, counts, visited);
    }
  }

  /** One renamed pair: the counter's next number is the occurrence number,
      and the other pairs still show their original visits. */
  lemma {:induction false} RenamePairsTitledStep(w: World, vs: seq<Visit>, ps: seq<Pair>, i: nat, counts: map<Option<string>, nat>, visited: nat)
    requires i < |vs| == |ps| && vs[i].Titled?
    requires forall j :: i <= j < |ps| ==> VisitOf(ps[j]) == vs[j]
    requires CountsOf(counts, vs[..i])
    ensures RenamePairsLoop(w, ps, i, counts, visited) == RenamePairsSpec(w, vs, ps, i, visited)
    ensures RenamePairsSpec(w, vs, ps, i, visited).Ok? ==>
      RenamePairsSpec(w, vs, ps, i, visited).value.2 == visited + 1 + CountTyped(vs) - CountTyped(vs[..i + 1])
    decreases |vs| - i, 0
  {
    var v := vs[i];
    var key := v.text;
    var n := if key in counts then counts[key] + 1 else 1;
    assert vs[..i + 1] == vs[..i] + [v];
    CountKeySnoc(vs[..i], v, key);
    CountsOfStep(counts, vs[..i], v);
    assert n == Occurrence(vs, i);
    assert RenamePairsLoop(w, ps, i, counts, visited) == RenamePairsTitled(w, ps, i, counts, visited, key);
    var r := CheetahUpdateName(w, ps, i, n);
    if r.Ok? {
      var ps1 := r.value.1;
      forall j | i + 1 <= j < |ps1|
        ensures VisitOf(ps1[j]) == vs[j]
      {
        VisitKept(ps1[j], ps[j]);
      }
      RenamePairsLoopIsSpec(r.value.0, vs, ps1, i + 1, counts[key := n], visited + 1);
    }
  }

  /** `rename_pairs` gives the k-th typed pair (in iteration order) with a
      given title the repetition number k, and returns the number of typed
      pairs visited, renamed or not. */
  lemma RenamePairsNumbersRepeats(w: World, ps: seq<Pair>)
    ensures RenamePairs(w, ps) == RenamePairsSpec(w, Visits(ps), ps, 0, 0)
    ensures RenamePairs(w, ps).Ok? ==> RenamePairs(w, ps).value.2 == CountTyped(Visits(ps))
  {
    assert Visits(ps)[..0] == [];
    RenamePairsLoopIsSpec(w, Visits(ps), ps, 0, map[], 0);
  }

  /** Values linked step by step from `i` to `j` are all equal. */
  lemma {:induction false} ChainEqual<T>(f: nat -> T, i: nat, j: nat)
    requires i <= j
    requires forall k :: i <= k < j ==> f(k) == f(k + 1)
    ensures f(i) == f(j)
    decreases j - i
  {
    if i < j {
      ChainEqual(f, i + 1, j);
    }
  }

  /** A pair that `rename_pairs` skips changes nothing. */
  lemma SkipStep(w: World, ps: seq<Pair>, i: nat, counts: map<Option<string>, nat>, visited: nat)
    requires i < |ps| && VisitOf(ps[i]) == Skip
    ensures RenamePairsLoop(w, ps, i, counts, visited) == RenamePairsLoop(w, ps, i + 1, counts, visited)
  {
  }

  /** When every pair before `j` is skipped, the batch begins at pair `j`. */
  lemma SkippedTo(w: World, ps: seq<Pair>, j: nat)
    requires j <= |ps|
    requires forall k :: 0 <= k < j ==> VisitOf(ps[k]) == Skip
    ensures RenamePairs(w, ps) == RenamePairsLoop(w, ps, j, map[], 0)
  {
    var f := (k: nat) => RenamePairsLoop(w, ps, if k <= |ps| then k else |ps|, map[], 0);
    forall k | 0 <= k < j
      ensures f(k) == f(k + 1)
    {
      SkipStep(w, ps, k, map[], 0);
    }
    ChainEqual(f, 0, j);
  }

  /** The outcome of a plain topic's rename: AttributeError once its file
      has moved, with its sidecar, the map and every other pair as they
      were. */
  predicate PlainRaised(w: World, ps: seq<Pair>, j: nat, nm: string, r: Res<(World, seq<Pair>, nat)>)
    requires j < |ps|
  {
    r.Raised? && r.error == AttributeError && r.State().2 == 0
    && r.State().0.ditamap == w.ditamap
    && r.State().0.folder == FileRename(w.folder, ps[j].dita.name, nm + ps[j].dita.ext)
    && r.State().1 == ps[j := ps[j].(dita := ps[j].dita.(name := nm + ps[j].dita.ext))]
  }

  /** The first typed pair reached, when it is a plain topic that gets a new
      name, raises. */
  lemma PlainPairRaisesAt(w: World, ps: seq<Pair>, j: nat, nm: string)
    requires j < |ps|
    requires VisitOf(ps[j]).Titled? && !FromCheetah(ps[j].dita) && ps[j].dita.kind != LegalInfo
    requires !TitleMissing(ps[j].dita.content)
    requires CheetahNewName(TitleTag(ps[j].dita.content).value.text.value, ps[j].dita.content.outputclass, 1) == Success(nm)
    requires SplitExt(ps[j].dita.name).0 != nm
    ensures PlainRaised(w, ps, j, nm, RenamePairsLoop(w, ps, j, map[], 0))
  {
    CheetahUpdateNameSteps(w, ps, j, 1);
  }

  /** A plain `LocalTopic` ends the whole batch: when the first typed pair
      in iteration order is one whose title gives it a new name, the batch
      raises AttributeError once that topic's file has moved, with its
      sidecar, the map and every other pair left as they were. */
  lemma PlainPairAbortsBatch(w: World, ps: seq<Pair>, j: nat)
    requires j < |ps|
    requires forall k :: 0 <= k < j ==> VisitOf(ps[k]) == Skip
    requires VisitOf(ps[j]).Titled? && !FromCheetah(ps[j].dita) && ps[j].dita.kind != LegalInfo
    requires !TitleMissing(ps[j].dita.content)
    requires CheetahNewName(TitleTag(ps[j].dita.content).value.text.value, ps[j].dita.content.outputclass, 1).Success?
    requires SplitExt(ps[j].dita.name).0
      != CheetahNewName(TitleTag(ps[j].dita.content).value.text.value, ps[j].dita.content.outputclass, 1).value
    ensures var r := RenamePairs(w, ps);
      var nm := CheetahNewName(TitleTag(ps[j].dita.content).value.text.value, ps[j].dita.content.outputclass, 1).value;
      r.Raised? && r.error == AttributeError && r.State().2 == 0
      && r.State().0.ditamap == w.ditamap
      && r.State().0.folder == FileRename(w.folder, ps[j].dita.name, nm + ps[j].dita.ext)
      && r.State().1 == ps[j := ps[j].(dita := ps[j].dita.(name := nm + ps[j].dita.ext))]
  {
    var nm := CheetahNewName(TitleTag(ps[j].dita.content).value.text.value, ps[j].dita.content.outputclass, 1).value;
    SkippedTo(w, ps, j);
    PlainPairRaisesAt(w, ps, j, nm);
  }

  /** Two typed pairs with the same title get different numbers, the later
      one the larger: which one keeps the plain name depends only on the
      iteration order. */
  lemma OccurrencesIncrease(vs: seq<Visit>, i: nat, j: nat)
    requires i < j < |vs| && vs[i].Titled? && vs[j] == vs[i]
    ensures Occurrence(vs, i) < Occurrence(vs, j)
  {
    CountKeyMonotone(vs[..j], vs[i].text, i + 1);
    assert vs[..j][..i + 1] == vs[..i + 1];
    assert vs[..j + 1][..j] == vs[..j];
  }

  lemma {:induction false} CountKeyMonotone(s: seq<Visit>, key: Option<string>, m: nat)
    requires m <= |s|
    ensures CountKey(s[..m], key) <= CountKey(s, key) <= CountKey(s[..m], key) + (|s| - m)
    decreases |s|
  {
    if m < |s| {
      CountKeyMonotone(s[..|s| - 1], key, m);
      assert s[..|s| - 1][..m] == s[..m];
    } else {
      assert s[..m] == s;
    }
  }
}
