/** Renaming topics after their titles (utils/local.py, `update_name` and
    `rename_topics`).

    A topic is renamed to the style-guide name of its title: the file is
    moved, the topic's own local links and the map's topicrefs are pointed
    at the new name, and the ISH sidecar follows.  `rename_topics` walks the
    map's topics in order and numbers repeated titles.
 */
module Rename {
  import opened Wrappers
  import opened PyStr
  import opened XmlTree
  import opened TypeTable
  import opened Numbering
  import opened Content
  import opened Naming
  import opened Project

  /** Legal information topics get their title and short description first,
      and are written. */
  function LegalPrelude(w: World, t: Topic): (r: Res<(World, Topic)>)
    ensures t.kind != LegalInfo ==> r == Ok((w, t))
    ensures r.State().1 == t.(content := r.State().1.content)
    ensures r.State().0.ditamap == w.ditamap && r.State().0.mapName == w.mapName
    ensures r.Raised? ==> r.State().0 == w
  {
    if t.kind != LegalInfo then Ok((w, t))
    else match AddLegalTitleAndShortdesc(t.content)
      case Raised(c, e) => Raised((w, t.(content := c)), e)
      case Ok(c) => var t1 := t.(content := c); Ok((WriteTopic(w, t1), t1))
  }

  /** The name the title asks for, when the title is present. */
  function TitleName(t: Topic, numRep: nat): Result<string>
    requires !TitleMissing(t.content)
  {
    CreateNewName(TitleTag(t.content).value.text.value, t.content.outputclass, numRep)
  }

  /** The writes that end a rename: the topic under its new name, the map
      retargeted from the old name, and the sidecar renamed. */
  function Finish(w: World, t: Topic, oldName: string, newName: string): (r: (World, Topic))
    ensures r.1 == t.(ish := r.1.ish) && r.0.mapName == w.mapName
    ensures r.0.ditamap == UpdateTopicref(WriteTopic(w, t), oldName, t.name).ditamap
    ensures forall k :: (k in w.folder && k != t.name && k != w.mapName
                         && !(t.ish.Some? && (k == t.ish.value.name || k == newName + t.ish.value.ext)))
                        ==> k in r.0.folder && r.0.folder[k] == w.folder[k]
    ensures t.ish.None? ==> forall k :: k != t.name && k != w.mapName ==> (k in r.0.folder <==> k in w.folder)
    ensures t.ish.None? && t.name != w.mapName ==> t.name in r.0.folder && r.0.folder[t.name] == t.content
  {
    var w4 := UpdateTopicref(WriteTopic(w, t), oldName, t.name);
    match t.ish
    case None => (w4, t)
    case Some(ish) =>
      var q := RenameWithPath(w4, ish, ish.name, newName);
      (q.0, t.(ish := Some(q.1)))
  }

  /** The rename proper, as written: move the file unless the destination
      exists, rewrite local links to the bare new name, then `Finish`. */
  function MoveTopic(w: World, t: Topic, newName: string): (r: Res<(World, Topic)>)
    ensures r.State().0.mapName == w.mapName
    ensures r.Raised? ==> r.error == AttributeError || r.error == TypeError
    ensures r.State().1.name == newName + t.ext
    ensures r.Ok? ==> UpdateLocalLinks(t.content, t.name, newName) == Ok(r.value.1.content)
    ensures r.Ok? ==> r.value == Finish(RenamePath(w, t, t.name, newName).0, t.(name := newName + t.ext, content := r.value.1.content), t.name, newName)
  {
    var p := RenamePath(w, t, t.name, newName);
    match UpdateLocalLinks(p.1.content, t.name, newName)
    case Raised(c, e) => Raised((p.0, p.1.(content := c)), e)
    case Ok(c) => Ok(Finish(p.0, p.1.(content := c), t.name, newName))
  }

  /** `LocalTopic.update_name(num_rep)` as written.  After the legal
      prelude: a missing title stops; a title too short to name raises
      IndexError; a name equal to the file name (extension included) stops;
      otherwise the file is renamed (unless the destination exists), the
      local links are rewritten to the name WITHOUT its extension, the topic
      is written under its new name even if that file exists, the map is
      retargeted and the sidecar renamed. */
  function UpdateName(w: World, t: Topic, numRep: nat): (r: Res<(World, Topic)>)
    ensures t.kind != LegalInfo && TitleMissing(t.content) ==> r == Ok((w, t))
    ensures r.State().0.mapName == w.mapName
  {
    match LegalPrelude(w, t)
    case Raised(p, e) => Raised(p, e)
    case Ok(q) =>
      var (w1, t1) := q;
      if TitleMissing(t1.content) then Ok((w1, t1))
      else match TitleName(t1, numRep)
        case Failure(e) => Raised((w1, t1), e)
        case Success(newName) =>
          if t1.name == newName then Ok((w1, t1))
          else MoveTopic(w1, t1, newName)
  }

  /** The path the rename takes for a topic that is not legal information
      and has a nameable title. */
  lemma UpdateNamePlain(w: World, t: Topic, numRep: nat)
    requires t.kind != LegalInfo && !TitleMissing(t.content) && TitleName(t, numRep).Success?
    requires t.name != TitleName(t, numRep).value
    ensures UpdateName(w, t, numRep) == MoveTopic(w, t, TitleName(t, numRep).value)
  {
  }

  /** The "already renamed" test compares a name with its extension against
      one without: it can only succeed for a file name without a dot, so for
      every `.dita` topic it never fires. */
  lemma AlreadyRenamedNeedsNoDot(t: Topic, numRep: nat)
    requires !TitleMissing(t.content) && TitleName(t, numRep).Success?
    requires exists j :: 0 <= j < |t.name| && t.name[j] == '.'
    ensures t.name != TitleName(t, numRep).value
  {
    var j :| 0 <= j < |t.name| && t.name[j] == '.';
    assert !IsWordChar(t.name[j]);
  }

  /** As written, the topic lands on the new name even when another file
      already had it: the refused rename leaves the old file in place and
      the write then replaces the existing file. */
  lemma UpdateNameOverwrites(w: World, t: Topic, numRep: nat)
    requires t.kind != LegalInfo && t.ish.None?
    requires !TitleMissing(t.content) && TitleName(t, numRep).Success?
    requires t.name != TitleName(t, numRep).value
    requires var n := TitleName(t, numRep).value + t.ext;
      n != t.name && n != w.mapName && n in w.folder && t.name in w.folder
    requires UpdateName(w, t, numRep).Ok?
    ensures var n := TitleName(t, numRep).value + t.ext;
      var r := UpdateName(w, t, numRep).value;
      n in r.0.folder && r.0.folder[n] == r.1.content && t.name in r.0.folder
  {
    var newName := TitleName(t, numRep).value;
    UpdateNamePlain(w, t, numRep);
    assert RenamePath(w, t, t.name, newName).0 == w;
  }

  /** A small instance: the title "Clean the Rollers" names a procedure
      `t_Clean_Rollers.dita`; a different file of that name is replaced by
      the renamed topic, while the topic's own file stays behind. */
  lemma UpdateNameOverwriteExample(w: World, t: Topic, other: Content, title: string, dest: string)
    requires title == "Clean the Rollers" && dest == "t_Clean_Rollers.dita"
    requires t.kind == GenericTopic && t.ish.None? && t.ext == ".dita" && t.name == "a.dita"
    requires !TitleMissing(t.content) && TitleTag(t.content).value.text == Some(title)
    requires t.content.outputclass == Some("procedure") && t.content.links == []
    requires w.mapName == "m.ditamap" && w.folder == map[t.name := t.content, dest := other]
    ensures UpdateName(w, t, 1).Ok?
    ensures dest in UpdateName(w, t, 1).value.0.folder && UpdateName(w, t, 1).value.0.folder[dest] == t.content
    ensures t.name in UpdateName(w, t, 1).value.0.folder
  {
    CleanTheRollersNamed(title);
    var newName := TitleName(t, 1).value;
    CleanRollersFile(newName);
    UpdateNamePlain(w, t, 1);
    UpdateNameOverwrites(w, t, 1);
  }

  /** The names of the instance above are pairwise distinct. */
  lemma CleanRollersFile(newName: string)
    requires newName == "t_Clean_Rollers"
    ensures newName + ".dita" == "t_Clean_Rollers.dita"
    ensures newName != "a.dita" && newName + ".dita" != "a.dita" && newName + ".dita" != "m.ditamap"
  {
    assert |newName| != |"a.dita"|;
  }

  /** The rename proper as evidently intended: links get the full new file
      name through the corrected rewrite, and a sidecar whose destination is
      taken is left alone. */
  function MoveTopicFixed(w: World, t: Topic, newName: string): (r: Res<(World, Topic)>)
    ensures r.State().0.mapName == w.mapName
    ensures r.State().1.name == newName + t.ext
    ensures r.Ok? ==> UpdateLocalLinksFixed(t.content, t.name, newName + t.ext) == Ok(r.value.1.content)
    ensures r.Ok? ==> r.value.0.ditamap == UpdateTopicref(WriteTopic(RenamePath(w, t, t.name, newName).0, r.value.1), t.name, newName + t.ext).ditamap
    ensures forall k :: (k in w.folder && k != t.name && k != newName + t.ext && k != w.mapName
                         && !(t.ish.Some? && (k == t.ish.value.name || k == newName + t.ish.value.ext)))
                        ==> k in r.State().0.folder && r.State().0.folder[k] == w.folder[k]
    ensures r.Ok? && t.ish.None? && newName + t.ext != w.mapName ==>
      newName + t.ext in r.value.0.folder && r.value.0.folder[newName + t.ext] == r.value.1.content
    ensures (r.Ok? && t.ish.None? && t.name != w.mapName && t.name != newName + t.ext && t.name in w.folder
             && newName + t.ext !in w.folder) ==> t.name !in r.value.0.folder
  {
    var p := RenamePath(w, t, t.name, newName);
    match UpdateLocalLinksFixed(p.1.content, t.name, newName + t.ext)
    case Raised(c, e) => Raised((p.0, p.1.(content := c)), e)
    case Ok(c) =>
      var t3 := p.1.(content := c);
      match t3.ish
      case None => Ok(Finish(p.0, t3, t.name, newName))
      case Some(ish) =>
        if newName + ish.ext in p.0.folder then
          var w4 := UpdateTopicref(WriteTopic(p.0, t3), t.name, t3.name);
          Ok((w4, t3))
        else Ok(Finish(p.0, t3, t.name, newName))
  }

  /** `update_name` as evidently intended: the destination is checked
      before anything is written. */
  function UpdateNameFixed(w: World, t: Topic, numRep: nat): (r: Res<(World, Topic)>)
    ensures t.kind != LegalInfo && TitleMissing(t.content) ==> r == Ok((w, t))
    ensures r.State().0.mapName == w.mapName
  {
    match LegalPrelude(w, t)
    case Raised(p, e) => Raised(p, e)
    case Ok(q) =>
      var (w1, t1) := q;
      if TitleMissing(t1.content) then Ok((w1, t1))
      else match TitleName(t1, numRep)
        case Failure(e) => Raised((w1, t1), e)
        case Success(newName) =>
          if t1.name == newName + t1.ext || newName + t1.ext in w1.folder then Ok((w1, t1))
          else MoveTopicFixed(w1, t1, newName)
  }

  lemma UpdateNameFixedPlain(w: World, t: Topic, numRep: nat)
    requires t.kind != LegalInfo && !TitleMissing(t.content) && TitleName(t, numRep).Success?
    requires var n := TitleName(t, numRep).value + t.ext; n != t.name && n !in w.folder
    ensures UpdateNameFixed(w, t, numRep) == MoveTopicFixed(w, t, TitleName(t, numRep).value)
  {
  }

  /** The names a rename may touch: the topic's own file, the map, and the
      sidecar's file. */
  predicate Touchable(w: World, t: Topic, k: string) {
    k == t.name || k == w.mapName || (t.ish.Some? && k == t.ish.value.name)
  }

  /** The corrected rename never overwrites: every file other than the
      topic, the map and the sidecar keeps its content. */
  lemma UpdateNameFixedNoOverwrite(w: World, t: Topic, numRep: nat, k: string)
    requires k in w.folder && !Touchable(w, t, k)
    ensures k in UpdateNameFixed(w, t, numRep).State().0.folder
    ensures UpdateNameFixed(w, t, numRep).State().0.folder[k] == w.folder[k]
  {
    match LegalPrelude(w, t)
    case Raised(_, _) =>
    case Ok(q) =>
      var (w1, t1) := q;
      assert t1.name == t.name && t1.ish == t.ish && t1.ext == t.ext;
      assert k in w1.folder && w1.folder[k] == w.folder[k];
      if !TitleMissing(t1.content) && TitleName(t1, numRep).Success? {
        var newName := TitleName(t1, numRep).value;
        if t1.name != newName + t1.ext && newName + t1.ext !in w1.folder {
          assert UpdateNameFixed(w, t, numRep) == MoveTopicFixed(w1, t1, newName);
          if t1.ish.Some? && k == newName + t1.ish.value.ext {
            MoveTopicFixedKeepsTaken(w1, t1, newName, k);
          }
        }
      }
  }

  /** A file already under the sidecar's new name stays as it was: the
      corrected rename leaves the sidecar alone then. */
  lemma MoveTopicFixedKeepsTaken(w: World, t: Topic, newName: string, k: string)
    requires t.ish.Some? && k == newName + t.ish.value.ext && k in w.folder
    requires k != t.name && k != newName + t.ext && k != w.mapName
    ensures k in MoveTopicFixed(w, t, newName).State().0.folder
    ensures MoveTopicFixed(w, t, newName).State().0.folder[k] == w.folder[k]
  {
    var p := RenamePath(w, t, t.name, newName);
    assert k in p.0.folder && p.0.folder[k] == w.folder[k];
  }

  /** The corrected rename moves the file: when it succeeds and the name
      changes, the old name is gone, the new name holds the topic, and
      every topicref that pointed at the old name points at the new one. */
  lemma UpdateNameFixedMoves(w: World, t: Topic, numRep: nat, i: nat)
    requires t.kind != LegalInfo && t.ish.None?
    requires !TitleMissing(t.content) && TitleName(t, numRep).Success?
    requires var n := TitleName(t, numRep).value + t.ext; n != t.name && n !in w.folder && n != w.mapName
    requires t.name in w.folder && t.name != w.mapName
    requires UpdateNameFixed(w, t, numRep).Ok?
    requires i < |Iter(w.ditamap.root, "topicref")| && Attr(Iter(w.ditamap.root, "topicref")[i], "href") == Some(t.name)
    ensures var n := TitleName(t, numRep).value + t.ext;
      var r := UpdateNameFixed(w, t, numRep).value;
      r.1.name == n && n in r.0.folder && r.0.folder[n] == r.1.content && t.name !in r.0.folder
      && i < |Iter(r.0.ditamap.root, "topicref")| && Attr(Iter(r.0.ditamap.root, "topicref")[i], "href") == Some(n)
  {
    UpdateNameFixedPlain(w, t, numRep);
  }

  /** As written, a local link that named the old file now names the new
      title without the extension, which is not the file's new name. */
  lemma UpdateNameLinkLosesExtension(w: World, t: Topic, numRep: nat, k: nat)
    requires t.kind != LegalInfo && t.ext != []
    requires !TitleMissing(t.content) && TitleName(t, numRep).Success?
    requires t.name != TitleName(t, numRep).value && t.name != []
    requires WellFormed(t.content)
    requires t.content.links == [k] && NodeHref(t.content, k) == Some(t.name)
    requires UpdateName(w, t, numRep).Ok?
    ensures var r := UpdateName(w, t, numRep).value;
      NodeHref(r.1.content, k) == Some(TitleName(t, numRep).value) && NodeHref(r.1.content, k) != Some(r.1.name)
  {
    var newName := TitleName(t, numRep).value;
    var c := t.content;
    UpdateNamePlain(w, t, numRep);
    UpdateLocalLinksOneMatch(c, t.name, newName);
    UpdateLocalLinksFixedCorrect(c, t.name, newName, k);
    assert |newName + t.ext| > |newName|;
  }

  /** The corrected rename points every local link that named the old file
      at the new file name. */
  lemma UpdateNameFixedLinks(w: World, t: Topic, numRep: nat, k: nat)
    requires t.kind != LegalInfo
    requires !TitleMissing(t.content) && TitleName(t, numRep).Success?
    requires var n := TitleName(t, numRep).value + t.ext; n != t.name && n !in w.folder
    requires t.name != [] && WellFormed(t.content)
    requires k in t.content.links && NodeHref(t.content, k) == Some(t.name)
    requires UpdateNameFixed(w, t, numRep).Ok?
    ensures var r := UpdateNameFixed(w, t, numRep).value;
      NodeHref(r.1.content, k) == Some(r.1.name)
  {
    var full := TitleName(t, numRep).value + t.ext;
    UpdateNameFixedPlain(w, t, numRep);
    UpdateLocalLinksFixedCorrect(t.content, t.name, full, k);
  }

  // ---------------------------------------------------------------------
  // rename_topics

  /** The topics `rename_topics` considers: the root is a typed topic. */
  predicate Eligible(t: Topic) {
    t.content.root.tag in Doctypes
  }

  /** The counter key: the title text at the time of the visit. */
  function TitleKey(t: Topic): Option<string>
    requires TitleTag(t.content).Some?
  {
    TitleTag(t.content).value.text
  }

  /** Eligible topics with a title in `ts` whose title text is `key`. */
  function CountKey(ts: seq<Topic>, key: Option<string>): (r: nat)
    ensures r <= |ts|
    decreases |ts|
  {
    if ts == [] then 0
    else
      var last := ts[|ts| - 1];
      CountKey(ts[..|ts| - 1], key)
        + (if Eligible(last) && TitleTag(last.content).Some? && TitleKey(last) == key then 1 else 0)
  }

  /** The number of eligible topics. */
  function CountEligible(ts: seq<Topic>): (r: nat)
    ensures r <= |ts|
    decreases |ts|
  {
    if ts == [] then 0 else CountEligible(ts[..|ts| - 1]) + (if Eligible(ts[|ts| - 1]) then 1 else 0)
  }

  /** The repetition number of the i-th topic: its title's occurrences
      among the eligible topics up to and including it. */
  function Occurrence(ts: seq<Topic>, i: nat): (r: nat)
    requires i < |ts| && TitleTag(ts[i].content).Some?
  {
    CountKey(ts[..i + 1], TitleKey(ts[i]))
  }

  /** The counter map agrees with `CountKey` on the topics seen so far. */
  ghost predicate CountsOf(counts: map<Option<string>, nat>, seen: seq<Topic>) {
    forall key :: (key in counts <==> CountKey(seen, key) > 0) && (key in counts ==> counts[key] == CountKey(seen, key))
  }

  /** The loop of `rename_topics` from topic `i` on: `topics` holds the
      topics, those before `i` already processed. */
  function RenameLoop(w: World, topics: seq<Topic>, i: nat, counts: map<Option<string>, nat>, renamed: nat): (r: Res<(World, seq<Topic>, nat)>)
    requires i <= |topics|
    ensures |r.State().1| == |topics|
    decreases |topics| - i
  {
    if i == |topics| then Ok((w, topics, renamed))
    else
      var t := topics[i];
      if !Eligible(t) then RenameLoop(w, topics, i + 1, counts, renamed)
      else if TitleTag(t.content).None? then Raised((w, topics, renamed), AttributeError)
      else
        var key := TitleKey(t);
        var n := if key in counts then counts[key] + 1 else 1;
        match UpdateName(w, t, n)
        case Raised((w1, t1), e) => Raised((w1, topics[i := t1], renamed), e)
        case Ok((w1, t1)) => RenameLoop(w1, topics[i := t1], i + 1, counts[key := n], renamed + 1)
  }

  /** `LocalMap.rename_topics()`: the result is the world, the topics after
      renaming and the number of eligible topics visited. */
  function RenameTopics(w: World, topics: seq<Topic>): (r: Res<(World, seq<Topic>, nat)>)
    ensures |r.State().1| == |topics|
  {
    RenameLoop(w, topics, 0, map[], 0)
  }

  /** Reference definition: visit the topics in order and call
      `update_name` on each eligible one with its occurrence number, counted
      over the original topics. */
  function RenameSpec(w: World, orig: seq<Topic>, topics: seq<Topic>, i: nat, renamed: nat): (r: Res<(World, seq<Topic>, nat)>)
    requires i <= |orig| == |topics|
    decreases |orig| - i
  {
    if i == |orig| then Ok((w, topics, renamed))
    else
      var t := orig[i];
      if !Eligible(t) then RenameSpec(w, orig, topics, i + 1, renamed)
      else if TitleTag(t.content).None? then Raised((w, topics, renamed), AttributeError)
      else
        match UpdateName(w, t, Occurrence(orig, i))
        case Raised((w1, t1), e) => Raised((w1, topics[i := t1], renamed), e)
        case Ok((w1, t1)) => RenameSpec(w1, orig, topics[i := t1], i + 1, renamed + 1)
  }

  lemma CountKeySnoc(ts: seq<Topic>, t: Topic, key: Option<string>)
    ensures CountKey(ts + [t], key) ==
      CountKey(ts, key) + (if Eligible(t) && TitleTag(t.content).Some? && TitleKey(t) == key then 1 else 0)
  {
    assert (ts + [t])[..|ts|] == ts;
  }

  lemma CountEligibleSnoc(ts: seq<Topic>, t: Topic)
    ensures CountEligible(ts + [t]) == CountEligible(ts) + (if Eligible(t) then 1 else 0)
  {
    assert (ts + [t])[..|ts|] == ts;
  }

  /** A topic that is not eligible leaves every count unchanged. */
  lemma CountsOfSkip(counts: map<Option<string>, nat>, seen: seq<Topic>, t: Topic)
    requires CountsOf(counts, seen) && !Eligible(t)
    ensures CountsOf(counts, seen + [t])
  {
    forall key
      ensures CountKey(seen + [t], key) == CountKey(seen, key)
    {
      CountKeySnoc(seen, t, key);
    }
  }

  /** An eligible titled topic bumps the count of its own title only. */
  lemma CountsOfStep(counts: map<Option<string>, nat>, seen: seq<Topic>, t: Topic)
    requires CountsOf(counts, seen) && Eligible(t) && TitleTag(t.content).Some?
    ensures var key := TitleKey(t);
      CountsOf(counts[key := if key in counts then counts[key] + 1 else 1], seen + [t])
  {
    var key := TitleKey(t);
    forall k
      ensures CountKey(seen + [t], k) == CountKey(seen, k) + (if k == key then 1 else 0)
    {
      CountKeySnoc(seen, t, k);
    }
  }

  /** The loop keeps its counter equal to the occurrence counts, so it is
      the reference definition. */
  lemma {:induction false} RenameLoopIsSpec(w: World, orig: seq<Topic>, topics: seq<Topic>, i: nat, counts: map<Option<string>, nat>, renamed: nat)
    requires i <= |orig| == |topics|
    requires topics[i..] == orig[i..]
    requires CountsOf(counts, orig[..i])
    ensures RenameLoop(w, topics, i, counts, renamed) == RenameSpec(w, orig, topics, i, renamed)
    decreases |orig| - i, 1
  {
    if i == |orig| {
      assert orig[..i] == orig;
    } else {
      var t := orig[i];
      assert topics[i] == orig[i] by { assert topics[i..][0] == orig[i..][0]; }
      assert orig[..i + 1] == orig[..i] + [t];
      if !Eligible(t) {
        CountsOfSkip(counts, orig[..i], t);
        assert topics[i + 1..] == orig[i + 1..] by { assert topics[i + 1..] == topics[i..][1..]; }
        RenameLoopIsSpec(w, orig, topics, i + 1, counts, renamed);
      } else if TitleTag(t.content).Some? {
        RenameLoopIsSpecRenamed(w, orig, topics, i, counts, renamed);
      }
    }
  }

  /** The step of `RenameLoopIsSpec` for an eligible topic with a title. */
  lemma {:induction false} RenameLoopIsSpecRenamed(w: World, orig: seq<Topic>, topics: seq<Topic>, i: nat, counts: map<Option<string>, nat>, renamed: nat)
    requires i < |orig| == |topics|
    requires topics[i..] == orig[i..]
    requires CountsOf(counts, orig[..i])
    requires Eligible(orig[i]) && TitleTag(orig[i].content).Some?
    ensures RenameLoop(w, topics, i, counts, renamed) == RenameSpec(w, orig, topics, i, renamed)
    decreases |orig| - i, 0
  {
    var t := orig[i];
    assert topics[i] == orig[i] by { assert topics[i..][0] == orig[i..][0]; }
    assert orig[..i + 1] == orig[..i] + [t];
    var key := TitleKey(t);
    var n := if key in counts then counts[key] + 1 else 1;
    CountKeySnoc(orig[..i], t, key);
    assert n == Occurrence(orig, i);
    CountsOfStep(counts, orig[..i], t);
    match UpdateName(w, t, n)
    case Raised(_, _) =>
    case Ok((w1, t1)) =>
      assert topics[i := t1][i + 1..] == orig[i + 1..] by {
        assert topics[i := t1][i + 1..] == topics[i + 1..] == topics[i..][1..];
      }
      RenameLoopIsSpec(w1, orig, topics[i := t1], i + 1, counts[key := n], renamed + 1);
  }

  /** `rename_topics` renames the k-th eligible topic with a given title
      with repetition number k, and returns the number of eligible topics,
      including those `update_name` then skipped. */
  lemma RenameTopicsNumbersRepeats(w: World, topics: seq<Topic>)
    ensures RenameTopics(w, topics) == RenameSpec(w, topics, topics, 0, 0)
    ensures RenameTopics(w, topics).Ok? ==> RenameTopics(w, topics).value.2 == CountEligible(topics)
  {
    assert topics[..0] == [];
    RenameLoopIsSpec(w, topics, topics, 0, map[], 0);
    RenameSpecCounts(w, topics, topics, 0, 0);
  }

  /** The reference definition's tally grows by one for each eligible
      topic it passes. */
  lemma {:induction false} RenameSpecCounts(w: World, orig: seq<Topic>, topics: seq<Topic>, i: nat, renamed: nat)
    requires i <= |orig| == |topics|
    ensures RenameSpec(w, orig, topics, i, renamed).Ok? ==>
      RenameSpec(w, orig, topics, i, renamed).value.2 == renamed + CountEligible(orig) - CountEligible(orig[..i])
    decreases |orig| - i
  {
    if i == |orig| {
      assert orig[..i] == orig;
    } else {
      var t := orig[i];
      assert orig[..i + 1] == orig[..i] + [t];
      CountEligibleSnoc(orig[..i], t);
      if !Eligible(t) {
        RenameSpecCounts(w, orig, topics, i + 1, renamed);
      } else if TitleTag(t.content).Some? {
        match UpdateName(w, t, Occurrence(orig, i))
        case Raised(_, _) =>
        case Ok((w1, t1)) =>
          RenameSpecCounts(w1, orig, topics[i := t1], i + 1, renamed + 1);
      }
    }
  }

  /** Two eligible topics with the same title get different numbers, the
      later one the larger. */
  lemma OccurrencesIncrease(ts: seq<Topic>, i: nat, j: nat)
    requires i < j < |ts|
    requires Eligible(ts[i]) && Eligible(ts[j])
    requires TitleTag(ts[i].content).Some? && TitleTag(ts[j].content).Some?
    requires TitleKey(ts[i]) == TitleKey(ts[j])
    ensures Occurrence(ts, i) < Occurrence(ts, j)
  {
    CountKeyPrefix(ts[..j + 1], j, TitleKey(ts[j]), i + 1);
    assert ts[..j + 1][..i + 1] == ts[..i + 1];
  }

  /** Counting over a prefix ending before an eligible match gives less. */
  lemma {:induction false} CountKeyPrefix(s: seq<Topic>, j: nat, key: Option<string>, m: nat)
    requires m <= j < |s| && j == |s| - 1
    requires Eligible(s[j]) && TitleTag(s[j].content).Some? && TitleKey(s[j]) == key
    ensures CountKey(s[..m], key) < CountKey(s, key)
  {
    CountKeyMonotone(s[..j], key, m);
    assert s[..j][..m] == s[..m];
    assert s[..|s| - 1] == s[..j];
  }

  lemma {:induction false} CountKeyMonotone(s: seq<Topic>, key: Option<string>, m: nat)
    requires m <= |s|
    ensures CountKey(s[..m], key) <= CountKey(s, key)
    decreases |s|
  {
    if m < |s| {
      CountKeyMonotone(s[..|s| - 1], key, m);
      assert s[..|s| - 1][..m] == s[..m];
    } else {
      assert s[..m] == s;
    }
  }
}
