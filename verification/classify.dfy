/** Loading a project (utils/local.py): telling a Cheetah export from a Word
    export by the folder listing, and building one topic object per
    `topicref` of the map.

    Each topicref's file is parsed once to decide its class: an explicit
    `outputclass` wins, a topicref with nested topicrefs is a `context`, and
    anything else is classified by `detect_type`.  The class selects the
    topic object, nested topicrefs of a context are loaded as its children,
    the map's `type` attributes are set from the type table, and the topic
    is cast to its shape.  A failed cast is swallowed and leaves the
    document half converted in memory, unwritten; every other failure
    aborts the load.
 */
module Classify {
  import opened Wrappers
  import opened PyStr
  import opened XmlTree
  import opened TypeTable
  import opened Content
  import opened Normaliser
  import opened Project
  import opened Naming
  import opened TopicImages

  // ---------------------------------------------------------------------
  // Where the project comes from

  datatype Source = Cheetah | Word

  /** `fl.split('.')[-1]`: the text after the last dot, or the whole name. */
  function ExtField(name: string): string {
    match RSplitOnce(name, '.')
    case None => name
    case Some((_, e)) => e
  }

  /** How many names of the listing fall under the extension. */
  function CountExt(files: seq<string>, ext: string): (r: nat)
    ensures r <= |files|
    ensures r == 0 <==> forall i :: 0 <= i < |files| ==> ExtField(files[i]) != ext
    decreases |files|
  {
    if files == [] then 0
    else
      assert forall i :: 1 <= i < |files| ==> files[i] == files[1..][i - 1];
      (if ExtField(files[0]) == ext then 1 else 0) + CountExt(files[1..], ext)
  }

  /** `check_project_folder_content`: a folder with ISH sidecars is a Cheetah
      export when it holds as many topics as sidecars; with a different count
      the check only logs and returns None; a folder with sidecars but no
      topic file fails on the dictionary lookup.  Without sidecars it is a
      Word export. */
  function ProjectSource(files: seq<string>, dita: string, ish: string): (r: Result<Option<Source>>)
    requires dita == "dita" && ish == "3sish"
    ensures r == Success(Some(Word)) <==> forall i :: 0 <= i < |files| ==> ExtField(files[i]) != ish
    ensures r.Failure? <==>
      (exists i :: 0 <= i < |files| && ExtField(files[i]) == ish)
      && (forall i :: 0 <= i < |files| ==> ExtField(files[i]) != dita)
    ensures r.Failure? ==> r.error == KeyError
    ensures r == Success(Some(Cheetah)) <==> 0 < CountExt(files, ish) == CountExt(files, dita)
  {
    var sidecars := CountExt(files, ish);
    if sidecars == 0 then Success(Some(Word))
    else if CountExt(files, dita) == 0 then Failure(KeyError)
    else if CountExt(files, dita) != sidecars then Success(None)
    else Success(Some(Cheetah))
  }

  lemma {:induction false} CountExtAppend(a: seq<string>, b: seq<string>, ext: string)
    ensures CountExt(a + b, ext) == CountExt(a, ext) + CountExt(b, ext)
    decreases |a|
  {
    if a == [] {
      assert a + b == b;
    } else {
      assert (a + b)[0] == a[0];
      assert (a + b)[1..] == a[1..] + b;
      CountExtAppend(a[1..], b, ext);
    }
  }

  /** Taking one name out of the listing takes its contribution out of
      the count. */
  lemma CountExtRemove(b: seq<string>, k: nat, ext: string)
    requires k < |b|
    ensures CountExt(b, ext) == (if ExtField(b[k]) == ext then 1 else 0) + CountExt(b[..k] + b[k + 1..], ext)
  {
    assert b == b[..k] + ([b[k]] + b[k + 1..]);
    CountExtAppend(b[..k], [b[k]] + b[k + 1..], ext);
    CountExtAppend([b[k]], b[k + 1..], ext);
    CountExtAppend(b[..k], b[k + 1..], ext);
  }

  /** Removing the element at `k` removes one copy of it from the multiset. */
  lemma MultisetRemove(a: seq<string>, b: seq<string>, k: nat)
    requires |a| > 0 && k < |b| && b[k] == a[0]
    requires multiset(a) == multiset(b)
    ensures multiset(a[1..]) == multiset(b[..k] + b[k + 1..])
  {
    var x := a[0];
    var rest := b[..k] + b[k + 1..];
    assert a == [x] + a[1..];
    assert b == b[..k] + [x] + b[k + 1..];
    calc {
      multiset(a[1..]);
      multiset(a) - multiset{x};
      multiset(b) - multiset{x};
      multiset(rest);
    }
  }

  /** The count does not depend on the order the listing comes in. */
  lemma {:induction false} CountExtPermutation(a: seq<string>, b: seq<string>, ext: string)
    requires multiset(a) == multiset(b)
    ensures CountExt(a, ext) == CountExt(b, ext)
    decreases |a|
  {
    if a == [] {
      assert |b| == |multiset(b)| == 0;
    } else {
      assert a[0] in multiset(b);
      var k :| 0 <= k < |b| && b[k] == a[0];
      MultisetRemove(a, b, k);
      CountExtPermutation(a[1..], b[..k] + b[k + 1..], ext);
      CountExtRemove(b, k, ext);
    }
  }

  /** `os.listdir` returns names in no particular order; the verdict is the
      same for every order. */
  lemma ProjectSourceOrderFree(a: seq<string>, b: seq<string>, dita: string, ish: string)
    requires dita == "dita" && ish == "3sish"
    requires multiset(a) == multiset(b)
    ensures ProjectSource(a, dita, ish) == ProjectSource(b, dita, ish)
  {
    CountExtPermutation(a, b, dita);
    CountExtPermutation(a, b, ish);
  }

  // ---------------------------------------------------------------------
  // Choosing the class

  /** The class a topicref's document is given: its own `outputclass`, else
      `context` when the topicref has nested topicrefs, else the detected
      type.  Legal information and covers are never guessed. */
  function ChooseClass(declared: Option<string>, nested: bool, c: Content): (r: Result<string>)
    ensures declared.Some? ==> r == Success(declared.value)
    ensures r == Success("context") <==> declared == Some("context") || (declared.None? && nested)
    ensures declared.None? && !nested ==> r == DetectType(c)
    ensures r.Success? && r.value in ["legalinformation", "lpcontext", "frontcover", "backcover"] ==> declared == Some(r.value)
    ensures r.Success? && r.value !in OutputClasses ==> declared == Some(r.value)
    ensures r.Failure? ==> declared.None? && !nested && r.error == TypeError
  {
    match declared
    case Some(oc) => Success(oc)
    case None =>
      if nested then Success("context")
      else
        var d := DetectType(c);
        assert d.Success? ==> (d.value !in {"legalinformation", "lpcontext", "frontcover", "backcover"}
          && d.value in OutputClasses) by {
          if d.Success? { DetectTypeKnown(c); }
        }
        d
  }

  /** The object `oc_object_types` builds for a class; a class outside that
      table (explanation, covers, unknown names) gets a plain topic. */
  function KindOf(oc: string): Kind {
    if oc == "referenceinformation" then ReferenceInfo
    else if oc == "procedure" then TaskTopic
    else if oc == "legalinformation" then LegalInfo
    else if oc == "context" || oc == "lpcontext" then ConceptTopic
    else GenericTopic
  }

  /** `cast()` of each topic class. */
  function Cast(k: Kind, c: Content): (r: Res<Content>)
    ensures k != TaskTopic ==> r.Ok?
    ensures c.root.tag == "topic" ==> r.State().root.tag == CastRoot(k)
  {
    match k
    case TaskTopic => ConvertToTask(c)
    case ReferenceInfo => Ok(ConvertToReference(c))
    case LegalInfo => Ok(ConvertToReference(c))
    case _ => Ok(ConvertToConcept(c))
  }

  /** The root tag a cast gives a plain topic. */
  function CastRoot(k: Kind): string {
    match k
    case TaskTopic => "task"
    case ReferenceInfo => "reference"
    case LegalInfo => "reference"
    case _ => "concept"
  }

  /** For every class with a table entry except the covers, the cast shapes a
      plain topic as the root tag the table (and so the map's `type`) names. */
  lemma CastMatchesTable(oc: string, c: Content)
    requires oc in OutputClasses && oc != "frontcover" && oc != "backcover"
    requires c.root.tag == "topic"
    ensures Cast(KindOf(oc), c).State().root.tag == OutputClasses[oc].rootTag
  {
  }

  /** A cover is loaded as a plain topic and cast to a concept, while the
      table (and so the map's `type`) calls it a reference. */
  lemma CoverCastDisagrees(oc: string, c: Content)
    requires oc == "frontcover" || oc == "backcover"
    requires c.root.tag == "topic"
    ensures KindOf(oc) == GenericTopic
    ensures Cast(KindOf(oc), c).State().root.tag == "concept" != OutputClasses[oc].rootTag
  {
  }

  // ---------------------------------------------------------------------
  // The map's type attributes

  /** Every element of the tag whose href is `name` gets `key` set to
      `value`. */
  function Stamp(e: Element, tag: string, name: string, key: string, value: string): Element
    decreases e
  {
    var cs := StampSeq(e.children, tag, name, key, value);
    if e.tag == tag && Attr(e, "href") == Some(name) then e.(attrs := e.attrs[key := value], children := cs)
    else e.(children := cs)
  }

  function StampSeq(cs: seq<Element>, tag: string, name: string, key: string, value: string): (r: seq<Element>)
    ensures |r| == |cs|
    decreases cs
  {
    if cs == [] then [] else [Stamp(cs[0], tag, name, key, value)] + StampSeq(cs[1..], tag, name, key, value)
  }

  /** The tree with attribute `key` removed from every element of the tag. */
  function WithoutKey(e: Element, tag: string, key: string): Element
    decreases e
  {
    var cs := WithoutKeySeq(e.children, tag, key);
    if e.tag == tag then e.(attrs := e.attrs - {key}, children := cs) else e.(children := cs)
  }

  function WithoutKeySeq(cs: seq<Element>, tag: string, key: string): (r: seq<Element>)
    ensures |r| == |cs|
    decreases cs
  {
    if cs == [] then [] else [WithoutKey(cs[0], tag, key)] + WithoutKeySeq(cs[1..], tag, key)
  }

  /** Stamping keeps the element list of the tag and every href, and sets
      the key exactly on the elements whose href is the name. */
  lemma {:induction false} StampIter(e: Element, tag: string, name: string, key: string, value: string)
    requires key != "href"
    ensures |Iter(Stamp(e, tag, name, key, value), tag)| == |Iter(e, tag)|
    ensures forall i :: 0 <= i < |Iter(e, tag)| ==>
      Attr(Iter(Stamp(e, tag, name, key, value), tag)[i], "href") == Attr(Iter(e, tag)[i], "href")
    ensures forall i :: 0 <= i < |Iter(e, tag)| ==>
      Attr(Iter(Stamp(e, tag, name, key, value), tag)[i], key)
        == if Attr(Iter(e, tag)[i], "href") == Some(name) then Some(value) else Attr(Iter(e, tag)[i], key)
    decreases e
  {
    StampIterSeq(e.children, tag, name, key, value);
  }

  lemma {:induction false} StampIterSeq(cs: seq<Element>, tag: string, name: string, key: string, value: string)
    requires key != "href"
    ensures |IterSeq(StampSeq(cs, tag, name, key, value), tag)| == |IterSeq(cs, tag)|
    ensures forall i :: 0 <= i < |IterSeq(cs, tag)| ==>
      Attr(IterSeq(StampSeq(cs, tag, name, key, value), tag)[i], "href") == Attr(IterSeq(cs, tag)[i], "href")
    ensures forall i :: 0 <= i < |IterSeq(cs, tag)| ==>
      Attr(IterSeq(StampSeq(cs, tag, name, key, value), tag)[i], key)
        == if Attr(IterSeq(cs, tag)[i], "href") == Some(name) then Some(value) else Attr(IterSeq(cs, tag)[i], key)
    decreases cs
  {
    if cs != [] {
      StampIter(cs[0], tag, name, key, value);
      StampIterSeq(cs[1..], tag, name, key, value);
      assert StampSeq(cs, tag, name, key, value)[1..] == StampSeq(cs[1..], tag, name, key, value);
      assert StampSeq(cs, tag, name, key, value)[0] == Stamp(cs[0], tag, name, key, value);
    }
  }

  /** Stamping changes nothing but the key on elements of the tag. */
  lemma {:induction false} StampFrame(e: Element, tag: string, name: string, key: string, value: string)
    ensures WithoutKey(Stamp(e, tag, name, key, value), tag, key) == WithoutKey(e, tag, key)
    decreases e
  {
    StampFrameSeq(e.children, tag, name, key, value);
    if e.tag == tag && Attr(e, "href") == Some(name) {
      assert e.attrs[key := value] - {key} == e.attrs - {key};
    }
  }

  lemma {:induction false} StampFrameSeq(cs: seq<Element>, tag: string, name: string, key: string, value: string)
    ensures WithoutKeySeq(StampSeq(cs, tag, name, key, value), tag, key) == WithoutKeySeq(cs, tag, key)
    decreases cs
  {
    if cs != [] {
      StampFrame(cs[0], tag, name, key, value);
      StampFrameSeq(cs[1..], tag, name, key, value);
      assert StampSeq(cs, tag, name, key, value)[1..] == StampSeq(cs[1..], tag, name, key, value);
    }
  }

  /** Some topicref of the map points at the file. */
  predicate Referenced(m: Element, name: string) {
    exists i :: 0 <= i < |Iter(m, "topicref")| && Attr(Iter(m, "topicref")[i], "href") == Some(name)
  }

  /** `update_doctype_in_map`: every topicref pointing at the topic gets the
      root tag of its class as `type`, and the map is written.  The table
      lookup happens at the first such topicref, so an unknown class raises
      there, before anything changed. */
  function UpdateDoctypeInMap(w: World, name: string, oc: string): (r: Res<World>)
    ensures r.Raised? <==> Referenced(w.ditamap.root, name) && oc !in OutputClasses
    ensures r.Raised? ==> r == Raised(w, TypeError)
    ensures r.Ok? ==> r.value.mapName == w.mapName && r.value.folder == w.folder[w.mapName := r.value.ditamap]
    ensures r.Ok? ==> r.value.ditamap == w.ditamap.(root := r.value.ditamap.root)
    ensures r.Ok? ==> WithoutKey(r.value.ditamap.root, "topicref", "type") == WithoutKey(w.ditamap.root, "topicref", "type")
    ensures r.Ok? ==> |Iter(r.value.ditamap.root, "topicref")| == |Iter(w.ditamap.root, "topicref")|
    ensures r.Ok? ==> forall i :: 0 <= i < |Iter(w.ditamap.root, "topicref")| ==>
      var x := Iter(w.ditamap.root, "topicref")[i];
      var y := Iter(r.value.ditamap.root, "topicref")[i];
      Attr(y, "href") == Attr(x, "href")
      && Attr(y, "type") == if Attr(x, "href") == Some(name) then Some(OutputClasses[oc].rootTag) else Attr(x, "type")
  {
    if !Referenced(w.ditamap.root, name) then
      StampIter(w.ditamap.root, "topicref", name, "type", "");
      StampFrame(w.ditamap.root, "topicref", name, "type", "");
      assert forall i :: 0 <= i < |Iter(w.ditamap.root, "topicref")| ==>
        Attr(Iter(w.ditamap.root, "topicref")[i], "href") != Some(name);
      Ok(w.(folder := w.folder[w.mapName := w.ditamap]))
    else if oc !in OutputClasses then Raised(w, TypeError)
    else
      var root := Stamp(w.ditamap.root, "topicref", name, "type", OutputClasses[oc].rootTag);
      StampIter(w.ditamap.root, "topicref", name, "type", OutputClasses[oc].rootTag);
      StampFrame(w.ditamap.root, "topicref", name, "type", OutputClasses[oc].rootTag);
      var m := w.ditamap.(root := root);
      Ok(w.(folder := w.folder[w.mapName := m], ditamap := m))
  }

  // ---------------------------------------------------------------------
  // Loading topics

  /** What the loader is told about the project: where it comes from, and
      the map's images as they stand when the topics are loaded. */
  datatype Env = Env(source: Source, images: seq<Image>)

  /** The outcome of a load: the value and the folder, or the exception and
      the folder as it was when the exception escaped. */
  datatype Loading<T> = Done(w: World, value: T) | Aborted(w: World, error: PyError)

  /** `etree.parse(path)` followed by `XMLContent`: the stored document,
      freshly numbered; a missing file raises. */
  function Parse(w: World, name: string): (r: Result<Content>)
    ensures r.Success? <==> name in w.folder
    ensures r.Failure? ==> r.error == FileNotFound
    ensures r.Success? ==> r.value.outputclass == Attr(w.folder[name].root, "outputclass")
    ensures r.Success? ==> (r.value.titleRef.Some? <==> Find(w.folder[name].root, "title").Some?)
  {
    if name in w.folder then Success(Load(w.folder[name].root, w.folder[name].header))
    else Failure(FileNotFound)
  }

  /** `insert_shortdesc_tag` when the parsed document has no short
      description. */
  function Filled(c: Content): Res<Content> {
    if c.shortdescRef.None? then InsertShortdesc(c) else Ok(c)
  }

  /** A topic object's constructor: the file is parsed, a missing short
      description is supplied, and `get_images` writes the captions of the
      figures that show the map's images into their `alt` and lists the
      images shown.  Nothing is written to the folder. */
  function NewTopic(w: World, name: string, kind: Kind, env: Env): (r: Loading<Topic>)
    ensures r.w == w
    ensures name !in w.folder ==> r == Aborted(w, FileNotFound)
    ensures r.Aborted? && name in w.folder ==> r.error == KeyError || r.error == AttributeError
    ensures name in w.folder && Filled(Parse(w, name).value).Ok? ==>
      (r.Aborted? <==> SomeMissing(Views(Iter(Filled(Parse(w, name).value).value.root, "fig")), env.images))
    ensures r.Done? ==> r.value.name == name && r.value.kind == kind
    ensures r.Done? ==> r.value.ext == SplitExt(name).1 && r.value.ish.None? && r.value.children == []
    ensures r.Done? ==> r.value.content.shortdescRef.Some? || IsCover(r.value.content)
    ensures r.Done? ==> ListsShown(r.value.images, env.images, Views(Iter(r.value.content.root, "fig")))
    ensures r.Done? ==> AltsHoldCaptions(Iter(r.value.content.root, "fig"), env.images)
  {
    match Parse(w, name)
    case Failure(e) => Aborted(w, e)
    case Success(c) =>
      match Filled(c)
      case Raised(_, e) => Aborted(w, e)
      case Ok(c1) =>
        match GetImages(c1, env.images)
        case Raised(_, e) => Aborted(w, e)
        case Ok(g) =>
          GetImagesAltsHold(c1, env.images);
          Done(w, Topic(name, SplitExt(name).1, kind, g.content, None, [], g.hrefs))
  }

  /** The name of a topic's ISH sidecar. */
  function SidecarName(href: string): string {
    Replace(href, ".dita", ".3sish")
  }

  /** Folder keys never disappear and only the map's key can appear. */
  predicate KeysKept(w: World, w2: World) {
    w2.mapName == w.mapName
    && (forall k :: k in w.folder ==> k in w2.folder)
    && (forall k :: k in w2.folder ==> k in w.folder || k == w.mapName)
  }

  /** Both loading invariants compose. */
  lemma LoadingTrans(a: World, b: World, c: World)
    requires KeysKept(a, b) && MapTyped(a, b) && KeysKept(b, c) && MapTyped(b, c)
    ensures KeysKept(a, c) && MapTyped(a, c)
  {
  }

  /** The map document changes in `type` attributes of topicrefs only. */
  predicate MapTyped(w: World, w2: World) {
    w2.ditamap == w.ditamap.(root := w2.ditamap.root)
    && WithoutKey(w2.ditamap.root, "topicref", "type") == WithoutKey(w.ditamap.root, "topicref", "type")
  }

  /** The first half of `get_topic_from_topicref`: the href, the parse of
      its file and the class chosen for it. */
  function TopicClass(w: World, ref: Element): (r: Result<(string, string)>)
    ensures Attr(ref, "href").None? ==> r == Failure(TypeError)
    ensures Attr(ref, "href").Some? && Attr(ref, "href").value !in w.folder ==> r == Failure(FileNotFound)
    ensures r.Success? ==> Attr(ref, "href") == Some(r.value.0) && r.value.0 in w.folder
    ensures r.Success? ==>
      ChooseClass(Parse(w, r.value.0).value.outputclass, |FindAll(ref, "topicref")| > 0, Parse(w, r.value.0).value)
        == Success(r.value.1)
  {
    match Attr(ref, "href")
    case None => Failure(TypeError)
    case Some(href) =>
      match Parse(w, href)
      case Failure(e) => Failure(e)
      case Success(probe) =>
        match ChooseClass(probe.outputclass, |FindAll(ref, "topicref")| > 0, probe)
        case Failure(e) => Failure(e)
        case Success(oc) => Success((href, oc))
  }

  /** `set_outputclass`, `update_doctype_in_map` and the guarded `cast()`:
      only the document of the topic changes; a failed cast keeps the half
      converted document and skips the write. */
  function TypeAndCast(w: World, t: Topic, oc: string): (r: Res<(World, Topic)>)
    requires t.name in w.folder
    ensures KeysKept(w, r.State().0) && MapTyped(w, r.State().0)
    ensures r.Raised? ==> r == Raised((w, t), TypeError)
    ensures r.Ok? ==> r.value.1 == t.(content := r.value.1.content)
    ensures r.Ok? ==> r.value.1.content.outputclass == Some(oc)
    ensures r.Ok? && t.content.root.tag == "topic" ==> r.value.1.content.root.tag == CastRoot(t.kind)
  {
    var c1 := SetOutputclass(t.content, oc);
    match UpdateDoctypeInMap(w, t.name, oc)
    case Raised(_, e) => Raised((w, t), e)
    case Ok(w1) =>
      var cast := Cast(t.kind, c1);
      var t2 := t.(content := cast.State());
      Ok((if cast.Ok? then WriteTopic(w1, t2) else w1, t2))
  }

  /** The second half of `get_topic_from_topicref`, once the object and its
      children exist; a Cheetah project's sidecar is loaded last. */
  function Complete(w: World, t: Topic, oc: string, env: Env): (r: Loading<Topic>)
    requires t.name in w.folder && t.ish.None?
    ensures KeysKept(w, r.w) && MapTyped(w, r.w)
    ensures r.Done? ==> r.value.name == t.name && r.value.kind == t.kind && r.value.children == t.children
    ensures r.Done? ==> r.value.content.outputclass == Some(oc)
    ensures r.Done? ==> (r.value.ish.Some? <==> env.source == Cheetah)
    ensures r.Aborted? && env.source == Word ==> r.error == TypeError
  {
    match TypeAndCast(w, t, oc)
    case Raised((w1, _), e) => Aborted(w1, e)
    case Ok((w1, t1)) =>
      if env.source.Word? then Done(w1, t1)
      else
        var ishName := SidecarName(t.name);
        match Parse(w1, ishName)
        case Failure(e) => Aborted(w1, e)
        case Success(ic) => Done(w1, t1.(ish := Some(Ish(ishName, SplitExt(ishName).1, ic))))
  }

  /** `get_topic_from_topicref`. */
  function LoadTopic(w: World, ref: Element, env: Env): (r: Loading<Topic>)
    ensures KeysKept(w, r.w) && MapTyped(w, r.w)
    ensures Attr(ref, "href").None? ==> r == Aborted(w, TypeError)
    ensures Attr(ref, "href").Some? && Attr(ref, "href").value !in w.folder ==> r == Aborted(w, FileNotFound)
    ensures r.Done? ==> Attr(ref, "href") == Some(r.value.name)
    decreases ref, |ref.children| + 1
  {
    match TopicClass(w, ref)
    case Failure(e) => Aborted(w, e)
    case Success((href, oc)) =>
      var kind := KindOf(oc);
      match NewTopic(w, href, kind, env)
      case Aborted(w1, e) => Aborted(w1, e)
      case Done(_, t0) =>
        if kind != ConceptTopic then Complete(w, t0, oc, env)
        else
          match LoadChildren(w, ref, 0, env)
          case Aborted(w2, e) => Aborted(w2, e)
          case Done(w2, children) =>
            LoadingTrans(w, w2, Complete(w2, t0.(children := children), oc, env).w);
            Complete(w2, t0.(children := children), oc, env)
  }

  /** What a successful load produced: the topic is named after the href,
      carries the chosen class and the object kind for it, has one child per
      nested topicref exactly when it is a context, and has a sidecar
      exactly for a Cheetah project. */
  lemma LoadTopicFacts(w: World, ref: Element, env: Env)
    requires LoadTopic(w, ref, env).Done?
    ensures var t := LoadTopic(w, ref, env).value;
      var oc := TopicClass(w, ref).value.1;
      Attr(ref, "href") == Some(t.name)
      && t.content.outputclass == Some(oc)
      && t.kind == KindOf(oc)
      && (t.kind == ConceptTopic ==> |t.children| == |FindAll(ref, "topicref")|)
      && (t.kind != ConceptTopic ==> t.children == [])
      && (t.ish.Some? <==> env.source == Cheetah)
  {
    assert ref.children[0..] == ref.children;
  }

  /** The list comprehension over the nested topicrefs, from child `j` on. */
  function LoadChildren(w: World, parent: Element, j: nat, env: Env): (r: Loading<seq<Topic>>)
    requires j <= |parent.children|
    ensures KeysKept(w, r.w) && MapTyped(w, r.w)
    ensures r.Done? ==> |r.value| == |FilterTag(parent.children[j..], "topicref")|
    decreases parent, |parent.children| - j
  {
    if j == |parent.children| then Done(w, [])
    else
      FilterTagFrom(parent.children, j, "topicref");
      if parent.children[j].tag != "topicref" then LoadChildren(w, parent, j + 1, env)
      else
        match LoadTopic(w, parent.children[j], env)
        case Aborted(w1, e) => Aborted(w1, e)
        case Done(w1, t) =>
          Prepend(w, w1, t, LoadChildren(w1, parent, j + 1, env))
  }

  /** A loaded topic put in front of the rest of the comprehension, or the
      rest's error. */
  function Prepend(w: World, w1: World, t: Topic, rest: Loading<seq<Topic>>): (r: Loading<seq<Topic>>)
    requires KeysKept(w, w1) && MapTyped(w, w1) && KeysKept(w1, rest.w) && MapTyped(w1, rest.w)
    ensures KeysKept(w, r.w) && MapTyped(w, r.w)
    ensures r.Done? <==> rest.Done?
    ensures r.Done? ==> r.value == [t] + rest.value
  {
    LoadingTrans(w, w1, rest.w);
    match rest
    case Aborted(w2, e) => Aborted(w2, e)
    case Done(w2, ts) => Done(w2, [t] + ts)
  }

  /** Filtering from position j counts that child, then the rest. */
  lemma FilterTagFrom(cs: seq<Element>, j: nat, tag: string)
    requires j < |cs|
    ensures |FilterTag(cs[j..], tag)| == (if cs[j].tag == tag then 1 else 0) + |FilterTag(cs[j + 1..], tag)|
  {
    assert cs[j..][1..] == cs[j + 1..];
  }

  /** `get_topics`: one topic per topicref of the map, at any depth and in
      document order.  Loading sets only `type` attributes, so the list of
      topicrefs read at the start is the list the iteration sees. */
  function LoadAll(w: World, refs: seq<Element>, env: Env): (r: Loading<seq<Topic>>)
    ensures KeysKept(w, r.w) && MapTyped(w, r.w)
    ensures r.Done? ==> |r.value| == |refs|
    decreases |refs|, 1
  {
    if refs == [] then Done(w, [])
    else
      match LoadTopic(w, refs[0], env)
      case Aborted(w1, e) => Aborted(w1, e)
      case Done(w1, t) => LoadRest(w, w1, t, refs[1..], env)
  }

  /** The rest of the topicrefs, loaded after the topic `t` left the world
      at `w1`. */
  function LoadRest(w: World, w1: World, t: Topic, rest: seq<Element>, env: Env): (r: Loading<seq<Topic>>)
    requires KeysKept(w, w1) && MapTyped(w, w1)
    ensures KeysKept(w, r.w) && MapTyped(w, r.w)
    ensures r.Done? ==> |r.value| == |rest| + 1 && r.value[0] == t
    decreases |rest| + 1, 0
  {
    match LoadAll(w1, rest, env)
    case Aborted(w2, e) => LoadingTrans(w, w1, w2); Aborted(w2, e)
    case Done(w2, ts) =>
      LoadingTrans(w, w1, w2);
      Done(w2, [t] + ts)
  }

  /** The i-th topic loaded is the one the i-th topicref names. */
  lemma {:induction false} LoadAllNames(w: World, refs: seq<Element>, env: Env)
    requires LoadAll(w, refs, env).Done?
    ensures forall i :: 0 <= i < |refs| ==> Attr(refs[i], "href") == Some(LoadAll(w, refs, env).value[i].name)
    decreases |refs|
  {
    if refs != [] {
      LoadAllCons(w, refs, env);
      var first := LoadTopic(w, refs[0], env);
      LoadAllNames(first.w, refs[1..], env);
      NamesCons(refs, first.value, LoadAll(first.w, refs[1..], env).value);
    }
  }

  /** A finished load of several topicrefs is the first topic followed by
      the load of the rest. */
  lemma LoadAllCons(w: World, refs: seq<Element>, env: Env)
    requires refs != [] && LoadAll(w, refs, env).Done?
    ensures LoadTopic(w, refs[0], env).Done?
    ensures LoadAll(LoadTopic(w, refs[0], env).w, refs[1..], env).Done?
    ensures LoadAll(w, refs, env).value == [LoadTopic(w, refs[0], env).value] + LoadAll(LoadTopic(w, refs[0], env).w, refs[1..], env).value
  {
  }

  /** Names that match the refs after the first still match with the first
      topic put in front. */
  lemma NamesCons(refs: seq<Element>, t: Topic, ts: seq<Topic>)
    requires refs != [] && |ts| == |refs| - 1
    requires Attr(refs[0], "href") == Some(t.name)
    requires forall i :: 0 <= i < |refs| - 1 ==> Attr(refs[1..][i], "href") == Some(ts[i].name)
    ensures forall i :: 0 <= i < |refs| ==> Attr(refs[i], "href") == Some(([t] + ts)[i].name)
  {
    forall i | 1 <= i < |refs|
      ensures Attr(refs[i], "href") == Some(([t] + ts)[i].name)
    {
      assert refs[i] == refs[1..][i - 1];
    }
  }

  function GetTopics(w: World, env: Env): (r: Loading<seq<Topic>>)
    ensures KeysKept(w, r.w) && MapTyped(w, r.w)
    ensures r.Done? ==> |r.value| == |Iter(w.ditamap.root, "topicref")|
    ensures r.Done? ==> forall i :: 0 <= i < |r.value| ==>
      Attr(Iter(w.ditamap.root, "topicref")[i], "href") == Some(r.value[i].name)
  {
    var refs := Iter(w.ditamap.root, "topicref");
    var r := LoadAll(w, refs, env);
    assert r.Done? ==> forall i :: 0 <= i < |refs| ==> Attr(refs[i], "href") == Some(r.value[i].name) by {
      if r.Done? {
        LoadAllNames(w, refs, env);
      }
    }
    r
  }
}
