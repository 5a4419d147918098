/** The project folder of the later utils module (utils/local.py).

    The folder is a finite map from file name to parsed document: the DITA
    map, its topics and, for projects exported from Cheetah, one ISH sidecar
    per topic.  All files live in one folder, so a path is identified with a
    file name.  Objects in memory (the map and its topics) hold their own
    copy of the document; `write` stores that copy under the object's
    current name.
 */
module Project {
  import opened Wrappers
  import opened PyStr
  import opened XmlTree
  import opened TypeTable
  import opened Content

  // ---------------------------------------------------------------------
  // File names and the folder

  /** `os.path.splitext`: the extension runs from the last dot, unless the
      name before that dot consists of dots only. */
  function SplitExt(name: string): (r: (string, string))
    ensures r.0 + r.1 == name
    ensures r.1 == [] || (r.1[0] == '.' && forall j :: 1 <= j < |r.1| ==> r.1[j] != '.')
  {
    match RSplitOnce(name, '.')
    case None => (name, [])
    case Some((stem, e)) =>
      if forall j :: 0 <= j < |stem| ==> stem[j] == '.' then (name, [])
      else
        assert stem + ("." + e) == name;
        (stem, "." + e)
  }

  /** `file_rename(old, new)`: nothing when the source is missing or the
      destination exists; otherwise the file moves.  The branch for equal
      names cannot be reached: an existing source with an absent
      destination means the names differ. */
  function FileRename<T>(f: map<string, T>, src: string, dst: string): (r: map<string, T>)
    ensures src !in f || dst in f ==> r == f
    ensures src in f && dst !in f ==> src != dst && dst in r && r[dst] == f[src] && src !in r
    ensures dst in f ==> dst in r && r[dst] == f[dst]
    ensures forall k :: k != src && k != dst ==> (k in r <==> k in f) && (k in r ==> r[k] == f[k])
  {
    if src !in f then f
    else if dst in f then f
    else if src == dst then f
    else (f - {src})[dst := f[src]]
  }

  /** The folder, the map document held in memory, and the map's file name. */
  datatype World = World(folder: map<string, Content>, ditamap: Content, mapName: string)

  /** `LocalMap.update_topicref(old, new)`: every `topicref` at any depth
      whose href equals `old` gets href `new` (skipped when the names are
      equal), then the map is written. */
  function UpdateTopicref(w: World, oldName: string, newName: string): (r: World)
    ensures r.mapName == w.mapName && r.folder == w.folder[w.mapName := r.ditamap]
    ensures |Iter(r.ditamap.root, "topicref")| == |Iter(w.ditamap.root, "topicref")|
    ensures forall i :: 0 <= i < |Iter(w.ditamap.root, "topicref")| ==>
      Attr(Iter(r.ditamap.root, "topicref")[i], "href") == Moved(Attr(Iter(w.ditamap.root, "topicref")[i], "href"), oldName, newName)
    ensures WithoutAttr(r.ditamap.root, "topicref", "href") == WithoutAttr(w.ditamap.root, "topicref", "href")
    ensures oldName == newName ==> r.ditamap == w.ditamap
  {
    RetargetIter(w.ditamap.root, "topicref", oldName, newName);
    RetargetFrame(w.ditamap.root, "topicref", oldName, newName);
    var m := if oldName == newName then w.ditamap
             else w.ditamap.(root := Retarget(w.ditamap.root, "topicref", oldName, newName));
    w.(folder := w.folder[w.mapName := m], ditamap := m)
  }

  // ---------------------------------------------------------------------
  // Topics and sidecars

  /** Which topic class the loader chose; it decides the cast and whether
      legal information is synthesised. */
  datatype Kind = GenericTopic | ReferenceInfo | LegalInfo | ConceptTopic | TaskTopic

  /** A `LocalISHFile`: name, extension fixed at construction, document. */
  datatype Ish = Ish(name: string, ext: string, content: Content)

  /** A `LocalTopic`: current file name, the extension fixed at
      construction, its class, document, sidecar, child topics (for
      concepts) and the hrefs of its images. */
  datatype Topic = Topic(
    name: string,
    ext: string,
    kind: Kind,
    content: Content,
    ish: Option<Ish>,
    children: seq<Topic>,
    images: seq<string>)

  /** `write()`: the object's document stored under its current name. */
  function WriteTopic(w: World, t: Topic): (r: World)
    ensures r.ditamap == w.ditamap && r.mapName == w.mapName
    ensures t.name in r.folder && r.folder[t.name] == t.content
    ensures forall k :: k != t.name ==> (k in r.folder <==> k in w.folder) && (k in r.folder ==> r.folder[k] == w.folder[k])
    ensures t.name in w.folder ==> r.folder.Keys == w.folder.Keys
  {
    w.(folder := w.folder[t.name := t.content])
  }

  /** `LocalISHFile.rename_with_path(old_path, new_name)`: FTITLE becomes the
      new name, the file is renamed (unless the destination exists) and the
      document is written under the new name either way. */
  function RenameWithPath(w: World, ish: Ish, oldName: string, newName: string): (r: (World, Ish))
    ensures r.1.name == newName + ish.ext && r.1.ext == ish.ext
    ensures r.1.content == FSet(ish.content, "FTITLE", Some(newName))
    ensures r.0.ditamap == w.ditamap && r.0.mapName == w.mapName
    ensures r.1.name in r.0.folder && r.0.folder[r.1.name] == r.1.content
    ensures oldName in w.folder && r.1.name !in w.folder ==> oldName !in r.0.folder
    ensures forall k :: k != oldName && k != r.1.name ==>
      (k in r.0.folder <==> k in w.folder) && (k in r.0.folder ==> r.0.folder[k] == w.folder[k])
  {
    var c := FSet(ish.content, "FTITLE", Some(newName));
    var name := newName + ish.ext;
    var f := FileRename(w.folder, oldName, name);
    (w.(folder := f[name := c]), Ish(name, ish.ext, c))
  }

  /** `LocalTopic.rename_path(old_path, new_name)`: the object takes the new
      name at once; the file is renamed only if the destination is free. */
  function RenamePath(w: World, t: Topic, oldName: string, newName: string): (r: (World, Topic))
    ensures r.1 == t.(name := newName + t.ext)
    ensures r.1.name in w.folder ==> r.0 == w
    ensures r.0.ditamap == w.ditamap && r.0.mapName == w.mapName
    ensures r.0.folder == FileRename(w.folder, oldName, r.1.name)
  {
    var name := newName + t.ext;
    if name in w.folder then (w, t.(name := name))
    else (w.(folder := FileRename(w.folder, oldName, name)), t.(name := name))
  }
}
