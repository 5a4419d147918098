/** The Flare image renamer: every image file of a Flare project's picture
    folder gets the prefix `img_`, and every `img` element of every topic
    whose `src` ends in that file name is pointed at the new name.

    The two folders are maps from file name to content; `os.listdir` is an
    input sequence of names, since its order is the file system's.
 */
module Flare {
  import opened Wrappers
  import opened PyStr
  import opened XmlTree
  import opened LegacyLocal

  /** The picture folder and the topic folder of a Flare project. */
  datatype Project<T> = Project(images: map<string, T>, topics: map<string, Element>)

  // ---------------------------------------------------------------------
  // rename_image_file

  const LowerExtensions: seq<string> := [".png", ".gif", ".jpg", ".eps", ".cdr", ".wmf"]

  /** The six extensions followed by their upper-case forms. */
  function ImageExtensions(): (r: seq<string>)
    ensures |r| == 2 * |LowerExtensions|
    ensures forall i :: 0 <= i < |LowerExtensions| ==> r[i] == LowerExtensions[i]
    ensures forall i :: 0 <= i < |LowerExtensions| ==> r[|LowerExtensions| + i] == Upper(LowerExtensions[i])
  {
    LowerExtensions + seq(|LowerExtensions|, i requires 0 <= i < |LowerExtensions| => Upper(LowerExtensions[i]))
  }

  /** `s.endswith(tuple(exts))`. */
  predicate EndsWithAny(s: string, exts: seq<string>) {
    exists i :: 0 <= i < |exts| && EndsWith(s, exts[i])
  }

  predicate IsImageFile(name: string) {
    EndsWithAny(name, ImageExtensions())
  }

  const Prefix: string := "img_"

  /** The name an image file is renamed to; None for any other file. */
  function FlareImageName(filename: string): (r: Option<string>)
    ensures r.Some? <==> IsImageFile(filename)
    ensures r.Some? ==> |r.value| == |filename| + 4 && IsPrefix(Prefix, r.value) && r.value[4..] == filename
  {
    if IsImageFile(filename) then Some(Prefix + filename) else None
  }

  /** Two image files never get the same new name. */
  lemma FlareImageNameInjective(a: string, b: string)
    requires FlareImageName(a).Some? && FlareImageName(a) == FlareImageName(b)
    ensures a == b
  {
  }

  /** A renamed image is still an image file, so a second run prefixes it
      again: nothing checks for an existing prefix. */
  lemma FlareImageNameAgain(filename: string)
    requires IsImageFile(filename)
    ensures FlareImageName(FlareImageName(filename).value) == Some(Prefix + Prefix + filename)
  {
    var n := Prefix + filename;
    var i :| 0 <= i < |ImageExtensions()| && EndsWith(filename, ImageExtensions()[i]);
    assert n[|n| - |ImageExtensions()[i]|..] == filename[|filename| - |ImageExtensions()[i]|..];
    assert EndsWith(n, ImageExtensions()[i]);
    assert Prefix + n == Prefix + Prefix + filename;
  }

  /** The extension test is exact about case: only the all-lower and the
      all-upper forms are images. */
  lemma MixedCaseIsNoImage(stem: string)
    ensures !IsImageFile(stem + ".Png")
  {
    var s := stem + ".Png";
    assert s[|s| - 4..] == ".Png";
    assert forall k :: 0 <= k < |LowerExtensions| ==>
      |LowerExtensions[k]| == 4 && 'a' <= LowerExtensions[k][1] <= 'z' && 'a' <= LowerExtensions[k][2] <= 'z';
    forall i | 0 <= i < |ImageExtensions()|
      ensures !EndsWith(s, ImageExtensions()[i])
    {
      var x := ImageExtensions()[i];
      if i < |LowerExtensions| {
        assert x == LowerExtensions[i] && x[1] != 'P';
      } else {
        var lower := LowerExtensions[i - |LowerExtensions|];
        assert x == Upper(lower) && x[2] == UpperChar(lower[2]) && x[2] != 'n';
      }
    }
  }

  // ---------------------------------------------------------------------
  // One img element

  /** `s.split(sep)[-1]`: the piece after the last separator. */
  function LastPiece(s: string, sep: char): (r: string)
    ensures r == Split(s, sep)[|Split(s, sep)| - 1]
    ensures forall i :: 0 <= i < |r| ==> r[i] != sep
    decreases |s|
  {
    var p := Split(s, sep);
    if s == [] then []
    else
      var rest := Split(s[1..], sep);
      var last := LastPiece(s[1..], sep);
      if s[0] != sep && |rest| == 1 then
        SplitFirstNoSep(s[1..], sep);
        assert p[|p| - 1] == [s[0]] + rest[0];
        p[|p| - 1]
      else
        assert p[|p| - 1] == rest[|rest| - 1] == last;
        p[|p| - 1]
  }

  /** `path.split('/')[-1]`. */
  function LastSegment(path: string): (r: string)
    ensures forall i :: 0 <= i < |r| ==> r[i] != '/'
  {
    LastPiece(path, '/')
  }

  /** The new `src` of an img element: `attrib.get('src')` is None raises
      AttributeError in `split`; a src whose last segment is the file name
      has every occurrence of the name replaced, which raises TypeError
      when the file got no new name. */
  function NewSrc(src: Option<string>, from: string, to: Option<string>): (r: Result<string>)
    ensures src.None? ==> r == Failure(AttributeError)
    ensures src.Some? && LastSegment(src.value) != from ==> r == Success(src.value)
    ensures src.Some? && LastSegment(src.value) == from ==>
      (to.None? <==> r.Failure?) && (r.Failure? ==> r.error == TypeError)
  {
    match src
    case None => Failure(AttributeError)
    case Some(p) =>
      if LastSegment(p) != from then Success(p)
      else if to.None? then Failure(TypeError)
      else Success(Replace(p, from, to.value))
  }

  /** Replacing a name that holds no separator after a separator leaves
      everything up to the separator alone when the name does not occur
      there. */
  lemma {:induction false} ReplaceAfterSep(x: string, sep: char, y: string, pat: string, rep: string)
    requires pat != [] && forall i :: 0 <= i < |pat| ==> pat[i] != sep
    requires !Contains(x, pat)
    ensures Replace(x + [sep] + y, pat, rep) == x + [sep] + Replace(y, pat, rep)
    decreases |x|
  {
    if x == [] {
      ReplaceAtSep(sep, y, pat, rep);
      assert x + [sep] + y == [sep] + y;
    } else {
      assert !IsPrefix(pat, x) && !Contains(x[1..], pat);
      ReplaceAfterSep(x[1..], sep, y, pat, rep);
      ReplaceAfterSepStep(x, sep, y, pat, rep);
    }
  }

  /** The step of `ReplaceAfterSep`: a first character that starts no
      occurrence is kept. */
  lemma ReplaceAfterSepStep(x: string, sep: char, y: string, pat: string, rep: string)
    requires x != [] && pat != [] && forall i :: 0 <= i < |pat| ==> pat[i] != sep
    requires !IsPrefix(pat, x)
    requires Replace(x[1..] + [sep] + y, pat, rep) == x[1..] + [sep] + Replace(y, pat, rep)
    ensures Replace(x + [sep] + y, pat, rep) == x + [sep] + Replace(y, pat, rep)
  {
    NotPrefixAcrossSep(x, sep, y, pat);
    ConsSplit(x, sep, y);
    ReplaceCons(x[0], x[1..] + [sep] + y, pat, rep);
    ConsSplit(x, sep, Replace(y, pat, rep));
  }

  /** A leading separator is kept when the pattern holds none. */
  lemma ReplaceAtSep(sep: char, y: string, pat: string, rep: string)
    requires pat != [] && forall i :: 0 <= i < |pat| ==> pat[i] != sep
    ensures Replace([sep] + y, pat, rep) == [sep] + Replace(y, pat, rep)
  {
    assert ([sep] + y)[0] == sep && pat[0] != sep;
    ReplaceCons(sep, y, pat, rep);
  }

  /** A pattern free of the separator that is no prefix of `x` is no
      prefix of `x + [sep] + y` either. */
  lemma NotPrefixAcrossSep(x: string, sep: char, y: string, pat: string)
    requires forall i :: 0 <= i < |pat| ==> pat[i] != sep
    requires !IsPrefix(pat, x)
    ensures !IsPrefix(pat, x + [sep] + y)
  {
    var s := x + [sep] + y;
    if |pat| <= |x| {
      assert s[..|pat|] == x[..|pat|];
    } else {
      assert s[|x|] == sep;
    }
  }

  /** When the file name occurs in the src only as its last segment, the
      rewrite puts the new name there and changes nothing else. */
  lemma NewSrcRetargetsLastSegment(dir: string, from: string, to: string)
    requires from != [] && forall i :: 0 <= i < |from| ==> from[i] != '/'
    requires !Contains(dir, from)
    ensures NewSrc(Some(dir + "/" + from), from, Some(to)) == Success(dir + "/" + to)
  {
    SplitNoSep(from, '/');
    if dir == [] {
      SplitAfterPiece(dir, '/', from);
    } else {
      var parts := Split(dir, '/');
      SplitLastAppend(dir, from);
    }
    assert LastSegment(dir + "/" + from) == from;
    ReplaceAfterSep(dir, '/', from, from, to);
    ReplaceWhole(from, to);
  }

  /** Appending a separator and a separator-free name makes that name the
      last segment. */
  lemma SplitLastAppend(x: string, name: string)
    requires forall i :: 0 <= i < |name| ==> name[i] != '/'
    ensures var p := Split(x + "/" + name, '/'); p[|p| - 1] == name
  {
    SplitAround(x, '/', name);
    SplitNoSep(name, '/');
    assert x + "/" + name == x + ['/'] + name;
  }

  /** Splitting at a separator splits both sides apart. */
  lemma {:induction false} SplitAround(x: string, sep: char, y: string)
    ensures Split(x + [sep] + y, sep) == Split(x, sep) + Split(y, sep)
    decreases |x|
  {
    if x == [] {
      assert x + [sep] + y == [sep] + y;
      SplitCons(sep, y, sep);
    } else {
      SplitAround(x[1..], sep, y);
      ConsSplit(x, sep, y);
      SplitCons(x[0], x[1..] + [sep] + y, sep);
      HeadAppend(x[0], Split(x[1..], sep), Split(y, sep));
    }
  }

  /** Gluing a character to the first piece commutes with appending more
      pieces. */
  lemma HeadAppend(c: char, a: seq<string>, b: seq<string>)
    requires a != []
    ensures [[c] + (a + b)[0]] + (a + b)[1..] == ([[c] + a[0]] + a[1..]) + b
  {
    assert (a + b)[1..] == a[1..] + b;
  }

  /** As written, the name is replaced wherever it occurs in the src, in
      the directory part too. */
  lemma DirectoryAlsoRewritten(from: string, to: string)
    requires from != [] && forall i :: 0 <= i < |from| ==> from[i] != '/'
    ensures NewSrc(Some(from + "/" + from), from, Some(to)) == Success(to + "/" + to)
  {
    SplitLastAppend(from, from);
    assert LastSegment(from + "/" + from) == from;
    var t := "/" + from;
    ReplaceLeading(from, t, to);
    assert from + "/" + from == from + t;
    assert from[0] != '/' && t[0] == '/' && t[1..] == from;
    assert !IsPrefix(from, ['/'] + from);
    ReplaceCons('/', from, from, to);
    ReplaceWhole(from, to);
    assert to + ([t[0]] + to) == to + "/" + to;
  }

  // ---------------------------------------------------------------------
  // One topic

  /** The rewrite of a sequence of srcs in document order: the rewritten
      srcs, or the first error. */
  function ScanSrcs(srcs: seq<Option<string>>, from: string, to: Option<string>): (r: Result<seq<Option<string>>>)
    ensures r.Success? ==> |r.value| == |srcs|
    ensures r.Success? ==> forall i :: 0 <= i < |srcs| ==> NewSrc(srcs[i], from, to).Success? && r.value[i] == Some(NewSrc(srcs[i], from, to).value)
    ensures r.Failure? ==>
      exists k :: 0 <= k < |srcs| && NewSrc(srcs[k], from, to) == Failure(r.error) && forall i :: 0 <= i < k ==> NewSrc(srcs[i], from, to).Success?
    decreases |srcs|
  {
    if srcs == [] then Success([])
    else match NewSrc(srcs[0], from, to)
      case Failure(e) => Failure(e)
      case Success(s) =>
        match ScanSrcs(srcs[1..], from, to)
        case Failure(e) =>
          assert forall i :: 1 <= i < |srcs| ==> srcs[i] == srcs[1..][i - 1];
          Failure(e)
        case Success(rest) => Success([Some(s)] + rest)
  }

  /** Scanning a concatenation scans the halves in turn. */
  lemma {:induction false} ScanAppend(a: seq<Option<string>>, b: seq<Option<string>>, from: string, to: Option<string>)
    ensures ScanSrcs(a + b, from, to) ==
      match ScanSrcs(a, from, to)
      case Failure(e) => Failure(e)
      case Success(x) =>
        match ScanSrcs(b, from, to)
        case Failure(e) => Failure(e)
        case Success(y) => Success(x + y)
    decreases |a|
  {
    if a == [] {
      assert a + b == b;
      var t := ScanSrcs(b, from, to);
      if t.Success? {
        assert [] + t.value == t.value;
      }
    } else {
      assert (a + b)[0] == a[0];
      assert (a + b)[1..] == a[1..] + b;
      ScanAppend(a[1..], b, from, to);
      var s := ScanSrcs(a[1..], from, to);
      var t := ScanSrcs(b, from, to);
      if NewSrc(a[0], from, to).Success? && s.Success? && t.Success? {
        assert [Some(NewSrc(a[0], from, to).value)] + (s.value + t.value)
            == ([Some(NewSrc(a[0], from, to).value)] + s.value) + t.value;
      }
    }
  }

  /** The srcs of a list of elements. */
  function SrcsOf(es: seq<Element>): (r: seq<Option<string>>)
    ensures |r| == |es| && forall i :: 0 <= i < |es| ==> r[i] == Attr(es[i], "src")
  {
    seq(|es|, i requires 0 <= i < |es| => Attr(es[i], "src"))
  }

  lemma SrcsOfAppend(a: seq<Element>, b: seq<Element>)
    ensures SrcsOf(a + b) == SrcsOf(a) + SrcsOf(b)
  {
  }

  /** `for image in root.iter('img')`: each img element of the tree, in
      document order, gets its new src; the first failure stops the walk. */
  function RewriteImgs(e: Element, from: string, to: Option<string>): (r: Result<Element>)
    decreases e
  {
    var head: Result<Element> :=
      if e.tag != "img" then Success(e)
      else match NewSrc(Attr(e, "src"), from, to)
        case Failure(err) => Failure(err)
        case Success(p) => Success(e.(attrs := e.attrs["src" := p]));
    match head
    case Failure(err) => Failure(err)
    case Success(e1) =>
      match RewriteImgsSeq(e.children, from, to)
      case Failure(err) => Failure(err)
      case Success(cs) => Success(e1.(children := cs))
  }

  function RewriteImgsSeq(cs: seq<Element>, from: string, to: Option<string>): (r: Result<seq<Element>>)
    ensures r.Success? ==> |r.value| == |cs|
    decreases cs
  {
    if cs == [] then Success([])
    else match RewriteImgs(cs[0], from, to)
      case Failure(err) => Failure(err)
      case Success(c) =>
        match RewriteImgsSeq(cs[1..], from, to)
        case Failure(err) => Failure(err)
        case Success(rest) => Success([c] + rest)
  }

  /** The walk over the tree is the scan of its srcs in document order:
      it fails with the first failing src's error, and otherwise the img
      elements carry the rewritten srcs and nothing else in the tree
      changes. */
  lemma {:induction false} RewriteImgsSpec(e: Element, from: string, to: Option<string>)
    ensures var s := ScanSrcs(SrcsOf(Iter(e, "img")), from, to);
      var r := RewriteImgs(e, from, to);
      (s.Failure? ==> r == Failure(s.error))
      && (s.Success? ==>
            r.Success? && SrcsOf(Iter(r.value, "img")) == s.value && WithoutAttr(r.value, "img", "src") == WithoutAttr(e, "img", "src"))
    decreases e, 1
  {
    if e.tag == "img" {
      RewriteImgSpec(e, from, to);
    } else {
      RewriteOtherSpec(e, from, to);
    }
  }

  /** `RewriteImgsSpec` for an img element: its own src comes first. */
  lemma {:induction false} RewriteImgSpec(e: Element, from: string, to: Option<string>)
    requires e.tag == "img"
    ensures var s := ScanSrcs(SrcsOf(Iter(e, "img")), from, to);
      var r := RewriteImgs(e, from, to);
      (s.Failure? ==> r == Failure(s.error))
      && (s.Success? ==>
            r.Success? && SrcsOf(Iter(r.value, "img")) == s.value && WithoutAttr(r.value, "img", "src") == WithoutAttr(e, "img", "src"))
    decreases e, 0
  {
    RewriteImgsSeqSpec(e.children, from, to);
    ImgSrcs(e);
    ScanAppend([Attr(e, "src")], SrcsOf(IterSeq(e.children, "img")), from, to);
    var h := NewSrc(Attr(e, "src"), from, to);
    var sub := RewriteImgsSeq(e.children, from, to);
    if h.Success? && sub.Success? {
      ImgRebuilt(e, h.value, sub.value);
    }
  }

  /** The srcs below an img element come after its own. */
  lemma ImgSrcs(e: Element)
    requires e.tag == "img"
    ensures SrcsOf(Iter(e, "img")) == [Attr(e, "src")] + SrcsOf(IterSeq(e.children, "img"))
  {
    assert Iter(e, "img") == [e] + IterSeq(e.children, "img");
    SrcsOfAppend([e], IterSeq(e.children, "img"));
  }

  /** An img element with a new src and new children: its srcs and its
      src-less form. */
  lemma ImgRebuilt(e: Element, p: string, cs: seq<Element>)
    requires e.tag == "img"
    ensures var r := e.(attrs := e.attrs["src" := p], children := cs);
      SrcsOf(Iter(r, "img")) == [Some(p)] + SrcsOf(IterSeq(cs, "img"))
      && WithoutAttr(r, "img", "src") == e.(attrs := e.attrs - {"src"}, children := WithoutAttrSeq(cs, "img", "src"))
  {
    var r := e.(attrs := e.attrs["src" := p], children := cs);
    ImgSrcs(r);
    assert r.attrs - {"src"} == e.attrs - {"src"};
  }

  /** `RewriteImgsSpec` for any other element: only its children count. */
  lemma {:induction false} RewriteOtherSpec(e: Element, from: string, to: Option<string>)
    requires e.tag != "img"
    ensures var s := ScanSrcs(SrcsOf(Iter(e, "img")), from, to);
      var r := RewriteImgs(e, from, to);
      (s.Failure? ==> r == Failure(s.error))
      && (s.Success? ==>
            r.Success? && SrcsOf(Iter(r.value, "img")) == s.value && WithoutAttr(r.value, "img", "src") == WithoutAttr(e, "img", "src"))
    decreases e, 0
  {
    RewriteImgsSeqSpec(e.children, from, to);
    assert Iter(e, "img") == [] + IterSeq(e.children, "img");
    assert Iter(e, "img") == IterSeq(e.children, "img");
    var r := RewriteImgs(e, from, to);
    if r.Success? {
      var cs := RewriteImgsSeq(e.children, from, to).value;
      assert r.value == e.(children := cs);
      assert Iter(r.value, "img") == [] + IterSeq(cs, "img");
    }
  }

  lemma {:induction false} RewriteImgsSeqSpec(cs: seq<Element>, from: string, to: Option<string>)
    ensures var s := ScanSrcs(SrcsOf(IterSeq(cs, "img")), from, to);
      var r := RewriteImgsSeq(cs, from, to);
      (s.Failure? ==> r == Failure(s.error))
      && (s.Success? ==>
            r.Success? && SrcsOf(IterSeq(r.value, "img")) == s.value && WithoutAttrSeq(r.value, "img", "src") == WithoutAttrSeq(cs, "img", "src"))
    decreases cs
  {
    if cs != [] {
      RewriteImgsSpec(cs[0], from, to);
      RewriteImgsSeqSpec(cs[1..], from, to);
      assert IterSeq(cs, "img") == Iter(cs[0], "img") + IterSeq(cs[1..], "img");
      SrcsOfAppend(Iter(cs[0], "img"), IterSeq(cs[1..], "img"));
      ScanAppend(SrcsOf(Iter(cs[0], "img")), SrcsOf(IterSeq(cs[1..], "img")), from, to);
      var r := RewriteImgsSeq(cs, from, to);
      if r.Success? {
        var c := RewriteImgs(cs[0], from, to).value;
        var rest := RewriteImgsSeq(cs[1..], from, to).value;
        assert r.value == [c] + rest;
        assert r.value[0] == c && r.value[1..] == rest;
        assert IterSeq(r.value, "img") == Iter(c, "img") + IterSeq(rest, "img");
        SrcsOfAppend(Iter(c, "img"), IterSeq(rest, "img"));
      }
    }
  }

  /** A walk for a file that got no new name changes nothing when it
      completes: no src named the file. */
  lemma {:induction false} RewriteWithoutNameKeeps(e: Element, from: string)
    ensures RewriteImgs(e, from, None).Success? ==> RewriteImgs(e, from, None).value == e
    decreases e
  {
    RewriteWithoutNameKeepsSeq(e.children, from);
    if e.tag == "img" && Attr(e, "src").Some? {
      assert e.attrs["src" := Attr(e, "src").value] == e.attrs;
    }
  }

  lemma {:induction false} RewriteWithoutNameKeepsSeq(cs: seq<Element>, from: string)
    ensures RewriteImgsSeq(cs, from, None).Success? ==> RewriteImgsSeq(cs, from, None).value == cs
    decreases cs
  {
    if cs != [] {
      RewriteWithoutNameKeeps(cs[0], from);
      RewriteWithoutNameKeepsSeq(cs[1..], from);
      if RewriteImgsSeq(cs, from, None).Success? {
        assert [cs[0]] + cs[1..] == cs;
      }
    }
  }

  // ---------------------------------------------------------------------
  // rename_image_links

  /** The inner loop over `os.listdir(topic_folder)` from position `j`:
      each topic is parsed, walked and written back; a name that is not in
      the folder raises when parsed, a failing walk raises before the
      write. */
  function TopicsLoop<T>(f: Project<T>, tnames: seq<string>, j: nat, from: string, to: Option<string>): (r: Res<Project<T>>)
    requires j <= |tnames|
    ensures r.State().images == f.images && r.State().topics.Keys == f.topics.Keys
    ensures forall k :: k in f.topics && k !in tnames[j..] ==> r.State().topics[k] == f.topics[k]
    decreases |tnames| - j
  {
    if j == |tnames| then Ok(f)
    else
      var name := tnames[j];
      if name !in f.topics then Raised(f, FileNotFound)
      else match RewriteImgs(f.topics[name], from, to)
        case Failure(e) => Raised(f, e)
        case Success(t) => TopicsLoop(f.(topics := f.topics[name := t]), tnames, j + 1, from, to)
  }

  /** A completed inner loop over distinct names leaves every listed
      topic walked once. */
  lemma {:induction false} TopicsLoopWalks<T>(f: Project<T>, tnames: seq<string>, j: nat, from: string, to: Option<string>)
    requires j <= |tnames|
    requires forall a, b :: j <= a < b < |tnames| ==> tnames[a] != tnames[b]
    ensures TopicsLoop(f, tnames, j, from, to).Ok? ==> forall m :: j <= m < |tnames| ==>
      tnames[m] in f.topics && RewriteImgs(f.topics[tnames[m]], from, to) == Success(TopicsLoop(f, tnames, j, from, to).value.topics[tnames[m]])
    decreases |tnames| - j
  {
    if j < |tnames| && tnames[j] in f.topics {
      var name := tnames[j];
      var w := RewriteImgs(f.topics[name], from, to);
      if w.Success? {
        var f1 := f.(topics := f.topics[name := w.value]);
        TopicsLoopWalks(f1, tnames, j + 1, from, to);
        assert name !in tnames[j + 1..];
        assert forall m :: j < m < |tnames| && tnames[m] in f.topics ==> f1.topics[tnames[m]] == f.topics[tnames[m]];
      }
    }
  }

  /** The outer loop over `os.listdir(image_folder)` from position `i`:
      an image file is renamed first (a name missing from the folder
      raises), then every topic is walked for it. */
  function ImagesLoop<T>(f: Project<T>, names: seq<string>, i: nat, tnames: seq<string>): (r: Res<Project<T>>)
    requires i <= |names|
    ensures r.State().topics.Keys == f.topics.Keys
    decreases |names| - i
  {
    if i == |names| then Ok(f)
    else
      var name := names[i];
      var to := FlareImageName(name);
      if to.Some? && name !in f.images then Raised(f, FileNotFound)
      else
        var f1 := if to.Some? then f.(images := LegacyFileRename(f.images, name, to.value)) else f;
        match TopicsLoop(f1, tnames, 0, name, to)
        case Raised(s, e) => Raised(s, e)
        case Ok(f2) => ImagesLoop(f2, names, i + 1, tnames)
  }

  /** `rename_image_links(image_folder, topic_folder)`: nothing happens
      when either folder path is empty. */
  function RenameImageLinks<T>(f: Project<T>, imageDir: string, topicDir: string, names: seq<string>, tnames: seq<string>): (r: Res<Project<T>>)
    ensures imageDir == [] || topicDir == [] ==> r == Ok(f)
    ensures r.State().topics.Keys == f.topics.Keys
  {
    if imageDir == [] || topicDir == [] then Ok(f) else ImagesLoop(f, names, 0, tnames)
  }

  /** Where an image file ends up: image files under the prefixed name,
      other files where they were. */
  function Renamed(k: string): string {
    if IsImageFile(k) then Prefix + k else k
  }

  /** A file of the current folder is an original file the loop left in
      place, or the prefixed name of an original image file it moved. */
  predicate FromOrig<T>(orig: map<string, T>, k: string, done: seq<string>) {
    (k in orig && (k !in done || !IsImageFile(k)))
    || (IsPrefix(Prefix, k) && k[4..] in done && IsImageFile(k[4..]) && k[4..] in orig)
  }

  /** The picture folder once the names in `done` have been handled. */
  ghost predicate RenamedUpTo<T>(orig: map<string, T>, cur: map<string, T>, done: seq<string>) {
    (forall k :: k in orig && k in done ==> Renamed(k) in cur && cur[Renamed(k)] == orig[k])
    && (forall k :: k in orig && k !in done ==> k in cur && cur[k] == orig[k])
    && (forall k :: k in cur ==> FromOrig(orig, k, done))
  }

  /** No image file's prefixed name is already taken. */
  predicate PrefixFree<T>(orig: map<string, T>) {
    forall k :: k in orig && IsImageFile(k) ==> Prefix + k !in orig
  }

  /** When the listing is the picture folder's distinct file names and no
      image's prefixed name is taken, a completed run moves each image
      file to its prefixed name, keeps every other file, and adds nothing. */
  lemma {:induction false} ImagesLoopRenames<T>(orig: map<string, T>, f: Project<T>, names: seq<string>, i: nat, tnames: seq<string>)
    requires i <= |names|
    requires forall a, b :: 0 <= a < b < |names| ==> names[a] != names[b]
    requires forall k :: k in orig <==> k in names
    requires PrefixFree(orig)
    requires RenamedUpTo(orig, f.images, names[..i])
    ensures ImagesLoop(f, names, i, tnames).Ok? ==> RenamedUpTo(orig, ImagesLoop(f, names, i, tnames).value.images, names)
    decreases |names| - i
  {
    if i == |names| {
      assert names[..i] == names;
    } else {
      var name := names[i];
      var to := FlareImageName(name);
      if !(to.Some? && name !in f.images) {
        var f1 := if to.Some? then f.(images := LegacyFileRename(f.images, name, to.value)) else f;
        var t := TopicsLoop(f1, tnames, 0, name, to);
        if t.Ok? {
          assert names[..i + 1] == names[..i] + [name];
          assert name !in names[..i];
          RenamedStep(orig, f.images, f1.images, names[..i], name);
          ImagesLoopRenames(orig, t.value, names, i + 1, tnames);
        }
      }
    }
  }

  /** One step of the outer loop keeps the renaming invariant. */
  lemma RenamedStep<T>(orig: map<string, T>, cur: map<string, T>, next: map<string, T>, done: seq<string>, name: string)
    requires name in orig && name !in done && PrefixFree(orig)
    requires RenamedUpTo(orig, cur, done)
    requires next == if IsImageFile(name) then LegacyFileRename(cur, name, Prefix + name) else cur
    ensures RenamedUpTo(orig, next, done + [name])
  {
    assert name in cur && cur[name] == orig[name];
    if IsImageFile(name) {
      RenamedStepMoved(orig, cur, next, done, name);
      RenamedStepKept(orig, cur, next, done, name);
      RenamedStepOrigin(orig, cur, next, done, name);
    } else {
      forall k | k in next
        ensures FromOrig(orig, k, done + [name])
      {
        assert FromOrig(orig, k, done);
      }
    }
  }

  /** The file just handled is under its prefixed name; the earlier ones
      stay where they went. */
  lemma RenamedStepMoved<T>(orig: map<string, T>, cur: map<string, T>, next: map<string, T>, done: seq<string>, name: string)
    requires name in orig && name !in done && PrefixFree(orig) && IsImageFile(name)
    requires RenamedUpTo(orig, cur, done)
    requires next == LegacyFileRename(cur, name, Prefix + name)
    ensures forall k :: k in orig && k in done + [name] ==> Renamed(k) in next && next[Renamed(k)] == orig[k]
  {
    forall k | k in orig && k in done + [name]
      ensures Renamed(k) in next && next[Renamed(k)] == orig[k]
    {
      if k != name {
        assert k in done;
        assert Renamed(k) != name by {
          if IsImageFile(k) {
            assert Renamed(k)[4..] == k;
          }
        }
        assert Renamed(k) != Prefix + name by {
          if IsImageFile(k) {
            assert (Prefix + k)[4..] == k;
            assert (Prefix + name)[4..] == name;
          } else {
            assert k in orig && Prefix + name !in orig;
          }
        }
      }
    }
  }

  /** The files not yet handled stay in place. */
  lemma RenamedStepKept<T>(orig: map<string, T>, cur: map<string, T>, next: map<string, T>, done: seq<string>, name: string)
    requires name in orig && name !in done && PrefixFree(orig) && IsImageFile(name)
    requires RenamedUpTo(orig, cur, done)
    requires next == LegacyFileRename(cur, name, Prefix + name)
    ensures forall k :: k in orig && k !in done + [name] ==> k in next && next[k] == orig[k]
  {
    forall k | k in orig && k !in done + [name]
      ensures k in next && next[k] == orig[k]
    {
      assert k != Prefix + name;
    }
  }

  /** Every file in the folder is still accounted for. */
  lemma RenamedStepOrigin<T>(orig: map<string, T>, cur: map<string, T>, next: map<string, T>, done: seq<string>, name: string)
    requires name in orig && name !in done && PrefixFree(orig) && IsImageFile(name)
    requires RenamedUpTo(orig, cur, done)
    requires next == LegacyFileRename(cur, name, Prefix + name)
    ensures forall k :: k in next ==> FromOrig(orig, k, done + [name])
  {
    forall k | k in next
      ensures FromOrig(orig, k, done + [name])
    {
      if k == Prefix + name {
        assert k[4..] == name;
      } else {
        assert k in cur && FromOrig(orig, k, done);
      }
    }
  }

  /** The picture folder after a completed run, from the folder alone. */
  lemma RenameImageLinksMovesImages<T>(f: Project<T>, imageDir: string, topicDir: string, names: seq<string>, tnames: seq<string>)
    requires imageDir != [] && topicDir != []
    requires forall a, b :: 0 <= a < b < |names| ==> names[a] != names[b]
    requires forall k :: k in f.images <==> k in names
    requires PrefixFree(f.images)
    requires RenameImageLinks(f, imageDir, topicDir, names, tnames).Ok?
    ensures var g := RenameImageLinks(f, imageDir, topicDir, names, tnames).value.images;
      (forall k :: k in f.images ==> Renamed(k) in g && g[Renamed(k)] == f.images[k])
      && (forall k :: k in f.images && IsImageFile(k) ==> k !in g)
      && (forall k :: k in g ==> (k in f.images && !IsImageFile(k)) || (IsPrefix(Prefix, k) && k[4..] in f.images && IsImageFile(k[4..])))
  {
    assert names[..0] == [];
    ImagesLoopRenames(f.images, f, names, 0, tnames);
    var g := RenameImageLinks(f, imageDir, topicDir, names, tnames).value.images;
    RenamedAll(f.images, g, names);
  }

  /** The renaming invariant at the end of the listing. */
  lemma RenamedAll<T>(orig: map<string, T>, g: map<string, T>, names: seq<string>)
    requires forall k :: k in orig <==> k in names
    requires PrefixFree(orig)
    requires RenamedUpTo(orig, g, names)
    ensures forall k :: k in orig ==> Renamed(k) in g && g[Renamed(k)] == orig[k]
    ensures forall k :: k in orig && IsImageFile(k) ==> k !in g
    ensures forall k :: k in g ==> (k in orig && !IsImageFile(k)) || (IsPrefix(Prefix, k) && k[4..] in orig && IsImageFile(k[4..]))
  {
    forall k | k in orig && IsImageFile(k)
      ensures k !in g
    {
      assert k in names;
      if IsPrefix(Prefix, k) {
        assert k == Prefix + k[4..];
      }
      assert !FromOrig(orig, k, names);
    }
  }

  // ---------------------------------------------------------------------
  // Links to files that are not images

  /** As written: a topic whose img points at a file of the picture folder
      that is not an image (a `.svg`, say) makes the walk raise TypeError,
      since the file's new name is None. */
  lemma NonImageLinkRaises<T>(name: string, dir: string, rest: seq<string>)
    requires !IsImageFile(name) && name != [] && forall i :: 0 <= i < |name| ==> name[i] != '/'
    ensures var t := Element(0, "topic", map[], None, [Element(0, "img", map["src" := dir + "/" + name], None, [])]);
      var f := Project(map[name := 0], map["a.htm" := t]);
      ImagesLoop(f, [name] + rest, 0, ["a.htm"]) == Raised(f, TypeError)
  {
    var img := Element(0, "img", map["src" := dir + "/" + name], None, []);
    SplitLastAppend(dir, name);
    assert LastSegment(dir + "/" + name) == name;
    assert RewriteImgs(img, name, None) == Failure(TypeError);
    assert RewriteImgsSeq([img], name, None) == Failure(TypeError);
  }

  /** Corrected outer loop: a file that gets no new name is skipped, as
      the walk for it could only change nothing or fail. */
  function ImagesLoopFixed<T>(f: Project<T>, names: seq<string>, i: nat, tnames: seq<string>): (r: Res<Project<T>>)
    requires i <= |names|
    ensures r.State().topics.Keys == f.topics.Keys
    ensures r.Raised? ==> r.error != TypeError
    decreases |names| - i
  {
    if i == |names| then Ok(f)
    else
      var name := names[i];
      match FlareImageName(name)
      case None => ImagesLoopFixed(f, names, i + 1, tnames)
      case Some(to) =>
        if name !in f.images then Raised(f, FileNotFound)
        else
          var f1 := f.(images := LegacyFileRename(f.images, name, to));
          NoTypeErrorWithName(f1, tnames, 0, name, to);
          match TopicsLoop(f1, tnames, 0, name, Some(to))
          case Raised(s, e) => Raised(s, e)
          case Ok(f2) => ImagesLoopFixed(f2, names, i + 1, tnames)
  }

  /** With a new name at hand the walk never raises TypeError. */
  lemma {:induction false} NoTypeErrorWithName<T>(f: Project<T>, tnames: seq<string>, j: nat, from: string, to: string)
    requires j <= |tnames|
    ensures TopicsLoop(f, tnames, j, from, Some(to)).Raised? ==> TopicsLoop(f, tnames, j, from, Some(to)).error != TypeError
    decreases |tnames| - j
  {
    if j < |tnames| && tnames[j] in f.topics {
      var t := f.topics[tnames[j]];
      RewriteImgsSpec(t, from, Some(to));
      var w := RewriteImgs(t, from, Some(to));
      if w.Success? {
        NoTypeErrorWithName(f.(topics := f.topics[tnames[j] := w.value]), tnames, j + 1, from, to);
      }
    }
  }

  /** The walk for a file without a new name, when it completes, leaves
      the topics as they were. */
  lemma {:induction false} TopicsLoopWithoutName<T>(f: Project<T>, tnames: seq<string>, j: nat, from: string)
    requires j <= |tnames|
    ensures TopicsLoop(f, tnames, j, from, None).Ok? ==> TopicsLoop(f, tnames, j, from, None).value == f
    decreases |tnames| - j
  {
    if j < |tnames| && tnames[j] in f.topics {
      var t := f.topics[tnames[j]];
      RewriteWithoutNameKeeps(t, from);
      if RewriteImgs(t, from, None).Success? {
        assert f.topics[tnames[j] := t] == f.topics;
        assert f.(topics := f.topics[tnames[j] := t]) == f;
        TopicsLoopWithoutName(f, tnames, j + 1, from);
      }
    }
  }

  /** Wherever the program as written completes, the corrected loop
      produces the same folders. */
  lemma {:induction false} ImagesLoopFixedAgrees<T>(f: Project<T>, names: seq<string>, i: nat, tnames: seq<string>)
    requires i <= |names|
    ensures ImagesLoop(f, names, i, tnames).Ok? ==> ImagesLoopFixed(f, names, i, tnames) == ImagesLoop(f, names, i, tnames)
    decreases |names| - i
  {
    if i < |names| {
      var name := names[i];
      if FlareImageName(name).None? {
        TopicsLoopWithoutName(f, tnames, 0, name);
        ImagesLoopFixedAgrees(f, names, i + 1, tnames);
      } else if name in f.images {
        var f1 := f.(images := LegacyFileRename(f.images, name, FlareImageName(name).value));
        var t := TopicsLoop(f1, tnames, 0, name, FlareImageName(name));
        if t.Ok? {
          ImagesLoopFixedAgrees(t.value, names, i + 1, tnames);
        }
      }
    }
  }

  /** `rename_image_links` with the corrected loop. */
  function RenameImageLinksFixed<T>(f: Project<T>, imageDir: string, topicDir: string, names: seq<string>, tnames: seq<string>): (r: Res<Project<T>>)
    ensures imageDir == [] || topicDir == [] ==> r == Ok(f)
    ensures r.Raised? ==> r.error != TypeError
    ensures RenameImageLinks(f, imageDir, topicDir, names, tnames).Ok? ==> r == RenameImageLinks(f, imageDir, topicDir, names, tnames)
  {
    ImagesLoopFixedAgrees(f, names, 0, tnames);
    if imageDir == [] || topicDir == [] then Ok(f) else ImagesLoopFixed(f, names, 0, tnames)
  }
}
