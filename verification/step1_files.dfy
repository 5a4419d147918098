/** The text-level file handling of the first renaming script
    (rename_step1.py): recovering a file's XML header, and the placeholder
    line `insert_shortdesc_tag` puts into a topic file without a short
    description.  Files are sequences of lines, each with its line break,
    as Python's file iteration yields them.
 */
module Step1Files {
  import opened Wrappers
  import opened PyStr

  // ---------------------------------------------------------------------
  // get_header

  const XmlDecl: string := "<?xml version=\"1.0\" encoding=\"UTF-8\"?>\n"
  const DoctypeOpen: string := "<!DOCTYPE"
  const DoctypeClose: string := ">\n"

  /** The position of the dot of "1.0" in the declaration.  The pattern
      leaves that dot unescaped, and under `re.DOTALL` it stands for any
      character, a line break included. */
  const DeclDot: nat := 16

  /** The declaration group of the pattern matches `s` at `k`. */
  predicate DeclMatch(s: string, k: nat) {
    k + |XmlDecl| <= |s| && forall i :: 0 <= i < |XmlDecl| && i != DeclDot ==> s[k + i] == XmlDecl[i]
  }

  /** The leftmost match of the declaration group at or after `k`. */
  function FirstDecl(s: string, k: nat): (r: Option<nat>)
    ensures r.Some? ==> k <= r.value && DeclMatch(s, r.value)
    ensures r.Some? ==> forall j :: k <= j < r.value ==> !DeclMatch(s, j)
    ensures r.None? ==> forall j :: k <= j ==> !DeclMatch(s, j)
    decreases |s| - k
  {
    if k + |XmlDecl| > |s| then None
    else if DeclMatch(s, k) then Some(k)
    else FirstDecl(s, k + 1)
  }

  /** The leftmost occurrence of `pat` in `s` at or after `k`. */
  function FirstFrom(s: string, pat: string, k: nat): (r: Option<nat>)
    ensures r.Some? ==> k <= r.value && OccursAt(s, pat, r.value)
    ensures r.Some? ==> forall j :: k <= j < r.value ==> !OccursAt(s, pat, j)
    ensures r.None? ==> forall j :: k <= j ==> !OccursAt(s, pat, j)
    decreases |s| - k
  {
    if k + |pat| > |s| then None
    else if OccursAt(s, pat, k) then Some(k)
    else FirstFrom(s, pat, k + 1)
  }

  /** A DOCTYPE declaration as the lazy `<!DOCTYPE.*?>\n` matches it:
      the opening, then anything, then the first `>` and line break. */
  predicate IsDoctype(d: string) {
    |d| >= |DoctypeOpen| + |DoctypeClose| && IsPrefix(DoctypeOpen, d) && EndsWith(d, DoctypeClose)
    && forall j :: |DoctypeOpen| <= j < |d| - |DoctypeClose| ==> !OccursAt(d, DoctypeClose, j)
  }

  /** What `get_header` can return: the declaration, alone or followed by
      a DOCTYPE declaration. */
  predicate IsHeader(h: string) {
    DeclMatch(h, 0) && (|h| == |XmlDecl| || IsDoctype(h[|XmlDecl|..]))
  }

  /** The optional DOCTYPE group of the pattern, tried at position `k`. */
  function DoctypeAt(s: string, k: nat): (r: Option<string>)
    ensures r.Some? ==> IsDoctype(r.value) && OccursAt(s, r.value, k)
    ensures r.None? ==> !OccursAt(s, DoctypeOpen, k)
                        || forall j :: k + |DoctypeOpen| <= j ==> !OccursAt(s, DoctypeClose, j)
  {
    if !OccursAt(s, DoctypeOpen, k) then None
    else match FirstFrom(s, DoctypeClose, k + |DoctypeOpen|)
      case None => None
      case Some(j) =>
        var d := s[k..j + |DoctypeClose|];
        assert d[..|DoctypeOpen|] == s[k..k + |DoctypeOpen|];
        assert d[|d| - |DoctypeClose|..] == s[j..j + |DoctypeClose|];
        forall m | |DoctypeOpen| <= m < |d| - |DoctypeClose|
          ensures !OccursAt(d, DoctypeClose, m)
        {
          assert d[m..m + |DoctypeClose|] == s[k + m..k + m + |DoctypeClose|];
          assert !OccursAt(s, DoctypeClose, k + m);
        }
        Some(d)
  }

  /** The header found in the text of a file's first lines: the first
      match of the declaration, as it stands in the text, and the DOCTYPE
      right after it; without a match, the default declaration. */
  function HeaderOf(b: string): (r: string)
    ensures IsHeader(r)
    ensures FirstDecl(b, 0).None? ==> r == XmlDecl
    ensures FirstDecl(b, 0).Some? ==> OccursAt(b, r, FirstDecl(b, 0).value)
    ensures r != XmlDecl ==> Contains(b, r)
  {
    match FirstDecl(b, 0)
    case None => XmlDecl
    case Some(k) =>
      var decl := b[k..k + |XmlDecl|];
      DeclMatchSlice(b, k);
      match DoctypeAt(b, k + |XmlDecl|)
      case None =>
        FoundContained(b, decl, k);
        decl
      case Some(d) =>
        OccursJoin(b, decl, d, k);
        DeclMatchJoin(decl, d);
        FoundContained(b, decl + d, k);
        decl + d
  }

  /** The text matched at `k` matches at 0 on its own. */
  lemma DeclMatchSlice(b: string, k: nat)
    requires DeclMatch(b, k)
    ensures DeclMatch(b[k..k + |XmlDecl|], 0)
  {
    var decl := b[k..k + |XmlDecl|];
    forall i | 0 <= i < |XmlDecl| && i != DeclDot
      ensures decl[i] == XmlDecl[i]
    {
      assert decl[i] == b[k + i];
    }
  }

  /** A matched declaration still matches with text after it. */
  lemma DeclMatchJoin(decl: string, d: string)
    requires DeclMatch(decl, 0) && |decl| == |XmlDecl|
    ensures DeclMatch(decl + d, 0) && (decl + d)[|XmlDecl|..] == d
  {
    var h := decl + d;
    forall i | 0 <= i < |XmlDecl| && i != DeclDot
      ensures h[i] == XmlDecl[i]
    {
      assert h[i] == decl[i];
    }
  }

  /** Text found at a position is contained. */
  lemma FoundContained(b: string, h: string, k: nat)
    requires OccursAt(b, h, k)
    ensures Contains(b, h)
  {
    ContainsAt(b, h);
  }

  /** Two texts found side by side are found together; the first is a
      prefix of the joined text and the second its rest. */
  lemma OccursJoin(s: string, x: string, d: string, k: nat)
    requires OccursAt(s, x, k) && OccursAt(s, d, k + |x|)
    ensures OccursAt(s, x + d, k)
    ensures IsPrefix(x, x + d) && (x + d)[|x|..] == d
  {
    assert s[k..k + |x + d|] == s[k..k + |x|] + s[k + |x|..k + |x| + |d|];
  }

  /** `DITAProjectFile.get_header`: the first four lines are read, and a
      file with fewer lines stops the reading. */
  function GetHeader(lines: seq<string>): (r: Result<string>)
    ensures r.Failure? <==> |lines| < 4
    ensures r.Failure? ==> r.error == StopIteration
    ensures r.Success? ==> IsHeader(r.value)
    ensures r.Success? && r.value != XmlDecl ==> Contains(lines[0] + lines[1] + lines[2] + lines[3], r.value)
  {
    if |lines| < 4 then Failure(StopIteration)
    else Success(HeaderOf(lines[0] + lines[1] + lines[2] + lines[3]))
  }

  /** `write` puts the header back in front of the serialised tree, which
      has no DOCTYPE of its own; reading that text again recovers the same
      header. */
  lemma HeaderRoundTrip(h: string, body: string)
    requires IsHeader(h) && !IsPrefix(DoctypeOpen, body)
    ensures HeaderOf(h + body) == h
  {
    DeclFirst(h, body);
    var s := h + body;
    assert s[0..|XmlDecl|] == h[..|XmlDecl|];
    if |h| == |XmlDecl| {
      NoDoctypeAfter(h, body);
    } else {
      DoctypeFound(h, body);
    }
  }

  /** A text that starts with a declaration match has its first one at 0. */
  lemma DeclFirst(h: string, body: string)
    requires DeclMatch(h, 0)
    ensures FirstDecl(h + body, 0) == Some(0)
  {
    assert DeclMatch(h + body, 0) by {
      forall i | 0 <= i < |XmlDecl| && i != DeclDot
        ensures (h + body)[0 + i] == XmlDecl[i]
      {
        assert (h + body)[i] == h[i];
      }
    }
  }

  /** The header keeps the declaration as the file has it: a file that
      starts with "1" followed by any character and "0" in place of "1.0",
      and no DOCTYPE, gives back that very line. */
  lemma DotVariantKept(c: char, body: string)
    requires !IsPrefix(DoctypeOpen, body)
    ensures var v := XmlDecl[..DeclDot] + [c] + XmlDecl[DeclDot + 1..];
      HeaderOf(v + body) == v
  {
    var v := XmlDecl[..DeclDot] + [c] + XmlDecl[DeclDot + 1..];
    assert |v| == |XmlDecl|;
    forall i | 0 <= i < |XmlDecl| && i != DeclDot
      ensures v[0 + i] == XmlDecl[i]
    {
      if i < DeclDot {
        assert v[i] == XmlDecl[..DeclDot][i];
      } else {
        assert v[i] == XmlDecl[DeclDot + 1..][i - DeclDot - 1];
      }
    }
    HeaderRoundTrip(v, body);
  }

  /** A body that does not open a DOCTYPE gives the bare declaration. */
  lemma NoDoctypeAfter(h: string, body: string)
    requires |h| == |XmlDecl| && !IsPrefix(DoctypeOpen, body)
    ensures DoctypeAt(h + body, |XmlDecl|) == None
  {
    var s := h + body;
    assert s[|XmlDecl|..] == body;
  }

  /** The DOCTYPE part of a header is what the pattern's group finds. */
  lemma DoctypeFound(h: string, body: string)
    requires IsHeader(h) && |h| != |XmlDecl|
    ensures DoctypeAt(h + body, |XmlDecl|) == Some(h[|XmlDecl|..])
  {
    var s := h + body;
    var k := |XmlDecl|;
    var d := h[k..];
    assert s[k..k + |DoctypeOpen|] == d[..|DoctypeOpen|];
    var e := k + |d| - |DoctypeClose|;
    assert s[e..e + |DoctypeClose|] == d[|d| - |DoctypeClose|..];
    NoCloseBefore(s, d, k);
    FirstFromFinds(s, DoctypeClose, k + |DoctypeOpen|, e);
    assert s[k..e + |DoctypeClose|] == d;
  }

  /** Inside a DOCTYPE found at `k` the closing text does not occur. */
  lemma NoCloseBefore(s: string, d: string, k: nat)
    requires IsDoctype(d) && k + |d| <= |s| && s[k..k + |d|] == d
    ensures forall m :: k + |DoctypeOpen| <= m < k + |d| - |DoctypeClose| ==> !OccursAt(s, DoctypeClose, m)
  {
    forall m | k + |DoctypeOpen| <= m < k + |d| - |DoctypeClose|
      ensures !OccursAt(s, DoctypeClose, m)
    {
      SliceIn(s, d, k, m - k, m - k + |DoctypeClose|);
      assert !OccursAt(d, DoctypeClose, m - k);
    }
  }

  /** A piece of a text found at `k` is found at the shifted place. */
  lemma SliceIn(s: string, d: string, k: nat, a: nat, b: nat)
    requires k + |d| <= |s| && s[k..k + |d|] == d && a <= b <= |d|
    ensures s[k + a..k + b] == d[a..b]
  {
    var t := s[k + a..k + b];
    forall i | 0 <= i < |t|
      ensures t[i] == d[a..b][i]
    {
      assert s[k..k + |d|][a + i] == s[k + a + i];
    }
  }

  /** The search finds the first occurrence at or after its start. */
  lemma {:induction false} FirstFromFinds(s: string, pat: string, k: nat, e: nat)
    requires k <= e && OccursAt(s, pat, e)
    requires forall m :: k <= m < e ==> !OccursAt(s, pat, m)
    ensures FirstFrom(s, pat, k) == Some(e)
    decreases e - k
  {
    if k < e {
      FirstFromFinds(s, pat, k + 1, e);
    }
  }

  // ---------------------------------------------------------------------
  // insert_shortdesc_tag

  const TitleClose: string := "</title>"
  const ShortdescLine: string := "   <shortdesc>SHORT DESCRIPTION</shortdesc>\n"

  /** `'</title>' in line`. */
  predicate IsTitleLine(x: string) {
    Contains(x, TitleClose)
  }

  /** The placeholder line does not itself look like a title line. */
  lemma PlaceholderNotTitle()
    ensures !IsTitleLine(ShortdescLine)
  {
    PlaceholderChars();
    forall i | 0 <= i <= |ShortdescLine| - |TitleClose|
      ensures !OccursAt(ShortdescLine, TitleClose, i)
    {
      var w := ShortdescLine[i..i + |TitleClose|];
      assert w[1] == ShortdescLine[i + 1] && w[2] == ShortdescLine[i + 2];
      assert TitleClose[1] == '/' && TitleClose[2] == 't';
    }
    ContainsAt(ShortdescLine, TitleClose);
  }

  lemma PlaceholderChars()
    ensures forall j :: 1 <= j < |ShortdescLine| - 1 ==> ShortdescLine[j] != '/' || ShortdescLine[j + 1] != 't'
  {
  }

  /** `list.index(x)`: the position of the first line equal to `x`. */
  function IndexOfLine(ls: seq<string>, x: string): (r: nat)
    requires x in ls
    ensures r < |ls| && ls[r] == x && forall j :: 0 <= j < r ==> ls[j] != x
  {
    if ls[0] == x then 0 else 1 + IndexOfLine(ls[1..], x)
  }

  /** The loop of `insert_shortdesc_tag` as written, from list position
      `p`, putting line `ph` after lines `m` marks.  Python's list
      iterator reads position `p` at each step of a list that the body
      grows; the new line goes after the FIRST line equal to the current
      one.  The step bound `fuel` stands for the unbounded loop: None means
      it had not finished. */
  function InsertLoop(ls: seq<string>, p: nat, fuel: nat, m: string -> bool, ph: string): (r: Option<seq<string>>)
    decreases fuel
  {
    if p >= |ls| then Some(ls)
    else if fuel == 0 then None
    else if m(ls[p]) then
      var ind := IndexOfLine(ls, ls[p]);
      InsertLoop(ls[..ind + 1] + [ph] + ls[ind + 1..], p + 1, fuel - 1, m, ph)
    else InsertLoop(ls, p + 1, fuel - 1, m, ph)
  }

  /** `insert_shortdesc_tag` as written, on the file's lines. */
  function InsertShortdescTag(ls: seq<string>, fuel: nat): Option<seq<string>> {
    InsertLoop(ls, 0, fuel, IsTitleLine, ShortdescLine)
  }

  /** Line `ph` right after every line marked by `m`. */
  function AfterMarked(ls: seq<string>, m: string -> bool, ph: string): (r: seq<string>)
    ensures |r| == |ls| + Marked(ls, m)
  {
    if ls == [] then []
    else
      var rest := AfterMarked(ls[1..], m, ph);
      if m(ls[0]) then [ls[0], ph] + rest
      else [ls[0]] + rest
  }

  /** The number of lines `m` marks. */
  function Marked(ls: seq<string>, m: string -> bool): nat {
    if ls == [] then 0 else (if m(ls[0]) then 1 else 0) + Marked(ls[1..], m)
  }

  /** `insert_shortdesc_tag` as evidently intended: the placeholder line
      right after every line that closes a title, and nowhere else. */
  function InsertAfterTitles(ls: seq<string>): (r: seq<string>)
    ensures |r| == |ls| + Marked(ls, IsTitleLine)
  {
    AfterMarked(ls, IsTitleLine, ShortdescLine)
  }

  /** Every title line of the result is followed by the placeholder. */
  lemma InsertAfterTitlesFollowed(ls: seq<string>, j: nat)
    requires j + 1 < |InsertAfterTitles(ls)| && IsTitleLine(InsertAfterTitles(ls)[j])
    ensures InsertAfterTitles(ls)[j + 1] == ShortdescLine
  {
    PlaceholderNotTitle();
    AfterMarkedFollowed(ls, IsTitleLine, ShortdescLine);
    var r := AfterMarked(ls, IsTitleLine, ShortdescLine);
    assert IsTitleLine(r[j]);
  }

  lemma {:induction false} AfterMarkedFollowed(ls: seq<string>, m: string -> bool, ph: string)
    requires !m(ph)
    ensures forall j :: 0 <= j < |AfterMarked(ls, m, ph)| - 1 && m(AfterMarked(ls, m, ph)[j]) ==>
      AfterMarked(ls, m, ph)[j + 1] == ph
  {
    if ls != [] {
      AfterMarkedFollowed(ls[1..], m, ph);
      var rest := AfterMarked(ls[1..], m, ph);
      var r := AfterMarked(ls, m, ph);
      var h := if m(ls[0]) then [ls[0], ph] else [ls[0]];
      assert r == h + rest;
      forall j | 0 <= j < |r| - 1 && m(r[j]) ensures r[j + 1] == ph {
        if j >= |h| {
          var i := j - |h|;
          assert r[j] == rest[i] && r[j + 1] == rest[i + 1];
          assert m(rest[i]);
          assert rest[i + 1] == ph;
        } else {
          assert r[0] == ls[0] && r[1] == h[1];
          assert r[j + 1] == ph;
        }
      }
    }
  }

  /** No two lines `m` marks are equal. */
  predicate DistinctMarked(ls: seq<string>, m: string -> bool) {
    forall a, b :: 0 <= a < b < |ls| && m(ls[a]) ==> ls[a] != ls[b]
  }

  /** When no title line repeats, the loop as written does what was
      intended, within as many steps as the result has lines. */
  lemma InsertShortdescTagAgrees(ls: seq<string>, fuel: nat)
    requires DistinctMarked(ls, IsTitleLine) && fuel >= |InsertAfterTitles(ls)|
    ensures InsertShortdescTag(ls, fuel) == Some(InsertAfterTitles(ls))
  {
    PlaceholderNotTitle();
    InsertLoopFromStart(ls, fuel, IsTitleLine, ShortdescLine);
  }

  /** `InsertLoopDistinct` from the first line. */
  lemma InsertLoopFromStart(ls: seq<string>, fuel: nat, m: string -> bool, ph: string)
    requires !m(ph) && DistinctMarked(ls, m) && fuel >= |AfterMarked(ls, m, ph)|
    ensures InsertLoop(ls, 0, fuel, m, ph) == Some(AfterMarked(ls, m, ph))
  {
    InsertLoopDistinct([], ls, fuel, m, ph);
    assert [] + ls == ls;
    assert [] + AfterMarked(ls, m, ph) == AfterMarked(ls, m, ph);
  }

  lemma LoopDone(ls: seq<string>, p: nat, fuel: nat, m: string -> bool, ph: string)
    requires p >= |ls|
    ensures InsertLoop(ls, p, fuel, m, ph) == Some(ls)
  {
  }

  /** An unmarked line is passed over. */
  lemma PlainStep(ls: seq<string>, p: nat, fuel: nat, m: string -> bool, ph: string)
    requires p < |ls| && fuel > 0 && !m(ls[p])
    ensures InsertLoop(ls, p, fuel, m, ph) == InsertLoop(ls, p + 1, fuel - 1, m, ph)
  {
  }

  /** A marked line seen for the first time gets the new line right after
      it, and the iterator then passes over that line. */
  lemma MarkedStep(pre: seq<string>, x: string, tail: seq<string>, fuel: nat, m: string -> bool, ph: string)
    requires m(x) && !m(ph) && x !in pre && fuel >= 2
    ensures InsertLoop(pre + [x] + tail, |pre|, fuel, m, ph) == InsertLoop(pre + [x, ph] + tail, |pre| + 2, fuel - 2, m, ph)
  {
    var ls := pre + [x] + tail;
    assert ls[|pre|] == x;
    var ind := IndexOfLine(ls, x);
    assert ind == |pre|;
    var ls1 := pre + [x, ph] + tail;
    assert ls[..ind + 1] + [ph] + ls[ind + 1..] == ls1;
    assert ls1[|pre| + 1] == ph;
    PlainStep(ls1, |pre| + 1, fuel - 1, m, ph);
  }

  lemma AfterMarkedCons(x: string, tail: seq<string>, m: string -> bool, ph: string)
    ensures AfterMarked([x] + tail, m, ph) == (if m(x) then [x, ph] else [x]) + AfterMarked(tail, m, ph)
  {
    assert ([x] + tail)[1..] == tail;
  }

  /** The loop from the start of `rest`, with everything before it already
      done, finishes the job when no marked line of `rest` repeats or
      occurs earlier. */
  lemma {:induction false} InsertLoopDistinct(pre: seq<string>, rest: seq<string>, fuel: nat, m: string -> bool, ph: string)
    requires !m(ph) && DistinctMarked(rest, m)
    requires forall j, k :: 0 <= j < |pre| && 0 <= k < |rest| && m(rest[k]) ==> pre[j] != rest[k]
    requires fuel >= |AfterMarked(rest, m, ph)|
    ensures InsertLoop(pre + rest, |pre|, fuel, m, ph) == Some(pre + AfterMarked(rest, m, ph))
    decreases |rest|
  {
    if rest == [] {
      assert pre + rest == pre;
      LoopDone(pre, |pre|, fuel, m, ph);
    } else {
      var x := rest[0];
      var tail := rest[1..];
      assert rest == [x] + tail;
      if m(x) {
        var pre1 := pre + [x, ph];
        assert x !in pre by {
          forall j | 0 <= j < |pre| ensures pre[j] != x {
            assert rest[0] == x;
          }
        }
        OneMarked(pre, x, tail, fuel, m, ph);
        DistinctTail(pre, rest, pre1, m, ph);
        InsertLoopDistinct(pre1, tail, fuel - 2, m, ph);
      } else {
        var pre1 := pre + [x];
        OnePlain(pre, x, tail, fuel, m, ph);
        DistinctTail(pre, rest, pre1, m, ph);
        InsertLoopDistinct(pre1, tail, fuel - 1, m, ph);
      }
    }
  }

  /** A marked first line: the loop inserts the new line after it, and the
      result as intended starts the same way. */
  lemma OneMarked(pre: seq<string>, x: string, tail: seq<string>, fuel: nat, m: string -> bool, ph: string)
    requires m(x) && !m(ph) && x !in pre && fuel >= |AfterMarked([x] + tail, m, ph)|
    ensures fuel - 2 >= |AfterMarked(tail, m, ph)|
    ensures (pre + [x, ph]) + AfterMarked(tail, m, ph) == pre + AfterMarked([x] + tail, m, ph)
    ensures InsertLoop(pre + ([x] + tail), |pre|, fuel, m, ph) == InsertLoop((pre + [x, ph]) + tail, |pre + [x, ph]|, fuel - 2, m, ph)
  {
    AfterMarkedCons(x, tail, m, ph);
    MarkedStep(pre, x, tail, fuel, m, ph);
    assert pre + ([x] + tail) == pre + [x] + tail;
  }

  /** An unmarked first line: passed over by both. */
  lemma OnePlain(pre: seq<string>, x: string, tail: seq<string>, fuel: nat, m: string -> bool, ph: string)
    requires !m(x) && fuel >= |AfterMarked([x] + tail, m, ph)|
    ensures fuel - 1 >= |AfterMarked(tail, m, ph)|
    ensures (pre + [x]) + AfterMarked(tail, m, ph) == pre + AfterMarked([x] + tail, m, ph)
    ensures InsertLoop(pre + ([x] + tail), |pre|, fuel, m, ph) == InsertLoop((pre + [x]) + tail, |pre + [x]|, fuel - 1, m, ph)
  {
    AfterMarkedCons(x, tail, m, ph);
    var ls := pre + ([x] + tail);
    assert ls[|pre|] == x;
    PlainStep(ls, |pre|, fuel, m, ph);
    assert ls == (pre + [x]) + tail;
  }

  /** The side conditions carry over to the rest of the lines. */
  lemma DistinctTail(pre: seq<string>, rest: seq<string>, pre1: seq<string>, m: string -> bool, ph: string)
    requires rest != [] && DistinctMarked(rest, m) && !m(ph)
    requires pre1 == (if m(rest[0]) then pre + [rest[0], ph] else pre + [rest[0]])
    requires forall j, k :: 0 <= j < |pre| && 0 <= k < |rest| && m(rest[k]) ==> pre[j] != rest[k]
    ensures DistinctMarked(rest[1..], m)
    ensures forall j, k :: 0 <= j < |pre1| && 0 <= k < |rest| - 1 && m(rest[1..][k]) ==> pre1[j] != rest[1..][k]
  {
    var tail := rest[1..];
    forall a, b | 0 <= a < b < |tail| && m(tail[a]) ensures tail[a] != tail[b] {
      assert tail[a] == rest[a + 1] && tail[b] == rest[b + 1];
    }
    forall j, k | 0 <= j < |pre1| && 0 <= k < |tail| && m(tail[k])
      ensures pre1[j] != tail[k]
    {
      assert tail[k] == rest[k + 1];
      if j < |pre| {
        assert pre1[j] == pre[j];
      } else if j == |pre| {
        assert pre1[j] == rest[0];
      }
    }
  }

  /** As written, two equal title lines (two figures with the same caption
      on one line each, say) make the loop run forever: every placeholder
      goes after the first of them, which pushes the second one back under
      the iterator at each step. */
  lemma RepeatedTitleLineNeverEnds(a: string, fuel: nat)
    requires IsTitleLine(a)
    ensures InsertShortdescTag([a, a], fuel) == None
  {
    PlaceholderNotTitle();
    RepeatNeverEnds(a, fuel, IsTitleLine, ShortdescLine);
  }

  lemma RepeatNeverEnds(a: string, fuel: nat, m: string -> bool, ph: string)
    requires m(a) && !m(ph)
    ensures InsertLoop([a, a], 0, fuel, m, ph) == None
  {
    if fuel > 0 {
      var ls1 := [a, ph, a];
      assert IndexOfLine([a, a], a) == 0;
      assert [a, a][..1] + [ph] + [a, a][1..] == ls1;
      assert InsertLoop([a, a], 0, fuel, m, ph) == InsertLoop(ls1, 1, fuel - 1, m, ph);
      if fuel > 1 {
        PlainStep(ls1, 1, fuel - 1, m, ph);
        StuckOnRepeat(ls1, fuel - 2, m, ph);
      }
    }
  }

  /** The stuck state: the last line repeats the first, a marked line, and
      the iterator is on it. */
  lemma {:induction false} StuckOnRepeat(ls: seq<string>, fuel: nat, m: string -> bool, ph: string)
    requires |ls| >= 2 && m(ls[0]) && ls[|ls| - 1] == ls[0]
    ensures InsertLoop(ls, |ls| - 1, fuel, m, ph) == None
    decreases fuel
  {
    if fuel > 0 {
      var a := ls[0];
      assert IndexOfLine(ls, a) == 0;
      var ls1 := ls[..1] + [ph] + ls[1..];
      assert ls1[|ls1| - 1] == a && ls1[0] == a;
      StuckOnRepeat(ls1, fuel - 1, m, ph);
    }
  }
}
