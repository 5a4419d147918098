/** File names derived from titles, as the style guide wants them.

    A topic's title becomes its file name: every non-word character turns
    into `_`, runs of `_` and the article "the" are squeezed out, a single
    leading letter before `_` is dropped, the type prefix goes in front, and
    a repetition number at the end.  Images get `img_` names built from
    their captions.  Three generations of the scripts differ in the prefix
    table, in a redundant clean-up pass and in the repetition number.
 */
module Naming {
  import opened Wrappers
  import opened PyStr
  import opened TypeTable

  // ---------------------------------------------------------------------
  // Topic names

  /** `re.sub(r'[\s\W]', '_', s)`: whitespace is not a word character, so
      this puts `_` in place of every non-word character. */
  function Underscored(s: string): (r: string)
    ensures |r| == |s|
    ensures AllWordChars(r)
  {
    seq(|s|, i requires 0 <= i < |s| => if IsWordChar(s[i]) then s[i] else '_')
  }

  /** The three `replace` calls, in order. */
  function Collapsed(s: string): string {
    Replace(Replace(Replace(s, "___", "_"), "__", "_"), "_the_", "_")
  }

  /** Trailing `_` dropped once. */
  function DropTrailing(s: string): string {
    if EndsWith(s, "_") then s[..|s| - 1] else s
  }

  /** The normalisation applied to a title before the prefix: IndexError
      when fewer than two characters are left, because position 1 is read. */
  function StemOf(a: string): (r: Result<string>)
    ensures r.Failure? ==> r.error == IndexError
  {
    var b := DropTrailing(a);
    if |b| < 2 then Failure(IndexError)
    else Success(if b[1] == '_' then b[2..] else b)
  }

  /** The stem `create_new_name` builds from a title (utils/local.py and
      cheetah_to_dita.py), with the second `\W` clean-up pass. */
  function NameStem(title: string): (r: Result<string>)
    ensures r.Success? ==> AllWordChars(r.value)
    ensures r.Failure? ==> r.error == IndexError
  {
    CollapsedWordChars(title);
    StemOf(RemoveNonWord(Collapsed(Underscored(title))))
  }

  /** After the first substitution every character is a word character, so
      the replacements keep it so. */
  lemma CollapsedWordChars(title: string)
    ensures AllWordChars(Collapsed(Underscored(title)))
  {
    var a := Underscored(title);
    ReplaceKeepsWordChars(a, "___", "_");
    ReplaceKeepsWordChars(Replace(a, "___", "_"), "__", "_");
    ReplaceKeepsWordChars(Replace(Replace(a, "___", "_"), "__", "_"), "_the_", "_");
  }

  /** The second clean-up pass changes nothing. */
  lemma SecondPassRedundant(title: string)
    ensures RemoveNonWord(Collapsed(Underscored(title))) == Collapsed(Underscored(title))
  {
    CollapsedWordChars(title);
    RemoveNonWordIdentity(Collapsed(Underscored(title)));
  }

  /** A title shorter than two characters cannot be named: the index read
      fails. */
  lemma ShortTitleFails(title: string)
    requires |title| < 2
    ensures NameStem(title) == Failure(IndexError)
  {
    var a := Underscored(title);
    ReplaceNotLonger(a, "___", "_");
    ReplaceNotLonger(Replace(a, "___", "_"), "__", "_");
    ReplaceNotLonger(Replace(Replace(a, "___", "_"), "__", "_"), "_the_", "_");
    SecondPassRedundant(title);
  }

  /** Letters and digits only: word characters other than `_`. */
  predicate Alnum(s: string) {
    forall i :: 0 <= i < |s| ==> IsWordChar(s[i]) && s[i] != '_'
  }

  /** An article between two words goes, and the words are joined by `_`. */
  lemma ArticleDropped(x: string, y: string)
    requires |x| >= 2 && Alnum(x) && y != [] && Alnum(y)
    ensures NameStem(x + " the " + y) == Success(x + "_" + y)
  {
    var t := x + " the " + y;
    UnderscoredArticle(x, y);
    NoDoublesKept(x + ("_the_" + y));
    NoDoubleUnderscore(x, "_the_", y);
    ArticleReplaced(x, y);
    SecondPassRedundant(t);
    StemOfJoined(x, y);
  }

  lemma UnderscoredArticle(x: string, y: string)
    requires Alnum(x) && Alnum(y)
    ensures Underscored(x + " the " + y) == x + ("_the_" + y)
  {
    var t := x + " the " + y;
    assert forall i :: 0 <= i < |x| ==> t[i] == x[i];
    assert forall i :: 0 <= i < |y| ==> t[|x| + 5 + i] == y[i];
  }

  /** Where `_` never doubles, the first two replacements change nothing. */
  lemma NoDoublesKept(a: string)
    requires SingleUnderscores(a)
    ensures Replace(Replace(a, "___", "_"), "__", "_") == a
  {
    AbsentByDouble(a, "___");
    ReplaceAbsent(a, "___", "_");
    AbsentByDouble(a, "__");
    ReplaceAbsent(a, "__", "_");
  }

  lemma ArticleReplaced(x: string, y: string)
    requires Alnum(x) && Alnum(y)
    ensures Replace(x + ("_the_" + y), "_the_", "_") == x + "_" + y
  {
    ReplaceSkip(x, "_the_" + y, "_the_", "_");
    ReplaceLeading("_the_", y, "_");
    AbsentByFirstChar(y, "_the_");
    ReplaceAbsent(y, "_the_", "_");
  }

  lemma StemOfJoined(x: string, y: string)
    requires |x| >= 2 && Alnum(x) && y != [] && Alnum(y)
    ensures StemOf(x + "_" + y) == Success(x + "_" + y)
  {
    var c := x + "_" + y;
    assert c[|c| - 1] == y[|y| - 1];
    assert c[|c| - 1..] == [c[|c| - 1]];
    assert c[1] == x[1];
  }

  /** A one-letter word before the first `_` is dropped with it. */
  lemma LeadingLetterDropped(x: char, y: string)
    requires Alnum([x]) && y != [] && Alnum(y)
    ensures NameStem([x] + " " + y) == Success(y)
  {
    var t := [x] + " " + y;
    var a := [x] + ("_" + y);
    assert Underscored(t) == a by {
      assert forall i :: 0 <= i < |y| ==> t[2 + i] == y[i];
    }
    assert SingleUnderscores(a);
    NoDoublesKept(a);
    NoArticle(x, y);
    SecondPassRedundant(t);
    StemOfLetter(x, y);
  }

  lemma NoArticle(x: char, y: string)
    requires Alnum([x]) && Alnum(y)
    ensures Replace([x] + ("_" + y), "_the_", "_") == [x] + ("_" + y)
  {
    ReplaceSkip([x], "_" + y, "_the_", "_");
    if |y| >= 4 {
      assert ("_" + y)[..5][4] == y[3];
    }
    assert ("_" + y)[1..] == y;
    AbsentByFirstChar(y, "_the_");
    ReplaceAbsent(y, "_the_", "_");
  }

  lemma StemOfLetter(x: char, y: string)
    requires y != [] && Alnum(y)
    ensures StemOf([x] + ("_" + y)) == Success(y)
  {
    var c := [x] + ("_" + y);
    assert c[|c| - 1..] == [y[|y| - 1]];
    assert c[2..] == y;
  }

  /** The worked example: the article goes, the spaces become `_`. */
  lemma CleanTheRollers(t: string)
    requires t == "Clean the Rollers"
    ensures NameStem(t) == Success("Clean_Rollers")
  {
    ArticleDropped("Clean", "Rollers");
    CleanTheRollersText();
  }

  lemma CleanTheRollersText()
    ensures "Clean" + " the " + "Rollers" == "Clean the Rollers"
    ensures "Clean" + "_" + "Rollers" == "Clean_Rollers"
    ensures "t_" + "Clean_Rollers" + "" == "t_Clean_Rollers"
    ensures "t_" + "Clean_Rollers" + "_2" == "t_Clean_Rollers_2"
  {
  }

  /** A one-letter first word goes with its `_`. */
  lemma AGuide(t: string)
    requires t == "A Guide"
    ensures NameStem(t) == Success("Guide")
  {
    LeadingLetterDropped('A', "Guide");
    AGuideText();
  }

  lemma AGuideText()
    ensures ['A'] + " " + "Guide" == "A Guide"
  {
  }

  /** No two `_` side by side. */
  predicate SingleUnderscores(s: string) {
    forall i :: 0 <= i < |s| - 1 ==> s[i] != '_' || s[i + 1] != '_'
  }

  /** Two words joined by one `_the_` have no `__`. */
  lemma NoDoubleUnderscore(x: string, m: string, y: string)
    requires Alnum(x) && Alnum(y)
    requires m == "_the_"
    ensures SingleUnderscores(x + (m + y))
  {
  }

  /** A pattern starting with `__` does not occur where `_` never doubles. */
  lemma AbsentByDouble(s: string, pat: string)
    requires |pat| >= 2 && pat[0] == '_' && pat[1] == '_'
    requires SingleUnderscores(s)
    ensures !Contains(s, pat)
  {
    ContainsAt(s, pat);
  }

  /** A pattern whose first character is absent does not occur. */
  lemma AbsentByFirstChar(s: string, pat: string)
    requires pat != [] && forall i :: 0 <= i < |s| ==> s[i] != pat[0]
    ensures !Contains(s, pat)
  {
    ContainsAt(s, pat);
    forall i: int
      ensures !OccursAt(s, pat, i)
    {
      if 0 <= i <= |s| - |pat| {
        assert s[i..i + |pat|][0] == s[i];
      }
    }
  }

  lemma NotPrefixByFirst(pat: string, s: string)
    requires pat != [] && s != [] && s[0] != pat[0]
    ensures !IsPrefix(pat, s)
  {
  }

  /** Characters that cannot start the pattern pass through unchanged. */
  lemma {:induction false} ReplaceSkip(x: string, y: string, pat: string, rep: string)
    requires pat != []
    requires forall i :: 0 <= i < |x| ==> x[i] != pat[0]
    ensures Replace(x + y, pat, rep) == x + Replace(y, pat, rep)
    decreases |x|
  {
    if x != [] {
      ConsAppend(x, y);
      NotPrefixByFirst(pat, [x[0]] + (x[1..] + y));
      ReplaceCons(x[0], x[1..] + y, pat, rep);
      ReplaceSkip(x[1..], y, pat, rep);
      ConsAppend(x, Replace(y, pat, rep));
    } else {
      assert x + y == y;
    }
  }

  /** The prefix a class gets from the packaged table; none for an unknown
      class. */
  function TablePrefix(oc: Option<string>): string {
    match Params(oc)
    case Some(p) => p.prefix
    case None => ""
  }

  /** `_<n>` for a repeated title, nothing for the first. */
  function RepetitionSuffix(n: nat): (r: string)
    ensures n > 1 <==> r != []
    ensures AllWordChars(r)
  {
    if n > 1 then "_" + NatToString(n) else ""
  }

  /** `LocalTopic.create_new_name` (utils/local.py). */
  function CreateNewName(title: string, oc: Option<string>, n: nat): (r: Result<string>)
    ensures r.Failure? <==> NameStem(title).Failure?
    ensures r.Success? ==> AllWordChars(r.value)
    ensures r.Success? && Params(oc).Some? ==> IsPrefix(Params(oc).value.prefix, r.value)
    ensures r.Success? ==> EndsWith(r.value, RepetitionSuffix(n))
  {
    match NameStem(title)
    case Failure(e) => Failure(e)
    case Success(stem) =>
      TablePrefixWordChars(oc);
      ThreePieces(TablePrefix(oc), stem, RepetitionSuffix(n));
      Success(TablePrefix(oc) + stem + RepetitionSuffix(n))
  }

  lemma TablePrefixWordChars(oc: Option<string>)
    ensures AllWordChars(TablePrefix(oc))
  {
    if Params(oc).Some? { EntriesConsistent(oc.value); }
  }

  /** Three texts joined: the first is a prefix, the last a suffix, and
      word-only pieces give a word-only text. */
  lemma ThreePieces(a: string, b: string, c: string)
    ensures IsPrefix(a, a + b + c) && EndsWith(a + b + c, c)
    ensures AllWordChars(a) && AllWordChars(b) && AllWordChars(c) ==> AllWordChars(a + b + c)
  {
    var r := a + b + c;
    assert r[..|a|] == a;
    assert r[|r| - |c|..] == c;
  }

  /** The worked example with its prefix, and a repeated title. */
  lemma CleanTheRollersNamed(t: string)
    requires t == "Clean the Rollers"
    ensures CreateNewName(t, Some("procedure"), 1) == Success("t_Clean_Rollers")
    ensures CreateNewName(t, Some("procedure"), 2) == Success("t_Clean_Rollers_2")
  {
    CleanTheRollers(t);
    ProcedurePrefix();
    CleanTheRollersText();
  }

  lemma ProcedurePrefix()
    ensures TablePrefix(Some("procedure")) == "t_"
    ensures RepetitionSuffix(1) == "" && RepetitionSuffix(2) == "_2"
  {
  }

  /** Distinct repetition numbers give distinct names. */
  lemma NewNamesDistinct(title: string, oc: Option<string>, n: nat, m: nat)
    requires 1 <= n && 1 <= m && n != m
    requires NameStem(title).Success?
    ensures CreateNewName(title, oc, n) != CreateNewName(title, oc, m)
  {
    var base := TablePrefix(oc) + NameStem(title).value;
    SuffixesDistinct(base, n, m);
  }

  lemma SuffixesDistinct(base: string, n: nat, m: nat)
    requires 1 <= n && 1 <= m && n != m
    ensures base + RepetitionSuffix(n) != base + RepetitionSuffix(m)
  {
    if base + RepetitionSuffix(n) == base + RepetitionSuffix(m) {
      AppendCancel(base, RepetitionSuffix(n), RepetitionSuffix(m));
      assert n > 1 && m > 1;
      AppendCancel("_", NatToString(n), NatToString(m));
      NatToStringInjective(n, m);
    }
  }

  /** The prefix of the older prefix table. */
  function LegacyPrefix(oc: Option<string>): string {
    if oc.Some? && oc.value in LegacyOutputClasses then LegacyOutputClasses[oc.value] else ""
  }

  /** `Pair.create_new_name` (cheetah_to_dita.py): the older prefix table. */
  function CheetahNewName(title: string, oc: Option<string>, n: nat): (r: Result<string>)
    ensures r.Failure? <==> NameStem(title).Failure?
    ensures r.Success? ==> AllWordChars(r.value)
    ensures r.Success? && oc.Some? && oc.value in LegacyOutputClasses ==> IsPrefix(LegacyOutputClasses[oc.value], r.value)
  {
    match NameStem(title)
    case Failure(e) => Failure(e)
    case Success(stem) =>
      ThreePieces(LegacyPrefix(oc), stem, RepetitionSuffix(n));
      Success(LegacyPrefix(oc) + stem + RepetitionSuffix(n))
  }

  /** The two tables give the same prefix except for legal information
      (`e_` against `r_`) and covers (no prefix against `r_`). */
  lemma PrefixesAgree(oc: Option<string>)
    ensures oc.None? || (oc.value != "legalinformation" && oc.value != "frontcover" && oc.value != "backcover")
      ==> LegacyPrefix(oc) == TablePrefix(oc)
    ensures oc == Some("legalinformation") ==> LegacyPrefix(oc) == "e_" && TablePrefix(oc) == "r_"
    ensures oc == Some("frontcover") || oc == Some("backcover") ==> LegacyPrefix(oc) == "" && TablePrefix(oc) == "r_"
  {
    if oc.Some? && oc.value in LegacyOutputClasses && oc.value != "legalinformation" {
      LegacyAgreesElsewhere(oc.value);
    }
  }

  /** So the Cheetah script names as the packaged scripts do except for
      those three classes. */
  lemma CheetahAgreesWithPackaged(title: string, oc: Option<string>, n: nat)
    ensures oc.None? || (oc.value != "legalinformation" && oc.value != "frontcover" && oc.value != "backcover")
      ==> CheetahNewName(title, oc, n) == CreateNewName(title, oc, n)
    ensures NameStem(title).Success? && oc == Some("legalinformation") ==>
      CheetahNewName(title, oc, n).value[..2] == "e_" && CreateNewName(title, oc, n).value[..2] == "r_"
  {
    PrefixesAgree(oc);
  }

  /** `Pair.create_new_name` (rename_step1.py): no second clean-up pass and
      no repetition number. */
  function Step1NewName(title: string, oc: Option<string>): (r: Result<string>)
    ensures r.Failure? ==> r.error == IndexError
  {
    match StemOf(Collapsed(Underscored(title)))
    case Failure(e) => Failure(e)
    case Success(stem) => Success(LegacyPrefix(oc) + stem)
  }

  /** The first script names exactly as the Cheetah script does for a title
      seen once: the dropped pass was redundant. */
  lemma Step1AgreesWithCheetah(title: string, oc: Option<string>)
    ensures Step1NewName(title, oc) == CheetahNewName(title, oc, 1)
  {
    SecondPassRedundant(title);
    assert NameStem(title) == StemOf(Collapsed(Underscored(title)));
    if NameStem(title).Success? {
      var p := LegacyPrefix(oc);
      var stem := NameStem(title).value;
      assert RepetitionSuffix(1) == [];
      assert p + stem + [] == p + stem;
    }
  }

  // ---------------------------------------------------------------------
  // Image names

  /** An image file known to the map; the extension is computed when the
      object is made. */
  datatype Image = Image(href: string, title: Option<string>, tempTitle: Option<string>, ext: string)

  /** `Image(href)`: IndexError when the href has no dot. */
  function NewImage(href: string): (r: Result<Image>)
    ensures r.Failure? <==> forall j :: 0 <= j < |href| ==> href[j] != '.'
    ensures r.Success? ==> r.value.title.None? && r.value.tempTitle.None? && r.value.href == href
    ensures r.Success? ==> |r.value.ext| >= 1 && r.value.ext[0] == '.' && EndsWith(href, r.value.ext)
    ensures r.Success? ==> forall j :: 1 <= j < |r.value.ext| ==> r.value.ext[j] != '.'
  {
    match RSplitOnce(href, '.')
    case None => Failure(IndexError)
    case Some((stem, e)) =>
      assert href == stem + ("." + e);
      assert href[|href| - |"." + e|..] == "." + e;
      Success(Image(href, None, None, "." + e))
  }

  /** The text a generated name is built from: the caption with spaces as
      `_`, or the href without its extension. */
  function ImageBase(img: Image): string {
    match img.tempTitle
    case Some(t) => Join("_", Split(t, ' '))
    case None => match RSplitOnce(img.href, '.') case Some((stem, _)) => stem case None => img.href
  }

  /** `Image.generate_name` (utils/local.py and local.py). */
  function ImageName(img: Image, prefix: string): (r: string)
    ensures IsPrefix("img_" + prefix + "_", r) && EndsWith(r, img.ext)
    ensures |r| >= |"img_" + prefix + "_"| + |img.ext|
    ensures AllWordChars(r[|"img_" + prefix + "_"|..|r| - |img.ext|])
  {
    var head := "img_" + prefix + "_";
    var mid := RemoveNonWord(ImageBase(img));
    var r := head + mid + img.ext;
    assert r[..|head|] == head;
    assert r[|head|..|r| - |img.ext|] == mid;
    assert r[|r| - |img.ext|..] == img.ext;
    r
  }

  /** A caption's spaces become `_` and other non-word characters vanish. */
  lemma ImageNameFromCaption(img: Image, prefix: string)
    requires img.tempTitle.Some?
    ensures ImageName(img, prefix) ==
      "img_" + prefix + "_" + RemoveNonWord(MapChar(img.tempTitle.value, ' ', '_')) + img.ext
  {
    JoinSplit(img.tempTitle.value, ' ', '_');
  }

  /** The new name keeps the image's extension: splitting it at the last dot
      gives back the extension of a well-formed image. */
  lemma ImageNameKeepsExtension(href: string, tempTitle: Option<string>, prefix: string)
    requires NewImage(href).Success?
    requires forall j :: 0 <= j < |prefix| ==> prefix[j] != '.'
    ensures var img := NewImage(href).value.(tempTitle := tempTitle);
      RSplitOnce(ImageName(img, prefix), '.').Some?
      && RSplitOnce(ImageName(img, prefix), '.').value.1 == RSplitOnce(href, '.').value.1
  {
    var img := NewImage(href).value.(tempTitle := tempTitle);
    var e := RSplitOnce(href, '.').value.1;
    var mid := RemoveNonWord(ImageBase(img));
    var x := "img_" + prefix + "_" + mid;
    assert ImageName(img, prefix) == x + ['.'] + e;
    RSplitOnceAppend(x, '.', e);
  }

  /** `Image.generate_name` (rename_step1.py): no clean-up of the base. */
  function Step1ImageName(img: Image, prefix: string): (r: string)
    ensures IsPrefix("img_" + prefix + "_", r) && EndsWith(r, img.ext)
  {
    var head := "img_" + prefix + "_";
    var r := head + ImageBase(img) + img.ext;
    assert r[..|head|] == head;
    assert r[|r| - |img.ext|..] == img.ext;
    r
  }

  /** The first script's names agree with the later ones exactly when the
      base holds only word characters. */
  lemma Step1ImageNameAgrees(img: Image, prefix: string)
    ensures AllWordChars(ImageBase(img)) ==> Step1ImageName(img, prefix) == ImageName(img, prefix)
    ensures !AllWordChars(ImageBase(img)) ==> Step1ImageName(img, prefix) != ImageName(img, prefix)
  {
    var head := "img_" + prefix + "_";
    var b := ImageBase(img);
    if AllWordChars(b) {
      RemoveNonWordIdentity(b);
    }
  }
}
