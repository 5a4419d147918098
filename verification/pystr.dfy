/** The Python string operations the program relies on, written out.

    Character classes follow Python 3's Unicode `re` module up to a
    bound: `\w` is exact up to U+024F (ASCII, the Latin-1 letters and
    numerics, Latin Extended-A and -B, and `_`), and `\d` is exact below
    U+0660, the first non-ASCII decimal digit; above those bounds no
    character is a word character or a digit.  `strip()` uses the exact
    set of characters for which `str.isspace()` holds.
 */
module PyStr {
  import opened Wrappers

  // ---------------------------------------------------------------------
  // Prefixes, suffixes and `in`

  predicate IsPrefix(p: string, s: string) {
    |p| <= |s| && s[..|p|] == p
  }

  predicate EndsWith(s: string, suffix: string) {
    |suffix| <= |s| && s[|s| - |suffix|..] == suffix
  }

  /** Python's `sub in s`. */
  predicate Contains(s: string, sub: string)
    decreases |s|
  {
    IsPrefix(sub, s) || (|s| > 0 && Contains(s[1..], sub))
  }

  /** `sub` occurs in `s` starting at position `i`. */
  predicate OccursAt(s: string, sub: string, i: int) {
    0 <= i <= |s| - |sub| && s[i..i + |sub|] == sub
  }

  /** The recursive substring test agrees with the positional definition. */
  lemma {:induction false} ContainsAt(s: string, sub: string)
    ensures Contains(s, sub) <==> exists i :: OccursAt(s, sub, i)
    decreases |s|
  {
    if IsPrefix(sub, s) {
      assert OccursAt(s, sub, 0);
    } else if |s| == 0 {
    } else {
      ContainsAt(s[1..], sub);
      if Contains(s[1..], sub) {
        var i :| OccursAt(s[1..], sub, i);
        assert s[i + 1..i + 1 + |sub|] == s[1..][i..i + |sub|];
        assert OccursAt(s, sub, i + 1);
      }
      if exists i :: OccursAt(s, sub, i) {
        var i :| OccursAt(s, sub, i);
        assert i != 0;
        assert s[1..][i - 1..i - 1 + |sub|] == s[i..i + |sub|];
        assert OccursAt(s[1..], sub, i - 1);
      }
    }
  }

  lemma ContainsSelf(s: string)
    ensures Contains(s, s)
  {
  }

  // ---------------------------------------------------------------------
  // str.replace

  /** `s.replace(pat, rep)`: every non-overlapping occurrence of `pat`,
      scanning left to right, is replaced; an empty `pat` inserts `rep`
      before every character and at the end. */
  function Replace(s: string, pat: string, rep: string): string
    decreases |s|
  {
    if pat == [] then Interleave(s, rep)
    else if IsPrefix(pat, s) then rep + Replace(s[|pat|..], pat, rep)
    else if s == [] then []
    else [s[0]] + Replace(s[1..], pat, rep)
  }

  function Interleave(s: string, sep: string): string
    decreases |s|
  {
    if s == [] then sep else sep + [s[0]] + Interleave(s[1..], sep)
  }

  /** Replacing a substring that does not occur changes nothing. */
  lemma {:induction false} ReplaceAbsent(s: string, pat: string, rep: string)
    requires pat != []
    requires !Contains(s, pat)
    ensures Replace(s, pat, rep) == s
    decreases |s|
  {
    if s != [] {
      ReplaceAbsent(s[1..], pat, rep);
    }
  }

  /** Replacing a substring by itself changes nothing. */
  lemma {:induction false} ReplaceIdentity(s: string, pat: string)
    requires pat != []
    ensures Replace(s, pat, pat) == s
    decreases |s|
  {
    if IsPrefix(pat, s) {
      ReplaceIdentity(s[|pat|..], pat);
    } else if s != [] {
      ReplaceIdentity(s[1..], pat);
    }
  }

  /** A string that starts with `pat` has its leading copy replaced. */
  lemma {:induction false} ReplaceWhole(pat: string, rep: string)
    requires pat != []
    ensures Replace(pat, pat, rep) == rep
  {
    assert IsPrefix(pat, pat);
    assert pat[|pat|..] == [];
  }

  /** A string that starts with `pat` has that copy replaced first. */
  lemma ReplaceLeading(pat: string, rest: string, rep: string)
    requires pat != []
    ensures Replace(pat + rest, pat, rep) == rep + Replace(rest, pat, rep)
  {
    assert (pat + rest)[..|pat|] == pat;
    assert (pat + rest)[|pat|..] == rest;
  }

  /** A character that starts no copy of the pattern is kept. */
  lemma ReplaceCons(c: char, t: string, pat: string, rep: string)
    requires pat != [] && !IsPrefix(pat, [c] + t)
    ensures Replace([c] + t, pat, rep) == [c] + Replace(t, pat, rep)
  {
    assert ([c] + t)[1..] == t;
  }

  /** Splitting the first character off a concatenation. */
  lemma ConsAppend(x: string, y: string)
    requires x != []
    ensures x + y == [x[0]] + (x[1..] + y)
  {
    assert x == [x[0]] + x[1..];
  }

  /** A common prefix cancels. */
  lemma AppendCancel(a: string, s: string, t: string)
    requires a + s == a + t
    ensures s == t
  {
    assert s == (a + s)[|a|..];
    assert t == (a + t)[|a|..];
  }

  /** Replacing by a text no longer than the pattern never lengthens. */
  lemma {:induction false} ReplaceNotLonger(s: string, pat: string, rep: string)
    requires pat != [] && |rep| <= |pat|
    ensures |Replace(s, pat, rep)| <= |s|
    decreases |s|
  {
    if IsPrefix(pat, s) {
      ReplaceNotLonger(s[|pat|..], pat, rep);
    } else if s != [] {
      ReplaceNotLonger(s[1..], pat, rep);
    }
  }

  // ---------------------------------------------------------------------
  // Character classes

  /** Python 3's Unicode `\w` (`str.isalnum()` or `_`) on the characters
      up to U+024F: ASCII letters and digits, the Latin-1 letters and
      numerics (ª ² ³ µ ¹ º ¼ ½ ¾ and À to ÿ except × and ÷), and the
      Latin Extended-A and -B blocks, which hold letters only. Characters
      above U+024F count as non-word characters. */
  predicate IsWordChar(c: char) {
    ('a' <= c <= 'z') || ('A' <= c <= 'Z') || ('0' <= c <= '9') || c == '_'
    || c == '\U{aa}' || c == '\U{b2}' || c == '\U{b3}' || c == '\U{b5}' || c == '\U{b9}' || c == '\U{ba}'
    || ('\U{bc}' <= c <= '\U{be}')
    || ('\U{c0}' <= c <= '\U{24f}' && c != '\U{d7}' && c != '\U{f7}')
  }

  /** Python 3's Unicode `\d` on the characters up to U+065F, where the
      only decimal digits are the ASCII ones. */
  predicate IsDigit(c: char) {
    '0' <= c <= '9'
  }

  /** Python's `str.isspace()` for one character. */
  predicate IsSpace(c: char) {
    c == ' ' || ('\t' <= c <= '\r') || ('\U{1c}' <= c <= '\U{1f}') || c == '\U{85}' || c == '\U{a0}'
    || c == '\U{1680}' || ('\U{2000}' <= c <= '\U{200a}') || c == '\U{2028}' || c == '\U{2029}'
    || c == '\U{202f}' || c == '\U{205f}' || c == '\U{3000}'
  }

  predicate AllWordChars(s: string) {
    forall i :: 0 <= i < |s| ==> IsWordChar(s[i])
  }

  /** Replacing inside a word-only string by word-only text keeps it
      word-only. */
  lemma {:induction false} ReplaceKeepsWordChars(s: string, pat: string, rep: string)
    requires pat != [] && AllWordChars(s) && AllWordChars(rep)
    ensures AllWordChars(Replace(s, pat, rep))
    decreases |s|
  {
    if IsPrefix(pat, s) {
      ReplaceKeepsWordChars(s[|pat|..], pat, rep);
    } else if s != [] {
      ReplaceKeepsWordChars(s[1..], pat, rep);
    }
  }

  // ---------------------------------------------------------------------
  // strip, upper, lower

  function LStrip(s: string): (r: string)
    ensures |r| <= |s|
    ensures r == [] || !IsSpace(r[0])
    ensures EndsWith(s, r)
    decreases |s|
  {
    if s != [] && IsSpace(s[0]) then LStrip(s[1..]) else s
  }

  function RStrip(s: string): (r: string)
    ensures |r| <= |s|
    ensures r == [] || !IsSpace(r[|r| - 1])
    ensures IsPrefix(r, s)
    decreases |s|
  {
    if s != [] && IsSpace(s[|s| - 1]) then RStrip(s[..|s| - 1]) else s
  }

  /** `s.strip()` with no argument. */
  function Strip(s: string): string {
    RStrip(LStrip(s))
  }

  /** A string made only of whitespace strips to the empty string. */
  lemma {:induction false} StripAllSpace(s: string)
    requires forall i :: 0 <= i < |s| ==> IsSpace(s[i])
    ensures Strip(s) == []
    decreases |s|
  {
    if s != [] {
      StripAllSpace(s[1..]);
    }
  }

  function UpperChar(c: char): char {
    if 'a' <= c <= 'z' then (c as int - 32) as char else c
  }

  function LowerChar(c: char): char {
    if 'A' <= c <= 'Z' then (c as int + 32) as char else c
  }

  /** `s.upper()` for ASCII letters. */
  function Upper(s: string): (r: string)
    ensures |r| == |s|
    ensures forall i :: 0 <= i < |s| ==> r[i] == UpperChar(s[i])
  {
    seq(|s|, i requires 0 <= i < |s| => UpperChar(s[i]))
  }

  /** `s.lower()` for ASCII letters. */
  function Lower(s: string): (r: string)
    ensures |r| == |s|
    ensures forall i :: 0 <= i < |s| ==> r[i] == LowerChar(s[i])
  {
    seq(|s|, i requires 0 <= i < |s| => LowerChar(s[i]))
  }

  // ---------------------------------------------------------------------
  // split / join on one character

  /** `s.split(sep)` for a one-character separator: the pieces between
      separators, including empty ones. */
  function Split(s: string, sep: char): (r: seq<string>)
    ensures |r| >= 1
    decreases |s|
  {
    if s == [] then [[]]
    else
      var rest := Split(s[1..], sep);
      if s[0] == sep then [[]] + rest
      else [[s[0]] + rest[0]] + rest[1..]
  }

  /** `sep.join(parts)`. */
  function Join(sep: string, parts: seq<string>): string
    decreases |parts|
  {
    if parts == [] then []
    else if |parts| == 1 then parts[0]
    else parts[0] + sep + Join(sep, parts[1..])
  }

  /** Every occurrence of `a` replaced by `b`. */
  function MapChar(s: string, a: char, b: char): (r: string)
    ensures |r| == |s|
    ensures forall i :: 0 <= i < |s| ==> r[i] == (if s[i] == a then b else s[i])
  {
    seq(|s|, i requires 0 <= i < |s| => if s[i] == a then b else s[i])
  }

  /** `'_'.join(s.split(' '))` puts `_` in place of every space. */
  lemma {:induction false} JoinSplit(s: string, a: char, b: char)
    ensures Join([b], Split(s, a)) == MapChar(s, a, b)
    decreases |s|
  {
    if s != [] {
      JoinSplit(s[1..], a, b);
      MapCharCons(s, a, b);
      if s[0] != a {
        JoinHead([b], s[0], Split(s[1..], a));
      } else {
        assert ([[]] + Split(s[1..], a))[1..] == Split(s[1..], a);
      }
    }
  }

  lemma MapCharCons(s: string, a: char, b: char)
    requires s != []
    ensures MapChar(s, a, b) == [if s[0] == a then b else s[0]] + MapChar(s[1..], a, b)
  {
  }

  /** Gluing a character to the first part glues it to the joined text. */
  lemma JoinHead(sep: string, c: char, parts: seq<string>)
    requires parts != []
    ensures Join(sep, [[c] + parts[0]] + parts[1..]) == [c] + Join(sep, parts)
  {
    var q := [[c] + parts[0]] + parts[1..];
    assert q[1..] == parts[1..];
  }

  /** Splitting a string that starts with the character `c`. */
  lemma SplitCons(c: char, t: string, sep: char)
    ensures Split([c] + t, sep) == if c == sep then [[]] + Split(t, sep) else [[c] + Split(t, sep)[0]] + Split(t, sep)[1..]
  {
    assert ([c] + t)[1..] == t;
  }

  /** Splitting off the first character of `x`. */
  lemma ConsSplit(x: string, sep: char, y: string)
    requires x != []
    ensures x + [sep] + y == [x[0]] + (x[1..] + [sep] + y)
  {
    assert x == [x[0]] + x[1..];
  }

  /** The first piece of a split holds no separator. */
  lemma {:induction false} SplitFirstNoSep(s: string, sep: char)
    ensures forall i :: 0 <= i < |Split(s, sep)[0]| ==> Split(s, sep)[0][i] != sep
    decreases |s|
  {
    if s != [] {
      SplitFirstNoSep(s[1..], sep);
    }
  }

  /** Splitting `x + sep + y` where `x` holds no separator. */
  lemma {:induction false} SplitAfterPiece(x: string, sep: char, y: string)
    requires forall i :: 0 <= i < |x| ==> x[i] != sep
    ensures Split(x + [sep] + y, sep) == [x] + Split(y, sep)
    decreases |x|
  {
    if x == [] {
      assert x + [sep] + y == [sep] + y;
      assert ([sep] + y)[1..] == y;
    } else {
      SplitAfterPiece(x[1..], sep, y);
      assert (x + [sep] + y)[1..] == x[1..] + [sep] + y;
      assert [x[0]] + x[1..] == x;
    }
  }

  /** Two separator-free pieces joined by one separator split apart. */
  lemma SplitTwo(x: string, sep: char, y: string)
    requires forall i :: 0 <= i < |x| ==> x[i] != sep
    requires forall i :: 0 <= i < |y| ==> y[i] != sep
    ensures Split(x + [sep] + y, sep) == [x, y]
  {
    SplitAfterPiece(x, sep, y);
    SplitNoSep(y, sep);
  }

  /** A string without separator splits into itself. */
  lemma {:induction false} SplitNoSep(x: string, sep: char)
    requires forall i :: 0 <= i < |x| ==> x[i] != sep
    ensures Split(x, sep) == [x]
    decreases |x|
  {
    if x != [] {
      SplitNoSep(x[1..], sep);
      assert [x[0]] + x[1..] == x;
    }
  }

  /** Position of the last occurrence of `c`, if any. */
  function LastIndexOf(s: string, c: char): (r: Option<nat>)
    ensures r.Some? ==> r.value < |s| && s[r.value] == c
    ensures r.Some? ==> forall j :: r.value < j < |s| ==> s[j] != c
    ensures r.None? ==> forall j :: 0 <= j < |s| ==> s[j] != c
    decreases |s|
  {
    if s == [] then None
    else if s[|s| - 1] == c then Some(|s| - 1)
    else LastIndexOf(s[..|s| - 1], c)
  }

  /** `s.rsplit(sep, 1)`: the text before and after the last separator,
      or None when `s.rsplit(sep, 1)[1]` would raise IndexError. */
  function RSplitOnce(s: string, sep: char): (r: Option<(string, string)>)
    ensures r.Some? ==> r.value.0 + [sep] + r.value.1 == s
    ensures r.Some? ==> forall j :: 0 <= j < |r.value.1| ==> r.value.1[j] != sep
    ensures r.None? <==> forall j :: 0 <= j < |s| ==> s[j] != sep
  {
    match LastIndexOf(s, sep)
    case None => None
    case Some(i) =>
      assert s[..i] + [sep] + s[i + 1..] == s;
      Some((s[..i], s[i + 1..]))
  }

  /** Splitting at the last separator undoes appending a separator and a
      separator-free tail. */
  lemma RSplitOnceAppend(x: string, sep: char, y: string)
    requires forall j :: 0 <= j < |y| ==> y[j] != sep
    ensures RSplitOnce(x + [sep] + y, sep) == Some((x, y))
  {
    var s := x + [sep] + y;
    assert s[|x|] == sep;
    assert forall j :: |x| < j < |s| ==> s[j] == y[j - |x| - 1];
    assert s[..|x|] == x && s[|x| + 1..] == y;
  }

  // ---------------------------------------------------------------------
  // Regular-expression pieces

  /** `re.sub(r'\W+', '', s)`: drop every non-word character. */
  function RemoveNonWord(s: string): (r: string)
    ensures AllWordChars(r)
    ensures |r| <= |s|
    decreases |s|
  {
    if s == [] then []
    else if IsWordChar(s[0]) then [s[0]] + RemoveNonWord(s[1..])
    else RemoveNonWord(s[1..])
  }

  /** Removing non-word characters from a word-only string is the identity. */
  lemma {:induction false} RemoveNonWordIdentity(s: string)
    requires AllWordChars(s)
    ensures RemoveNonWord(s) == s
    decreases |s|
  {
    if s != [] {
      RemoveNonWordIdentity(s[1..]);
    }
  }

  /** `re.search(r'^\d+\. ', s)` succeeds: one or more digits, a dot, a space. */
  predicate IsNumbered(s: string) {
    |s| >= 3 && IsDigit(s[0]) && AfterDigits(s[1..])
  }

  predicate AfterDigits(s: string)
    decreases |s|
  {
    if |s| >= 2 && s[0] == '.' && s[1] == ' ' then true
    else |s| > 0 && IsDigit(s[0]) && AfterDigits(s[1..])
  }

  // ---------------------------------------------------------------------
  // str(n)

  function DigitChar(d: nat): char
    requires d < 10
  {
    ('0' as int + d) as char
  }

  /** `str(n)` for a non-negative integer. */
  function NatToString(n: nat): (r: string)
    ensures |r| >= 1
    ensures forall i :: 0 <= i < |r| ==> IsDigit(r[i])
    decreases n
  {
    if n < 10 then [DigitChar(n)] else NatToString(n / 10) + [DigitChar(n % 10)]
  }

  /** `int(s)` for a string of digits. */
  function DigitsValue(s: string): nat
    decreases |s|
  {
    if s == [] then 0
    else DigitsValue(s[..|s| - 1]) * 10 + (if IsDigit(s[|s| - 1]) then s[|s| - 1] as int - '0' as int else 0)
  }

  /** Reading back `str(n)` gives `n`. */
  lemma {:induction false} NatToStringRoundTrip(n: nat)
    ensures DigitsValue(NatToString(n)) == n
    decreases n
  {
    if n >= 10 {
      NatToStringRoundTrip(n / 10);
      var s := NatToString(n);
      assert s[..|s| - 1] == NatToString(n / 10);
    }
  }

  /** Different numbers print differently. */
  lemma NatToStringInjective(n: nat, m: nat)
    requires NatToString(n) == NatToString(m)
    ensures n == m
  {
    NatToStringRoundTrip(n);
    NatToStringRoundTrip(m);
  }

  /** A word-only string stays word-only when word-only text is appended. */
  lemma AllWordCharsConcat(a: string, b: string)
    requires AllWordChars(a) && AllWordChars(b)
    ensures AllWordChars(a + b)
  {
  }
}
