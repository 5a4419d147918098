/** The metadata part of the content management client.

    A request carries a list of fields; `Metadata` collects them, renders
    the request fragment, the name-keyed attribute map, and joins two
    collections.  `Unpack` turns a server response into metadata: it wraps
    the response so that it has one root, and reads the fields of every
    folder it lists.  The network calls around them are not modelled.
 */
module Tridion {
  import opened Wrappers
  import opened PyStr
  import opened XmlTree
  import opened IshFields

  datatype Metadata = Metadata(fields: seq<IshField>)

  /** An argument of the constructor: a field, a `(name, text)` tuple, a
      list of arguments, or anything else. */
  datatype Arg = FieldArg(field: IshField) | TupleArg(name: string, text: string) | ListArg(items: seq<Arg>) | OtherArg

  // ---------------------------------------------------------------------
  // Construction

  /** The arguments the constructor walks: a lone list is unpacked. */
  function Unpacked(args: seq<Arg>): seq<Arg> {
    if |args| == 1 && args[0].ListArg? then args[0].items else args
  }

  /** How many arguments become fields: the fields and the tuples. */
  function Kept(items: seq<Arg>): nat {
    if items == [] then 0 else (if items[0].FieldArg? || items[0].TupleArg? then 1 else 0) + Kept(items[1..])
  }

  /** How many tuples there are: each becomes a new object. */
  function Tuples(items: seq<Arg>): nat {
    if items == [] then 0 else (if items[0].TupleArg? then 1 else 0) + Tuples(items[1..])
  }

  /** Every tuple names a known field. */
  predicate TuplesKnown(table: map<string, FieldSpec>, items: seq<Arg>) {
    forall j :: 0 <= j < |items| && items[j].TupleArg? ==> Upper(items[j].name) in table
  }

  /** The constructor's loop: a field is kept as it is, a tuple becomes a
      new field with the default operator, anything else is logged and
      skipped.  New objects get the identities from `next` on. */
  function BuildFields(table: map<string, FieldSpec>, items: seq<Arg>, next: nat): (r: Result<(seq<IshField>, nat)>)
    ensures r.Success? <==> TuplesKnown(table, items)
    ensures r.Failure? ==> r.error == AttributeError
    ensures r.Success? ==> |r.value.0| == Kept(items) && r.value.1 == next + Tuples(items)
    ensures r.Success? ==> forall j :: 0 <= j < |r.value.0| ==> r.value.0[j] in FieldsIn(items) || r.value.0[j].oid >= next
    decreases |items|
  {
    if items == [] then Success(([], next))
    else
      match items[0]
      case FieldArg(f) =>
        (match BuildFields(table, items[1..], next)
         case Failure(e) => Failure(e)
         case Success(p) => Success(([f] + p.0, p.1)))
      case TupleArg(n, t) =>
        (match NewField(table, next, n, t, "equal")
         case Failure(e) => Failure(e)
         case Success(f) =>
           match BuildFields(table, items[1..], next + 1)
           case Failure(e) => Failure(e)
           case Success(p) => Success(([f] + p.0, p.1)))
      case _ => BuildFields(table, items[1..], next)
  }

  /** The fields given as fields among the arguments. */
  function FieldsIn(items: seq<Arg>): set<IshField> {
    set j | 0 <= j < |items| && items[j].FieldArg? :: items[j].field
  }

  /** `Metadata(*args)`.  The packaged client looks names up in
      `IshFields.Table()`; the table is a parameter here. */
  function NewMetadata(table: map<string, FieldSpec>, args: seq<Arg>, next: nat): (r: Result<(Metadata, nat)>)
    ensures args == [] ==> r == Success((Metadata([]), next))
    ensures r.Success? <==> TuplesKnown(table, Unpacked(args))
    ensures r.Success? ==> |r.value.0.fields| == Kept(Unpacked(args))
  {
    if |args| == 0 then Success((Metadata([]), next))
    else
      match BuildFields(table, Unpacked(args), next)
      case Failure(e) => Failure(e)
      case Success(p) => Success((Metadata(p.0), p.1))
  }

  /** Fields passed as fields. */
  function FieldArgs(fs: seq<IshField>): (r: seq<Arg>)
    ensures |r| == |fs| && forall j :: 0 <= j < |fs| ==> r[j] == FieldArg(fs[j])
  {
    seq(|fs|, j requires 0 <= j < |fs| => FieldArg(fs[j]))
  }

  /** Fields, given one by one or as one list, are kept in order and no
      new object is made. */
  lemma {:induction false} BuildFromFields(table: map<string, FieldSpec>, fs: seq<IshField>, next: nat)
    ensures BuildFields(table, FieldArgs(fs), next) == Success((fs, next))
    decreases |fs|
  {
    if fs != [] {
      assert FieldArgs(fs)[1..] == FieldArgs(fs[1..]);
      BuildFromFields(table, fs[1..], next);
      assert [fs[0]] + fs[1..] == fs;
    }
  }

  lemma NewFromFieldList(table: map<string, FieldSpec>, fs: seq<IshField>, next: nat)
    ensures NewMetadata(table, [ListArg(FieldArgs(fs))], next) == Success((Metadata(fs), next))
    ensures |fs| > 0 ==> NewMetadata(table, FieldArgs(fs), next) == Success((Metadata(fs), next))
  {
    BuildFromFields(table, fs, next);
    if |fs| == 1 {
      assert Unpacked(FieldArgs(fs)) == FieldArgs(fs);
    }
  }

  // ---------------------------------------------------------------------
  // Size, adding and removing

  /** `len(metadata)`. */
  function Len(m: Metadata): nat {
    |m.fields|
  }

  /** `add_field`: the field goes at the end. */
  function AddField(m: Metadata, f: IshField): (r: Metadata)
    ensures Len(r) == Len(m) + 1 && r.fields[Len(m)] == f
    ensures r.fields[..Len(m)] == m.fields
  {
    Metadata(m.fields + [f])
  }

  /** Where the object `oid` first occurs. */
  function IndexOfOid(fs: seq<IshField>, oid: nat): (r: Option<nat>)
    ensures r.Some? ==> r.value < |fs| && fs[r.value].oid == oid && forall j :: 0 <= j < r.value ==> fs[j].oid != oid
    ensures r.None? ==> forall j :: 0 <= j < |fs| ==> fs[j].oid != oid
  {
    if fs == [] then None
    else if fs[0].oid == oid then Some(0)
    else match IndexOfOid(fs[1..], oid)
      case None => None
      case Some(i) => Some(i + 1)
  }

  /** `remove_field`: `list.remove` drops the first entry that is the same
      object (the class has no equality of its own), and raises when there
      is none. */
  function RemoveField(m: Metadata, f: IshField): (r: Result<Metadata>)
    ensures r.Failure? <==> forall j :: 0 <= j < Len(m) ==> m.fields[j].oid != f.oid
    ensures r.Failure? ==> r.error == ValueError
    ensures r.Success? ==> Len(r.value) == Len(m) - 1
    ensures r.Success? ==>
      exists i :: (0 <= i < Len(m) && m.fields[i].oid == f.oid
        && (forall j :: 0 <= j < i ==> m.fields[j].oid != f.oid)
        && r.value.fields == m.fields[..i] + m.fields[i + 1..])
  {
    match IndexOfOid(m.fields, f.oid)
    case None => Failure(ValueError)
    case Some(i) => Success(Metadata(m.fields[..i] + m.fields[i + 1..]))
  }

  /** Adding a new object and removing it again gives the metadata back. */
  lemma RemoveAfterAdd(m: Metadata, f: IshField)
    requires forall j :: 0 <= j < Len(m) ==> m.fields[j].oid != f.oid
    ensures RemoveField(AddField(m, f), f) == Success(m)
  {
    var fs := m.fields + [f];
    assert fs[|m.fields|].oid == f.oid;
    assert forall j :: 0 <= j < |m.fields| ==> fs[j] == m.fields[j];
    assert IndexOfOid(fs, f.oid) == Some(|m.fields|);
    assert fs[..|m.fields|] + fs[|m.fields| + 1..] == m.fields;
  }

  /** The right operand of `+`. */
  datatype Operand = MetaOp(meta: Metadata) | FieldOp(field: IshField) | OtherOp

  /** `left + other`: the result (None when Python falls off the end) and
      the left operand afterwards.  Two collections make a new one; a field
      is appended to the left operand itself, which is then returned. */
  function Plus(left: Metadata, other: Operand): (r: (Option<Metadata>, Metadata))
    ensures other.MetaOp? ==> r.0 == Some(Metadata(left.fields + other.meta.fields)) && r.1 == left
    ensures other.FieldOp? ==> r.0 == Some(r.1) && r.1 == AddField(left, other.field)
    ensures other.OtherOp? ==> r.0 == None && r.1 == left
  {
    match other
    case MetaOp(o) => (Some(Metadata(left.fields + o.fields)), left)
    case FieldOp(f) => var m := Metadata(left.fields + [f]); (Some(m), m)
    case OtherOp => (None, left)
  }

  /** Joining two collections goes through the constructor with one list
      of fields, which keeps them all in order and makes no new object. */
  lemma PlusIsConstructor(table: map<string, FieldSpec>, left: Metadata, right: Metadata, next: nat)
    ensures NewMetadata(table, [ListArg(FieldArgs(left.fields + right.fields))], next) == Success((Plus(left, MetaOp(right)).0.value, next))
    ensures Len(Plus(left, MetaOp(right)).0.value) == Len(left) + Len(right)
  {
    NewFromFieldList(table, left.fields + right.fields, next);
  }

  // ---------------------------------------------------------------------
  // The request and the map

  /** The fields' fragments, in order. */
  function Body(fs: seq<IshField>): string {
    if fs == [] then "" else XmlForm(fs[0]) + Body(fs[1..])
  }

  /** `pack`: the fragments inside one `ishfields` element. */
  function Pack(m: Metadata): (r: string)
    ensures IsPrefix("<ishfields>", r) && EndsWith(r, "</ishfields>")
  {
    var r := "<ishfields>" + Body(m.fields) + "</ishfields>";
    assert r[..11] == "<ishfields>";
    assert r[|r| - 12..] == "</ishfields>";
    r
  }

  lemma {:induction false} BodyAppend(a: seq<IshField>, b: seq<IshField>)
    ensures Body(a + b) == Body(a) + Body(b)
    decreases |a|
  {
    if a == [] {
      assert a + b == b;
    } else {
      assert (a + b)[1..] == a[1..] + b;
      BodyAppend(a[1..], b);
    }
  }

  lemma Regroup4(a: string, b: string, c: string, d: string)
    ensures a + (b + c) + d == a + b + c + d
  {
  }

  /** The request for two joined collections holds the fragments of the
      first and then those of the second. */
  lemma PackPlus(left: Metadata, right: Metadata)
    ensures Pack(Plus(left, MetaOp(right)).0.value) == "<ishfields>" + Body(left.fields) + Body(right.fields) + "</ishfields>"
  {
    BodyAppend(left.fields, right.fields);
    Regroup4("<ishfields>", Body(left.fields), Body(right.fields), "</ishfields>");
  }

  lemma BodySingle(f: IshField)
    ensures Body([f]) == XmlForm(f)
  {
    assert [f][1..] == [];
  }

  /** Appending a field appends its fragment. */
  lemma PackAddField(m: Metadata, f: IshField)
    ensures Pack(AddField(m, f)) == "<ishfields>" + Body(m.fields) + XmlForm(f) + "</ishfields>"
  {
    BodyAppend(m.fields, [f]);
    BodySingle(f);
    Regroup4("<ishfields>", Body(m.fields), XmlForm(f), "</ishfields>");
  }

  /** `dict_form`: the fields' maps merged in order, so a later field of a
      name replaces an earlier one. */
  function DictOf(fs: seq<IshField>): map<string, map<string, Val>>
    decreases |fs|
  {
    if fs == [] then map[]
    else
      var last := fs[|fs| - 1];
      DictOf(fs[..|fs| - 1]) + DictForm(last)
  }

  /** Reference: the last field of a name. */
  function LastNamed(fs: seq<IshField>, name: string): (r: Option<IshField>)
    ensures r.Some? ==> r.value in fs && r.value.name == name
    ensures r.None? <==> forall j :: 0 <= j < |fs| ==> fs[j].name != name
    decreases |fs|
  {
    if fs == [] then None
    else if fs[|fs| - 1].name == name then Some(fs[|fs| - 1])
    else LastNamed(fs[..|fs| - 1], name)
  }

  /** The map entry of one name: present exactly when a field has that
      name, and then the attributes of the last such field. */
  lemma {:induction false} DictOfAt(fs: seq<IshField>, n: string)
    ensures n in DictOf(fs) <==> LastNamed(fs, n).Some?
    ensures n in DictOf(fs) ==> DictOf(fs)[n] == GetAttrib(LastNamed(fs, n).value)
    decreases |fs|
  {
    if fs != [] {
      DictOfAt(fs[..|fs| - 1], n);
    }
  }

  /** The map holds exactly the fields' names, each with the attributes of
      the last field of that name. */
  lemma DictOfSpec(fs: seq<IshField>)
    ensures forall n :: n in DictOf(fs) <==> LastNamed(fs, n).Some?
    ensures forall n :: n in DictOf(fs) ==> DictOf(fs)[n] == GetAttrib(LastNamed(fs, n).value)
  {
    forall n ensures (n in DictOf(fs) <==> LastNamed(fs, n).Some?)
      && (n in DictOf(fs) ==> DictOf(fs)[n] == GetAttrib(LastNamed(fs, n).value))
    {
      DictOfAt(fs, n);
    }
  }

  // ---------------------------------------------------------------------
  // Reading responses

  /** The declaration the server's responses start with.  In the pattern
      the dot of "1.0" is unescaped, so it stands for any character but a
      line break. */
  const Decl: string := "<?xml version=\"1.0\" encoding=\"utf-16\"?>"
  const DotAt: nat := 16

  /** The pattern matches at the start of `s`. */
  predicate DeclAt(s: string) {
    |s| >= |Decl| && s[DotAt] != '\n'
    && forall k :: 0 <= k < |Decl| && k != DotAt ==> s[k] == Decl[k]
  }

  /** `re.sub` of the declaration pattern with the match followed by
      `<root>`: the leftmost match is taken, and the scan resumes after
      it. */
  function SubDecl(s: string): (r: string)
    decreases |s|
  {
    if |s| < |Decl| then s
    else if DeclAt(s) then s[..|Decl|] + "<root>" + SubDecl(s[|Decl|..])
    else [s[0]] + SubDecl(s[1..])
  }

  /** `Unpack.wrap`. */
  function Wrap(s: string): (r: string)
    ensures EndsWith(r, "</root>")
  {
    var r := SubDecl(s) + "</root>";
    assert r[|r| - 7..] == "</root>";
    r
  }

  /** No match anywhere. */
  predicate NoDecl(s: string) {
    forall i :: 0 <= i <= |s| ==> !DeclAt(s[i..])
  }

  lemma {:induction false} SubDeclNone(s: string)
    requires NoDecl(s)
    ensures SubDecl(s) == s
    decreases |s|
  {
    if |s| >= |Decl| {
      assert s[0..] == s;
      assert NoDecl(s[1..]) by {
        forall i | 0 <= i <= |s[1..]| ensures !DeclAt(s[1..][i..]) {
          assert s[1..][i..] == s[i + 1..];
        }
      }
      SubDeclNone(s[1..]);
      assert [s[0]] + s[1..] == s;
    }
  }

  /** A response without the declaration only gets the closing tag. */
  lemma WrapNoDecl(s: string)
    requires NoDecl(s)
    ensures Wrap(s) == s + "</root>"
  {
    SubDeclNone(s);
  }

  /** A response that starts with the declaration gets `<root>` right
      after it and `</root>` at the end. */
  lemma WrapLeadingDecl(d: string, body: string)
    requires |d| == |Decl| && DeclAt(d) && NoDecl(body)
    ensures Wrap(d + body) == d + "<root>" + body + "</root>"
  {
    var s := d + body;
    assert DeclAt(s) by {
      forall k | 0 <= k < |Decl| && k != DotAt ensures s[k] == Decl[k] {
        assert s[k] == d[k];
      }
    }
    assert s[..|Decl|] == d && s[|Decl|..] == body;
    SubDeclNone(body);
  }

  /** The declaration the server writes matches. */
  lemma DeclMatchesItself()
    ensures DeclAt(Decl)
  {
  }

  /** So does one whose version has any other character, but a line
      break, in place of the dot. */
  lemma DeclMatchesAnyDot(c: char)
    requires c != '\n'
    ensures DeclAt(Decl[..DotAt] + [c] + Decl[DotAt + 1..])
  {
    var a, b := Decl[..DotAt], Decl[DotAt + 1..];
    var d := a + [c] + b;
    assert |d| == |Decl| && d[DotAt] == c;
    forall k | 0 <= k < |Decl| && k != DotAt ensures d[k] == Decl[k] {
      if k < DotAt {
        assert d[k] == a[k];
      } else {
        assert d[k] == b[k - DotAt - 1];
      }
    }
  }

  /** One folder of a response: its metadata and its `ishfolderref`. */
  type Entry = (Metadata, Option<string>)

  /** The fields read from the field elements, one by one: the name in
      upper case and the text, or the empty string. */
  predicate FieldsRead(fs: seq<IshField>, es: seq<Element>) {
    |fs| == |es|
    && forall j :: 0 <= j < |es| ==>
      Attr(es[j], "name").Some? && fs[j].name == Upper(Attr(es[j], "name").value)
      && fs[j].text == es[j].text.GetOr("")
  }

  /** Every field element has a name, and the table knows it. */
  predicate AllKnown(table: map<string, FieldSpec>, es: seq<Element>) {
    forall j :: 0 <= j < |es| ==> Attr(es[j], "name").Some? && Upper(Attr(es[j], "name").value) in table
  }

  /** The fields under one folder element, at any depth, in document
      order; a field without a name fails on `None.upper()`. */
  function FolderFields(table: map<string, FieldSpec>, es: seq<Element>, next: nat): (r: Result<(seq<IshField>, nat)>)
    ensures r.Success? ==> FieldsRead(r.value.0, es) && r.value.1 == next + |es|
    ensures r.Success? <==> AllKnown(table, es)
    ensures r.Failure? ==> r.error == AttributeError
    decreases |es|
  {
    if es == [] then Success(([], next))
    else
      match Attr(es[0], "name")
      case None => Failure(AttributeError)
      case Some(n) =>
        match NewField(table, next, n, es[0].text.GetOr(""), "equal")
        case Failure(e) => Failure(e)
        case Success(f) =>
          match FolderFields(table, es[1..], next + 1)
          case Failure(e) => Failure(e)
          case Success(p) =>
            assert forall j :: 0 <= j < |es[1..]| ==> es[1..][j] == es[j + 1];
            Success(([f] + p.0, p.1))
  }

  /** Every folder's field elements are all known. */
  predicate FoldersKnown(table: map<string, FieldSpec>, folders: seq<Element>) {
    forall k :: 0 <= k < |folders| ==> AllKnown(table, Iter(folders[k], "ishfield"))
  }

  /** The loop over the folders. */
  function FolderEntries(table: map<string, FieldSpec>, folders: seq<Element>, next: nat): (r: Result<seq<Entry>>)
    ensures r.Success? ==> |r.value| == |folders|
    ensures r.Success? <==> FoldersKnown(table, folders)
    ensures r.Failure? ==> r.error == AttributeError
    decreases |folders|
  {
    if folders == [] then Success([])
    else
      match FolderFields(table, Iter(folders[0], "ishfield"), next)
      case Failure(e) => Failure(e)
      case Success(p) =>
        match FolderEntries(table, folders[1..], p.1)
        case Failure(e) => Failure(e)
        case Success(rest) =>
          assert forall k :: 0 <= k < |folders[1..]| ==> folders[1..][k] == folders[k + 1];
          Success([(Metadata(p.0), Attr(folders[0], "ishfolderref"))] + rest)
  }

  /** An entry for the folder: its reference and the fields read from the
      field elements inside it. */
  predicate EntryOf(en: Entry, folder: Element) {
    en.1 == Attr(folder, "ishfolderref") && FieldsRead(en.0.fields, Iter(folder, "ishfield"))
  }

  /** Each entry is the entry for its folder. */
  lemma {:induction false} FolderEntriesSpec(table: map<string, FieldSpec>, folders: seq<Element>, next: nat, k: nat)
    requires FolderEntries(table, folders, next).Success? && k < |folders|
    ensures EntryOf(FolderEntries(table, folders, next).value[k], folders[k])
    decreases |folders|
  {
    var p := FolderFields(table, Iter(folders[0], "ishfield"), next).value;
    if k > 0 {
      FolderEntriesSpec(table, folders[1..], p.1, k - 1);
    }
  }

  /** `Unpack.subfolder_ids` on the parsed response: an entry per folder
      in document order, the first (the parent) dropped.  The fields of a
      folder include those of the folders inside it, and an unknown or
      missing field name in any folder, the parent included, raises. */
  function SubfolderIds(table: map<string, FieldSpec>, root: Element, next: nat): (r: Result<seq<Entry>>)
    ensures r.Success? <==> FoldersKnown(table, Iter(root, "ishfolder"))
    ensures r.Failure? ==> r.error == AttributeError
    ensures var folders := Iter(root, "ishfolder");
      r.Success? ==> (|r.value| == (if |folders| == 0 then 0 else |folders| - 1)
        && forall k :: 0 <= k < |r.value| ==> EntryOf(r.value[k], folders[k + 1]))
  {
    match FolderEntries(table, Iter(root, "ishfolder"), next)
    case Failure(e) => Failure(e)
    case Success(es) =>
      var folders := Iter(root, "ishfolder");
      forall k | 1 <= k < |es|
        ensures EntryOf(es[k], folders[k])
      {
        FolderEntriesSpec(table, folders, next, k);
      }
      Success(if es == [] then [] else es[1..])
  }
}
