/** One metadata field of the content management system, as the client
    builds it before sending a request.

    A field is named after an entry of the field table; the table gives its
    level (logical, version or language), its data type and whether the
    server expects the value as an element reference.  The field renders
    itself in three forms: the XML fragment of a request, an attribute map,
    and a tree node.  The packaged version only logs a name or operator it
    does not know; the earlier script version ends the process instead.
 */
module IshFields {
  import opened Wrappers
  import opened PyStr
  import opened XmlTree

  /** A table value that is either one string or a list of them. */
  datatype Val = Str(s: string) | Strs(ss: seq<string>)

  /** One row of the field table. */
  datatype FieldSpec = FieldSpec(ishtype: Val, level: string, dataType: string, datasource: Val, isElement: bool)

  /** A constructed field.  `oid` is the Python object's identity, which
      `list.remove` compares since the class defines no equality. */
  datatype IshField = IshField(
    oid: nat,
    name: string,
    text: string,
    operator: string,
    ishtype: Val,
    level: string,
    dataType: string,
    datasource: Val,
    isElement: bool)

  /** The packaged field table. */
  function Table(): map<string, FieldSpec> {
    map[
      "FNAME" := FieldSpec(Str("ISHFolder"), "None", "String", Str(""), false),
      "FISHFOLDERPATH" := FieldSpec(Str("ISHFolder"), "None", "ISHType", Str(""), false),
      "FDOCUMENTTYPE" := FieldSpec(Str("ISHFolder"), "None", "ISHLov", Str("ISHFolder"), false),
      "FHPICUSTOMERSUPPORTSTORIES" := FieldSpec(Str("ISHModule"), "Logical", "ISHMetadataBinding", Str("HPITaxonomyMiddleWare4CustSupStor"), true),
      "FHPIPRODUCT" := FieldSpec(Strs(["ISHModule", "ISHMasterDoc"]), "Logical", "ISHMetadataBinding", Str("HPITaxonomyMiddleWare4Product"), true),
      "FHPIREGION" := FieldSpec(Str("ISHModule"), "Logical", "ISHMetadataBinding", Str("TaxonomyMiddlewareHPIConnector4Region"), true),
      "FHPITECHNICALLEVEL" := FieldSpec(Str("ISHModule"), "Logical", "ISHLov", Str("DHPITECHNICALLEVEL"), false),
      "FTITLE" := FieldSpec(Str("ISHModule"), "Logical", "String", Str(""), false),
      "FUSERGROUP" := FieldSpec(Str("ISHModule"), "Logical", "ISHType", Str("ISHUserGroup"), false),
      "FMODULETYPE" := FieldSpec(Str("ISHModule"), "Logical", "ISHLov", Str("DMODULETYPE"), false),
      "VERSION" := FieldSpec(Str("ISHModule"), "Version", "String", Str(""), false),
      "FHPIPUBLISHONEVERSION" := FieldSpec(Str("ISHPublication"), "Logical", "ISHLov", Str("BOOLEAN"), false),
      "FHPIDISCLOSURELEVEL" := FieldSpec(Str("ISHPublication"), "Version", "ISHMetadataBinding", Str("HPITaxonomyMiddleWare4DisclosureDate"), true),
      "FISHMASTERREF" := FieldSpec(Str("ISHPublication"), "Version", "ISHType", Str("ISHMasterDoc"), false),
      "FISHPUBSOURCELANGUAGES" := FieldSpec(Str("ISHPublication"), "Version", "ISHLov", Str("DLANGUAGE"), false),
      "FISHREQUIREDRESOLUTIONS" := FieldSpec(Str("ISHPublication"), "Version", "ISHLov", Str("DRESOLUTION"), false),
      "FAUTHOR" := FieldSpec(Str("ISHUser"), "Lng", "ISHType", Str("ISHUser"), false),
      "FISHRESOURCES" := FieldSpec(Str("ISHPublication"), "Version", "ISHType", Strs(["ISHModule", "ISHMasterDoc", "ISHLibrary"]), false),
      "FSTATUS" := FieldSpec(Strs(["ISHModule", "ISHMasterDoc", "ISHLibrary"]), "Lng", "ISHLov", Str("DSTATUS"), true),
      "CREATED-ON" := FieldSpec(Str("ISHFolder"), "None", "DateTime", Str(""), false),
      "MODIFIED-ON" := FieldSpec(Str("ISHFolder"), "None", "DateTime", Str(""), false),
      "FISHQUERY" := FieldSpec(Str("ISHFolder"), "None", "LongText", Str(""), false),
      "READ-ACCESS" := FieldSpec(Str("ISHFolder"), "None", "ISHLov", Str("DUSERGROUP"), true),
      "FMASTERTYPE" := FieldSpec(Str("ISHMasterDoc"), "Logical", "ISHLov", Str("DMASTERTYPE"), false),
      "FLIBRARYTYPE" := FieldSpec(Str("ISHLibrary"), "Logical", "ISHLov", Str("DLIBRARYTYPE"), true),
      "FHPISEARCHABLE" := FieldSpec(Strs(["ISHModule", "ISHMasterDoc"]), "Logical", "ISHLov", Str("BOOLEAN"), false),
      "FISHOUTPUTFORMATREF" := FieldSpec(Str("ISHPublication"), "Lng", "ISHType", Str("ISHOutputFormat"), false),
      "FHPIPUBLISHTOPORTALS" := FieldSpec(Str("ISHPublication"), "Lng", "ISHLov", Str("DHPIPUBLISHTOPORTALS"), false),
      "FHPIPRESENTATIONTARGET" := FieldSpec(Str("ISHPublication"), "Lng", "ISHLov", Str("DHPIPRESENTATIONTARGET"), false),
      "FHPIPAGECOUNTOPTIMIZED" := FieldSpec(Str("ISHPublication"), "Lng", "ISHLov", Str("DHPIPAGECOUNTOPTIMIZED"), false),
      "FHPICHAPTERPAGESTART" := FieldSpec(Str("ISHPublication"), "Lng", "ISHLov", Str("DHPICHAPTERPAGESTART"), false),
      "FHPINUMBERCHAPTERS" := FieldSpec(Str("ISHPublication"), "Lng", "ISHLov", Str("DHPINUMBERCHAPTERS"), false),
      "FHPISECONDARYCOLOR" := FieldSpec(Str("ISHPublication"), "Lng", "ISHLov", Str("DHPISECONDARYCOLOR"), false),
      "FHPISUPPRESSTITLEPAGE" := FieldSpec(Str("ISHPublication"), "Lng", "ISHLov", Str("DHPISUPPRESSTITLEPAGE"), false),
      "FHPITOPICTITLE" := FieldSpec(Str("ISHModule"), "Lng", "String", Str(""), false),
      "FHPITEMPLATETYPE" := FieldSpec(Str("ISHTemplate"), "Logical", "ISHLov", Str("DHPITEMPLATETYPE"), false),
      "FHPIHARDWARECOMPONENTS" := FieldSpec(Str("ISHModule"), "Logical", "ISHMetadataBinding", Str("HPITaxonomyMiddleWare4HardwareComponents"), true)
    ]
  }

  /** The operators a search condition may use. */
  const Operators: seq<string> := ["equal", "notequal", "in", "notin", "like",
    "greaterthan", "lessthan", "greaterthanorequal", "lessthanorequal",
    "between", "empty", "notempty"]

  // ---------------------------------------------------------------------
  // Construction

  /** The field built from a table row: the name upper-cased, the level
      lower-cased, everything else copied from the row. */
  function FromSpec(oid: nat, name: string, text: string, operator: string, spec: FieldSpec): IshField {
    IshField(oid, name, text, operator, spec.ishtype, Lower(spec.level), spec.dataType, spec.datasource, spec.isElement)
  }

  /** `IshField(name, text, operator)` in the package.  An unknown name or
      operator is only logged; the table lookup that follows then fails on
      an unknown name, and an unknown operator is kept. */
  function NewField(table: map<string, FieldSpec>, oid: nat, name: string, text: string, operator: string): (r: Result<IshField>)
    ensures r.Success? <==> Upper(name) in table
    ensures r.Failure? ==> r.error == AttributeError
    ensures r.Success? ==>
      var f := r.value;
      var spec := table[Upper(name)];
      f.oid == oid && f.name == Upper(name) && f.text == text && f.operator == operator
      && f.level == Lower(spec.level) && f.isElement == spec.isElement
      && f.ishtype == spec.ishtype && f.dataType == spec.dataType && f.datasource == spec.datasource
  {
    var n := Upper(name);
    if n !in table then Failure(AttributeError)
    else Success(FromSpec(oid, n, text, operator, table[n]))
  }

  /** `IshField(name, text, operator)` in the earlier script: an unknown
      name, and then an unknown operator, end the process. */
  function LegacyNewField(table: map<string, FieldSpec>, oid: nat, name: string, text: string, operator: string): (r: Result<IshField>)
    ensures r.Success? <==> Upper(name) in table && operator in Operators
    ensures r.Failure? ==> r.error == SystemExit
    ensures r.Success? ==> r.value.name == Upper(name) && r.value.operator == operator
  {
    var n := Upper(name);
    if n !in table then Failure(SystemExit)
    else if operator !in Operators then Failure(SystemExit)
    else Success(FromSpec(oid, n, text, operator, table[n]))
  }

  /** Both versions build the same field from a known name and operator;
      they part only on the failures. */
  lemma LegacyAgrees(table: map<string, FieldSpec>, oid: nat, name: string, text: string, operator: string)
    ensures operator in Operators ==> LegacyNewField(table, oid, name, text, operator).Success? == NewField(table, oid, name, text, operator).Success?
    ensures LegacyNewField(table, oid, name, text, operator).Success? ==>
      LegacyNewField(table, oid, name, text, operator) == NewField(table, oid, name, text, operator)
    ensures operator !in Operators && Upper(name) in table ==>
      NewField(table, oid, name, text, operator).Success? && LegacyNewField(table, oid, name, text, operator) == Failure(SystemExit)
  {
  }

  /** Upper-casing a name twice changes nothing more: a field built from
      its own name gets the same name. */
  lemma UpperIdempotent(s: string)
    ensures Upper(Upper(s)) == Upper(s)
  {
  }

  /** Lower-casing is idempotent: the level written by `xml_form`, which
      lower-cases the stored level again, is the stored level. */
  lemma LowerIdempotent(s: string)
    ensures Lower(Lower(s)) == Lower(s)
  {
  }

  // ---------------------------------------------------------------------
  // The three renderings

  /** `get_attrib`: text, type and level, and a value type only for element
      fields ("element") and list-of-values fields ("value"). */
  function GetAttrib(f: IshField): (r: map<string, Val>)
    ensures forall k :: k in r <==> k in ["text", "ishtype", "level"] || (k == "ishvaluetype" && (f.isElement || f.dataType == "ISHLov"))
    ensures r["text"] == Str(f.text) && r["ishtype"] == f.ishtype && r["level"] == Str(f.level)
    ensures f.isElement ==> r["ishvaluetype"] == Str("element")
    ensures !f.isElement && f.dataType == "ISHLov" ==> r["ishvaluetype"] == Str("value")
  {
    var a := map["text" := Str(f.text), "ishtype" := f.ishtype, "level" := Str(f.level)];
    if f.isElement then a["ishvaluetype" := Str("element")]
    else if f.dataType == "ISHLov" then a["ishvaluetype" := Str("value")]
    else a
  }

  /** `dict_form`: the attribute map under the field's name. */
  function DictForm(f: IshField): (r: map<string, map<string, Val>>)
    ensures (forall k :: k in r <==> k == f.name) && r[f.name] == GetAttrib(f)
  {
    map[f.name := GetAttrib(f)]
  }

  const ValueTypeAttr: string := " ishvaluetype=\"element\""
  const OperatorAttr: string := " ishoperator=\""

  /** The operator attribute, absent for the default operator. */
  function OperatorPart(op: string): string {
    if op != "equal" then OperatorAttr + op + "\"" else ""
  }

  /** The request fragment from its parts. */
  function Fragment(name: string, level: string, element: bool, op: string, text: string): string {
    "<ishfield name=\"" + name + "\" level=\"" + level + "\"" + FragmentTail(element, op, text)
  }

  /** The part of a fragment after the level's closing quote. */
  function FragmentTail(element: bool, op: string, text: string): string {
    (if element then ValueTypeAttr else "") + (OperatorPart(op) + Close(text))
  }

  /** The end of a fragment: the start tag closed, the text, the end tag. */
  function Close(text: string): string {
    ">" + text + "</ishfield>"
  }

  /** `xml_form` as written: the value-type attribute is guarded by
      `is_element is not None`, which a table boolean always meets. */
  function XmlForm(f: IshField): string {
    Fragment(f.name, Lower(f.level), true, f.operator, f.text)
  }

  /** `xml_form` with the guard `get_attrib` and `tree_form` use: the
      value-type attribute only for element fields. */
  function XmlFormFixed(f: IshField): string {
    Fragment(f.name, Lower(f.level), f.isElement, f.operator, f.text)
  }

  /** `tree_form`: an `ishfield` node with name and level, the value type
      for element fields, and the text only when it is non-empty. */
  function TreeForm(f: IshField): (r: Element)
    ensures r.tag == "ishfield" && r.children == []
    ensures Attr(r, "name") == Some(f.name) && Attr(r, "level") == Some(f.level)
    ensures Attr(r, "ishvaluetype").Some? <==> f.isElement
    ensures f.isElement ==> Attr(r, "ishvaluetype") == Some("element")
    ensures forall k :: k in r.attrs ==> k in ["name", "level", "ishvaluetype"]
    ensures r.text == (if f.text == "" then None else Some(f.text))
  {
    var attrs := map["name" := f.name, "level" := f.level];
    Element(0, "ishfield", if f.isElement then attrs["ishvaluetype" := "element"] else attrs,
      if f.text != "" then Some(f.text) else None, [])
  }

  // ---------------------------------------------------------------------
  // Reading a fragment back

  /** What a request fragment says about its field. */
  datatype Parsed = Parsed(name: string, level: string, element: bool, operator: string, text: string)

  /** The text before the first `c`, and the text after it. */
  function Until(s: string, c: char): (r: Option<(string, string)>)
    ensures r.Some? ==> r.value.0 + [c] + r.value.1 == s && c !in r.value.0
    decreases |s|
  {
    if s == [] then None
    else if s[0] == c then Some(([], s[1..]))
    else match Until(s[1..], c)
      case None => None
      case Some(p) => Some(([s[0]] + p.0, p.1))
  }

  /** The text after a prefix `p`. */
  function After(p: string, s: string): (r: Option<string>)
    ensures r.Some? <==> IsPrefix(p, s)
    ensures r.Some? ==> p + r.value == s
  {
    if IsPrefix(p, s) then Some(s[|p|..]) else None
  }

  /** Reads the fragment `Fragment` writes: name and level up to their
      closing quotes, the optional value type, the optional operator
      (default "equal"), and the text up to the closing tag. */
  function ReadFragment(s: string): Option<Parsed> {
    match After("<ishfield name=\"", s)
    case None => None
    case Some(r1) =>
      match Until(r1, '"')
      case None => None
      case Some(p1) =>
        match After(" level=\"", p1.1)
        case None => None
        case Some(r3) =>
          match Until(r3, '"')
          case None => None
          case Some(p2) => ReadTail(p1.0, p2.0, p2.1)
  }

  /** The rest of a fragment after the level: the optional value type. */
  function ReadTail(name: string, level: string, tail: string): Option<Parsed> {
    var element := IsPrefix(ValueTypeAttr, tail);
    ReadOperatorAndText(name, level, element, if element then tail[|ValueTypeAttr|..] else tail)
  }

  /** Then the optional operator, "equal" when absent. */
  function ReadOperatorAndText(name: string, level: string, element: bool, r5: string): Option<Parsed> {
    var op := if IsPrefix(OperatorAttr, r5) then Until(r5[|OperatorAttr|..], '"') else Some(("equal", r5));
    match op
    case None => None
    case Some(p3) => ReadText(name, level, element, p3.0, p3.1)
  }

  /** Then the text up to the end tag. */
  function ReadText(name: string, level: string, element: bool, op: string, r6: string): Option<Parsed> {
    match After(">", r6)
    case None => None
    case Some(r7) =>
      if EndsWith(r7, "</ishfield>") then Some(Parsed(name, level, element, op, r7[..|r7| - 11])) else None
  }

  lemma {:induction false} UntilAppend(x: string, c: char, y: string)
    requires c !in x
    ensures Until(x + [c] + y, c) == Some((x, y))
    decreases |x|
  {
    if x == [] {
      assert x + [c] + y == [c] + y;
    } else {
      assert (x + [c] + y)[1..] == x[1..] + [c] + y;
      UntilAppend(x[1..], c, y);
      assert [x[0]] + x[1..] == x;
    }
  }

  lemma AfterAppend(p: string, s: string)
    ensures After(p, p + s) == Some(s)
  {
    assert (p + s)[..|p|] == p;
  }

  lemma Regroup(a: string, n: string, q: char, b: string, l: string, t: string)
    ensures a + n + ([q] + b) + l + [q] + t == a + (n + [q] + (b + (l + [q] + t)))
  {
  }

  lemma FragmentSplit(name: string, level: string, element: bool, op: string, text: string)
    ensures Fragment(name, level, element, op, text)
      == "<ishfield name=\"" + (name + ['"'] + (" level=\"" + (level + ['"'] + FragmentTail(element, op, text))))
  {
    assert "\" level=\"" == ['"'] + " level=\"";
    assert "\"" == ['"'];
    Regroup("<ishfield name=\"", name, '"', " level=\"", level, FragmentTail(element, op, text));
  }

  /** The closing part of a fragment after the attributes. */
  lemma ReadClose(text: string)
    ensures After(">", Close(text)) == Some(text + "</ishfield>")
    ensures EndsWith(text + "</ishfield>", "</ishfield>")
    ensures (text + "</ishfield>")[..|text + "</ishfield>"| - 11] == text
  {
    assert Close(text) == ">" + (text + "</ishfield>");
    AfterAppend(">", text + "</ishfield>");
    assert (text + "</ishfield>")[|text|..] == "</ishfield>";
  }

  lemma NotPrefixAt(p: string, s: string, i: nat)
    requires i < |p| && i < |s| && s[i] != p[i]
    ensures !IsPrefix(p, s)
  {
    if |p| <= |s| {
      assert s[..|p|][i] == s[i];
    }
  }

  /** How the part after the value type starts: with the operator
      attribute, or with the closing `>`. */
  lemma OperatorPartStart(op: string, rest: string)
    requires |rest| > 0 && rest[0] == '>'
    ensures op != "equal" ==> OperatorPart(op) + rest == OperatorAttr + (op + ['"'] + rest)
    ensures op == "equal" ==> OperatorPart(op) + rest == rest
  {
    assert "\"" == ['"'];
  }

  /** The optional operator attribute reads back as the operator. */
  lemma ReadOperator(op: string, rest: string)
    requires '"' !in op && |rest| > 0 && rest[0] == '>'
    ensures var r5 := OperatorPart(op) + rest;
      (if IsPrefix(OperatorAttr, r5) then Until(r5[|OperatorAttr|..], '"') else Some(("equal", r5)))
        == Some((op, rest))
  {
    OperatorPartStart(op, rest);
    if op != "equal" {
      AfterAppend(OperatorAttr, op + ['"'] + rest);
      UntilAppend(op, '"', rest);
    } else {
      NotPrefixAt(OperatorAttr, rest, 0);
    }
  }

  /** The optional value-type attribute reads back as the flag. */
  lemma ReadValueType(element: bool, op: string, rest: string)
    requires |rest| > 0 && rest[0] == '>'
    ensures var r5 := OperatorPart(op) + rest;
      var tail := (if element then ValueTypeAttr else "") + r5;
      IsPrefix(ValueTypeAttr, tail) == element
      && (if element then tail[|ValueTypeAttr|..] else tail) == r5
  {
    var r5 := OperatorPart(op) + rest;
    OperatorPartStart(op, rest);
    if element {
      AfterAppend(ValueTypeAttr, r5);
    } else {
      assert "" + r5 == r5;
      if op != "equal" {
        assert r5[4] == OperatorAttr[4];
        NotPrefixAt(ValueTypeAttr, r5, 4);
      } else {
        NotPrefixAt(ValueTypeAttr, r5, 0);
      }
    }
  }

  lemma ReadTailRoundTrip(name: string, level: string, element: bool, op: string, text: string)
    requires '"' !in op
    ensures ReadTail(name, level, FragmentTail(element, op, text)) == Some(Parsed(name, level, element, op, text))
  {
    ReadValueType(element, op, Close(text));
    ReadOperator(op, Close(text));
    ReadClose(text);
  }

  /** Reading a fragment gives back every part written, provided the name,
      level and operator hold no double quote. */
  lemma FragmentRoundTrip(name: string, level: string, element: bool, op: string, text: string)
    requires '"' !in name && '"' !in level && '"' !in op
    ensures ReadFragment(Fragment(name, level, element, op, text)) == Some(Parsed(name, level, element, op, text))
  {
    var tail := FragmentTail(element, op, text);
    FragmentSplit(name, level, element, op, text);
    AfterAppend("<ishfield name=\"", name + ['"'] + (" level=\"" + (level + ['"'] + tail)));
    UntilAppend(name, '"', " level=\"" + (level + ['"'] + tail));
    AfterAppend(" level=\"", level + ['"'] + tail);
    UntilAppend(level, '"', tail);
    ReadTailRoundTrip(name, level, element, op, text);
  }

  lemma LowerNoQuote(s: string)
    requires '"' !in s
    ensures '"' !in Lower(s)
  {
  }

  /** As written, every fragment reads back as an element field. */
  lemma XmlFormRoundTrip(f: IshField)
    requires '"' !in f.name && '"' !in f.level && '"' !in f.operator
    ensures ReadFragment(XmlForm(f)) == Some(Parsed(f.name, Lower(f.level), true, f.operator, f.text))
  {
    LowerNoQuote(f.level);
    FragmentRoundTrip(f.name, Lower(f.level), true, f.operator, f.text);
  }

  /** With the guard of `get_attrib`, a fragment reads back as exactly the
      field it was written from. */
  lemma XmlFormFixedRoundTrip(f: IshField)
    requires '"' !in f.name && '"' !in f.level && '"' !in f.operator
    ensures ReadFragment(XmlFormFixed(f)) == Some(Parsed(f.name, Lower(f.level), f.isElement, f.operator, f.text))
  {
    LowerNoQuote(f.level);
    FragmentRoundTrip(f.name, Lower(f.level), f.isElement, f.operator, f.text);
  }

  /** The fixed fragment and the tree node say the same: name, level,
      whether the value is an element, and the text (none when empty).
      The level is already lower-case, so lower-casing it again in the
      fragment changes nothing. */
  lemma TreeFormAgreesWithXmlFormFixed(f: IshField, spec: FieldSpec, oid: nat, name: string, text: string, op: string)
    requires f == FromSpec(oid, name, text, op, spec)
    requires '"' !in name && '"' !in spec.level && '"' !in op
    ensures ReadFragment(XmlFormFixed(f)).Some?
    ensures var p := ReadFragment(XmlFormFixed(f)).value;
      var e := TreeForm(f);
      Attr(e, "name") == Some(p.name) && Attr(e, "level") == Some(p.level)
      && (Attr(e, "ishvaluetype") == Some("element") <==> p.element)
      && e.text.GetOr("") == p.text
  {
    LowerNoQuote(spec.level);
    LowerIdempotent(spec.level);
    XmlFormFixedRoundTrip(f);
  }

  /** The table's row for the template type. */
  lemma TemplateTypeRow()
    ensures HasTemplateTypeRow(Table())
  {
  }

  /** A table with the template-type row, as the packaged one has. */
  predicate HasTemplateTypeRow(table: map<string, FieldSpec>) {
    "FHPITEMPLATETYPE" in table
    && table["FHPITEMPLATETYPE"] == FieldSpec(Str("ISHTemplate"), "Logical", "ISHLov", Str("DHPITEMPLATETYPE"), false)
  }

  /** The constructor on "fhpitemplatetype": the name upper-cased, the
      level "Logical" lower-cased, a list-of-values field without an
      element value. */
  lemma TemplateTypeField(table: map<string, FieldSpec>, name: string, oid: nat, text: string)
    requires HasTemplateTypeRow(table) && name == "fhpitemplatetype"
    ensures NewField(table, oid, name, text, "equal").Success?
    ensures var f := NewField(table, oid, name, text, "equal").value;
      f.name == "FHPITEMPLATETYPE" && f.level == "logical" && !f.isElement && f.dataType == "ISHLov"
  {
    assert Upper(name) == "FHPITEMPLATETYPE";
    assert Lower("Logical") == "logical";
  }

  /** As written, the fragment of a field without an element value still
      claims one, while the fixed fragment does not. */
  lemma XmlFormClaimsElement(f: IshField)
    requires !f.isElement
    requires '"' !in f.name && '"' !in f.level && '"' !in f.operator
    ensures ReadFragment(XmlForm(f)).Some? && ReadFragment(XmlForm(f)).value.element
    ensures ReadFragment(XmlFormFixed(f)).Some? && !ReadFragment(XmlFormFixed(f)).value.element
  {
    XmlFormRoundTrip(f);
    XmlFormFixedRoundTrip(f);
  }

  /** The template-type field is one: its attribute map gives the value
      type "value", its fragment as written says "element". */
  lemma TemplateTypeClaimsElement(table: map<string, FieldSpec>, name: string, oid: nat, text: string)
    requires HasTemplateTypeRow(table) && name == "fhpitemplatetype"
    ensures NewField(table, oid, name, text, "equal").Success?
    ensures var f := NewField(table, oid, name, text, "equal").value;
      "ishvaluetype" in GetAttrib(f) && GetAttrib(f)["ishvaluetype"] == Str("value")
      && ReadFragment(XmlForm(f)).Some? && ReadFragment(XmlForm(f)).value.element
  {
    TemplateTypeField(table, name, oid, text);
    var f := NewField(table, oid, name, text, "equal").value;
    XmlFormClaimsElement(f);
  }
}
