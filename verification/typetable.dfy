/** The outputclass table and the older prefix tables.

    Each DITA topic names its kind in the root's `outputclass` attribute.
    The packaged table maps each of the eight known classes to the file-name
    prefix the style guide requires, the root tag of the canonical topic
    shape, and the DOCTYPE line written with it.  Older scripts keep smaller
    tables of prefixes only.
 */
module TypeTable {
  import opened Wrappers
  import opened PyStr

  datatype TypeParams = TypeParams(prefix: string, rootTag: string, doctype: string)

  /** A DOCTYPE line with a public identifier. */
  function DoctypeLine(root: string, ids: string): string {
    "<!DOCTYPE " + root + " PUBLIC " + ids + ">"
  }

  const ConceptDoctype: string := DoctypeLine("concept", "\"-//OASIS//DTD DITA Concept//EN\" \"concept.dtd\"")
  const TaskDoctype: string := DoctypeLine("task", "\"-//OASIS//DTD DITA General Task//EN\" \"generalTask.dtd\"")
  const ReferenceDoctype: string := DoctypeLine("reference", "\"-//OASIS//DTD DITA Reference//EN\" \"reference.dtd\"")
  const MapDoctype: string := DoctypeLine("map", "\"-//OASIS//DTD DITA Map//EN\" \"map.dtd\"")

  /** The packaged outputclass table. */
  const OutputClasses: map<string, TypeParams> := map[
    "context" := TypeParams("c_", "concept", ConceptDoctype),
    "lpcontext" := TypeParams("c_", "concept", ConceptDoctype),
    "explanation" := TypeParams("e_", "concept", ConceptDoctype),
    "procedure" := TypeParams("t_", "task", TaskDoctype),
    "referenceinformation" := TypeParams("r_", "reference", ReferenceDoctype),
    "legalinformation" := TypeParams("r_", "reference", ReferenceDoctype),
    "frontcover" := TypeParams("r_", "reference", ReferenceDoctype),
    "backcover" := TypeParams("r_", "reference", ReferenceDoctype)
  ]

  /** `Constants.outputclasses.value.get(oc)`; an absent attribute (None)
      is never a key. */
  function Params(oc: Option<string>): Option<TypeParams> {
    if oc.Some? && oc.value in OutputClasses then Some(OutputClasses[oc.value]) else None
  }

  /** The DOCTYPE line declares `tag` as its root element. */
  predicate DeclaresRoot(doctype: string, tag: string) {
    IsPrefix("<!DOCTYPE " + tag + " PUBLIC ", doctype)
  }

  /** The eight known classes, and only those, have table entries. */
  lemma KnownClasses(oc: string)
    ensures Params(Some(oc)).Some? <==>
      oc in ["context", "lpcontext", "explanation", "procedure",
             "referenceinformation", "legalinformation", "frontcover", "backcover"]
  {
  }

  /** In every entry the DOCTYPE declares the entry's own root tag, and the
      prefix is a letter followed by `_`. */
  lemma EntriesConsistent(oc: string)
    requires oc in OutputClasses
    ensures DeclaresRoot(OutputClasses[oc].doctype, OutputClasses[oc].rootTag)
    ensures |OutputClasses[oc].prefix| == 2 && OutputClasses[oc].prefix[1] == '_'
    ensures AllWordChars(OutputClasses[oc].prefix)
  {
    LineDeclaresRoot("concept", "\"-//OASIS//DTD DITA Concept//EN\" \"concept.dtd\"");
    LineDeclaresRoot("task", "\"-//OASIS//DTD DITA General Task//EN\" \"generalTask.dtd\"");
    LineDeclaresRoot("reference", "\"-//OASIS//DTD DITA Reference//EN\" \"reference.dtd\"");
  }

  lemma LineDeclaresRoot(root: string, ids: string)
    ensures DeclaresRoot(DoctypeLine(root, ids), root)
  {
    var p := "<!DOCTYPE " + root + " PUBLIC ";
    assert DoctypeLine(root, ids) == p + (ids + ">");
    assert DoctypeLine(root, ids)[..|p|] == p;
  }

  /** The prefix letter determines the root tag. */
  lemma PrefixDeterminesRoot(a: string, b: string)
    requires a in OutputClasses && b in OutputClasses
    requires OutputClasses[a].prefix == OutputClasses[b].prefix
    ensures OutputClasses[a].rootTag == OutputClasses[b].rootTag
  {
  }

  /** The prefix table of the older local module and of the later utils
      module (`prefixes`); legal information gets `e_` here, unlike the
      packaged outputclass table. */
  const LocalPrefixes: map<string, string> := map[
    "explanation" := "e_",
    "referenceinformation" := "r_",
    "context" := "c_",
    "procedure" := "t_",
    "legalinformation" := "e_"
  ]

  /** The `outputclasses` table of the older local module and of the first
      renaming script: six classes, legal information prefixed `e_`. */
  const LegacyOutputClasses: map<string, string> := map[
    "context" := "c_",
    "lpcontext" := "c_",
    "explanation" := "e_",
    "procedure" := "t_",
    "referenceinformation" := "r_",
    "legalinformation" := "e_"
  ]

  /** The root tags of typed topics (`doctypes`). */
  const Doctypes: seq<string> := ["concept", "task", "reference"]

  /** Where the tables disagree: legal information. */
  lemma LegalPrefixDiffers()
    ensures OutputClasses["legalinformation"].prefix == "r_"
    ensures LegacyOutputClasses["legalinformation"] == "e_"
    ensures LocalPrefixes["legalinformation"] == "e_"
  {
  }

  /** Everywhere else the older six-class table agrees with the packaged one. */
  lemma LegacyAgreesElsewhere(oc: string)
    requires oc in LegacyOutputClasses && oc != "legalinformation"
    ensures oc in OutputClasses && OutputClasses[oc].prefix == LegacyOutputClasses[oc]
  {
  }
}
