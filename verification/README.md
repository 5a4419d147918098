# A Dafny model of the DITA map renamer

The tool normalises and renames a folder of DITA topics, and it exists in several generations. Each topic is normalised into concept, reference or task shape. Its file is then renamed after its title, following a style guide. Every reference to the old name is updated: the map's topicrefs, the renamed topic's own local links, and the topic's ISH metadata sidecar. The Cheetah generation also rewrites the links in every other topic. Image files are renamed after their captions.

This project models that core as pure functions over immutable data. It proves what each operation promises, and where an operation falls short of its evident intent it proves that too.

## What is modelled

- **Trees and strings.**
  - `XmlTree` holds elements: an id for object identity, a tag, attributes, optional text and children. It provides lxml's `find`/`findall` over direct children, `iter` over all descendants, `clear`, `set` and `insert`.
  - `Numbering` gives a freshly parsed tree distinct ids in document order, so a reference taken in a constructor always finds the element it was taken from.
  - `PyStr` writes out the Python string operations the code uses: `in`, `replace`, `split`, `rsplit`, `strip`, `upper`/`lower`, `re.sub` with `\W` and `\s`, and integer formatting. `\w` is Python 3's Unicode word class on every character up to U+024F, so "Café Guide" keeps its `é`.
  - `Wrappers` holds `Option`, `Result` and `Res`. `Res` is a value, or a raised Python exception together with the state reached when it was raised.
- **The topic content model.**
  - `Content` is `XMLContent` in marytreat/core/mary_xml.py: the constructor snapshots, the missing-title and missing-short-description tests, and short description insertion and setting. It also covers the local-link rewrite, ISH field access, docdetails, the legal-information defaults and the DOCTYPE choice.
  - `Normaliser` covers the same class's structural half: retyping the root and body, the numbered-paragraph to step conversion, including lxml's eager `iter`, and `wrap_steps`. It also covers `is_mostly_list`, `has_table`, `detect_type` and `images_to_png`.
  - `LegacyContent` is the earlier `XMLContent` in mary_xml.py.
- **The type table.** `TypeTable` covers the outputclass table of marytreat/core/constants.py:16-47 and the prefix table of local.py.
- **The rename engine of the later utils module (utils/local.py).**
  - `Project` holds the folder, a finite map from file name to document, together with `file_rename`, `update_topicref`, `write` and the sidecar's `rename_with_path`. local.py's `update_topicref` is the same code and shares `Project.UpdateTopicref`.
  - `Naming` holds `create_new_name` in all three generations and `Image.generate_name`. local.py's `generate_name` is the same code and shares `Naming.ImageName`.
  - `Classify` loads the project: it tells a Cheetah export from a Word export, classifies each topicref, builds its topic object and casts it.
  - `Rename` holds `update_name` and the `rename_topics` batch with its title counter.
  - `Images` holds `edit_image_names`: the caption pass, the labels and one image's rename. `ImagePass` proves what the renaming loop does over all images, and `EditImages` states it for the whole method in both versions.
- **Earlier generations.**
  - `LegacyLocal` is local.py.
  - `Cheetah` is cheetah_to_dita.py.
  - `Step1` and `Step1Files` are rename_step1.py, including its text-level header and placeholder handling.
- **Small serialisers.**
  - `IshFields` models both versions of `IshField`.
  - `Tridion` models `Metadata` and `Unpack.wrap`/`subfolder_ids` of marytreat/core/tridionclient.py.
  - `Flare` is the Flare image renamer of marytreat/core/rename_flare_images.py.

### How effects are modelled

- **The file system** is a map from name to content.
  - The order in which a folder is listed, or a set is iterated, is an input sequence.
  - A rename that finds its destination taken does what the code does: either skip or overwrite.
- **Exceptions** are results. An operation that can raise returns `Res`, which carries the partial state so that a caller's `try`/`except` sees what the Python objects would hold.
- **Snapshot references** are ids. Elements detached from the tree stay readable through them, as they do in lxml.
- **Loops the code never leaves** are modelled with a step bound. `None` then means that the loop had not finished.

## Model

| member | source | states |
|---|---|---|
| Content.Load | marytreat/core/mary_xml.py:19-29 | the constructor keeps the root and header; the title and short description references exist exactly when the root has a direct `title`/`shortdesc` child; the outputclass is read from the root attribute; the snapshot is well formed |
| Content.LoadTitleMissing | marytreat/core/mary_xml.py:62-67 | on a loaded document the title is missing exactly when there is no direct `title`, its text is None, or the text contains "MISSING TITLE" |
| Content.LoadShortdescMissing | marytreat/core/mary_xml.py:69-74 | on a loaded document the short description is missing exactly when there is no direct `shortdesc` or its text is present and contains "SHORT DESCRIPTION"; a None text counts as present |
| Content.SetOutputclass | marytreat/core/mary_xml.py:84-86 | the root attribute and the cached class both become the new class, other attributes and children stay, and the DOCTYPE follows the new class |
| Content.SetTitle | marytreat/core/mary_xml.py:88-89 | raises AttributeError exactly when there is no title reference; otherwise the title text is the new one, and the title is "missing" exactly when that text contains the placeholder |
| Content.InsertShortdesc | marytreat/core/mary_xml.py:96-105 | covers are untouched; KeyError exactly when a non-cover topic has no title; otherwise the root has a `shortdesc` child afterwards and the other snapshots are kept |
| Content.InsertShortdescIdempotent | marytreat/core/mary_xml.py:96-105 | a second insertion changes nothing |
| Content.InsertShortdescPlaceholder | marytreat/core/mary_xml.py:102-105 | when the placeholder is inserted, the new reference is that element, holding "SHORT DESCRIPTION", so the short description reads as missing |
| Content.SetShortdesc | marytreat/core/mary_xml.py:91-94 | on success the short description text is the new one (missing exactly when it contains the placeholder); with no reference a cover raises AttributeError and a topic without title raises KeyError |
| Content.UpdateLocalLinks | marytreat/core/mary_xml.py:107-124 | no local links means no change; local links with no title raise AttributeError; no other error than AttributeError or TypeError |
| Content.UpdateLocalLinksFixed | marytreat/core/mary_xml.py:107-124 | the same early exits and errors for the corrected loop |
| Content.LinksLoopFixedEffect | marytreat/core/mary_xml.py:117-124 | without chaining, each listed link's href gets one substring replacement, every other href is kept, and no text changes |
| Content.UpdateLocalLinksFixedCorrect | marytreat/core/mary_xml.py:117-124 | the corrected rewrite replaces the old name in every local link that contains it, so an href equal to the old name becomes the new name; other hrefs and all texts are kept |
| Content.UpdateLocalLinksKeepsUnmatched | marytreat/core/mary_xml.py:117-124 | as written, a link whose href does not contain the old name keeps its href, even after a failure |
| Content.UpdateLocalLinksOneMatch | marytreat/core/mary_xml.py:117-124 | the code as written equals the corrected rewrite whenever at most one local link contains the old name |
| Content.ChainedReplacementExample | marytreat/core/mary_xml.py:119-124 | renaming `a` to `b` over the links `a#` and `a` gives the second link `b#`, the first link's rewritten href |
| Content.ChainedReplacementFixed | marytreat/core/mary_xml.py:119-124 | the corrected loop gives that second link `b` |
| Content.FGet | marytreat/core/mary_xml.py:126-134 | None when there is no direct `ishfields` child |
| Content.FSet | marytreat/core/mary_xml.py:126-140 | a value that is not truthy changes nothing; the snapshots are kept |
| Content.FGetAfterSet | marytreat/core/mary_xml.py:131-136 | after setting a field that exists to a non-empty value, reading it gives that value and every other field reads as before |
| Content.FieldTextAfterSet | marytreat/core/mary_xml.py:131-136 | over a list of fields: the field set reads back the value exactly when one of that name exists; the others are unchanged |
| Content.ProcessDocdetails | marytreat/core/mary_xml.py:142-149 | not a document-details topic: no change; otherwise the short description ends as "Document details" whatever it was; an existing one makes it succeed; a dangling reference or a cover without one raises AttributeError, no reference and no title raises KeyError; with sound references the title text is kept |
| Content.ProcessDocdetailsFixed | marytreat/core/mary_xml.py:142-149 | with the missing test called: a present short description is kept; otherwise the same as written |
| Content.ProcessDocdetailsOverwrites | marytreat/core/mary_xml.py:146-148 | as written, a document-details topic with a real short description ends with "Document details" |
| Content.AddLegalTitleAndShortdesc | marytreat/core/mary_xml.py:151-160 | no title raises AttributeError at the first step; otherwise the scan for the first copyright grandchild decides: a miss leaves the prepared topic, a scan error is raised, and a hit sets the short description, which then reads the hit's text |
| Content.LegalDefaults | marytreat/core/mary_xml.py:151-153 | AttributeError exactly when there is no title; otherwise the title reference is kept and, unless the topic is a cover, a short description element exists |
| Content.LegalDefaultsTitle | marytreat/core/mary_xml.py:151-153 | with sound references and a title, the prepared topic is titled "Legal information" and its references stay sound |
| Content.AddLegalKeepsTitle | marytreat/core/mary_xml.py:151-160 | with sound references, a successful pass ends titled "Legal information", whatever the scan does to the short description |
| Content.CopyrightAt | marytreat/core/mary_xml.py:154-158 | a hit is a grandchild of class copyright whose first child's text contains "Copyright", and every grandchild before it passes; a miss means every grandchild passes; a copyright grandchild without children or first-child text raises IndexError or TypeError |
| Content.CopyrightScanAt | marytreat/core/mary_xml.py:154-160 | the nested loop over the grandchildren ends as the first hit by position says: no change on a miss, the error raised, or the short description set to the hit's text |
| Content.WithShortdesc | marytreat/core/mary_xml.py:96-105 | the inserted placeholder is a direct `shortdesc`; the short description reference names the fresh id; the title reference, links and class are kept |
| Content.WithShortdescKeeps | marytreat/core/mary_xml.py:96-105 | every other id is found exactly where it was, with the same text |
| Content.LoadRefsSound | marytreat/core/mary_xml.py:20-30 | a freshly loaded document holds positive ids below the counter for its title and short description, and they differ |
| Content.SetShortdescKeepsTitle | marytreat/core/mary_xml.py:91-94 | with sound references, setting the short description keeps the title text and the references sound |
| Content.Doctype | marytreat/core/mary_xml.py:34-42 | a known class gives a DOCTYPE declaring its own root tag; otherwise a DOCTYPE exactly for a map, and it declares `map` |
| Content.EntriesConsistentAll | marytreat/core/constants.py:16-47 | in every table entry the DOCTYPE declares the entry's root tag |
| Normaliser.RenameChildren | marytreat/core/mary_xml.py:162-168 | same length; exactly the direct children with the old tag get the new tag, the rest are kept |
| Normaliser.RetypeTopic | marytreat/core/mary_xml.py:170-193 | a `topic` root gets the new root tag and the typed header; each direct `body` child gets the body tag with its children and text kept; the other children keep their tags; snapshots are kept |
| Normaliser.RetypeIdempotent | marytreat/core/mary_xml.py:162-168 | renaming twice equals renaming once exactly when the root is not a `topic` with a `topic` child (or a `body` with a `body` child) |
| Normaliser.ConvertToConcept | marytreat/core/mary_xml.py:170-174 | a `topic` root becomes `concept` with the typed header, and each direct `body` becomes `conbody` with its content kept; the snapshots are kept |
| Normaliser.ConvertToReference | marytreat/core/mary_xml.py:176-187 | a `topic` root becomes `reference` with the typed header, and each direct `body` becomes `refbody` with its content kept: no section is wrapped and no paragraph added, since that branch is dead and the called generator runs no code |
| Normaliser.StepOf | marytreat/core/mary_xml.py:214-218 | the element becomes a `step` with no attributes or text, whose only child is a `cmd` holding the original text |
| Normaliser.StepKeepsNumeral | marytreat/core/mary_xml.py:209-211 | the numeral stays in the `cmd` text, because the replace result is discarded |
| Normaliser.Walk | marytreat/core/mary_xml.py:204-211 | the eager walk over matches: only an eager walk can stop early and only the numbered test can fail; the root keeps its identity |
| Normaliser.WalkListedIsRef | marytreat/core/mary_xml.py:204-211 | without eagerness (and with every matched text present) the walk gives the reference rewrite of all matches and continues |
| Normaliser.WalkEagerAgrees | marytreat/core/mary_xml.py:204-211 | when no match is nested in another, the eager walk gives the same tree and the same continue/stop outcome as the plain one |
| Normaliser.WalkStatusAgrees | marytreat/core/mary_xml.py:204-211 | without nesting the eager and plain walks end in the same status |
| Normaliser.NoMatchWalk | marytreat/core/mary_xml.py:204-211 | a tree without the tag is left as it is |
| Normaliser.NestedListStopsConversion | marytreat/core/mary_xml.py:202-205 | in an `ol` whose first item holds a nested list, the eager walk stops inside the cleared item and the second item stays `li`, while a plain walk converts it |
| Normaliser.WalkModesEqual | marytreat/core/mary_xml.py:204-211 | when no match is nested in another, the eager walk and the listed walk give the same result |
| Normaliser.OlsPassModesEqual | marytreat/core/mary_xml.py:200-205 | without nested items the pass over the ordered lists is the same in both modes |
| Normaliser.NoNestingRetype | marytreat/core/mary_xml.py:189-194 | retyping a `topic` to a task keeps the absence of nested matches |
| Normaliser.ConvertToTaskAgrees | marytreat/core/mary_xml.py:189-212 | when no item (or, without `ol`, no paragraph) is nested in another, the conversion as written equals the corrected one |
| Normaliser.ConvertToTaskSteps | marytreat/core/mary_xml.py:204-212 | without a direct `ol`, with every paragraph text present and no paragraph inside another, the conversion as written turns every paragraph into its step rewrite and wraps the steps |
| Normaliser.WrapSteps | marytreat/core/mary_xml.py:225-233 | AssertionError exactly when the class is not procedure; the snapshots and class are kept |
| Normaliser.WrapStepsMoves | marytreat/core/mary_xml.py:227-233 | with a direct `step` in the `taskbody`, the taskbody ends with one `steps` child holding copies of all its former children, and no direct `step` |
| Normaliser.WrapStepsIdempotent | marytreat/core/mary_xml.py:225-233 | wrapping twice equals wrapping once |
| Normaliser.ListsToSteps | marytreat/core/mary_xml.py:196-212 | only TypeError, AssertionError or IndexError can be raised; the snapshots and class are kept |
| Normaliser.ConvertToTask | marytreat/core/mary_xml.py:189-194 | a `topic` root becomes `task`, even when the step conversion raises |
| Normaliser.ConvertToTaskFixed | marytreat/core/mary_xml.py:189-212 | the corrected conversion also renames a `topic` root to `task` |
| Normaliser.ConvertToTaskFixedSteps | marytreat/core/mary_xml.py:206-212 | without a direct `ol` and with every paragraph text present, the corrected conversion turns every paragraph found into the reference step rewrite and then wraps the steps |
| Normaliser.IsListItem | marytreat/core/mary_xml.py:220-223 | TypeError exactly when the text is None; otherwise true exactly when the text starts with digits, a dot and a space |
| Normaliser.FirstNonPlain | marytreat/core/mary_xml.py:239-241 | the index of the first paragraph that is numbered or has no text; all before it are plain |
| Normaliser.AnyNumberedMeans | marytreat/core/mary_xml.py:239-242 | the scan is false when every paragraph is plain, TypeError when the first non-plain one has no text, true otherwise |
| Normaliser.IsMostlyList | marytreat/core/mary_xml.py:235-242 | a direct `ol` gives true; otherwise the paragraph scan decides |
| Normaliser.DetectType | marytreat/core/mary_xml.py:264-271 | procedure exactly when the document is mostly a list; referenceinformation exactly when it is not and has a table; explanation otherwise; TypeError is the only error |
| Normaliser.DetectTypeKnown | marytreat/core/mary_xml.py:264-271 | a detected class is in the type table and is never a legal, context or cover class |
| Normaliser.PngHrefIdempotent | marytreat/core/mary_xml.py:284-289 | the href rewrite is idempotent and its result ends in the `png` extension |
| Normaliser.PngHrefOneExtension | marytreat/core/mary_xml.py:285-287 | a name with one dot keeps its stem and gets `.png` |
| Normaliser.PngHrefDropsInnerDots | marytreat/core/mary_xml.py:285-287 | a name with two dots loses everything after the first dot |
| Normaliser.ImagesToPng | marytreat/core/mary_xml.py:282-289 | an image without href raises AttributeError; the snapshots are kept |
| Normaliser.ImagesToPngIdempotent | marytreat/core/mary_xml.py:282-289 | a second pass changes nothing |
| LegacyContent.LegacyShortdescMissingDiffers | mary_xml.py:73-77 | the earlier test is the later one plus "a short description whose text is None" |
| LegacyContent.LegacyLoadShortdescMissing | mary_xml.py:73-77 | on a loaded document the short description is missing exactly when there is no direct `shortdesc`, its text is None, or the text contains "SHORT DESCRIPTION" |
| LegacyContent.LegacyInsertShortdesc | mary_xml.py:95-102 | KeyError exactly when there is no title; otherwise a direct `shortdesc` exists afterwards, and an existing one means no change |
| LegacyContent.LegacyInsertAgrees | mary_xml.py:95-102 | on anything but a cover the earlier insertion equals the later one |
| LegacyContent.LegacyInsertCovers | mary_xml.py:95-102 | a cover without short description gets one from the earlier version and none from the later one |
| LegacyContent.LegacyInsertIdempotent | mary_xml.py:95-102 | a second insertion changes nothing |
| LegacyContent.LegacySetShortdesc | mary_xml.py:90-93 | on success the short description text is the new one; KeyError without reference and title; AttributeError when the reference or the lookup after insertion finds nothing; setting in place keeps the tree's shape |
| LegacyContent.LegacySetShortdescInserts | mary_xml.py:90-93 | with a title and no short description, the element is inserted and then holds the new text |
| LegacyContent.LegacyAddNbsp | mary_xml.py:57-66 | no direct `section`, or a first section without children: no change; otherwise only that section changes, gaining one no-break-space paragraph at its end |
| LegacyContent.LegacyAddNbspTwice | mary_xml.py:57-66 | two calls append two paragraphs, so the operation is not idempotent |
| LegacyContent.LegacyUpdateLocalLinks | mary_xml.py:104-114 | no local links means no change; only AttributeError or TypeError; the snapshots are kept |
| LegacyContent.LegacyUpdateLocalLinksKeepsUnmatched | mary_xml.py:108-114 | a link whose href does not contain the old name keeps its href |
| LegacyContent.LegacyUpdateLocalLinksAgrees | mary_xml.py:104-114 | with a title the earlier rewrite equals the later one; without a title and with no matching link the earlier one succeeds where the later one raises |
| LegacyContent.LegacyFGet | mary_xml.py:116-124 | None when there is no `ishfields` child or it has no children |
| LegacyContent.LegacyFSet | mary_xml.py:116-126 | a value that is not truthy, or no `ishfields` child, changes nothing |
| LegacyContent.LegacyFieldsAgree | mary_xml.py:116-130 | reading and setting fields agree with the later version |
| LegacyContent.LegacyProcessDocdetails | mary_xml.py:132-139 | not document details: no change; with a short description it succeeds; without short description and title it raises KeyError; a dangling reference raises AttributeError; with sound references the short description ends as "Document details", and a first section with children ends with the no-break-space paragraph |
| LegacyContent.SetThenNbsp | mary_xml.py:136-139 | the short description text survives the paragraph append, and a filled first section ends with that paragraph |
| LegacyContent.AddNbspFilled | mary_xml.py:57-66 | a first section with children still has children and ends with the no-break-space paragraph |
| LegacyContent.AddNbspKeeps | mary_xml.py:57-66 | the appended paragraph hides no referenced element: every other id is found with its text |
| LegacyContent.LegacySetShortdescText | mary_xml.py:90-102 | on success the reference is the old one or the inserted element's fresh id, and that element holds the new text |
| LegacyContent.LegacySetShortdescKeeps | mary_xml.py:90-102 | every id other than the short description's and the fresh one keeps its place and text |
| LegacyContent.LegacySetShortdescSection | mary_xml.py:90-102 | a first section with children is still there with children afterwards |
| LegacyContent.LegalFound | mary_xml.py:147-151 | on a hit: success exactly when the short description reference finds its element, AttributeError otherwise; the short description then reads the hit's text, the hit loses its first child and the detached subtrees gain it |
| LegacyContent.LegalPrepared | mary_xml.py:142-143 | AttributeError exactly when there is no title; otherwise a short description element exists |
| LegacyContent.LegacyAddLegal | mary_xml.py:141-151 | no title raises AttributeError; no copyright line leaves the prepared topic; a scan error is raised; on a hit the short description is set (failing exactly when its reference finds nothing), then reads the hit's text, and that first child leaves its section |
| LegacyContent.LegalPreparedTitle | mary_xml.py:141-143 | with sound references and a title, the prepared topic holds "Legal information" under its title id and its references stay sound |
| LegacyContent.RemoveFirstAtKeeps | mary_xml.py:150 | moving the paragraph out of its section loses no referenced element and changes no text |
| LegacyContent.LegalFoundKeeps | mary_xml.py:147-150 | every id other than the short description's keeps its place and text through the hit's write and removal |
| LegacyContent.LegacyAddLegalKeepsTitle | mary_xml.py:141-151 | with sound references, a successful pass ends titled "Legal information" |
| LegacyContent.LegacyAddLegalShortdesc | mary_xml.py:141-151 | on a hit the final short description is the copyright line's text, which contains "Copyright" |
| TypeTable.KnownClasses | marytreat/core/constants.py:16-47 | a class has an entry exactly when it is one of the eight listed ones |
| TypeTable.EntriesConsistent | marytreat/core/constants.py:23-46 | in every entry the DOCTYPE declares the entry's root tag, and the prefix is one word character followed by `_` |
| TypeTable.PrefixDeterminesRoot | marytreat/core/constants.py:23-46 | two classes with the same prefix have the same root tag |
| TypeTable.LegalPrefixDiffers | marytreat/core/constants.py:38-40 | legal information is `r_` in the packaged table but `e_` in the older outputclass table and in the prefix table |
| TypeTable.LegacyAgreesElsewhere | local.py:6-14 | every other class of the older table has the packaged prefix |
| Project.SplitExt | utils/local.py:52 | the base and extension concatenate to the name, and the extension is empty or a dot followed by no other dot |
| Project.FileRename | utils/local.py:23-34 | a missing source or a taken destination changes nothing; otherwise the file moves to the new name and disappears under the old one; no other file changes |
| Project.UpdateTopicref | utils/local.py:248-255 | every `topicref` at any depth whose href equals the old name gets the new name, every other href and everything else is kept, equal names change nothing, and the map is written |
| Project.WriteTopic | utils/local.py:107-112 | the document is stored under the object's current name and no other file changes |
| Project.RenameWithPath | utils/local.py:596-601 | FTITLE is set to the new name, the sidecar is written under the new name with its extension, the old file is gone when it was moved, and no other file changes |
| Project.RenamePath | utils/local.py:448-457 | the object takes the new name at once; the folder is exactly the guarded rename, and nothing moves when the destination exists |
| Naming.Underscored | utils/local.py:429 | every whitespace or non-word character becomes `_`; the length is kept and the result has word characters only |
| Naming.NameStem | utils/local.py:429-437 | the stem consists of word characters only; the only failure is IndexError |
| Naming.SecondPassRedundant | utils/local.py:433 | the second removal of non-word characters never changes anything |
| Naming.ShortTitleFails | utils/local.py:436 | a title of fewer than two characters raises IndexError |
| Naming.ArticleDropped | utils/local.py:429-437 | `x the y` (alphanumeric words, `x` of two or more characters) becomes `x_y` |
| Naming.LeadingLetterDropped | utils/local.py:436-437 | a one-letter first word and its underscore are dropped |
| Naming.CleanTheRollers | utils/local.py:429-437 | "Clean the Rollers" gives the stem `Clean_Rollers` |
| Naming.AGuide | utils/local.py:436-437 | "A Guide" gives the stem `Guide` |
| Naming.RepetitionSuffix | utils/local.py:443-444 | the suffix is non-empty exactly when n > 1, and has word characters only |
| Naming.CreateNewName | utils/local.py:424-446 | fails exactly when the stem fails; the result has word characters only, starts with the table prefix for a known class and ends with the repetition suffix |
| Naming.CleanTheRollersNamed | utils/local.py:424-446 | a procedure titled "Clean the Rollers" is `t_Clean_Rollers`, and its second occurrence `t_Clean_Rollers_2` |
| Naming.NewNamesDistinct | utils/local.py:443-446 | different repetition numbers give different names |
| Naming.CheetahNewName | cheetah_to_dita.py:269-291 | fails exactly when the stem fails; word characters only; a class of the older table gives that table's prefix |
| Naming.PrefixesAgree | cheetah_to_dita.py:284-286 | the older prefix equals the packaged one except for legal information (`e_` against `r_`) and covers (none against `r_`) |
| Naming.CheetahAgreesWithPackaged | cheetah_to_dita.py:269-291 | outside legal information and covers both versions give the same name; for legal information they differ in the prefix |
| Naming.Step1NewName | rename_step1.py:448-462 | the only failure is IndexError |
| Naming.Step1AgreesWithCheetah | rename_step1.py:448-462 | the first script's name is the later one's with no repetition suffix, because its missing second pass changes nothing |
| Naming.NewImage | utils/local.py:606-611 | an href without a dot raises IndexError; otherwise no title, the href kept, and an extension that is a dot plus the text after the last dot |
| Naming.ImageName | utils/local.py:620-627 | `img_<prefix>_`, then a part of word characters only, then the image's extension |
| Naming.ImageNameFromCaption | utils/local.py:621-626 | a captioned image is named after its caption with spaces as `_` and non-word characters removed |
| Naming.ImageNameKeepsExtension | utils/local.py:620-627 | the generated name has the same last extension as the href |
| Naming.Step1ImageName | rename_step1.py:523-530 | `img_<prefix>_`, the base, then the extension |
| Naming.Step1ImageNameAgrees | rename_step1.py:523-530 | equals the later name exactly when the base already has word characters only |
| Numbering.NumberIds | utils/local.py:55 | numbering a parsed tree gives its elements, in document order, exactly the ids from the start value up to the returned next value |
| Numbering.NumberDistinct | utils/local.py:55 | the ids of a parsed tree are distinct and lie in the allotted range |
| Numbering.LookupFinds | marytreat/core/mary_xml.py:25-29 | with distinct ids, a reference taken to any element of the tree finds that very element |
| Rename.LegalPrelude | utils/local.py:464-465 | only a legal-information topic is touched; the topic keeps its name and sidecar; the map is unchanged and a failure leaves the folder as it was |
| Rename.Finish | utils/local.py:482-485 | the topic is written, the map is retargeted from the old name, and, apart from the topic, the map and the sidecar's old and new names, every file keeps its content |
| Rename.MoveTopic | utils/local.py:478-485 | the topic takes the new name with its extension; its links are rewritten to the extension-less name; then the writes of the rename follow the guarded file move |
| Rename.UpdateName | utils/local.py:459-476 | a non-legal topic whose title is missing is left as it is |
| Rename.UpdateNamePlain | utils/local.py:473-485 | with a title and a name that differs, the update is the move to the computed name |
| Rename.AlreadyRenamedNeedsNoDot | utils/local.py:474-476 | the "already renamed" exit cannot fire for a file name containing a dot |
| Rename.UpdateNameOverwrites | utils/local.py:477-482 | when a different file already has the new name, the topic is written over it while its own old file stays |
| Rename.UpdateNameOverwriteExample | utils/local.py:448-482 | a procedure "Clean the Rollers" in `a.dita` overwrites an existing `t_Clean_Rollers.dita` and leaves `a.dita` behind |
| Rename.MoveTopicFixed | utils/local.py:477-485 | the corrected move: links get the full new file name, no file other than the topic, the map and the sidecar names changes, and the topic is stored under its new name |
| Rename.UpdateNameFixed | utils/local.py:459-476 | a non-legal topic whose title is missing is left as it is |
| Rename.UpdateNameFixedPlain | utils/local.py:473-485 | with a free destination the corrected update is the corrected move |
| Rename.UpdateNameFixedNoOverwrite | utils/local.py:477-485 | the corrected rename never changes a file other than the topic, the map and the sidecar |
| Rename.MoveTopicFixedKeepsTaken | utils/local.py:484-485 | a file already holding the sidecar's new name is kept |
| Rename.UpdateNameFixedMoves | utils/local.py:477-485 | the old name is gone, the new name holds the topic, and a map topicref to the old name now points to the new one |
| Rename.UpdateNameLinkLosesExtension | utils/local.py:481 | as written, a link to the topic's own old file name is rewritten to the name without extension, which is not the new file name |
| Rename.UpdateNameFixedLinks | utils/local.py:481 | corrected, that link points to the new file name |
| Rename.RenameLoop | utils/local.py:235-244 | the loop keeps one entry per topic |
| Rename.RenameTopics | utils/local.py:228-246 | the batch keeps one entry per topic |
| Rename.RenameTopicsNumbersRepeats | utils/local.py:228-246 | the batch is the reference rename in which each eligible topic is numbered by the occurrences of its title text so far, and the returned count is the number of eligible topics, skipped ones included |
| Rename.OccurrencesIncrease | utils/local.py:238-242 | two eligible topics with the same title get increasing numbers in map order |
| Images.Visits | utils/local.py:296-297 | the (topic, image) visits in loop order; each visit names a later-or-equal topic and one of that topic's images |
| Images.CaptionLoop | utils/local.py:296-305 | the caption pass changes only the working labels and keeps every image |
| Images.CaptionLoopSpec | utils/local.py:296-305 | from any point of the pass, each image ends with the label of its last captioned visit, numbered by the visits of its caption so far, or keeps its label when no visit labels it |
| Images.TitlesOf | utils/local.py:296-305 | the whole caption pass equals the reference: each image's label is its last visit's numbered caption, or unchanged |
| Images.SharedImageCountedTwice | utils/local.py:296-305 | as written, one captioned image used by two topics is labelled "<caption> 2" |
| Images.Dedupe | utils/local.py:309 | first-visit order: the same images, each once |
| Images.TitlesOfFixed | utils/local.py:294-309 | corrected, counting each image once in first-visit order: each image's label is the numbered caption of its place in that order |
| Images.SharedImageCountedOnce | utils/local.py:296-305 | corrected, that image keeps its caption |
| Images.FixedLabelsDistinct | utils/local.py:300-305 | corrected, two different images with the same caption get different labels |
| Images.LabelInjective | utils/local.py:302 | different counts give different labels |
| Images.RetargetFigIter | utils/local.py:318-322 | the image elements in document order keep their number; exactly those inside a `fig` whose href equals the old name get the new one |
| Images.RetargetFigFrame | utils/local.py:318-322 | nothing but those hrefs changes |
| Images.RetargetFigIdempotent | utils/local.py:318-322 | the rewrite is idempotent |
| Images.Users | utils/local.py:306-307 | the topics using an image: every visit of that image is among them, and nothing else |
| Images.RetargetUsers | utils/local.py:317-323 | exactly the using topics are rewritten; only their files are written |
| Images.RenameImage | utils/local.py:310-323 | the image file gets the guarded rename, and the using topics are rewritten whether or not it happened |
| Images.RefusedRenameStillRetargets | utils/local.py:313-322 | when the new name is taken the file stays but the topics still point to the new name |
| Images.RenameLoopKeepsFiles | utils/local.py:309-315 | a file that is neither one of the images nor one of their new names keeps its content |
| Images.RenameLoopKeepsTopics | utils/local.py:309-323 | a topic that uses no image is not changed |
| Images.EditImageNames | utils/local.py:290-323 | labels as the reference caption pass; every file that is not an image or a new image name is kept; topics without images are unchanged |
| Images.EditImageNamesFixed | utils/local.py:290-323 | the same with the corrected caption pass |
| ImagePass.RetargetFigInFig | utils/local.py:318-321 | the rewrite changes only hrefs, so which image elements sit inside a `fig` stays the same |
| ImagePass.RenameLoopHrefs | utils/local.py:309-323 | with distinct images and no new name equal to another image's old name, each `fig` image reference in a using topic ends at the new name of the image it named, every other reference as it was |
| ImagePass.RenameLoopKeepsAbsent | utils/local.py:309-315 | a file that was absent and is no image's new name is still absent after the pass |
| ImagePass.RenameLoopMovesFiles | utils/local.py:309-315 | with distinct images and new names, no chains and free destinations, each image file moves to its new name with its content, and its old name is gone unless the two coincide |
| ImagePass.UsersOfVisits | utils/local.py:296-307 | a topic is among an image's users exactly when it shows that image, and then the image is among the visited ones |
| ImagePass.RenamePassRetargets | utils/local.py:306-323 | over the images in first-visit order, without chains: in every topic each `fig` reference to an image the topic shows points at that image's new name, whether or not the file moved, and every other reference is unchanged |
| ImagePass.RenamePassMovesFiles | utils/local.py:306-315 | over the images in first-visit order, with distinct new names, no chains and free destinations: every shown image's file moves to its new name and the old name is gone unless it equals the new one |
| EditImages.EditImageNamesRetargets | utils/local.py:290-323 | the whole method as written, when no new name is another image's old name: every topic's `fig` references to its images point at their new names |
| EditImages.EditImageNamesMovesFiles | utils/local.py:290-323 | the whole method as written, with distinct new names, no chains and free destinations: every shown image's file moves to its new name, the old name removed unless equal |
| EditImages.EditImageNamesFixedRetargets | utils/local.py:290-323 | the same reference result with each image counted once |
| EditImages.EditImageNamesFixedMovesFiles | utils/local.py:290-323 | the same file result with each image counted once |
| Classify.CountExt | utils/local.py:156-161 | the number of files with that extension field; zero exactly when no file has it |
| Classify.ProjectSource | utils/local.py:154-171 | a Word project exactly when no file has the sidecar extension; KeyError exactly when sidecars exist but no topic file; a Cheetah project exactly when there are as many topics as sidecars, at least one |
| Classify.ProjectSourceOrderFree | utils/local.py:154-171 | the verdict does not depend on the order of the directory listing |
| Classify.ChooseClass | utils/local.py:190-196 | a declared class wins; context exactly when declared so or undeclared with nested topicrefs; otherwise type detection decides; legal, lpcontext, cover and unknown classes only when declared |
| Classify.Cast | utils/local.py:517-576 | only the task conversion can raise; a `topic` root gets the root tag of the topic's class |
| Classify.CastMatchesTable | utils/local.py:145-152 | for every table class but the covers, the cast gives the table's root tag |
| Classify.CoverCastDisagrees | utils/local.py:197-202 | a cover is a plain topic and is cast to `concept`, though the table says `reference` |
| Classify.StampIter | utils/local.py:504-507 | the topicrefs keep their number and hrefs; exactly those whose href is the name get the new attribute value |
| Classify.StampFrame | utils/local.py:504-507 | nothing but that attribute of topicrefs changes |
| Classify.UpdateDoctypeInMap | utils/local.py:504-508 | TypeError exactly when the topic is referenced and its class is not in the table; otherwise the referencing topicrefs get the class's root tag as `type`, nothing else changes, and the map is written |
| Classify.Parse | utils/local.py:184-190 | a file that is absent raises; a parsed document has the stored outputclass and title |
| Classify.NewTopic | utils/local.py:355-362 | the typed topic constructor: FileNotFound for an absent file, then KeyError from the short description insertion or AttributeError from `get_images`, the latter exactly when a figure captioning a map image has no direct `alt`; the topic has the name, kind and extension, no sidecar or children, a short description unless it is a cover, lists exactly the map images some figure refers to, and every captioning figure holds its caption in its `alt` |
| TopicImages.GetImages | utils/local.py:377-396 | raises AttributeError exactly when, for some map image, a figure that refers to it (its image href is the image's href or ends in it as the last path segment) has title text but no direct `alt`; otherwise only `alt` texts change: a figure captioning some image holds the stripped caption and every other keeps its alt text; each image's title becomes the last caption a figure gives it, or stays; the hrefs listed are exactly those of the images some figure refers to |
| TopicImages.GetImagesAltsHold | utils/local.py:391-394 | after a run that does not raise, every figure that captions a map image holds that caption in its `alt` |
| TopicImages.AltInsideImageRaises | utils/local.py:383-394 | a captioned figure whose `alt` sits inside its `image` instead of directly in the figure raises AttributeError when its image href ends in the map image's name |
| TopicImages.AltWalkFigs | utils/local.py:381-394 | one image's walk over a tree: the figures read as before, the captioning ones with an `alt` hold the caption, and the walk fails exactly when a captioning figure has no `alt` |
| TopicImages.FigLoopSpec | utils/local.py:381-395 | one image's figure loop ends with the last caption or the title the image had, and marks the image shown exactly when some figure refers to it |
| TopicImages.LastCaptionIsLast | utils/local.py:391-393 | the title chosen is a caption after which no figure captions the image; there is none exactly when no figure captions it |
| TopicImages.GatherLoopAlts | utils/local.py:379-394 | the loop over the map images raises exactly when some image has a captioning figure without `alt`; otherwise the figures read as before and hold the final alt texts |
| TopicImages.GatherLoopTitles | utils/local.py:379-393 | each image's title is the last caption a figure gives it, or the title it had |
| TopicImages.GatherLoopShown | utils/local.py:379-396 | the hrefs listed are exactly those of the images some figure refers to |
| Classify.TopicClass | utils/local.py:184-196 | a topicref without href raises TypeError, one naming an absent file FileNotFound; otherwise the class is the choice over the parsed document |
| Classify.TypeAndCast | utils/local.py:203-209 | the topic takes the class; a failed cast is swallowed; only the map's type attributes change; TypeError from an unknown referenced class |
| Classify.Complete | utils/local.py:203-215 | the topic keeps its name, kind and children, takes the class, and gets a sidecar exactly for a Cheetah project |
| Classify.LoadTopic | utils/local.py:184-215 | the same aborts for a missing href or file; a loaded topic has the topicref's href as name |
| Classify.LoadTopicFacts | utils/local.py:190-215 | a loaded topic has the chosen class and the matching kind; context topics have one child per nested topicref, others none; a sidecar exactly for Cheetah |
| Classify.LoadChildren | utils/local.py:199-200 | one child per direct child topicref |
| Classify.LoadAll | utils/local.py:217-223 | one topic per topicref |
| Classify.LoadAllNames | utils/local.py:217-223 | each topic has its topicref's href as name |
| Classify.GetTopics | utils/local.py:217-223 | one topic per topicref of the map at any depth, in document order, named by its href |
| LegacyLocal.LegacyFileRename | local.py:29-36 | a missing source or equal names change nothing; otherwise the file moves, replacing any file of the new name; no other file changes |
| LegacyLocal.LegacyFileRenameAgrees | local.py:29-36 | with a free destination it equals the later guarded rename |
| LegacyLocal.LegacyFileRenameOverwrites | local.py:29-36 | a taken destination is overwritten, where the later version leaves the folder alone |
| LegacyLocal.LegacyRenameInPair | local.py:253-259 | the object takes the new name; a taken destination leaves the folder alone; no file but the old one disappears |
| LegacyLocal.LegacyRenameInPairAgrees | local.py:253-259 | it equals the later `rename_path` |
| LegacyLocal.FigTitled | local.py:223-226 | a fig without title gets one |
| LegacyLocal.AddedTitleStripsEmpty | local.py:224-229 | the added title is a no-break space, truthy, and strips to the empty string |
| LegacyLocal.LastHitIsLast | local.py:220-230 | the hit that sets an image's title is the last matching fig with a title text; none when no fig matches |
| LegacyLocal.TitleLoopIsLastHit | local.py:227-229 | the title loop ends with the last hit, or keeps the previous title |
| LegacyLocal.ShownHrefs | local.py:220-231 | exactly the map images shown by some fig of the topic |
| LegacyLocal.LegacyGetImages | local.py:218-231 | no map images: no change; a fig without image raises AttributeError; otherwise every fig has a title, each image's title is its last hit, and the topic's images are exactly those shown |
| LegacyLocal.LegacyNewTopic | local.py:262-301 | a topic without short description and title raises KeyError; without map images AttributeError; a class the typed constructor does not accept raises AssertionError after the images are gathered |
| LegacyLocal.LegacyKindAccepted | local.py:159-167 | the kind chosen for a class is one whose constructor accepts that class |
| LegacyLocal.LegacyMapContains | local.py:119-133 | a map whose initialiser did not run has no topics, so membership raises AttributeError |
| LegacyLocal.MisspelledInitBreaksMap | local.py:119-120 | because the initialiser is misspelled, map membership and topic construction both raise |
| LegacyLocal.PathLessIrreflexive | local.py:80-81 | path order is irreflexive |
| LegacyLocal.PathLessTransitive | local.py:80-81 | path order is transitive |
| LegacyLocal.PathLessTrichotomy | local.py:68-84 | two paths are equal or ordered one way, never both ways |
| Cheetah.LegacyLinksKeepHead | mary_xml.py:104-114 | the link rewrite changes no root tag, title or short description |
| Cheetah.LinksAll | cheetah_to_dita.py:176-184 | the rewrite over all pairs keeps one entry per pair and leaves the map alone |
| Cheetah.LinksAllKeepsHeads | cheetah_to_dita.py:176-184 | every pair keeps its name, kind and sidecar; only its content changes, and not its head |
| Cheetah.LinksAllRewrites | cheetah_to_dita.py:181-184 | every pair's topic is the earlier link rewrite of its content, and its file exists afterwards |
| Cheetah.LinksAllFrame | cheetah_to_dita.py:181-184 | only the pairs' topic files are written; no file disappears |
| Cheetah.LinksAllWritesEach | cheetah_to_dita.py:181-184 | with distinct names each topic file holds its rewritten content, whether or not it changed |
| Cheetah.IshRenameInPair | cheetah_to_dita.py:204-209 | FTITLE is set, the sidecar is written under the new name and the old path is deleted; no other file changes |
| Cheetah.IshRenameAgrees | cheetah_to_dita.py:204-209 | with a free destination it equals the later `rename_with_path` |
| Cheetah.IshRenameSetsTitle | cheetah_to_dita.py:205 | afterwards FTITLE reads as the new name |
| Cheetah.PairLegal | cheetah_to_dita.py:302-303 | only a legal-information pair is touched, only in its content; without title it raises AttributeError |
| Cheetah.PairMove | cheetah_to_dita.py:312-317 | every other pair keeps its head and kind; a completed move is a `TopicFromCheetah`'s; a plain `LocalTopic` (outputclass outside the six keys) raises AttributeError right after its file move, with its sidecar, the map and every other pair unchanged |
| Cheetah.PairMoveEffects | cheetah_to_dita.py:312-317 | only a `TopicFromCheetah` completes the move; then the topic takes the new file name, the sidecar takes the new name with FTITLE set, the map is retargeted, and every pair's topic gets the link rewrite from the old to the new file name |
| Cheetah.CheetahUpdateName | cheetah_to_dita.py:293-317 | every other pair keeps its head and kind |
| Cheetah.CheetahUpdateNameSteps | cheetah_to_dita.py:302-317 | a legal pair without title raises; a missing title changes nothing; a failing name raises; a pair already named so changes nothing; otherwise the pair is moved, and a plain `LocalTopic` raises AttributeError once only its topic file has moved |
| Cheetah.RenamedBaseName | cheetah_to_dita.py:308-311 | a renamed file's base name is the computed name, so a re-run skips the pair |
| Cheetah.CheetahMoveOverwrites | local.py:253-259 | the topic is written over a different file that already has the new name |
| Cheetah.Visits | cheetah_to_dita.py:88-89 | what the counter sees of each pair: skipped, or typed with its title text |
| Cheetah.RenamePairs | cheetah_to_dita.py:80-98 | one entry per pair, whether the batch finishes or stops at the first raising rename; a plain `LocalTopic` is such a rename (PlainPairAbortsBatch) |
| Cheetah.RenamePairsNumbersRepeats | cheetah_to_dita.py:80-98 | the batch is the reference rename in which each typed pair is numbered by the occurrences of its title text so far and which stops at the first raising rename (a plain `LocalTopic` among them), and a finished batch counts the typed pairs visited |
| Cheetah.OccurrencesIncrease | cheetah_to_dita.py:90-94 | two typed pairs with the same title get increasing numbers in iteration order |
| Step1.Step1TitleMissing | rename_step1.py:321-322 | raises AttributeError exactly when there is no title element; otherwise true exactly when the title text is None or contains the placeholder |
| Step1.Step1ShortdescMissing | rename_step1.py:324-328 | the older check plus an empty-string text; whatever it reports as present the later check also reports as present |
| Step1.ShortdescCheck | rename_step1.py:324-328 | the verdict is the short-description check; an existing element leaves the file lines alone, a missing one inserts the placeholder after the title line when title lines are distinct |
| Step1.InsertionWhenDistinct | rename_step1.py:330-345 | with distinct title lines and enough fuel the insertion loop ends with a placeholder after every title line |
| Step1.Step1SetShortdesc | rename_step1.py:316-319 | raises AttributeError exactly when the element is missing; otherwise the text is the argument, so the topic counts as missing one only for an empty or placeholder text |
| Step1.Step1LinksLoop | rename_step1.py:360-368 | only link targets change; a link without href raises TypeError |
| Step1.Step1LinksLoopAgrees | rename_step1.py:360-368 | for a titled topic it is the later per-link rewrite with no chaining |
| Step1.Step1LinksKeepHead | rename_step1.py:360-368 | root tag, title and short description are untouched |
| Step1.Step1LinksAll | rename_step1.py:356-369 | one entry per pair; the map is untouched; pairs already visited stay as they are |
| Step1.Step1LinksAllKeepsHeads | rename_step1.py:356-369 | every pair keeps its name, kind, sidecar and head; only its content changes |
| Step1.Step1LinksAllRewrites | rename_step1.py:359-369 | a topic without links is skipped unchanged; every other topic is the per-link rewrite of its content |
| Step1.Step1LinksAllFrame | rename_step1.py:369 | only topics with links are written; no other file changes |
| Step1.Step1IshMove | rename_step1.py:490-495 | the sidecar takes the new name with its content as it was; the old file is deleted and no other file changes |
| Step1.Step1IshMoveVsCheetah | rename_step1.py:490-495 | it is the later sidecar rename except that FTITLE is not set |
| Step1.Step1IshKeepsTitle | rename_step1.py:490-495 | the renamed sidecar still carries its old FTITLE |
| Step1.Step1LegalContent | rename_step1.py:466-469 | the title is set to the legal text; a missing short description raises AttributeError, otherwise it carries the copyright line |
| Step1.Step1LegalContentSets | rename_step1.py:467-468 | it is set_title followed by set_shortdesc |
| Step1.Step1Legal | rename_step1.py:466-469 | only the legal topic changes, in content only, and it is written back; it raises exactly when the short description is missing |
| Step1.Step1PairMove | rename_step1.py:477-504 | every other pair keeps its head and kind; the map file keeps its name |
| Step1.Step1PairMoveEffects | rename_step1.py:477-504 | the topic takes the new file name, the sidecar the new name with the old content, the map is retargeted, and every topic with links gets the rewrite from old to new file name |
| Step1.Step1MoveKeepsExisting | rename_step1.py:481-484 | when the new path already exists the file there is kept |
| Step1.Step1UpdateName | rename_step1.py:464-504 | every other pair keeps its head and kind |
| Step1.Step1Prelude | rename_step1.py:466-471 | only the current pair may change, only by the legal defaults; no title element raises AttributeError; a present title goes on unchanged |
| Step1.Step1UpdateNameSteps | rename_step1.py:464-479 | a failing name raises; a pair already named so changes nothing; otherwise the pair is moved |
| Step1.Step1MissingTitleGoesOn | rename_step1.py:470-479 | a non-legal topic with missing title is still renamed; a None title raises TypeError |
| Step1.Step1LegalWithoutShortdesc | rename_step1.py:467-468 | a legal topic without short description raises after its new title has been written |
| Step1.OutcomeKept | rename_step1.py:194 | whether a pair is counted depends only on its head |
| Step1.Outcomes | rename_step1.py:194 | one outcome per pair |
| Step1.CountCounted | rename_step1.py:196 | the count never exceeds the number of pairs |
| Step1.RenameAllLoopIsSpec | rename_step1.py:187-196 | the loop equals the reference in which counted pairs are renamed in order, and the count adds the counted outcomes |
| Step1.RenameAllCounts | rename_step1.py:187-196 | the counter equals the number of pairs with a known type and a title present |
| Step1.Step1CaptionLoop | rename_step1.py:245-256 | only temporary labels change, and no image is added or dropped |
| Step1.Step1CaptionLoopAgrees | rename_step1.py:245-256 | without empty captions it agrees with the later caption loop |
| Step1.EmptyCaptionLabelled | rename_step1.py:250 | an empty caption gets a label here but not in the later version |
| Step1.Step1RenameImage | rename_step1.py:258-271 | the image file is moved to the new name, the topics that use it are retargeted, nothing else changes |
| Step1.Step1ImageOverwrites | rename_step1.py:44-51 | moving onto an existing file replaces it, where the later version leaves the folder alone |
| Step1.Step1RenameLoop | rename_step1.py:258-271 | files neither renamed nor targeted are kept; topics no image visits are untouched |
| Step1.Step1EditImageNames | rename_step1.py:240-271 | labels only change temporary titles; untouched files and image-free topics are kept |
| Step1.Step1LabelsAgree | rename_step1.py:245-256 | without empty captions the labels equal the reference labelling by title occurrence |
| Step1Files.FirstFrom | rename_step1.py:106 | the leftmost occurrence at or after the start, or none at all |
| Step1Files.DoctypeAt | rename_step1.py:101 | the optional group matches from the opening up to the first closing, and fails only when either is absent |
| Step1Files.HeaderOf | rename_step1.py:101-110 | the result is always a header, whose declaration may have any character where the version's dot stands (the pattern runs under DOTALL and leaves the dot unescaped); with no declaration it is the default one; otherwise it is the text at the first declaration, as written there |
| Step1Files.DotVariantKept | rename_step1.py:101-110 | a declaration with any other character in place of the version's dot is found and kept as written |
| Step1Files.GetHeader | rename_step1.py:97-111 | fewer than four lines raise StopIteration; otherwise a header, the default one when the first four lines hold no declaration and text found in them otherwise |
| Step1Files.HeaderRoundTrip | rename_step1.py:113-130 | the header written in front of a body without DOCTYPE is read back unchanged |
| Step1Files.PlaceholderNotTitle | rename_step1.py:335-336 | the inserted placeholder line is not itself a title line |
| Step1Files.IndexOfLine | rename_step1.py:342 | `list.index`: the first position holding the line |
| Step1Files.AfterMarked | rename_step1.py:330-345 | the reference insertion adds one line per marked line |
| Step1Files.InsertAfterTitles | rename_step1.py:330-345 | one placeholder more per title line |
| Step1Files.InsertAfterTitlesFollowed | rename_step1.py:341-343 | every title line of the result is followed by the placeholder |
| Step1Files.AfterMarkedFollowed | rename_step1.py:341-343 | in the reference insertion every marked line is followed by the placeholder |
| Step1Files.InsertShortdescTagAgrees | rename_step1.py:330-345 | with distinct title lines and enough steps the loop as written equals the reference insertion |
| Step1Files.InsertLoopDistinct | rename_step1.py:340-343 | the loop over the rest of the lines appends the reference insertion of that rest |
| Step1Files.RepeatedTitleLineNeverEnds | rename_step1.py:340-343 | two equal title lines make the loop run forever: no step bound suffices |
| Step1Files.StuckOnRepeat | rename_step1.py:340-343 | once the loop reaches a repeat of the first title line it keeps inserting after the first one and never reaches the end |
| Flare.ImageExtensions | marytreat/core/rename_flare_images.py:29-30 | the six lower-case extensions followed by their upper-case forms |
| Flare.FlareImageName | marytreat/core/rename_flare_images.py:28-35 | a name is returned exactly for an image file, and it is the file name behind the `img_` prefix |
| Flare.FlareImageNameInjective | marytreat/core/rename_flare_images.py:33-35 | two image files never get the same new name |
| Flare.FlareImageNameAgain | marytreat/core/rename_flare_images.py:31-35 | a renamed image is still an image file, so a second run prefixes it again |
| Flare.MixedCaseIsNoImage | marytreat/core/rename_flare_images.py:29-31 | a mixed-case extension is not recognised |
| Flare.LastPiece | marytreat/core/rename_flare_images.py:48-49 | the last piece of `split` holds no separator |
| Flare.NewSrc | marytreat/core/rename_flare_images.py:47-51 | a missing src raises AttributeError; a src whose last segment differs is kept; a matching one raises TypeError exactly when there is no new name |
| Flare.NewSrcRetargetsLastSegment | marytreat/core/rename_flare_images.py:49-51 | when only the last segment carries the name, only that segment is replaced |
| Flare.SplitLastAppend | marytreat/core/rename_flare_images.py:48-49 | the last segment of a path ending in a name is that name |
| Flare.SplitAround | marytreat/core/rename_flare_images.py:48 | splitting a joined text splits each side |
| Flare.DirectoryAlsoRewritten | marytreat/core/rename_flare_images.py:50 | `str.replace` also rewrites a directory that carries the image's name |
| Flare.ScanSrcs | marytreat/core/rename_flare_images.py:46-51 | all sources rewritten in document order, or the error of the first failing one with every earlier one fine |
| Flare.ScanAppend | marytreat/core/rename_flare_images.py:46-51 | the scan of a joined list is the scan of the first part then of the second |
| Flare.SrcsOf | marytreat/core/rename_flare_images.py:47 | one src value per element |
| Flare.RewriteImgsSeq | marytreat/core/rename_flare_images.py:46-51 | one child per child |
| Flare.RewriteImgsSpec | marytreat/core/rename_flare_images.py:46-51 | the tree rewrite fails as the document-order scan fails; otherwise the new sources are the scan's and nothing but img sources changes |
| Flare.RewriteImgsSeqSpec | marytreat/core/rename_flare_images.py:46-51 | the same for a list of children |
| Flare.RewriteWithoutNameKeeps | marytreat/core/rename_flare_images.py:46-51 | when no image is renamed a successful pass leaves the tree as it was |
| Flare.TopicsLoop | marytreat/core/rename_flare_images.py:42-52 | image files are untouched, no topic is added or dropped, and topics not visited are kept |
| Flare.TopicsLoopWalks | marytreat/core/rename_flare_images.py:42-52 | when it succeeds every visited topic holds its rewritten tree |
| Flare.ImagesLoop | marytreat/core/rename_flare_images.py:40-52 | no topic is added or dropped |
| Flare.RenameImageLinks | marytreat/core/rename_flare_images.py:37-52 | an empty folder path does nothing; no topic is added or dropped |
| Flare.ImagesLoopRenames | marytreat/core/rename_flare_images.py:40-41 | when it succeeds every listed image file has been moved behind the prefix and every other file kept |
| Flare.RenameImageLinksMovesImages | marytreat/core/rename_flare_images.py:37-52 | every image file has moved to its prefixed name with its content, no old image name is left, and nothing else appears |
| Flare.RenamedAll | marytreat/core/rename_flare_images.py:40-41 | the folder after the loop holds exactly the kept files and the prefixed images |
| Flare.NonImageLinkRaises | marytreat/core/rename_flare_images.py:41-50 | a linked file that is not an image raises TypeError |
| Flare.ImagesLoopFixed | marytreat/core/rename_flare_images.py:40-52 | the corrected loop never raises TypeError |
| Flare.NoTypeErrorWithName | marytreat/core/rename_flare_images.py:49-51 | with a new name the rewrite never raises TypeError |
| Flare.TopicsLoopWithoutName | marytreat/core/rename_flare_images.py:49-51 | skipping non-images leaves the topics as they were |
| Flare.ImagesLoopFixedAgrees | marytreat/core/rename_flare_images.py:40-52 | wherever the loop as written succeeds the corrected one gives the same result |
| Flare.RenameImageLinksFixed | marytreat/core/rename_flare_images.py:37-52 | the corrected operation never raises TypeError and agrees with the original where that succeeds |
| IshFields.NewField | marytreat/core/ishfields.py:13-24 | succeeds exactly for a name whose upper-case form is in the table, an unknown one raises AttributeError once the table lookup gives None; the field takes the upper-case name, the lower-case level and the row's other columns |
| IshFields.LegacyNewField | ishfields.py:9-36 | succeeds exactly for a known name and a known operator; anything else exits |
| IshFields.LegacyAgrees | ishfields.py:22-36 | with a known operator both versions accept the same names and build the same field; only the earlier one rejects an unknown operator |
| IshFields.UpperIdempotent | marytreat/core/ishfields.py:14 | upper-casing a name twice changes nothing more |
| IshFields.LowerIdempotent | marytreat/core/ishfields.py:21-24 | lower-casing the stored level again changes nothing |
| IshFields.GetAttrib | marytreat/core/ishfields.py:43-54 | text, ishtype and level always; ishvaluetype "element" for an element field, "value" for a list-of-values field, absent otherwise |
| IshFields.DictForm | marytreat/core/ishfields.py:67-71 | one entry, under the field's name, holding its attributes |
| IshFields.TreeForm | marytreat/core/ishfields.py:73-81 | an ishfield element with name and level, an ishvaluetype exactly for element fields, and text only when it is not empty |
| IshFields.Until | marytreat/core/ishfields.py:64-65 | the text up to the first occurrence of the character, and the rest |
| IshFields.After | marytreat/core/ishfields.py:64-65 | the rest of the text after a prefix, exactly when it is a prefix |
| IshFields.FragmentRoundTrip | marytreat/core/ishfields.py:61-65 | reading a built fragment back gives its name, level, element flag, operator and text |
| IshFields.XmlFormRoundTrip | marytreat/core/ishfields.py:56-65 | reading `xml_form` back always yields the element flag, whatever the field |
| IshFields.XmlFormFixedRoundTrip | marytreat/core/ishfields.py:56-65 | the corrected form reads back with the field's own element flag |
| IshFields.TreeFormAgreesWithXmlFormFixed | marytreat/core/ishfields.py:56-81 | the tree form and the corrected text form carry the same name, level, element flag and text |
| IshFields.TemplateTypeRow | marytreat/core/constants.py:302-308 | the template-type row is a logical, non-element list-of-values field |
| IshFields.TemplateTypeField | marytreat/core/ishfields.py:13-24 | a field built for that row is not an element field |
| IshFields.XmlFormClaimsElement | marytreat/core/ishfields.py:61 | a non-element field is written as an element field; the corrected form does not |
| IshFields.TemplateTypeClaimsElement | marytreat/core/ishfields.py:52-61 | the template-type field has ishvaluetype "value" in its attributes but "element" in its text form |
| Tridion.BuildFields | marytreat/core/tridionclient.py:61-67 | fails with AttributeError exactly when some tuple names an unknown field; fields are kept, tuples become new fields with fresh identities, anything else is dropped |
| Tridion.NewMetadata | marytreat/core/tridionclient.py:48-67 | no arguments give empty metadata; a single list is unpacked; the build fails exactly when a tuple names an unknown field |
| Tridion.FieldArgs | marytreat/core/tridionclient.py:61-63 | one argument per field |
| Tridion.BuildFromFields | marytreat/core/tridionclient.py:61-63 | fields passed in are kept in order, and no identity is used up |
| Tridion.NewFromFieldList | marytreat/core/tridionclient.py:59-63 | a list of fields, or two or more fields given one by one, become exactly those fields |
| Tridion.AddField | marytreat/core/tridionclient.py:106-107 | the field is appended and the others keep their order, so the length grows by one |
| Tridion.IndexOfOid | marytreat/core/tridionclient.py:109-110 | the first position holding that very field |
| Tridion.RemoveField | marytreat/core/tridionclient.py:109-110 | ValueError exactly when the field is not there; otherwise its first occurrence is removed and the rest keeps its order |
| Tridion.RemoveAfterAdd | marytreat/core/tridionclient.py:106-110 | removing a field just added gives back the metadata it was added to |
| Tridion.Plus | marytreat/core/tridionclient.py:99-104 | metadata plus metadata is new metadata with both field lists; plus a field appends it to the left operand and returns it; anything else gives None |
| Tridion.PlusIsConstructor | marytreat/core/tridionclient.py:99-101 | the sum equals the constructor applied to the joined list, and its length is the sum of the lengths |
| Tridion.Pack | marytreat/core/tridionclient.py:85-90 | the request is wrapped in the ishfields element |
| Tridion.BodyAppend | marytreat/core/tridionclient.py:88-89 | the packed body of two lists is the concatenation of their bodies |
| Tridion.PackPlus | marytreat/core/tridionclient.py:85-101 | packing a sum packs the left fields then the right ones |
| Tridion.PackAddField | marytreat/core/tridionclient.py:85-107 | packing after `add_field` appends the new field's text form |
| Tridion.LastNamed | marytreat/core/tridionclient.py:94-96 | the last field of that name, or none when no field has it |
| Tridion.DictOfSpec | marytreat/core/tridionclient.py:92-97 | the dictionary has a key exactly for the names present, and each holds the attributes of the last field of that name |
| Tridion.Wrap | marytreat/core/tridionclient.py:118-121 | the result always ends with the closing root tag |
| Tridion.WrapNoDecl | marytreat/core/tridionclient.py:118-121 | without a declaration only the closing tag is added, so the opening root tag is missing |
| Tridion.WrapLeadingDecl | marytreat/core/tridionclient.py:118-121 | a single leading declaration is followed by the opening root tag and the body is enclosed |
| Tridion.DeclMatchesItself | marytreat/core/tridionclient.py:120 | the declaration matches its own pattern |
| Tridion.DeclMatchesAnyDot | marytreat/core/tridionclient.py:120 | the unescaped dot in the pattern also matches other characters |
| Tridion.FolderFields | marytreat/core/tridionclient.py:149-152 | one field per ishfield element with its upper-case name and its text or the empty string; it succeeds exactly when every element has a known name |
| Tridion.FolderEntries | marytreat/core/tridionclient.py:146-154 | one entry per folder; it succeeds exactly when every field element of every folder has a known name, and raises AttributeError otherwise |
| Tridion.FolderEntriesSpec | marytreat/core/tridionclient.py:146-154 | each entry carries its folder's reference and, for each ishfield element below it in document order, a field with its upper-case name and its text or the empty string |
| Tridion.SubfolderIds | marytreat/core/tridionclient.py:142-155 | it succeeds exactly when every field element of every folder, the parent included, has a known name, and raises AttributeError otherwise; the parent is dropped, and each remaining entry carries its folder's reference and, per ishfield element below it, the upper-case name and the text or the empty string |
| Content.LocalXrefIds | marytreat/core/mary_xml.py:29 | every local link found is an element of the tree |
| Content.LocalXrefIdsDistinct | marytreat/core/mary_xml.py:29 | with distinct element ids no local link is listed twice |
| Content.LinksLoopNoMatch | marytreat/core/mary_xml.py:117-124 | when no link contains the old name, the chaining loop as written and the corrected one agree whatever the new name |
| Cheetah.VisitKept | cheetah_to_dita.py:88-89 | whether and how a pair is counted depends only on its head, which earlier renames keep |
| Cheetah.RenamePairsLoopIsSpec | cheetah_to_dita.py:80-98 | the loop with its title counter equals the reference rename from any point whose counter holds the occurrences so far, both stopping at the first raising rename, a plain `LocalTopic`'s included; a finished run adds the typed pairs still ahead |
| Cheetah.PlainPairAbortsBatch | cheetah_to_dita.py:80-98 | a topic whose outputclass is outside the six keys of cheetah_to_dita.py:13-20 is loaded as a plain `LocalTopic` (:50); when the first typed pair in iteration order is a plain `LocalTopic` that gets a new name, the batch raises AttributeError with that topic's file moved and its sidecar, the map and every other pair unchanged |
| Rename.RenameLoopIsSpec | utils/local.py:228-246 | the loop with its title counter equals the reference rename from any point whose counter holds the occurrences so far |
| Rename.RenameSpecCounts | utils/local.py:228-246 | the reference rename adds one to the count for every eligible topic still ahead |
| Naming.SuffixesDistinct | utils/local.py:443-444 | two different repetition numbers give two different names for the same stem |

## Left out

- File contents are not parsed or serialised. Parsing (lxml `parse`) is a tree given as input, and `tree.write` stores the tree in the folder map.
- Classify.Parse: the four-line header read `get_xml_file_header` (utils/local.py:89-105, local.py:92-108) is not modelled; the header is taken as part of the stored document. Its StopIteration from `next(f)` (utils/local.py:97) on a file of fewer than four lines is therefore not raised by `Classify.Parse` or `Classify.NewTopic`. The first script's copy of that read is modelled as `Step1Files.GetHeader`.
- Logging, `print` and the progress messages are not modelled. The Windows-only `FileExistsError` of `os.rename` is also left out: the folder map follows the POSIX rename, which replaces the destination.
- The `dry_run` switch of rename_step1.py is left out. The model always performs the effect.
- The `if not self.path` guards of rename_step1.py are left out. Every modelled file has a path.
- The user interface, threads, the SOAP client and the GUID validator `validate` in marytreat/core/ishfields.py are left out. They are interactive or network code, or they rest on `uuid` parsing.
- `mass_edit`, `view_shortdescriptions`, `insert_nbsps` and the word-flow helpers are left out: `move_title_shortdesc_text_from_p`, `create_shortdesc_from_first_p`, `add_topic_groups`, `create_root_concept` and `process_notes`. They are not part of the rename and normalisation core. `process_notes` is a generator and would do nothing anyway.
- Step1.Step1UpdateName: the `old_pair` re-parse at rename_step1.py:465 is not modelled; the old names are taken from the pair. The re-parse can raise the parser's errors. It also runs the `DITATopic` constructor's `get_images` (rename_step1.py:298-308): any figure without an `image` raises AttributeError, and so does a figure matching a map image whose `title` has no text. Each matching titled figure writes its title into the map's shared image object. None of these effects is in the model.
- Cheetah.CheetahUpdateName: the `old_pair` re-parse at cheetah_to_dita.py:298 is not modelled; the old names are taken from the pair. The re-parse can raise the parser's errors. The `TopicFromCheetah` constructor runs the earlier `get_images` (local.py:218-231, modelled as `LegacyLocal.LegacyGetImages`): a figure without an `image` raises AttributeError, and the map's shared image objects are retitled. None of these effects is in the model.
- The `ISHFile` constructor's FMODULETYPE and library-variable handling in rename_step1.py is left out. Renaming does not depend on it.
- `Unpack.to_metadata`, `Unpack.object_ids` and `Unpack.to_tree` are left out. Only `wrap` and `subfolder_ids` are modelled, with the parsed tree as input.
- The field table of the top-level ishfields.py comes from a constants module that is not part of this model, so the earlier `IshField` takes its table as a parameter. The packaged table `IshFields.Table` holds all 37 rows of the packaged ISHFIELDS table.
- `PyStr.Upper` and `PyStr.Lower` are ASCII only. Python's Unicode case mapping is not modelled.
- PyStr.IsWordChar: Python 3's `\w` is Unicode-wide. The model agrees with it on every character up to U+024F and treats every later character (Greek, Cyrillic, CJK and so on) as a non-word character. `\d` agrees with Python below U+0660, the first non-ASCII decimal digit. A full Unicode character database is not modelled.
- Naming.Underscored: a word character above U+024F, which Python keeps, becomes `_`.
- Naming.NameStem: a title with a word character above U+024F gets `_` in its place.
- Naming.CreateNewName: a title with a word character above U+024F gets `_` in its place.
- Naming.CheetahNewName: a title with a word character above U+024F gets `_` in its place.
- Naming.Step1NewName: a title with a word character above U+024F gets `_` in its place.
- Naming.ImageName: a caption with a word character above U+024F loses that character, which Python keeps.
- Naming.ImageNameFromCaption: a caption with a word character above U+024F loses that character, which Python keeps.
- Naming.Step1ImageNameAgrees: "word characters only" uses the same `\w`, so a base with a word character above U+024F is treated as having a non-word character.
- Normaliser.IsListItem: a paragraph numbered with non-ASCII decimal digits (U+0660 and above, such as Arabic-Indic digits) is not recognised as a list item, though Python's `\d` matches it.
- Normaliser.DetectType: inherits IsListItem's digit class, so paragraphs numbered with non-ASCII decimal digits do not count towards "mostly a list".
- Set and directory iteration order is not fixed. Where the source iterates a set or `os.listdir`, the order is an input sequence, and every property holds for every order.
- Integer texts in `Metadata` tuples are left out. Tuples carry string texts only.
- Classify.NewTopic: `get_images` returns a set of image objects, whose order in Python depends on object hashes; the model lists the hrefs of the images shown in the map's order. The titles `get_images` writes into the map's shared image objects are computed by `TopicImages.GetImages` but not carried from one topic's load to the next; `Images.EditImageNames` takes the image titles as input.
- Classify.LoadTopic: inherits NewTopic's omissions: the map images' titles are not updated by the load.
- Classify.GetTopics: inherits NewTopic's omissions: the map images' titles are not updated by the load.
- Step1Files.InsertShortdescTagAgrees: proved only when no title line repeats. With a repeated title line the loop as written never ends, which `Step1Files.RepeatedTitleLineNeverEnds` proves.
- Step1.ShortdescCheck: the inserted lines are described only when the file's title lines are distinct and the step bound suffices. Otherwise the step-bounded loop reports that it had not finished.
- Step1Files.InsertShortdescTag: the unbounded `for` loop is modelled with a step bound. `None` stands for a loop that had not finished within the bound, not for a Python result.
- Flare.RenameImageLinksMovesImages: assumes the listing holds each file once and that no image's prefixed name is already taken. When a prefixed name is taken, the POSIX rename overwrites it and the property does not hold.
- IshFields.XmlFormRoundTrip: stated only for names, levels and operators without a double quote, because the fragment is not escaped and could not be read back.
- Cheetah.LinksAllWritesEach: stated for pairs with distinct topic names, which a project's file names always are.
- Rename.UpdateName: the `old_topic = LocalTopic(self.path, self.ditamap)` re-parse at utils/local.py:467 is not modelled; the old name and path are taken from the topic object. The re-parse can raise the parser's errors, and through `get_images` an AttributeError from `fig.find('alt').text` (utils/local.py:394) when a matching fig has no `alt`. It also rewrites the titles of the map's shared image objects through `get_images`. None of these effects is in the model.
- Rename.UpdateNameFixed: shares UpdateName's omission of the utils/local.py:467 re-parse.
- Normaliser.Walk: the children of a cleared element are kept in the orphans as they were before the eager walk entered them. A detached child's own conversion only contributes its status.
- ImagePass.RenamePassRetargets: assumes that no image's new name is another image's old name. Otherwise a later image's pass rewrites references that an earlier pass has just moved onto that name, and a topic can end pointing at the later image's new name.
- ImagePass.RenamePassMovesFiles: additionally assumes that the new names are pairwise distinct and free in the folder. Otherwise one move overwrites another image's file, so that file does not keep its content under its own new name.
- EditImages.EditImageNamesRetargets: the same assumption as ImagePass.RenamePassRetargets, stated on the labels of the caption pass.
- EditImages.EditImageNamesFixedRetargets: the same assumption as EditImages.EditImageNamesRetargets.
- EditImages.EditImageNamesMovesFiles: the same assumptions as ImagePass.RenamePassMovesFiles.
- EditImages.EditImageNamesFixedMovesFiles: the same assumptions as EditImages.EditImageNamesMovesFiles.
- Content.AddLegalKeepsTitle: assumes that the topic's references are sound, as `Content.LoadRefsSound` proves for a loaded topic. On a hand-built topic whose title and short description references name the same element, setting the short description would also change the title.
- LegacyContent.LegacyAddLegalKeepsTitle: assumes sound references, as Content.AddLegalKeepsTitle does, for the same reason.
- Content.ProcessDocdetails: states the kept title text only under sound references, because with shared references setting the short description also changes the title.
- LegacyContent.LegacyProcessDocdetails: states the final short description text only under sound references, because with shared references the element ids it writes through do not pick out one element.
- Normaliser.ConvertToTaskSteps: proved only when no paragraph is nested inside another. With nesting, the eager walk as written enters a cleared paragraph, which `Normaliser.NestedListStopsConversion` shows.

## Findings

| source | as written | input that shows it | evidently intended | confidence | as-written member | corrected member |
|---|---|---|---|---|---|---|
| marytreat/core/mary_xml.py:119-124 | `new_name` is overwritten by the rewritten href inside the loop, so later links get the first link's full href as the replacement | links `a#` and `a`, renaming `a` to `b`: the second link becomes `b#` instead of `b` | every link containing the old name gets old replaced by new | not executed | Content.ChainedReplacementExample | Content.ChainedReplacementFixed |
| marytreat/core/mary_xml.py:146 | the test uses the bound method `self.shortdesc_missing` without calling it, which is always true | a docdetails topic (its first `ph` refers to DocTitle) with a written short description: it is replaced by "Document details" | only a missing short description is replaced | not executed | Content.ProcessDocdetailsOverwrites | Content.ProcessDocdetailsFixed |
| utils/local.py:448-482 | the path is switched to the new name before the collision check, and `write` then stores the topic there anyway | a procedure "Clean the Rollers" in `a.dita` with `t_Clean_Rollers.dita` already present: that file is overwritten | a taken destination leaves both files alone | not executed | Rename.UpdateNameOverwriteExample | Rename.UpdateNameFixedNoOverwrite |
| utils/local.py:296-305 | captions are counted per topic and image visit, so one image used by two topics is counted twice | one captioned image referenced from two topics gets the label "caption 2" | each image is numbered once | not executed | Images.SharedImageCountedTwice | Images.SharedImageCountedOnce |
| utils/local.py:481 | the local links are pointed at the new name without its `.dita` extension | a topic `a.dita` with a local link `a.dita`: the link becomes the new name without `.dita`, which is not the topic's new file name | links point at the new file name | not executed | Rename.UpdateNameLinkLosesExtension | Rename.UpdateNameFixedLinks |
| local.py:29-36 | `file_rename` has no destination check, so it replaces a file already at the new name; topics reach it only behind the check of `rename_in_pair` (local.py:256), while the Cheetah image rename (cheetah_to_dita.py:154) calls it unguarded | renaming image `a.png` to `b.png` while `b.png` exists: `b.png` is replaced | a taken destination is left alone, as the later version does | not executed | LegacyLocal.LegacyFileRenameOverwrites | Project.FileRename |
| rename_step1.py:340-343 | the insertion looks a title line up by `index`, so for a repeated title line it keeps inserting after the first one | a file with two equal `</title>` lines: the loop never ends | a placeholder after every title line | not executed | Step1Files.RepeatedTitleLineNeverEnds | Step1Files.InsertAfterTitlesFollowed |
| rename_step1.py:490-495 | the sidecar is written under the new name with its document unchanged, so FTITLE keeps the old name | any rename of a pair | FTITLE carries the new name, as the later version sets it | not executed | Step1.Step1IshKeepsTitle | Cheetah.IshRenameSetsTitle |
| marytreat/core/rename_flare_images.py:41-50 | a file that is not an image gets `None` as its new name, and a link to it calls `replace` with `None` | a topic whose `img` points at `a.svg` in the picture folder: TypeError | non-images are skipped | not executed | Flare.NonImageLinkRaises | Flare.RenameImageLinksFixed |
| marytreat/core/ishfields.py:61 | the test `is_element is not None` holds for every field, since the flag is a bool | the FHPITEMPLATETYPE field, not an element field, is sent with ishvaluetype="element" | the attribute only for element fields, as `get_attrib` and `tree_form` do | not executed | IshFields.XmlFormClaimsElement | IshFields.XmlFormFixedRoundTrip |
