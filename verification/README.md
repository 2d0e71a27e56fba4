# ReqIF normalisation core, modelled in Dafny

The system converts ReqIF requirement exchange files into JSON. Its core has three parts, each modelled here.

- **The main converter (`main.py`).**
  - A textual pre-pass repairs the XML: it drops a byte-order mark, trims to the XML declaration and strips the `reqif:`/`r:` namespace prefixes.
  - The parsed bundle is handed to an external converter.
  - When that fails, five repair passes run in a fixed order, and the repaired bundle is converted once more:
    1. coerce attribute kinds the converter rejects;
    2. name spec types that have no name;
    3. rename duplicate field names;
    4. drop empty attribute values;
    5. prune dangling references and rebuild the relation lookup.
  - An archive (`.reqifz`) is converted member by member. Partial failures are reported and the attachments are listed.
- **The StrictDoc path (`main_strictdoc.py`).**
  - A converted document is serialized with its grammar and TOC numbering.
  - The document is then flattened into requirements and parent→child links.
  - HTML statements are cleaned into plain text.
- **The batch test (`test_all_examples.py`, `test_file`).**
  - It parses a file and collects the hierarchy nodes into identifier-keyed maps.
  - It extracts requirements, falling back to the flat list of spec objects when the hierarchy yields none.
  - It classifies the outcome.

Everything is modelled with immutable datatypes and pure functions.

- **The bundle.**
  - `ReqIF.Bundle` holds the spec types, spec objects, specifications (trees of `Node`), relations and the relation lookup map.
  - Each repair pass returns a `PassResult`: the new bundle plus the pass's change list.
- **The external pieces are function-typed parameters:**
  - the ReqIF→StrictDoc converter (`Bundle -> Result<seq<D>, string>`);
  - the field-title mapping (`string -> string`);
  - the requirement extractors and the hierarchy iterator used by `test_file`;
  - the parser used by `test_file`.
- **Inputs that stand for I/O.** An archive is given as its already-parsed members and attachments; a document file is given as its text.
- **Python built-ins are modelled explicitly.** A `dict` with insertion order is `Dicts.Dict`. `str.split()`, `str.strip()` and the regular expressions used are spelled out as scans, left to right and without overlap.

Modules follow the program's structure:

- `preprocess` is `preprocess_reqif_xml`.
- `coerce_types`, `type_names`, `duplicate_fields`, `empty_values` and `ref_integrity` are the five passes.
- `workarounds` is `apply_workarounds`, and `orchestrator` is `convert_bundle_to_json` plus `convert_reqif_to_json`.
- `archive` is `process_reqifz_file` of `main.py`, and `json_tree` is `count_nodes`.
- `html` is `clean_html`, and `sdoc` is `serialize_grammar`, `serialize_node` and `serialize_document`.
- `flatten` is `flatten_document`, and `sdoc_archive` is `process_reqifz_file` of `main_strictdoc.py`.
- `extraction` is `test_file`.
- `wrappers`, `text`, `seqs` and `dicts` are shared helpers.

## Model

| member | source | states |
|---|---|---|
| Preprocess.TrimToDecl | main.py:42-45 | Without a declaration `<?xml…?>` the text is unchanged; otherwise the result is the text from the leftmost declaration on, and it starts with that declaration |
| Preprocess.TrimIdempotent | main.py:42-45 | Trimming to the declaration a second time changes nothing |
| Preprocess.StripPrefixesClean | main.py:47-51 | After the two prefix substitutions no `<reqif:`, `<r:`, `</reqif:` or `</r:` followed by an uppercase ASCII letter remains, and the substitutions change nothing a second time |
| Preprocess.UnprefixFree | main.py:50-51 | One substitution leaves no match of its own pattern and creates no match of the other pattern where there was none |
| Preprocess.UnprefixFixpoint | main.py:50-51 | Text with no prefixed tag is left as it is |
| Preprocess.UnprefixXmlnsClean | main.py:56-57 | Renaming `xmlns:reqif=`/`xmlns:r=` to `xmlns=` leaves no prefixed namespace attribute |
| Preprocess.DropXmlnsDeclsSubseq | main.py:58-60 | Removing the redundant prefixed declarations only deletes characters: the output is a subsequence of the input |
| Preprocess.DropXmlnsDeclsFixpoint | main.py:58-60 | Text with no whitespace-led prefixed declaration is left as it is |
| Preprocess.RewriteXmlnsKeepsDecl | main.py:53-60 | Both branches of the namespace rewrite keep a leading `<?xml` in place |
| Preprocess.PreprocessKeepsDecl | main.py:36-62 | When the text (after the byte-order mark) holds an XML declaration, the pre-pass output begins with `<?xml` |
| Preprocess.PreprocessIgnoresBom | main.py:39-40 | One U+FEFF in front of text that does not itself start with U+FEFF makes no difference to the output |
| TypeCoercion.CoerceValue | main.py:104-108 | None stays None, strings stay as they are, booleans become `"true"`/`"false"`, integers become their decimal text and any other value its `str()` text |
| TypeCoercion.FixUnsupportedAttributeTypes | main.py:65-113 | Without content or spec types the bundle and an empty list come back; otherwise every definition of a rejected kind (BOOLEAN, INTEGER, REAL, DATE) becomes STRING with nothing else changed, every attribute of a rejected kind becomes STRING with its value coerced, every other definition and attribute is unchanged, specifications and relations are untouched, and the list is one `name:KIND` per rejected definition in declaration order |
| TypeCoercion.ReportIsFilter | main.py:84-93 | The nested type/definition loop reports exactly the rejected definitions of the flattened declaration list, in order |
| TypeCoercion.FixUnsupportedIdempotent | main.py:65-113 | A second run changes nothing and reports nothing |
| TypeCoercion.NoUnsupportedNoReport | main.py:84-93 | A bundle whose definitions have no rejected kind produces an empty report |
| TypeNames.FixName | main.py:131-134 | A type whose name is None or blank gets its identifier, or `REQUIREMENT` for an empty identifier; any other type is unchanged |
| TypeNames.FixMissingSpecTypeNames | main.py:116-139 | Only spec type names change; each type is repaired as `FixName` says and the list is exactly the identifiers of the types that needed a name, in order |
| TypeNames.FixedIdsIsFilter | main.py:128-134 | The collected identifiers are those of the filtered types that needed a name |
| TypeNames.FixMissingNamesIdempotent | main.py:116-139 | A second run leaves the bundle as it is |
| TypeNames.FixMissingNamesSecondRunSilent | main.py:131-134 | A second run reports nothing unless some identifier is itself a non-empty blank string |
| DuplicateFields.SafeName | main.py:166-167 | The key has only `[A-Z0-9_]` characters and is the subsequence of the upper-cased, `.`/`-`-to-`_` name that keeps exactly those characters; it has the name's length exactly when no character is dropped |
| DuplicateFields.SafeNameChar | main.py:166-167 | One character becomes its upper-case form, `_` for `.` and `-`, or nothing when the result is outside `[A-Za-z0-9_]` |
| DuplicateFields.SafeNameConcat | main.py:166-167 | The key of a concatenation is the concatenation of the keys, so with `SafeNameChar` the key is fixed character by character |
| DuplicateFields.SameUpperSameName | main.py:166-167 | Names that differ only in the case of ASCII letters get the same key |
| DuplicateFields.RenameFromMatches | main.py:161-178 | The `seen_names` dictionary loop computes the reference rule: the first definition with a key keeps its name, the n-th repeat is renamed `name_n` and logged `old -> new` |
| DuplicateFields.RenameType | main.py:161-178 | One type, with a fresh dictionary: every definition follows the reference rule and the log is the reference log |
| DuplicateFields.FixDuplicateFieldNames | main.py:142-183 | Only definition names change; every definition of every type follows the reference rule and the log is the types' reference logs in order |
| DuplicateFields.ExpectedKeepsPrefix | main.py:170-176 | A renamed definition keeps its identifier and kind, and its new name starts with the old one |
| DuplicateFields.FirstKeepsName | main.py:169-178 | The first definition of a type always keeps its name |
| DuplicateFields.SecondOfTwoRenamed | main.py:170-176 | Of two colliding definitions the second becomes `name_2` and is reported as `name -> name_2` |
| DuplicateFields.CaseVariantsCollide | main.py:164-178 | With the identity title mapping, two names differing only in letter case collide and the second is renamed `_2` |
| EmptyValues.CleanObject | main.py:204-210 | The kept attributes are exactly the non-empty ones; the object shrinks exactly when it had an empty value, and is unchanged otherwise |
| EmptyValues.FixEmptyAttributeValues | main.py:186-216 | Only attribute lists change: each becomes its non-empty attributes in order, none is empty afterwards, and the log is exactly the identifiers of the objects that lost one |
| EmptyValues.CleanedIdsIsFilter | main.py:198-211 | The reported identifiers are those of the objects with an empty value, in order |
| EmptyValues.FixEmptyValuesIdempotent | main.py:186-216 | A second run changes nothing and reports nothing |
| RefIntegrity.FilterNodes | main.py:243-252 | The kept forest references only valid objects, every removed root is invalid, kept and removed sizes add up to the original size, and nothing is removed exactly when every reference is valid; its nesting and its removed list are pinned by FilterNodesKeptDepth and FilterNodesCut |
| RefIntegrity.FilterNodesCut | main.py:243-252 | The removed entries, whose identifiers are logged as `hierarchy:<id>`, are exactly the topmost invalid nodes (invalid, with every ancestor valid), in pre-order, each with its whole original subtree |
| RefIntegrity.FilterNodesKept | main.py:243-252 | The kept forest lists, in pre-order, exactly the nodes that are valid and whose ancestors are all valid |
| RefIntegrity.FilterNodesKeptDepth | main.py:243-252 | The kept forest lists, in pre-order and with depths, exactly the nodes that are valid and whose ancestors are all valid, each at its original depth, so surviving children stay under their surviving parents |
| RefIntegrity.FilterNodesKeptUnique | main.py:243-252 | The kept forest is the only forest with that depth-annotated listing, so the filter's result is fixed node by node and level by level |
| ReqIF.PreOrderDepthDetermines | main.py:243-252 | A forest is determined by its pre-order listing of identifier, reference and depth |
| RefIntegrity.FilterNodesKeepsOrder | main.py:243-252 | The surviving nodes appear in the original pre-order, in the same relative order |
| RefIntegrity.AllRefsInPreOrder | main.py:243-252 | A forest references only valid objects exactly when every entry of its pre-order listing does |
| RefIntegrity.BuildLookup | main.py:282-288 | The rebuilt lookup's keys are exactly the relation sources, and each maps to the targets of its relations in order |
| RefIntegrity.FixMissingSpecObjectRefs | main.py:219-293 | Afterwards every node and relation resolves; each specification's roots become the filtered forest of `FilterNodes`, with everything else kept, and are untouched when valid; relations are exactly those whose ends exist and whose non-empty type reference names a spec type, in order; the lookup is rebuilt from them; the log is the `hierarchy:<id>` entries then `relations:n` when n > 0 |
| RefIntegrity.ClosedIsFixpoint | main.py:219-293 | On content whose references all resolve the pass reports nothing and changes nothing but the lookup |
| RefIntegrity.FixRefsIdempotent | main.py:219-293 | A second run changes nothing and reports nothing |
| RefIntegrity.FixRefsKeepsOrder | main.py:243-254 | Every specification keeps its surviving nodes in their original pre-order |
| Workarounds.RunPasses | main.py:302-326 | The five stages are the five passes, each run on the bundle the previous one produced, in the fixed order |
| Workarounds.SummaryLines | main.py:302-326 | One line per pass that reported anything, in pass order: the coercion list, `Added default names to N spec types`, the renamed fields, `Removed empty attributes from N objects`, the removed references; each line comes after exactly as many lines as earlier passes reported |
| Workarounds.ApplyWorkarounds | main.py:296-328 | The repaired bundle is the last pass's bundle and the log is the summary lines of the five passes' logs, empty exactly when no pass reported anything |
| Workarounds.WorkaroundsEstablish | main.py:296-328 | After the five passes every reference resolves, no attribute value is empty, every type with a non-blank identifier is named, no rejected kind is left when the bundle declares spec types, and the spec type identifiers are unchanged |
| Orchestrator.AttemptError | main.py:343-372 | When the converter raised, the error is exactly the first 500 characters of its message (all of it when shorter); when it returned no documents, the error is `No specifications found in ReqIF file` |
| Orchestrator.ConvertBundle | main.py:331-373 | Success exactly when the converter accepts the bundle with at least one document; an empty result fails without the workaround list, an exception keeps it |
| Orchestrator.ConvertReqifToJson | main.py:376-401 | Success exactly when the original converts, or the repairs reported something and the repaired bundle converts; a direct success carries no workarounds; a failure carries the repair list and an error of at most 500 characters |
| Orchestrator.ConverterCallsDetermine | main.py:376-401 | The converter is consulted only on `ConverterCalls`: the original first and at most once more, on the repaired bundle, only when the first call failed and the repairs reported something; two converters agreeing there give the same result |
| Archive.Aggregate | main.py:424-502 | A parser failure is `Archive error:` plus 300 characters; otherwise the workaround list is the member loop's `[name] w` lines and the documents are the member loop's documents; success exactly when some member contributes a document, partial errors exactly when some member failed, the failed members' `[name] error` lines, and `No documents found` or the `; `-joined errors on total failure |
| Archive.CollectedErrors | main.py:441-454 | The error lines are those of the members that did not deliver, in member order |
| Archive.CollectedDocumentsTagged | main.py:449-452 | Every collected document is one of the documents of a member that delivered, tagged with that member's own name |
| Archive.CollectMembersSingle | main.py:441-455 | One member contributes its documents tagged with its name when it delivered, its workaround lines as `[name] w`, and one `[name] error` line when it did not deliver |
| Archive.CollectMembersConcat | main.py:441-455 | The member loop over two runs of members is the two loops' documents, workaround lines and error lines concatenated, so the whole collection is what each member contributes, in member order |
| Archive.ExtractAttachments | main.py:457-473 | The listed attachments are exactly those with a payload and a name not ending in `/`, as `attachments/<name>`, in archive order |
| Archive.ArchiveSucceedsIffMemberConverts | main.py:441-496 | Over the two-phase conversion, the archive converts exactly when one of its members does |
| JsonTree.CountNodesIsPreOrderLength | main.py:505-511 | `count_nodes` counts exactly the nodes a depth-first walk visits |
| JsonTree.CountNodesConcat | main.py:505-511 | Counting two sibling lists one after the other adds their counts |
| Html.StripTagsTagFree | main_strictdoc.py:37 | After tag removal no `<` opens a `<…>` span with a non-empty, `>`-free body |
| Html.WordsKeepText | main_strictdoc.py:38 | Splitting on whitespace loses exactly the whitespace characters |
| Html.JoinCollapsed | main_strictdoc.py:38 | Joining non-empty whitespace-free words with single spaces gives text with no leading, trailing or repeated whitespace, keeping the words' characters |
| Html.CleanHtml | main_strictdoc.py:33-38 | Empty input gives `""`; the output has no leading, trailing or doubled whitespace, has the same non-whitespace characters as the tag-stripped text, and splits into exactly the words of the tag-stripped text |
| Html.WordsOfJoin | main_strictdoc.py:38 | Splitting words joined by single spaces gives the same words back |
| Sdoc.GrammarRoundTrip | main_strictdoc.py:41-69 | The serialized grammar reads back to the original elements, up to an empty role reading as no role |
| Sdoc.FieldsRoundTrip | main_strictdoc.py:54-59 | Field titles and `REQUIRED` `True`/`False` read back exactly |
| Sdoc.RelationsRoundTrip | main_strictdoc.py:61-65 | Relations read back, `ROLE` present only for a non-empty role |
| Sdoc.SerializeGrammar | main_strictdoc.py:41-69 | A missing grammar yields no elements; otherwise one element per grammar element, every field of type `String` with `REQUIRED` `True`/`False`, a role only where the relation has a non-empty one |
| Sdoc.FieldValuesGet | main_strictdoc.py:93-99 | After the field loop a key holds the last value of a grammar field the node has values for, and otherwise what it held before |
| Sdoc.NodeFieldsSpec | main_strictdoc.py:91-99 | A node's field entries have distinct keys; a key is present exactly when the node's first grammar element lists it and the node has a value, holding the last such value |
| Sdoc.ElementFor | main_strictdoc.py:92 | The element found has the node's type and belongs to the grammar; none is found only when no element has that type |
| Sdoc.SerializeSkipsOthers | main_strictdoc.py:105-106 | Items that are not nodes leave no trace, not even in the numbering |
| Sdoc.SerializeNodeAt | main_strictdoc.py:104-112 | Every sibling node is serialized, the k-th at the level its sibling number gives |
| Sdoc.SerializeNumbering | main_strictdoc.py:104-112 | Among siblings, a node's number is the count of numbered siblings up to and including it: nodes without a custom level are numbered 1, 2, … and nodes with one do not advance the counter |
| Sdoc.NumberAtCounts | main_strictdoc.py:137-143 | The loop's counter at node k is its start plus the number of counter-advancing nodes up to k |
| Sdoc.NoneLevelRepeatsNumber | main_strictdoc.py:79-83 | A node whose custom level is the text `None` shows the dotted stack, so it repeats the previous sibling's number |
| Sdoc.SerializeDocument | main_strictdoc.py:117-145 | The document's nodes are its node items only, one output node each and in order, the k-th at the level made of its own sibling number |
| Sdoc.DocumentOptions | main_strictdoc.py:126-134 | `_OPTIONS` is present exactly when there is a config with a non-empty markup or an `ENABLE_MID`; `MARKUP` only for a non-empty markup |
| Flatten.MakeRequirement | main_strictdoc.py:158-175 | The name is `TITLE` when non-empty, otherwise the cleaned `STATEMENT`; attributes are exactly the entries not starting with `_` and not `NODES`/`UID`, in order; `toc` present exactly when `_TOC` is non-empty |
| Flatten.FlattenRequirementsPreOrder | main_strictdoc.py:153-191 | One requirement per node, in depth-first pre-order |
| Flatten.FlattenLinksArePairs | main_strictdoc.py:179-189 | The links are exactly the parent→child pairs whose UIDs are both non-empty, in depth-first order |
| Flatten.FlattenCount | main_strictdoc.py:148-192 | The requirement count equals `count_nodes` of the tree |
| Flatten.FlattenLinkBound | main_strictdoc.py:179-189 | The link count is at most the number of non-root nodes |
| SdocArchive.MembersSucceedIffAllConvert | main_strictdoc.py:292-310 | A result exists exactly when every member converts |
| SdocArchive.SerializeMembersConcat | main_strictdoc.py:292-310 | Documents, requirements and links are concatenated in member order |
| SdocArchive.MemberRequirementsTagged | main_strictdoc.py:301-310 | Every requirement a member contributes carries the member's name as its source file |
| SdocArchive.MembersDocumentsTagged | main_strictdoc.py:301-304 | Every document carries the name of a member |
| SdocArchive.MembersRequirementCount | main_strictdoc.py:301-310 | There is one requirement per node of the collected documents |
| SdocArchive.ProcessSdocArchiveSpec | main_strictdoc.py:259-335 | No result on a parser failure or when a member fails; otherwise documents and requirements carry member names, the requirement count is the node count, and the attachments are those written out |
| Extraction.CategorizeSpec | test_all_examples.py:65-88 | `XML declaration` wins, then `Expected root tag`, then assertion text, otherwise `strictdoc: ` plus the first 50 characters of the message |
| Extraction.CollectNodeKeys | test_all_examples.py:111-120 | The node map holds exactly the identifiers of the iterated forest |
| Extraction.CollectUnique | test_all_examples.py:111-120 | A repeated identifier is collected once, in both maps |
| Extraction.CollectKeyedById | test_all_examples.py:111-112 | Every node is filed under its own identifier |
| Extraction.SpecLinksAreEdges | test_all_examples.py:108-133 | Each hierarchy link of a specification is a (parent, child) edge of the forest with a truthy parent |
| Extraction.SpecLinksOnePerChild | test_all_examples.py:113-114 | No child has two links |
| Extraction.SpecLinksCover | test_all_examples.py:113-133 | Every child with a truthy parent identifier has a link |
| Extraction.SpecNodes | test_all_examples.py:108-122 | The node map of one specification has distinct keys, each node under its identifier, exactly the forest's identifiers |
| Extraction.HarvestSkipsEmpty | test_all_examples.py:96-98 | Bundles without core or REQ-IF content contribute nothing |
| Extraction.BundleFallback | test_all_examples.py:104-142 | The spec-object fallback supplies the requirements exactly when the hierarchy yielded none and there are spec objects; links always come from the hierarchy |
| Extraction.HierarchyIgnoresObjects | test_all_examples.py:136-142 | A bundle whose hierarchy yields a requirement never consults the spec-object extractor |
| Extraction.AttachmentCountBounds | test_all_examples.py:145-146 | The attachment count is at most the number of attachments, equal exactly when all have a payload, and at least the number the converter writes out |
| Extraction.TestFile | test_all_examples.py:42-187 | A parse failure gives the category at level `strictdoc`; otherwise success exactly when a requirement was extracted or there is no bundle, with the counts and the first requirement as sample; a success carries no error and no error level; a zero result fails at level `extraction` with the hierarchy message exactly when some bundle has spec objects |

## Left out

- I/O, timing and the file system are not modelled: opening and reading files, writing JSON and attachments, `mkdir`, `print`, `time.time`, and the float `size_kb`/`parse_time_ms` values. An archive is given as its parsed members; the `file`/`source` fields of `ParseResult` are not modelled.
- `process_file`, `process_reqif_file` and the `main()` functions of the three files are drivers around the modelled functions and are not modelled.
- The ReqIF parsers, the StrictDoc converter, the JSON generator, the title mapping, `extract_requirement`, `extract_requirement_from_spec_object` and `iterate_specification_hierarchy` are parameters. The converter's output documents are an opaque type, so a requirement being falsy is an `Option` result of the extractor.
- Exceptions raised inside the passes, and the partial mutation they could leave behind, are not modelled: each pass is total. The catch-all handler of `test_file` (test_all_examples.py:189-202) is left out for the same reason.
- Python `upper()`/`lower()`/`isspace()` are modelled on ASCII plus the Unicode whitespace table; non-ASCII case mapping is not modelled.
- An attribute definition's LONG-NAME of None is not modelled (`AttrDef.longName` is a string).
- Only the first grammar element of a node type is consulted (`elements_by_type`); keys of a node that collide with its metadata keys are not modelled.
- Names produced by the duplicate-field renaming are not registered again, as in the source, so no uniqueness of names after the pass is claimed.
- Attachment paths are `attachments/<name>`; path normalisation by `Path.relative_to` is not modelled.
- Preprocess.StripPrefixesClean: prefix-freedom is stated after the prefix substitutions only. The later removal of redundant prefixed declarations can splice a prefix back together: in a text that also holds `<REQ-IF … xmlns="…"`, `<r: xmlns:r="">A` becomes `<r:A`. So the claim is not made for the whole pre-pass. No idempotence is claimed for the pre-pass either: in a text without a declaration, a doubled byte-order mark loses one mark per run.
- Extraction.TestFile: the requirements of `extract_requirement` are opaque values, so only their number, order and first element are stated.
- The converter's exception text is a given string; Python's `str(e)` is not modelled.
