/** The checks of `test_file` (test_all_examples.py:42-202). A file is
    loaded (an archive by the archive parser; a single document by the
    document parser after `preprocess_reqif_xml`); a parser failure is put in
    one of four categories. Otherwise every bundle with content yields
    requirements and hierarchy links: each specification's hierarchy is
    collected into a node map keyed by identifier and a parent map from a
    child's identifier to its parent's, and a bundle whose hierarchy yields
    no requirement falls back to its flat list of spec objects. The parsers,
    `iterate_specification_hierarchy` and the two `extract_requirement*`
    functions are parameters. */
module Extraction {
  import opened Wrappers
  import opened Text
  import opened Seqs
  import opened Dicts
  import opened ReqIF
  import opened Preprocess
  import opened Archive
  import opened Flatten

  // Parser failures (test_all_examples.py:65-88).

  const DeclarationLabel := "XML: comments before declaration"
  const RootTagLabel := "XML: invalid root tag (RIF vs REQ-IF)"
  const AssertionLabel := "strictdoc assertion error"
  const OtherPrefix := "strictdoc: "

  predicate IsAssertion(msg: string) {
    Contains(msg, "AssertionError") || Contains(Lower(msg), "assert")
  }

  /** The category of a parser failure message. */
  function Categorize(msg: string): string {
    if Contains(msg, "XML declaration") then DeclarationLabel
    else if Contains(msg, "Expected root tag") then RootTagLabel
    else if IsAssertion(msg) then AssertionLabel
    else OtherPrefix + Take(msg, 50)
  }

  /** The categories are tried in order and are told apart by their text:
      each fixed label is chosen exactly when its test is the first to
      succeed, and any other message keeps its first 50 characters after
      `strictdoc: `. */
  lemma CategorizeSpec(msg: string)
    ensures Categorize(msg) == DeclarationLabel <==> Contains(msg, "XML declaration")
    ensures Categorize(msg) == RootTagLabel <==> !Contains(msg, "XML declaration") && Contains(msg, "Expected root tag")
    ensures Categorize(msg) == AssertionLabel <==>
      !Contains(msg, "XML declaration") && !Contains(msg, "Expected root tag") && IsAssertion(msg)
    ensures StartsWith(Categorize(msg), OtherPrefix) <==>
      !Contains(msg, "XML declaration") && !Contains(msg, "Expected root tag") && !IsAssertion(msg)
    ensures StartsWith(Categorize(msg), OtherPrefix) ==>
      Categorize(msg) == OtherPrefix + Take(msg, 50) && |Categorize(msg)| <= |OtherPrefix| + 50
  {
    var r := Categorize(msg);
    assert DeclarationLabel[0] == 'X' && RootTagLabel[0] == 'X' && OtherPrefix[0] == 's';
    assert DeclarationLabel[5] != RootTagLabel[5];
    assert AssertionLabel[..|OtherPrefix|] != OtherPrefix by {
      assert AssertionLabel[9] != OtherPrefix[9];
    }
    if StartsWith(r, OtherPrefix) {
      assert r[0] == 's';
    } else {
      assert (OtherPrefix + Take(msg, 50))[..|OtherPrefix|] == OtherPrefix;
    }
    if !StartsWith(r, OtherPrefix) {
      assert r != OtherPrefix + Take(msg, 50);
    }
    if r == OtherPrefix + Take(msg, 50) {
      assert r[0] == 's';
    }
  }

  // Node collection (test_all_examples.py:108-120).

  /** The two dictionaries of one specification: identifier to node, and
      child identifier to parent identifier. */
  datatype Maps = Maps(nodeMap: Dict<Node>, parentMap: Dict<string>)

  /** The entries `collect_nodes` writes for one node before it descends;
      `parent` is "" where `parent_id` is None or empty. */
  function Visit(n: Node, parent: string, acc: Maps): Maps {
    Maps(Set(acc.nodeMap, n.id, n), if parent != "" then Set(acc.parentMap, n.id, parent) else acc.parentMap)
  }

  /** `collect_nodes` for each node of `ns` in turn, each descending into its
      children with its own identifier as their parent. */
  function CollectNodes(ns: seq<Node>, parent: string, acc: Maps): Maps
    decreases ns
  {
    if |ns| == 0 then acc
    else CollectNodes(ns[1..], parent, CollectNodes(ns[0].children, ns[0].id, Visit(ns[0], parent, acc)))
  }

  /** The identifiers of a forest, depth first. */
  function Ids(ns: seq<Node>): seq<string>
    decreases ns
  {
    if |ns| == 0 then [] else [ns[0].id] + Ids(ns[0].children) + Ids(ns[1..])
  }

  /** The (parent, child) identifier pairs of a forest whose parent
      identifier is non-empty, depth first. */
  function Edges(ns: seq<Node>, parent: string): seq<(string, string)>
    decreases ns
  {
    if |ns| == 0 then []
    else (if parent != "" then [(parent, ns[0].id)] else []) + Edges(ns[0].children, ns[0].id) + Edges(ns[1..], parent)
  }

  /** The node map holds exactly the identifiers of the forest. */
  lemma {:induction false} CollectNodeKeys(ns: seq<Node>, parent: string, acc: Maps)
    ensures forall k :: k in Keys(CollectNodes(ns, parent, acc).nodeMap) <==> k in Keys(acc.nodeMap) || k in Ids(ns)
    decreases ns
  {
    if |ns| > 0 {
      var n := ns[0];
      var here := Visit(n, parent, acc);
      SetKeys(acc.nodeMap, n.id, n);
      CollectNodeKeys(n.children, n.id, here);
      CollectNodeKeys(ns[1..], parent, CollectNodes(n.children, n.id, here));
    }
  }

  /** Both maps have one entry per key. */
  lemma {:induction false} CollectUnique(ns: seq<Node>, parent: string, acc: Maps)
    requires UniqueKeys(acc.nodeMap) && UniqueKeys(acc.parentMap)
    ensures UniqueKeys(CollectNodes(ns, parent, acc).nodeMap) && UniqueKeys(CollectNodes(ns, parent, acc).parentMap)
    decreases ns
  {
    if |ns| > 0 {
      var n := ns[0];
      var here := Visit(n, parent, acc);
      SetUnique(acc.nodeMap, n.id, n);
      if parent != "" {
        SetUnique(acc.parentMap, n.id, parent);
      }
      CollectUnique(n.children, n.id, here);
      CollectUnique(ns[1..], parent, CollectNodes(n.children, n.id, here));
    }
  }

  /** Every node is filed under its own identifier. */
  predicate KeyedById(d: Dict<Node>) {
    forall e :: e in d ==> e.1.id == e.0
  }

  lemma {:induction false} CollectKeyedById(ns: seq<Node>, parent: string, acc: Maps)
    requires KeyedById(acc.nodeMap)
    ensures KeyedById(CollectNodes(ns, parent, acc).nodeMap)
    decreases ns
  {
    if |ns| > 0 {
      var n := ns[0];
      var here := Visit(n, parent, acc);
      SetEntries(acc.nodeMap, n.id, n);
      CollectKeyedById(n.children, n.id, here);
      CollectKeyedById(ns[1..], parent, CollectNodes(n.children, n.id, here));
    }
  }

  /** Every parent-map entry is a (child, parent) edge of the forest, unless
      it was there before. */
  lemma {:induction false} CollectParentEntries(ns: seq<Node>, parent: string, acc: Maps)
    ensures forall e :: e in CollectNodes(ns, parent, acc).parentMap ==> e in acc.parentMap || (e.1, e.0) in Edges(ns, parent)
    decreases ns
  {
    if |ns| > 0 {
      var n := ns[0];
      var here := Visit(n, parent, acc);
      if parent != "" {
        SetEntries(acc.parentMap, n.id, parent);
      }
      CollectParentEntries(n.children, n.id, here);
      CollectParentEntries(ns[1..], parent, CollectNodes(n.children, n.id, here));
    }
  }

  /** Keys are never removed, and every edge's child gets an entry. */
  lemma {:induction false} CollectParentCovers(ns: seq<Node>, parent: string, acc: Maps)
    ensures forall k :: k in Keys(acc.parentMap) ==> k in Keys(CollectNodes(ns, parent, acc).parentMap)
    ensures forall e :: e in Edges(ns, parent) ==> e.1 in Keys(CollectNodes(ns, parent, acc).parentMap)
    decreases ns
  {
    if |ns| > 0 {
      var n := ns[0];
      var here := Visit(n, parent, acc);
      if parent != "" {
        SetKeys(acc.parentMap, n.id, parent);
      }
      CollectParentCovers(n.children, n.id, here);
      CollectParentCovers(ns[1..], parent, CollectNodes(n.children, n.id, here));
    }
  }

  // Requirements and links (test_all_examples.py:96-142).

  /** The foreign functions `test_file` calls: the hierarchy iterator and
      the two requirement extractors, None standing for a falsy result. */
  datatype Extractors<R> = Extractors(
    iterate: (Bundle, Specification) -> seq<Node>,
    fromNode: (Bundle, Node) -> Option<R>,
    fromObject: (Bundle, SpecObject) -> Option<R>)

  datatype Harvest<R> = Harvest(requirements: seq<R>, links: seq<Link>)

  /** The requirements extracted from the node map's values, in insertion
      order. */
  function NodeRequirements<R>(x: Extractors<R>, b: Bundle, d: Dict<Node>): (r: seq<R>)
    ensures |r| <= |d|
  {
    if |d| == 0 then []
    else (if x.fromNode(b, d[0].1).Some? then [x.fromNode(b, d[0].1).value] else []) + NodeRequirements(x, b, d[1..])
  }

  /** The fallback: the requirements extracted from the spec objects. */
  function ObjectRequirements<R>(x: Extractors<R>, b: Bundle, objs: seq<SpecObject>): (r: seq<R>)
    ensures |r| <= |objs|
  {
    if |objs| == 0 then []
    else (if x.fromObject(b, objs[0]).Some? then [x.fromObject(b, objs[0]).value] else []) + ObjectRequirements(x, b, objs[1..])
  }

  /** One hierarchy link per parent-map entry. */
  function HierarchyLinks(parentMap: Dict<string>): (r: seq<Link>)
    ensures |r| == |parentMap|
    ensures forall i :: 0 <= i < |r| ==> r[i] == Link(parentMap[i].1, "hierarchy", parentMap[i].0)
  {
    if |parentMap| == 0 then []
    else [Link(parentMap[0].1, "hierarchy", parentMap[0].0)] + HierarchyLinks(parentMap[1..])
  }

  /** The maps of one specification, built afresh. */
  function SpecMaps<R>(x: Extractors<R>, b: Bundle, s: Specification): Maps {
    CollectNodes(x.iterate(b, s), "", Maps([], []))
  }

  /** The loop over a bundle's specifications. */
  function SpecsHarvest<R>(x: Extractors<R>, b: Bundle, specs: seq<Specification>): Harvest<R>
    decreases |specs|
  {
    if |specs| == 0 then Harvest([], [])
    else
      var m := SpecMaps(x, b, specs[0]);
      var rest := SpecsHarvest(x, b, specs[1..]);
      Harvest(NodeRequirements(x, b, m.nodeMap) + rest.requirements, HierarchyLinks(m.parentMap) + rest.links)
  }

  /** One bundle: nothing without content; the hierarchy's requirements and
      links, and the spec objects' requirements when the hierarchy yielded
      no requirement and there are spec objects. */
  function BundleHarvest<R>(x: Extractors<R>, b: Bundle): Harvest<R> {
    if b.content.None? then Harvest([], [])
    else
      var c := b.content.value;
      var h := SpecsHarvest(x, b, c.specifications);
      if |h.requirements| == 0 && |c.specObjects| > 0 then Harvest(ObjectRequirements(x, b, c.specObjects), h.links)
      else h
  }

  function HarvestAll<R>(x: Extractors<R>, bundles: seq<Bundle>): Harvest<R>
    decreases |bundles|
  {
    if |bundles| == 0 then Harvest([], [])
    else
      var own := BundleHarvest(x, bundles[0]);
      var rest := HarvestAll(x, bundles[1..]);
      Harvest(own.requirements + rest.requirements, own.links + rest.links)
  }

  /** Each link of one specification is a (parent, child) edge of the
      collected forest. */
  lemma SpecLinksAreEdges<R>(x: Extractors<R>, b: Bundle, s: Specification)
    ensures var links := HierarchyLinks(SpecMaps(x, b, s).parentMap);
      forall i :: 0 <= i < |links| ==> links[i].linkType == "hierarchy" && (links[i].source, links[i].target) in Edges(x.iterate(b, s), "")
  {
    var m := SpecMaps(x, b, s);
    CollectParentEntries(x.iterate(b, s), "", Maps([], []));
    forall i | 0 <= i < |m.parentMap|
      ensures (m.parentMap[i].1, m.parentMap[i].0) in Edges(x.iterate(b, s), "")
    {
      assert m.parentMap[i] in m.parentMap;
    }
  }

  /** No child of one specification has two links. */
  lemma SpecLinksOnePerChild<R>(x: Extractors<R>, b: Bundle, s: Specification)
    ensures var links := HierarchyLinks(SpecMaps(x, b, s).parentMap);
      forall i, j :: 0 <= i < j < |links| ==> links[i].target != links[j].target
  {
    CollectUnique(x.iterate(b, s), "", Maps([], []));
  }

  /** The targets of a list of links. */
  function Targets(links: seq<Link>): (r: seq<string>)
    ensures |r| == |links|
    ensures forall i :: 0 <= i < |links| ==> r[i] == links[i].target
  {
    if |links| == 0 then [] else [links[0].target] + Targets(links[1..])
  }

  /** Every child whose parent identifier is non-empty has a link. */
  lemma SpecLinksCover<R>(x: Extractors<R>, b: Bundle, s: Specification)
    ensures forall e :: e in Edges(x.iterate(b, s), "") ==> e.1 in Targets(HierarchyLinks(SpecMaps(x, b, s).parentMap))
  {
    var m := SpecMaps(x, b, s);
    CollectParentCovers(x.iterate(b, s), "", Maps([], []));
    assert Targets(HierarchyLinks(m.parentMap)) == Keys(m.parentMap);
  }

  /** The node map of one specification holds each identifier of the
      collected forest once, under the node that carries it. */
  lemma SpecNodes<R>(x: Extractors<R>, b: Bundle, s: Specification)
    ensures var m := SpecMaps(x, b, s);
      && UniqueKeys(m.nodeMap)
      && KeyedById(m.nodeMap)
      && (forall k :: k in Keys(m.nodeMap) <==> k in Ids(x.iterate(b, s)))
  {
    var roots := x.iterate(b, s);
    CollectUnique(roots, "", Maps([], []));
    CollectKeyedById(roots, "", Maps([], []));
    CollectNodeKeys(roots, "", Maps([], []));
  }

  predicate HasContent(b: Bundle) {
    b.content.Some?
  }

  /** Bundles without content contribute nothing. */
  lemma {:induction false} HarvestSkipsEmpty<R>(x: Extractors<R>, bundles: seq<Bundle>)
    ensures HarvestAll(x, bundles) == HarvestAll(x, Filter(HasContent, bundles))
    decreases |bundles|
  {
    if |bundles| > 0 {
      HarvestSkipsEmpty(x, bundles[1..]);
      var f := Filter(HasContent, bundles[1..]);
      if HasContent(bundles[0]) {
        assert Filter(HasContent, bundles) == [bundles[0]] + f;
        assert ([bundles[0]] + f)[1..] == f;
      } else {
        assert Filter(HasContent, bundles) == f;
        assert HarvestAll(x, bundles) == HarvestAll(x, bundles[1..]);
      }
    }
  }

  /** The fallback runs exactly when the hierarchy yielded no requirement
      and there are spec objects; the links always come from the hierarchy. */
  lemma BundleFallback<R>(x: Extractors<R>, b: Bundle)
    requires HasContent(b)
    ensures var c := b.content.value;
      var h := SpecsHarvest(x, b, c.specifications);
      && BundleHarvest(x, b).links == h.links
      && (|h.requirements| > 0 ==> BundleHarvest(x, b).requirements == h.requirements)
      && (|h.requirements| == 0 && |c.specObjects| > 0 ==> BundleHarvest(x, b).requirements == ObjectRequirements(x, b, c.specObjects))
      && (|h.requirements| == 0 && |c.specObjects| == 0 ==> BundleHarvest(x, b).requirements == [])
  {
  }

  /** A bundle whose hierarchy yields a requirement never consults the
      spec-object extractor. */
  lemma HierarchyIgnoresObjects<R>(x: Extractors<R>, y: Extractors<R>, b: Bundle)
    requires x.iterate == y.iterate && x.fromNode == y.fromNode
    requires HasContent(b) && |SpecsHarvest(x, b, b.content.value.specifications).requirements| > 0
    ensures BundleHarvest(x, b) == BundleHarvest(y, b)
  {
    SpecsHarvestIgnoresObjects(x, y, b, b.content.value.specifications);
  }

  lemma {:induction false} SpecsHarvestIgnoresObjects<R>(x: Extractors<R>, y: Extractors<R>, b: Bundle, specs: seq<Specification>)
    requires x.iterate == y.iterate && x.fromNode == y.fromNode
    ensures SpecsHarvest(x, b, specs) == SpecsHarvest(y, b, specs)
    decreases |specs|
  {
    if |specs| > 0 {
      SpecsHarvestIgnoresObjects(x, y, b, specs[1..]);
      NodeRequirementsIgnoresObjects(x, y, b, SpecMaps(x, b, specs[0]).nodeMap);
    }
  }

  lemma {:induction false} NodeRequirementsIgnoresObjects<R>(x: Extractors<R>, y: Extractors<R>, b: Bundle, d: Dict<Node>)
    requires x.fromNode == y.fromNode
    ensures NodeRequirements(x, b, d) == NodeRequirements(y, b, d)
    decreases |d|
  {
    if |d| > 0 {
      NodeRequirementsIgnoresObjects(x, y, b, d[1..]);
    }
  }

  // Attachments (test_all_examples.py:145-146).

  predicate HasPayload(a: (string, seq<bv8>)) {
    |a.1| > 0
  }

  /** The number of attachments with a non-empty payload. */
  function AttachmentCount(atts: seq<(string, seq<bv8>)>): nat {
    |Filter(HasPayload, atts)|
  }

  /** The count includes every attachment the archive conversion writes out,
      and directory entries with a payload besides. */
  lemma AttachmentCountBounds(atts: seq<(string, seq<bv8>)>)
    ensures |ExtractAttachments(atts)| <= AttachmentCount(atts) <= |atts|
    ensures AttachmentCount(atts) == |atts| <==> forall i :: 0 <= i < |atts| ==> HasPayload(atts[i])
  {
    FilterMonotone(Extracted, HasPayload, atts);
  }

  // The whole check (test_all_examples.py:42-202).

  /** What `test_file` is given: the archive parser's outcome for a
      `.reqifz` file, or the text of any other file. */
  datatype Source = ArchiveFile(parsed: Result<ZBundle, string>) | DocumentFile(text: string)

  datatype Loaded = Loaded(bundles: seq<Bundle>, attachments: nat)

  function MemberBundles(ms: seq<(string, Bundle)>): (r: seq<Bundle>)
    ensures |r| == |ms|
    ensures forall i :: 0 <= i < |ms| ==> r[i] == ms[i].1
  {
    if |ms| == 0 then [] else [ms[0].1] + MemberBundles(ms[1..])
  }

  /** Step 1: the bundles, and the attachment count of an archive. */
  function Load(parse: string -> Result<Bundle, string>, src: Source): Result<Loaded, string> {
    match src
    case ArchiveFile(parsed) =>
      if parsed.Failure? then Failure(parsed.error)
      else Success(Loaded(MemberBundles(parsed.value.members), AttachmentCount(parsed.value.attachments)))
    case DocumentFile(text) =>
      var parsed := parse(PreprocessXml(text));
      if parsed.Failure? then Failure(parsed.error) else Success(Loaded([parsed.value], 0))
  }

  const NoHierarchy := "extraction: spec objects exist but no specifications/hierarchy"
  const NoObjects := "extraction: no spec objects in file"

  predicate HasSpecObjects(b: Bundle) {
    b.content.Some? && |b.content.value.specObjects| > 0
  }

  /** The fields of ParseResult the model keeps. */
  datatype TestResult<R> = TestResult(
    success: bool,
    requirementsCount: nat,
    linksCount: nat,
    attachmentsCount: nat,
    error: Option<string>,
    errorLevel: Option<string>,
    sample: Option<R>)

  /** `test_file`. */
  function TestFile<R>(x: Extractors<R>, parse: string -> Result<Bundle, string>, src: Source): (r: TestResult<R>)
    ensures Load(parse, src).Failure? ==>
      r == TestResult(false, 0, 0, 0, Some(Categorize(Load(parse, src).error)), Some("strictdoc"), None)
    ensures Load(parse, src).Success? ==>
      var l := Load(parse, src).value;
      var h := HarvestAll(x, l.bundles);
      && r.attachmentsCount == l.attachments
      && (r.success <==> |h.requirements| > 0 || |l.bundles| == 0)
      && (r.success ==> r.requirementsCount == |h.requirements| && r.linksCount == |h.links| && r.error.None? && r.errorLevel.None?)
      && (r.success ==> (r.sample.Some? <==> |h.requirements| > 0) && (r.sample.Some? ==> r.sample.value == h.requirements[0]))
      && (!r.success ==> r.requirementsCount == 0 && r.linksCount == 0 && r.errorLevel == Some("extraction") && r.sample.None?)
      && (!r.success ==> (r.error == Some(NoHierarchy) <==> exists i :: 0 <= i < |l.bundles| && HasSpecObjects(l.bundles[i])))
      && (!r.success ==> r.error == Some(NoHierarchy) || r.error == Some(NoObjects))
  {
    match Load(parse, src)
    case Failure(msg) => TestResult(false, 0, 0, 0, Some(Categorize(msg)), Some("strictdoc"), None)
    case Success(l) =>
      var h := HarvestAll(x, l.bundles);
      if |h.requirements| == 0 && |l.bundles| > 0 then
        var objects := exists i :: 0 <= i < |l.bundles| && HasSpecObjects(l.bundles[i]);
        TestResult(false, 0, 0, l.attachments, Some(if objects then NoHierarchy else NoObjects), Some("extraction"), None)
      else
        TestResult(true, |h.requirements|, |h.links|, l.attachments, None, None,
                   if |h.requirements| > 0 then Some(h.requirements[0]) else None)
  }
}
