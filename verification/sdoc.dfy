/** The serialization of a converted document (main_strictdoc.py:41-145):
    the grammar description, the document options, and the node tree with
    its table-of-contents numbers. The document model is the part of a
    converted document the serializer reads. */
module Sdoc {
  import opened Wrappers
  import opened Text
  import opened Seqs
  import opened Dicts
  import opened JsonTree

  datatype GField = GField(title: string, required: bool)
  datatype GRelation = GRelation(relType: string, role: Option<string>)
  datatype Element = Element(tag: string, fields: seq<GField>, relations: seq<GRelation>)
  datatype Config = Config(markup: Option<string>, enableMid: Option<bool>)

  /** A section item: a node (`SDocNode`) with its node type, its resolved
      custom level, its field values by title, whether it is composite, and
      its section contents; or any other item, which the serializer skips. */
  datatype SItem =
    | SNode(nodeType: string, customLevel: Option<string>, lookup: map<string, seq<string>>, composite: bool, contents: seq<SItem>)
    | SOther

  datatype SDocument = SDocument(title: string, grammar: Option<seq<Element>>, config: Option<Config>, contents: seq<SItem>)

  datatype FieldOut = FieldOut(title: string, required: string, fieldType: string)
  datatype RelationOut = RelationOut(relType: string, role: Option<string>)
  datatype ElementOut = ElementOut(nodeType: string, fields: seq<FieldOut>, relations: seq<RelationOut>)
  datatype Options = Options(markup: Option<string>, enableMid: Option<bool>)

  /** A serialized document; `sourceFile` is the `_SOURCE_FILE` entry the
      archive path adds. */
  datatype DocOut = DocOut(title: string, grammar: seq<ElementOut>, options: Option<Options>, nodes: seq<JNode>, sourceFile: Option<string>)

  // ---- serialize_grammar ----

  function FieldOf(f: GField): FieldOut {
    FieldOut(f.title, if f.required then "True" else "False", "String")
  }

  /** `ROLE` is written only for a truthy role. */
  function RelationOf(r: GRelation): RelationOut {
    RelationOut(r.relType, if r.role.Some? && r.role.value != "" then r.role else None)
  }

  function FieldsOut(fs: seq<GField>): (r: seq<FieldOut>)
    ensures |r| == |fs|
    ensures forall i :: 0 <= i < |fs| ==> r[i] == FieldOf(fs[i])
  {
    if |fs| == 0 then [] else [FieldOf(fs[0])] + FieldsOut(fs[1..])
  }

  function RelationsOut(rs: seq<GRelation>): (r: seq<RelationOut>)
    ensures |r| == |rs|
    ensures forall i :: 0 <= i < |rs| ==> r[i] == RelationOf(rs[i])
  {
    if |rs| == 0 then [] else [RelationOf(rs[0])] + RelationsOut(rs[1..])
  }

  function ElementOf(e: Element): ElementOut {
    ElementOut(e.tag, FieldsOut(e.fields), RelationsOut(e.relations))
  }

  function ElementsOut(es: seq<Element>): (r: seq<ElementOut>)
    ensures |r| == |es|
    ensures forall i :: 0 <= i < |es| ==> r[i] == ElementOf(es[i])
  {
    if |es| == 0 then [] else [ElementOf(es[0])] + ElementsOut(es[1..])
  }

  /** The `ELEMENTS` list (main_strictdoc.py:41-69). */
  function SerializeGrammar(g: Option<seq<Element>>): (r: seq<ElementOut>)
    ensures g.None? ==> r == []
    ensures g.Some? ==> |r| == |g.value|
    ensures forall i, j :: 0 <= i < |r| && 0 <= j < |r[i].fields| ==>
      r[i].fields[j].fieldType == "String" && (r[i].fields[j].required == "True" || r[i].fields[j].required == "False")
    ensures forall i, j :: 0 <= i < |r| && 0 <= j < |r[i].relations| ==>
      r[i].relations[j].role.None? || r[i].relations[j].role.value != ""
  {
    if g.None? then [] else ElementsOut(g.value)
  }

  /** Reading an element description back. */
  function ReadField(f: FieldOut): GField {
    GField(f.title, f.required == "True")
  }

  function ReadRelation(r: RelationOut): GRelation {
    GRelation(r.relType, r.role)
  }

  function ReadFields(fs: seq<FieldOut>): (r: seq<GField>)
    ensures |r| == |fs|
    ensures forall i :: 0 <= i < |fs| ==> r[i] == ReadField(fs[i])
  {
    if |fs| == 0 then [] else [ReadField(fs[0])] + ReadFields(fs[1..])
  }

  function ReadRelations(rs: seq<RelationOut>): (r: seq<GRelation>)
    ensures |r| == |rs|
    ensures forall i :: 0 <= i < |rs| ==> r[i] == ReadRelation(rs[i])
  {
    if |rs| == 0 then [] else [ReadRelation(rs[0])] + ReadRelations(rs[1..])
  }

  function ReadElements(es: seq<ElementOut>): (r: seq<Element>)
    ensures |r| == |es|
    ensures forall i :: 0 <= i < |es| ==> r[i] == Element(es[i].nodeType, ReadFields(es[i].fields), ReadRelations(es[i].relations))
  {
    if |es| == 0 then []
    else [Element(es[0].nodeType, ReadFields(es[0].fields), ReadRelations(es[0].relations))] + ReadElements(es[1..])
  }

  /** An empty role reads as no role. */
  function NormalRole(r: GRelation): GRelation {
    if r.role == Some("") then r.(role := None) else r
  }

  function NormalRoles(rs: seq<GRelation>): (r: seq<GRelation>)
    ensures |r| == |rs|
    ensures forall i :: 0 <= i < |rs| ==> r[i] == NormalRole(rs[i])
  {
    if |rs| == 0 then [] else [NormalRole(rs[0])] + NormalRoles(rs[1..])
  }

  function NormalGrammar(es: seq<Element>): (r: seq<Element>)
    ensures |r| == |es|
    ensures forall i :: 0 <= i < |es| ==> r[i] == es[i].(relations := NormalRoles(es[i].relations))
  {
    if |es| == 0 then [] else [es[0].(relations := NormalRoles(es[0].relations))] + NormalGrammar(es[1..])
  }

  /** The grammar description loses nothing but the difference between an
      empty role and no role. */
  lemma GrammarRoundTrip(es: seq<Element>)
    ensures ReadElements(SerializeGrammar(Some(es))) == NormalGrammar(es)
  {
    var back := ReadElements(SerializeGrammar(Some(es)));
    forall i | 0 <= i < |es|
      ensures back[i] == NormalGrammar(es)[i]
    {
      FieldsRoundTrip(es[i].fields);
      RelationsRoundTrip(es[i].relations);
    }
  }

  lemma FieldsRoundTrip(fs: seq<GField>)
    ensures ReadFields(FieldsOut(fs)) == fs
  {
  }

  lemma RelationsRoundTrip(rs: seq<GRelation>)
    ensures ReadRelations(RelationsOut(rs)) == NormalRoles(rs)
  {
  }

  // ---- field values of a node ----

  /** `for field in fields: node_dict[title] = value`: assigning every
      value in turn. */
  function AssignAll(d: Dict<string>, k: string, values: seq<string>): Dict<string>
    decreases |values|
  {
    if |values| == 0 then d else AssignAll(Set(d, k, values[0]), k, values[1..])
  }

  /** Only the last assigned value survives, at the key's first position. */
  lemma {:induction false} AssignAllIsLast(d: Dict<string>, k: string, values: seq<string>)
    requires |values| > 0
    ensures AssignAll(d, k, values) == Set(d, k, values[|values| - 1])
    decreases |values|
  {
    if |values| > 1 {
      AssignAllIsLast(Set(d, k, values[0]), k, values[1..]);
      SetTwice(d, k, values[0], values[|values| - 1]);
    }
  }

  lemma {:induction false} SetTwice(d: Dict<string>, k: string, v: string, w: string)
    ensures Set(Set(d, k, v), k, w) == Set(d, k, w)
    decreases |d|
  {
    if |d| > 0 && d[0].0 != k {
      SetTwice(d[1..], k, v, w);
      assert Set(d, k, v)[1..] == Set(d[1..], k, v);
    }
  }

  /** The grammar fields' loop (main_strictdoc.py:93-99). */
  function FieldValues(fs: seq<GField>, lookup: map<string, seq<string>>, acc: Dict<string>): Dict<string>
    decreases |fs|
  {
    if |fs| == 0 then acc
    else
      var t := fs[0].title;
      FieldValues(fs[1..], lookup, if t in lookup then AssignAll(acc, t, lookup[t]) else acc)
  }

  /** A node carries a value for `k` exactly when the grammar element lists
      a field titled `k` and the node has at least one value for it. */
  predicate HasValue(fs: seq<GField>, lookup: map<string, seq<string>>, k: string) {
    (exists i :: 0 <= i < |fs| && fs[i].title == k) && k in lookup && |lookup[k]| > 0
  }

  function Last(values: seq<string>): string
    requires |values| > 0
  {
    values[|values| - 1]
  }

  lemma {:induction false} FieldValuesGet(fs: seq<GField>, lookup: map<string, seq<string>>, acc: Dict<string>, k: string)
    ensures Get(FieldValues(fs, lookup, acc), k) == if HasValue(fs, lookup, k) then Some(Last(lookup[k])) else Get(acc, k)
    decreases |fs|
  {
    if |fs| > 0 {
      var t := fs[0].title;
      var acc' := if t in lookup then AssignAll(acc, t, lookup[t]) else acc;
      FieldValuesGet(fs[1..], lookup, acc', k);
      assert FieldValues(fs, lookup, acc) == FieldValues(fs[1..], lookup, acc');
      if t in lookup {
        AssignAllGet(acc, t, lookup[t], k);
      }
      HasValueCons(fs, lookup, k);
    }
  }

  /** Reading back after a run of assignments to one key. */
  lemma AssignAllGet(d: Dict<string>, t: string, values: seq<string>, k: string)
    ensures Get(AssignAll(d, t, values), k) == if t == k && |values| > 0 then Some(Last(values)) else Get(d, k)
  {
    if |values| > 0 {
      AssignAllIsLast(d, t, values);
      GetSet(d, t, Last(values), k);
    }
  }

  lemma HasValueCons(fs: seq<GField>, lookup: map<string, seq<string>>, k: string)
    requires |fs| > 0
    ensures HasValue(fs, lookup, k) <==>
      (fs[0].title == k && k in lookup && |lookup[k]| > 0) || HasValue(fs[1..], lookup, k)
  {
    if HasValue(fs, lookup, k) {
      var i :| 0 <= i < |fs| && fs[i].title == k;
      if i > 0 {
        assert fs[1..][i - 1].title == k;
      }
    }
    if HasValue(fs[1..], lookup, k) {
      var i :| 0 <= i < |fs[1..]| && fs[1..][i].title == k;
      assert fs[i + 1].title == k;
    }
  }

  lemma {:induction false} FieldValuesUnique(fs: seq<GField>, lookup: map<string, seq<string>>, acc: Dict<string>)
    requires UniqueKeys(acc)
    ensures UniqueKeys(FieldValues(fs, lookup, acc))
    decreases |fs|
  {
    if |fs| > 0 {
      var t := fs[0].title;
      if t in lookup {
        AssignAllUnique(acc, t, lookup[t]);
      }
      FieldValuesUnique(fs[1..], lookup, if t in lookup then AssignAll(acc, t, lookup[t]) else acc);
    }
  }

  lemma {:induction false} AssignAllUnique(d: Dict<string>, k: string, values: seq<string>)
    requires UniqueKeys(d)
    ensures UniqueKeys(AssignAll(d, k, values))
    decreases |values|
  {
    if |values| > 0 {
      SetUnique(d, k, values[0]);
      AssignAllUnique(Set(d, k, values[0]), k, values[1..]);
    }
  }

  /** The first grammar element for a node type. */
  function ElementFor(es: seq<Element>, tag: string): (r: Option<Element>)
    ensures r.Some? ==> r.value in es && r.value.tag == tag
    ensures r.None? ==> forall i :: 0 <= i < |es| ==> es[i].tag != tag
  {
    if |es| == 0 then None else if es[0].tag == tag then Some(es[0]) else ElementFor(es[1..], tag)
  }

  /** The field entries of a node of type `tag` (main_strictdoc.py:92-99). */
  function NodeFields(g: Option<seq<Element>>, tag: string, lookup: map<string, seq<string>>): Dict<string> {
    if g.None? then []
    else match ElementFor(g.value, tag)
      case None => []
      case Some(e) => FieldValues(e.fields, lookup, [])
  }

  /** The node's field entries: one per grammar field the node has a value
      for, holding the last such value, keys not repeated. */
  lemma NodeFieldsSpec(g: Option<seq<Element>>, tag: string, lookup: map<string, seq<string>>, k: string)
    ensures UniqueKeys(NodeFields(g, tag, lookup))
    ensures var e := if g.None? then None else ElementFor(g.value, tag);
      Get(NodeFields(g, tag, lookup), k) ==
        if e.Some? && HasValue(e.value.fields, lookup, k) then Some(Last(lookup[k])) else None
  {
    if g.Some? && ElementFor(g.value, tag).Some? {
      var e := ElementFor(g.value, tag).value;
      FieldValuesGet(e.fields, lookup, [], k);
      FieldValuesUnique(e.fields, lookup, []);
    }
  }

  // ---- TOC numbering ----

  function NumberStrings(stack: seq<nat>): (r: seq<string>)
    ensures |r| == |stack|
    ensures forall i :: 0 <= i < |stack| ==> r[i] == NatToString(stack[i])
  {
    if |stack| == 0 then [] else [NatToString(stack[0])] + NumberStrings(stack[1..])
  }

  /** `_TOC` (main_strictdoc.py:79-83): the custom level when it is set,
      non-empty and not the text `None`; otherwise the dotted level stack. */
  function LevelString(customLevel: Option<string>, stack: seq<nat>): string {
    if customLevel.Some? && customLevel.value != "" && customLevel.value != "None" then customLevel.value
    else if |stack| > 0 then JoinWith(".", NumberStrings(stack))
    else ""
  }

  /** The node advances the sibling counter: its custom level is None. */
  predicate Numbered(item: SItem) {
    item.SNode? && item.customLevel.None?
  }

  /** The sibling loops of `serialize_node`/`serialize_document`
      (main_strictdoc.py:104-112, 137-143): `counter` is the number of the
      last numbered sibling, and only nodes are serialized. */
  function SerializeItems(g: Option<seq<Element>>, items: seq<SItem>, stack: seq<nat>, counter: nat): (r: seq<JNode>)
    decreases items
  {
    if |items| == 0 then []
    else match items[0]
      case SOther => SerializeItems(g, items[1..], stack, counter)
      case SNode(tag, level, lookup, composite, contents) =>
        var n := if level.None? then counter + 1 else counter;
        var here := stack + [n];
        var kids := if composite then SerializeItems(g, contents, here, 0) else [];
        [JNode(LevelString(level, here), tag, NodeFields(g, tag, lookup), composite, kids)]
          + SerializeItems(g, items[1..], stack, n)
  }

  predicate IsNode(item: SItem) {
    item.SNode?
  }

  /** How many of `items` advance the counter. */
  function NumberedCount(items: seq<SItem>): nat {
    if |items| == 0 then 0 else (if Numbered(items[0]) then 1 else 0) + NumberedCount(items[1..])
  }

  /** Items that are not nodes leave no trace, not even in the numbering. */
  lemma {:induction false} SerializeSkipsOthers(g: Option<seq<Element>>, items: seq<SItem>, stack: seq<nat>, counter: nat)
    ensures SerializeItems(g, items, stack, counter) == SerializeItems(g, Filter(IsNode, items), stack, counter)
    decreases |items|
  {
    if |items| > 0 {
      SerializeSkipsOthers(g, items[1..], stack, counter);
      SerializeSkipsOthers(g, items[1..], stack, if Numbered(items[0]) then counter + 1 else counter);
      if IsNode(items[0]) {
        var f := Filter(IsNode, items);
        assert f == [items[0]] + Filter(IsNode, items[1..]);
        assert f[0] == items[0] && f[1..] == Filter(IsNode, items[1..]);
      } else {
        assert Filter(IsNode, items) == Filter(IsNode, items[1..]);
      }
    }
  }

  /** The serialized form of one node at level `here`. */
  function RenderNode(g: Option<seq<Element>>, item: SItem, here: seq<nat>): JNode
    requires item.SNode?
  {
    JNode(LevelString(item.customLevel, here), item.nodeType, NodeFields(g, item.nodeType, item.lookup), item.composite,
          if item.composite then SerializeItems(g, item.contents, here, 0) else [])
  }

  /** The first node of the list, then the rest with the counter it left. */
  lemma SerializeFirst(g: Option<seq<Element>>, nodes: seq<SItem>, stack: seq<nat>, counter: nat)
    requires |nodes| > 0 && nodes[0].SNode?
    ensures var n := if Numbered(nodes[0]) then counter + 1 else counter;
      SerializeItems(g, nodes, stack, counter) == [RenderNode(g, nodes[0], stack + [n])] + SerializeItems(g, nodes[1..], stack, n)
  {
  }

  /** The counter value the sibling loop holds when it reaches node `k`. */
  function NumberAt(nodes: seq<SItem>, counter: nat, k: nat): nat
    requires k < |nodes|
    decreases k
  {
    var n := if Numbered(nodes[0]) then counter + 1 else counter;
    if k == 0 then n else NumberAt(nodes[1..], n, k - 1)
  }

  /** Node `k` is at `counter` plus the number of counter-advancing nodes up
      to and including it: numbered siblings get 1, 2, ... in order and the
      others repeat the current number. */
  lemma {:induction false} NumberAtCounts(nodes: seq<SItem>, counter: nat, k: nat)
    requires k < |nodes|
    ensures NumberAt(nodes, counter, k) == counter + NumberedCount(nodes[..k + 1])
    decreases k
  {
    var n := if Numbered(nodes[0]) then counter + 1 else counter;
    if k == 0 {
      assert nodes[..1] == [nodes[0]];
      assert NumberedCount([nodes[0]]) == (if Numbered(nodes[0]) then 1 else 0) + NumberedCount([]);
    } else {
      NumberAtCounts(nodes[1..], n, k - 1);
      assert nodes[..k + 1][1..] == nodes[1..][..k];
      assert nodes[..k + 1][0] == nodes[0];
    }
  }

  /** The k-th node of a list of nodes is serialized with its own type,
      fields and children at the level its sibling number gives. */
  lemma {:induction false} SerializeNodeAt(g: Option<seq<Element>>, nodes: seq<SItem>, stack: seq<nat>, counter: nat, k: nat)
    requires forall i :: 0 <= i < |nodes| ==> nodes[i].SNode?
    requires k < |nodes|
    ensures |SerializeItems(g, nodes, stack, counter)| == |nodes|
    ensures SerializeItems(g, nodes, stack, counter)[k] == RenderNode(g, nodes[k], stack + [NumberAt(nodes, counter, k)])
    decreases k
  {
    var n := if Numbered(nodes[0]) then counter + 1 else counter;
    SerializeFirst(g, nodes, stack, counter);
    SerializeLength(g, nodes[1..], stack, n);
    if k > 0 {
      SerializeNodeAt(g, nodes[1..], stack, n, k - 1);
    }
  }

  lemma {:induction false} SerializeLength(g: Option<seq<Element>>, nodes: seq<SItem>, stack: seq<nat>, counter: nat)
    requires forall i :: 0 <= i < |nodes| ==> nodes[i].SNode?
    ensures |SerializeItems(g, nodes, stack, counter)| == |nodes|
    decreases |nodes|
  {
    if |nodes| > 0 {
      var n := if Numbered(nodes[0]) then counter + 1 else counter;
      SerializeFirst(g, nodes, stack, counter);
      SerializeLength(g, nodes[1..], stack, n);
    }
  }

  /** The TOC numbering of a list of sibling nodes (the other items are
      skipped, see SerializeSkipsOthers): the k-th node has the level of its
      sibling number, which counts the nodes without a custom level up to
      and including it. */
  lemma SerializeNumbering(g: Option<seq<Element>>, nodes: seq<SItem>, stack: seq<nat>, k: nat)
    requires forall i :: 0 <= i < |nodes| ==> nodes[i].SNode?
    requires k < |nodes|
    ensures |SerializeItems(g, nodes, stack, 0)| == |nodes|
    ensures SerializeItems(g, nodes, stack, 0)[k] == RenderNode(g, nodes[k], stack + [NumberedCount(nodes[..k + 1])])
  {
    SerializeNodeAt(g, nodes, stack, 0, k);
    NumberAtCounts(nodes, 0, k);
  }

  /** A node whose custom level is the text `None` shows the dotted stack
      but does not advance the counter, so it repeats the number of the
      numbered sibling before it. */
  lemma NoneLevelRepeatsNumber(g: Option<seq<Element>>, a: SItem, b: SItem)
    requires a.SNode? && a.customLevel.None?
    requires b.SNode? && b.customLevel == Some("None")
    ensures var out := SerializeItems(g, [a, b], [], 0);
      |out| == 2 && out[0].toc == "1" && out[1].toc == "1"
  {
    SerializeNumbering(g, [a, b], [], 0);
    SerializeNumbering(g, [a, b], [], 1);
    assert [a, b][..1] == [a] && [a, b][..2] == [a, b];
    assert NumberedCount([a]) == 1 + NumberedCount([]);
    assert NumberedCount([a, b]) == 1 + NumberedCount([b]);
    assert NumberedCount([b]) == NumberedCount([]);
    assert NatToString(1) == "1";
  }

  // ---- serialize_document ----

  /** `_OPTIONS` (main_strictdoc.py:126-134): `MARKUP` when it is truthy,
      `ENABLE_MID` when it is not None, and nothing when neither is. */
  function DocumentOptions(config: Option<Config>): (r: Option<Options>)
    ensures r.Some? ==> config.Some? && (r.value.markup.Some? || r.value.enableMid.Some?)
    ensures r.Some? ==> r.value.enableMid == config.value.enableMid
    ensures r.Some? ==> (r.value.markup.Some? <==> config.value.markup.Some? && config.value.markup.value != "")
    ensures r.Some? && r.value.markup.Some? ==> r.value.markup == config.value.markup
    ensures r.None? <==> config.None? || ((config.value.markup.None? || config.value.markup.value == "") && config.value.enableMid.None?)
  {
    match config
    case None => None
    case Some(c) =>
      var markup := if c.markup.Some? && c.markup.value != "" then c.markup else None;
      if markup.None? && c.enableMid.None? then None else Some(Options(markup, c.enableMid))
  }

  /** The top level of a document: one output node per node item, the k-th
      at the level made of its sibling number alone. */
  lemma TopLevelNodes(g: Option<seq<Element>>, items: seq<SItem>)
    ensures var nodes := Filter(IsNode, items);
      && SerializeItems(g, items, [], 0) == SerializeItems(g, nodes, [], 0)
      && |SerializeItems(g, items, [], 0)| == |nodes|
      && forall k :: 0 <= k < |nodes| ==>
           SerializeItems(g, items, [], 0)[k] == RenderNode(g, nodes[k], [NumberedCount(nodes[..k + 1])])
  {
    var nodes := Filter(IsNode, items);
    SerializeSkipsOthers(g, items, [], 0);
    if |nodes| == 0 {
      assert SerializeItems(g, nodes, [], 0) == [];
    } else {
      SerializeNumbering(g, nodes, [], 0);
    }
    forall k | 0 <= k < |nodes|
      ensures SerializeItems(g, nodes, [], 0)[k] == RenderNode(g, nodes[k], [NumberedCount(nodes[..k + 1])])
    {
      SerializeNumbering(g, nodes, [], k);
      assert [] + [NumberedCount(nodes[..k + 1])] == [NumberedCount(nodes[..k + 1])];
    }
  }

  /** `serialize_document`: the top-level nodes are numbered from an empty
      stack, so the first level is the sibling number alone, and items that
      are not nodes leave no trace. */
  function SerializeDocument(d: SDocument): (r: DocOut)
    ensures r.title == d.title && r.sourceFile.None?
    ensures r.grammar == SerializeGrammar(d.grammar)
    ensures r.options == DocumentOptions(d.config)
    ensures r.nodes == SerializeItems(d.grammar, Filter(IsNode, d.contents), [], 0)
    ensures var nodes := Filter(IsNode, d.contents);
      && |r.nodes| == |nodes|
      && forall k :: 0 <= k < |nodes| ==>
           r.nodes[k] == RenderNode(d.grammar, nodes[k], [NumberedCount(nodes[..k + 1])])
  {
    TopLevelNodes(d.grammar, d.contents);
    DocOut(d.title, SerializeGrammar(d.grammar), DocumentOptions(d.config), SerializeItems(d.grammar, d.contents, [], 0), None)
  }
}
