/** `flatten_document` (main_strictdoc.py:148-192): a depth-first walk of a
    serialized document that emits one requirement per node and one
    hierarchy link per parent-child pair whose UIDs are both non-empty. */
module Flatten {
  import opened Wrappers
  import opened Text
  import opened Seqs
  import opened Dicts
  import opened JsonTree
  import opened Html
  import opened Sdoc

  datatype Requirement = Requirement(
    id: string,
    name: string,
    reqType: string,
    attributes: Dict<string>,
    toc: Option<string>,
    sourceFile: Option<string>)

  datatype Link = Link(source: string, linkType: string, target: string)

  /** `node.get(key, "")` for a field entry. */
  function FieldText(n: JNode, key: string): string {
    Get(n.fields, key).GetOr("")
  }

  function Uid(n: JNode): string {
    FieldText(n, "UID")
  }

  /** An entry that becomes an attribute: not metadata, not `NODES`, not
      `UID` (main_strictdoc.py:167-169). */
  predicate IsAttribute(e: (string, string)) {
    !StartsWith(e.0, "_") && e.0 != "NODES" && e.0 != "UID"
  }

  /** The requirement of one node (main_strictdoc.py:158-175). */
  function MakeRequirement(n: JNode): (r: Requirement)
    ensures r.id == Uid(n) && r.reqType == n.nodeType && r.sourceFile.None?
    ensures FieldText(n, "TITLE") != "" ==> r.name == FieldText(n, "TITLE")
    ensures FieldText(n, "TITLE") == "" ==> r.name == CleanHtml(FieldText(n, "STATEMENT"))
    ensures r.toc.Some? <==> n.toc != ""
    ensures r.toc.Some? ==> r.toc.value == n.toc
    ensures forall e :: e in r.attributes <==> e in n.fields && IsAttribute(e)
    ensures IsSubseq(r.attributes, n.fields)
  {
    var title := FieldText(n, "TITLE");
    FilterIsSubseq(IsAttribute, n.fields);
    Requirement(
      Uid(n),
      if title != "" then title else CleanHtml(FieldText(n, "STATEMENT")),
      n.nodeType,
      Filter(IsAttribute, n.fields),
      if n.toc != "" then Some(n.toc) else None,
      None)
  }

  /** The recursive `process_nodes`: the requirements and the links of the
      forest `nodes` whose parent has UID `parent` (empty for the roots). */
  function FlattenNodes(nodes: seq<JNode>, parent: string): (r: (seq<Requirement>, seq<Link>))
    decreases nodes
  {
    if |nodes| == 0 then ([], [])
    else
      var n := nodes[0];
      var uid := Uid(n);
      var own := if parent != "" && uid != "" then [Link(parent, "hierarchy", uid)] else [];
      var kids := if n.hasNodes && |n.nodes| > 0 then FlattenNodes(n.nodes, uid) else ([], []);
      var rest := FlattenNodes(nodes[1..], parent);
      ([MakeRequirement(n)] + kids.0 + rest.0, own + kids.1 + rest.1)
  }

  /** `flatten_document`. */
  function FlattenDocument(d: DocOut): (seq<Requirement>, seq<Link>) {
    FlattenNodes(d.nodes, "")
  }

  function Requirements(nodes: seq<JNode>): (r: seq<Requirement>)
    ensures |r| == |nodes|
    ensures forall i :: 0 <= i < |nodes| ==> r[i] == MakeRequirement(nodes[i])
  {
    if |nodes| == 0 then [] else [MakeRequirement(nodes[0])] + Requirements(nodes[1..])
  }

  lemma {:induction false} RequirementsConcat(a: seq<JNode>, b: seq<JNode>)
    ensures Requirements(a + b) == Requirements(a) + Requirements(b)
    decreases |a|
  {
    if |a| == 0 {
      assert a + b == b;
    } else {
      assert (a + b)[0] == a[0];
      assert (a + b)[1..] == a[1..] + b;
      RequirementsConcat(a[1..], b);
    }
  }

  /** Every node paired with its parent's UID, depth first. */
  function Parented(nodes: seq<JNode>, parent: string): (r: seq<(string, string)>)
    decreases nodes
  {
    if |nodes| == 0 then []
    else
      [(parent, Uid(nodes[0]))]
      + (if nodes[0].hasNodes then Parented(nodes[0].nodes, Uid(nodes[0])) else [])
      + Parented(nodes[1..], parent)
  }

  /** A pair that makes a link: both UIDs are non-empty. */
  predicate Linked(p: (string, string)) {
    p.0 != "" && p.1 != ""
  }

  function LinksOf(ps: seq<(string, string)>): (r: seq<Link>)
    ensures |r| == |ps|
    ensures forall i :: 0 <= i < |ps| ==> r[i] == Link(ps[i].0, "hierarchy", ps[i].1)
  {
    if |ps| == 0 then [] else [Link(ps[0].0, "hierarchy", ps[0].1)] + LinksOf(ps[1..])
  }

  lemma {:induction false} LinksOfConcat(a: seq<(string, string)>, b: seq<(string, string)>)
    ensures LinksOf(a + b) == LinksOf(a) + LinksOf(b)
    decreases |a|
  {
    if |a| == 0 {
      assert a + b == b;
    } else {
      assert (a + b)[0] == a[0];
      assert (a + b)[1..] == a[1..] + b;
      LinksOfConcat(a[1..], b);
    }
  }

  /** One requirement per node, in depth-first order. */
  lemma {:induction false} FlattenRequirementsPreOrder(nodes: seq<JNode>, parent: string)
    ensures FlattenNodes(nodes, parent).0 == Requirements(PreOrder(nodes))
    decreases nodes
  {
    if |nodes| > 0 {
      var n := nodes[0];
      var kids := if n.hasNodes then PreOrder(n.nodes) else [];
      FlattenRequirementsPreOrder(nodes[1..], parent);
      if n.hasNodes {
        FlattenRequirementsPreOrder(n.nodes, Uid(n));
      }
      assert PreOrder(nodes) == [n] + kids + PreOrder(nodes[1..]);
      RequirementsConcat([n] + kids, PreOrder(nodes[1..]));
      RequirementsConcat([n], kids);
    }
  }

  /** The links are exactly the parent-child pairs with both UIDs set, in
      depth-first order. */
  lemma {:induction false} FlattenLinksArePairs(nodes: seq<JNode>, parent: string)
    ensures FlattenNodes(nodes, parent).1 == LinksOf(Filter(Linked, Parented(nodes, parent)))
    decreases nodes
  {
    if |nodes| > 0 {
      var n := nodes[0];
      var head := [(parent, Uid(n))];
      var kids := if n.hasNodes then Parented(n.nodes, Uid(n)) else [];
      var rest := Parented(nodes[1..], parent);
      FlattenLinksArePairs(nodes[1..], parent);
      if n.hasNodes {
        FlattenLinksArePairs(n.nodes, Uid(n));
      }
      var fh, fk, fr := Filter(Linked, head), Filter(Linked, kids), Filter(Linked, rest);
      assert Parented(nodes, parent) == head + kids + rest;
      FilterConcat(Linked, head + kids, rest);
      FilterConcat(Linked, head, kids);
      assert Filter(Linked, Parented(nodes, parent)) == fh + fk + fr;
      LinksOfConcat(fh + fk, fr);
      LinksOfConcat(fh, fk);
      assert fh == (if Linked(head[0]) then head else []);
      assert FlattenNodes(n.nodes, Uid(n)).1 == LinksOf(fk) || !n.hasNodes;
    }
  }

  /** The requirement count is `count_nodes` of the tree. */
  lemma FlattenCount(nodes: seq<JNode>, parent: string)
    ensures |FlattenNodes(nodes, parent).0| == CountNodes(nodes)
  {
    FlattenRequirementsPreOrder(nodes, parent);
    CountNodesIsPreOrderLength(nodes);
  }

  /** No link ends at a root, so there are at most as many links as
      non-root nodes. */
  lemma {:induction false} FlattenLinkBound(nodes: seq<JNode>, parent: string)
    ensures |FlattenNodes(nodes, parent).1| + (if parent == "" then |nodes| else 0) <= CountNodes(nodes)
    decreases nodes
  {
    if |nodes| > 0 {
      var n := nodes[0];
      FlattenLinkBound(nodes[1..], parent);
      if n.hasNodes {
        FlattenLinkBound(n.nodes, Uid(n));
      }
    }
  }
}
