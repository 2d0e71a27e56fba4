/** Repair pass 5, `fix_missing_spec_object_refs` (main.py:219-293):
    hierarchy nodes that point at a missing spec object are cut off with
    their subtrees, relations with a missing end or relation type are
    dropped, and the relation lookup is rebuilt from what is left. */
module RefIntegrity {
  import opened Wrappers
  import opened Text
  import opened Seqs
  import opened ReqIF

  /** Every node of the forest points at an identifier in `valid`. */
  predicate AllRefsIn(nodes: seq<Node>, valid: set<string>)
    decreases nodes
  {
    |nodes| == 0 || (nodes[0].ref in valid && AllRefsIn(nodes[0].children, valid) && AllRefsIn(nodes[1..], valid))
  }

  /** `filter_valid_nodes` (main.py:243-252): returns the kept forest and
      the removed subtree roots, in the order the source reports them. */
  function FilterNodes(nodes: seq<Node>, valid: set<string>): (r: (seq<Node>, seq<Node>))
    ensures AllRefsIn(r.0, valid)
    ensures forall i :: 0 <= i < |r.1| ==> r.1[i].ref !in valid
    ensures TreeSize(r.0) + TreeSize(r.1) == TreeSize(nodes)
    ensures r.1 == [] <==> AllRefsIn(nodes, valid)
    ensures AllRefsIn(nodes, valid) ==> r.0 == nodes
    decreases nodes
  {
    if |nodes| == 0 then ([], [])
    else
      var n := nodes[0];
      var rest := FilterNodes(nodes[1..], valid);
      assert nodes == [n] + nodes[1..];
      if n.ref in valid then
        var kids := FilterNodes(n.children, valid);
        var n' := n.(children := kids.0);
        assert ([n'] + rest.0)[1..] == rest.0;
        TreeSizeConcat(kids.1, rest.1);
        assert AllRefsIn(nodes, valid) ==> kids.0 == n.children && rest.0 == nodes[1..] && n' == n;
        ([n'] + rest.0, kids.1 + rest.1)
      else
        assert ([n] + rest.1)[1..] == rest.1;
        (rest.0, [n] + rest.1)
  }

  /** The kept nodes appear in the pre-order listing of the original forest,
      in the same relative order. */
  lemma {:induction false} FilterNodesKeepsOrder(nodes: seq<Node>, valid: set<string>)
    ensures IsSubseq(PreOrder(FilterNodes(nodes, valid).0), PreOrder(nodes))
    decreases nodes
  {
    if |nodes| > 0 {
      var n := nodes[0];
      var rest := FilterNodes(nodes[1..], valid);
      FilterNodesKeepsOrder(nodes[1..], valid);
      var head := [(n.id, n.ref)];
      if n.ref in valid {
        var kids := FilterNodes(n.children, valid);
        FilterNodesKeepsOrder(n.children, valid);
        var n' := n.(children := kids.0);
        assert ([n'] + rest.0)[1..] == rest.0;
        assert PreOrder([n'] + rest.0) == head + PreOrder(kids.0) + PreOrder(rest.0);
        SubseqRefl(head);
        SubseqConcat(head, head, PreOrder(kids.0), PreOrder(n.children));
        SubseqConcat(head + PreOrder(kids.0), head + PreOrder(n.children), PreOrder(rest.0), PreOrder(nodes[1..]));
      } else {
        SubseqPrepend(PreOrder(rest.0), head + PreOrder(n.children), PreOrder(nodes[1..]));
      }
    }
  }

  /** The structural predicate agrees with the flat view: every entry of the
      pre-order listing points into `valid`. */
  lemma {:induction false} AllRefsInPreOrder(nodes: seq<Node>, valid: set<string>)
    ensures AllRefsIn(nodes, valid) <==> forall k :: 0 <= k < |PreOrder(nodes)| ==> PreOrder(nodes)[k].1 in valid
    decreases nodes
  {
    if |nodes| > 0 {
      var n := nodes[0];
      AllRefsInPreOrder(n.children, valid);
      AllRefsInPreOrder(nodes[1..], valid);
      var p, a, b := [(n.id, n.ref)], PreOrder(n.children), PreOrder(nodes[1..]);
      assert PreOrder(nodes) == p + a + b;
      if forall k :: 0 <= k < |PreOrder(nodes)| ==> PreOrder(nodes)[k].1 in valid {
        assert PreOrder(nodes)[0].1 == n.ref;
        forall k | 0 <= k < |a|
          ensures a[k].1 in valid
        {
          assert PreOrder(nodes)[1 + k] == a[k];
        }
        forall k | 0 <= k < |b|
          ensures b[k].1 in valid
        {
          assert PreOrder(nodes)[1 + |a| + k] == b[k];
        }
      }
    }
  }

  // A reference description of the hierarchy filter, node by node.

  /** Every node of the forest in pre-order, with its original children,
      whether all of its ancestors point into `valid` (`above` for the
      roots), and its depth (`d` for the roots). */
  function Marked(nodes: seq<Node>, valid: set<string>, above: bool, d: nat): seq<(Node, bool, nat)>
    decreases nodes
  {
    if |nodes| == 0 then []
    else
      [(nodes[0], above, d)]
      + Marked(nodes[0].children, valid, above && nodes[0].ref in valid, d + 1)
      + Marked(nodes[1..], valid, above, d)
  }

  /** A node that survives: it and all its ancestors point into `valid`. */
  function SurvivesFn(valid: set<string>): ((Node, bool, nat)) -> bool {
    (e: (Node, bool, nat)) => e.1 && e.0.ref in valid
  }

  /** A node that is cut: it points outside `valid` and its ancestors do not. */
  function CutFn(valid: set<string>): ((Node, bool, nat)) -> bool {
    (e: (Node, bool, nat)) => e.1 && e.0.ref !in valid
  }

  /** The original subtree of a marked node. */
  function Subtree(e: (Node, bool, nat)): Node {
    e.0
  }

  /** The (identifier, reference) pair of a marked node. */
  function Pair(e: (Node, bool, nat)): (string, string) {
    (e.0.id, e.0.ref)
  }

  /** The (identifier, reference, depth) entry of a marked node. */
  function PairDepth(e: (Node, bool, nat)): (string, string, nat) {
    (e.0.id, e.0.ref, e.2)
  }

  /** One step of the filter, on the first node of the forest. */
  lemma FilterNodesStep(nodes: seq<Node>, valid: set<string>)
    requires |nodes| > 0
    ensures FilterNodes(nodes, valid).1
      == (if nodes[0].ref in valid then FilterNodes(nodes[0].children, valid).1 else [nodes[0]])
         + FilterNodes(nodes[1..], valid).1
    ensures FilterNodes(nodes, valid).0
      == (if nodes[0].ref in valid
          then [nodes[0].(children := FilterNodes(nodes[0].children, valid).0)] else [])
         + FilterNodes(nodes[1..], valid).0
  {
  }

  /** Below a cut nothing is marked as having valid ancestors. */
  lemma {:induction false} MarkedBelowCut(nodes: seq<Node>, valid: set<string>, d: nat)
    ensures forall i :: 0 <= i < |Marked(nodes, valid, false, d)| ==> !Marked(nodes, valid, false, d)[i].1
    decreases nodes
  {
    if |nodes| > 0 {
      MarkedBelowCut(nodes[0].children, valid, d + 1);
      MarkedBelowCut(nodes[1..], valid, d);
      var a, b := Marked(nodes[0].children, valid, false, d + 1), Marked(nodes[1..], valid, false, d);
      var m := Marked(nodes, valid, false, d);
      assert m == [(nodes[0], false, d)] + a + b;
      forall i | 0 <= i < |m|
        ensures !m[i].1
      {
        if i == 0 {
        } else if i < 1 + |a| {
          assert m[i] == a[i - 1];
        } else {
          assert m[i] == b[i - 1 - |a|];
        }
      }
    }
  }

  lemma BelowCutEmpty(nodes: seq<Node>, valid: set<string>, d: nat)
    ensures Filter(SurvivesFn(valid), Marked(nodes, valid, false, d)) == []
    ensures Filter(CutFn(valid), Marked(nodes, valid, false, d)) == []
  {
    MarkedBelowCut(nodes, valid, d);
    FilterNone(SurvivesFn(valid), Marked(nodes, valid, false, d));
    FilterNone(CutFn(valid), Marked(nodes, valid, false, d));
  }

  /** Filtering the marked listing, split at the first node. */
  lemma MarkedFilterStep(p: ((Node, bool, nat)) -> bool, nodes: seq<Node>, valid: set<string>, above: bool, d: nat)
    requires |nodes| > 0
    ensures Filter(p, Marked(nodes, valid, above, d))
         == Filter(p, [(nodes[0], above, d)])
            + Filter(p, Marked(nodes[0].children, valid, above && nodes[0].ref in valid, d + 1))
            + Filter(p, Marked(nodes[1..], valid, above, d))
  {
    var head := [(nodes[0], above, d)];
    var kidsM := Marked(nodes[0].children, valid, above && nodes[0].ref in valid, d + 1);
    var restM := Marked(nodes[1..], valid, above, d);
    assert Marked(nodes, valid, above, d) == head + kidsM + restM;
    FilterConcat(p, head + kidsM, restM);
    FilterConcat(p, head, kidsM);
  }

  /** The removed roots are exactly the original subtrees of the topmost
      invalid nodes, in pre-order. */
  lemma {:induction false} FilterNodesCut(nodes: seq<Node>, valid: set<string>, d: nat)
    ensures FilterNodes(nodes, valid).1 == Map(Subtree, Filter(CutFn(valid), Marked(nodes, valid, true, d)))
    decreases nodes
  {
    if |nodes| > 0 {
      var n := nodes[0];
      var ok := n.ref in valid;
      FilterNodesCut(nodes[1..], valid, d);
      FilterNodesStep(nodes, valid);
      MarkedFilterStep(CutFn(valid), nodes, valid, true, d);
      var head := [(n, true, d)];
      var cutK := Filter(CutFn(valid), Marked(n.children, valid, ok, d + 1));
      var cutR := Filter(CutFn(valid), Marked(nodes[1..], valid, true, d));
      if ok {
        FilterNodesCut(n.children, valid, d + 1);
        assert Filter(CutFn(valid), head) == [];
        MapConcat(Subtree, cutK, cutR);
      } else {
        BelowCutEmpty(n.children, valid, d + 1);
        assert Filter(CutFn(valid), head) == head;
        MapConcat(Subtree, head, cutR);
      }
    }
  }

  /** The kept forest lists, in pre-order, exactly the nodes that point
      into `valid` and whose ancestors all do. */
  lemma {:induction false} FilterNodesKept(nodes: seq<Node>, valid: set<string>, d: nat)
    ensures PreOrder(FilterNodes(nodes, valid).0) == Map(Pair, Filter(SurvivesFn(valid), Marked(nodes, valid, true, d)))
    decreases nodes
  {
    if |nodes| > 0 {
      var n := nodes[0];
      var ok := n.ref in valid;
      var rest := FilterNodes(nodes[1..], valid);
      FilterNodesKept(nodes[1..], valid, d);
      FilterNodesStep(nodes, valid);
      MarkedFilterStep(SurvivesFn(valid), nodes, valid, true, d);
      var head := [(n, true, d)];
      var keepK := Filter(SurvivesFn(valid), Marked(n.children, valid, ok, d + 1));
      var keepR := Filter(SurvivesFn(valid), Marked(nodes[1..], valid, true, d));
      if ok {
        var kids := FilterNodes(n.children, valid);
        FilterNodesKept(n.children, valid, d + 1);
        assert Filter(SurvivesFn(valid), head) == head;
        MapConcat(Pair, head + keepK, keepR);
        MapConcat(Pair, head, keepK);
        var n' := n.(children := kids.0);
        assert FilterNodes(nodes, valid).0 == [n'] + rest.0;
        assert ([n'] + rest.0)[1..] == rest.0;
        assert PreOrder([n'] + rest.0) == [(n.id, n.ref)] + PreOrder(kids.0) + PreOrder(rest.0);
      } else {
        BelowCutEmpty(n.children, valid, d + 1);
        assert Filter(SurvivesFn(valid), head) == [];
        assert FilterNodes(nodes, valid).0 == rest.0;
      }
    }
  }

  /** The kept forest lists, in pre-order and with depths, exactly the
      nodes that point into `valid` and whose ancestors all do, each at its
      original depth: survivors keep their nesting. */
  lemma {:induction false} FilterNodesKeptDepth(nodes: seq<Node>, valid: set<string>, d: nat)
    ensures PreOrderDepth(FilterNodes(nodes, valid).0, d)
         == Map(PairDepth, Filter(SurvivesFn(valid), Marked(nodes, valid, true, d)))
    decreases nodes
  {
    if |nodes| > 0 {
      var n := nodes[0];
      var ok := n.ref in valid;
      var rest := FilterNodes(nodes[1..], valid);
      FilterNodesKeptDepth(nodes[1..], valid, d);
      FilterNodesStep(nodes, valid);
      MarkedFilterStep(SurvivesFn(valid), nodes, valid, true, d);
      var head := [(n, true, d)];
      var keepK := Filter(SurvivesFn(valid), Marked(n.children, valid, ok, d + 1));
      var keepR := Filter(SurvivesFn(valid), Marked(nodes[1..], valid, true, d));
      if ok {
        var kids := FilterNodes(n.children, valid);
        FilterNodesKeptDepth(n.children, valid, d + 1);
        assert Filter(SurvivesFn(valid), head) == head;
        MapConcat(PairDepth, head + keepK, keepR);
        MapConcat(PairDepth, head, keepK);
        var n' := n.(children := kids.0);
        assert FilterNodes(nodes, valid).0 == [n'] + rest.0;
        assert ([n'] + rest.0)[1..] == rest.0;
        PreOrderDepthCons([n'] + rest.0, d);
      } else {
        BelowCutEmpty(n.children, valid, d + 1);
        assert Filter(SurvivesFn(valid), head) == [];
        assert FilterNodes(nodes, valid).0 == rest.0;
      }
    }
  }

  /** The kept forest is the only forest whose depth-annotated listing is
      that of the surviving nodes. */
  lemma FilterNodesKeptUnique(nodes: seq<Node>, valid: set<string>, kept: seq<Node>)
    requires PreOrderDepth(kept, 0) == Map(PairDepth, Filter(SurvivesFn(valid), Marked(nodes, valid, true, 0)))
    ensures kept == FilterNodes(nodes, valid).0
  {
    FilterNodesKeptDepth(nodes, valid, 0);
    PreOrderDepthDetermines(kept, FilterNodes(nodes, valid).0, 0);
  }

  /** The description of one removed node, `f"hierarchy:{identifier}"`. */
  function Labels(dropped: seq<Node>): (r: seq<string>)
    ensures |r| == |dropped|
    ensures forall i :: 0 <= i < |dropped| ==> r[i] == "hierarchy:" + dropped[i].id
  {
    seq(|dropped|, i requires 0 <= i < |dropped| => "hierarchy:" + dropped[i].id)
  }

  function FilterSpec(s: Specification, valid: set<string>): (r: Specification)
    ensures r.id == s.id
    ensures AllRefsIn(r.roots, valid)
    ensures AllRefsIn(s.roots, valid) ==> r == s
  {
    s.(roots := FilterNodes(s.roots, valid).0)
  }

  /** The hierarchy descriptions of all specifications, in order. */
  function HierarchyLog(specs: seq<Specification>, valid: set<string>): seq<string> {
    if |specs| == 0 then []
    else Labels(FilterNodes(specs[0].roots, valid).1) + HierarchyLog(specs[1..], valid)
  }

  /** The relation filter (main.py:266-274): both ends exist, and a non-empty
      relation type reference names an existing spec type. */
  predicate KeepRelation(objs: set<string>, types: set<string>, r: Relation) {
    && r.src in objs
    && r.tgt in objs
    && (r.typeRef.None? || r.typeRef.value == "" || r.typeRef.value in types)
  }

  function KeepFn(objs: set<string>, types: set<string>): Relation -> bool {
    r => KeepRelation(objs, types, r)
  }

  /** The targets of the relations leaving `s`, in relation order. */
  function TargetsOf(rels: seq<Relation>, s: string): seq<string> {
    if |rels| == 0 then []
    else TargetsOf(rels[..|rels| - 1], s) + (if rels[|rels| - 1].src == s then [rels[|rels| - 1].tgt] else [])
  }

  /** The lookup rebuild (main.py:282-288): a source maps to the targets of
      its relations, and only sources of some relation are keys. */
  function BuildLookup(rels: seq<Relation>): (m: map<string, seq<string>>)
    ensures forall s :: s in m <==> exists i :: 0 <= i < |rels| && rels[i].src == s
    ensures forall s :: s in m ==> m[s] == TargetsOf(rels, s)
    decreases |rels|
  {
    if |rels| == 0 then map[]
    else
      var init := rels[..|rels| - 1];
      var m := BuildLookup(init);
      var r := rels[|rels| - 1];
      var m' := m[r.src := (if r.src in m then m[r.src] else []) + [r.tgt]];
      LookupStep(rels, m, m');
      m'
  }

  /** Adding the last relation to the lookup of the others. */
  lemma {:induction false} LookupStep(rels: seq<Relation>, m: map<string, seq<string>>, m': map<string, seq<string>>)
    requires |rels| > 0
    requires var init := rels[..|rels| - 1];
      && (forall s :: s in m <==> exists i :: 0 <= i < |init| && init[i].src == s)
      && (forall s :: s in m ==> m[s] == TargetsOf(init, s))
    requires var r := rels[|rels| - 1];
      m' == m[r.src := (if r.src in m then m[r.src] else []) + [r.tgt]]
    ensures forall s :: s in m' <==> exists i :: 0 <= i < |rels| && rels[i].src == s
    ensures forall s :: s in m' ==> m'[s] == TargetsOf(rels, s)
  {
    var init := rels[..|rels| - 1];
    var r := rels[|rels| - 1];
    forall s
      ensures s in m' <==> exists i :: 0 <= i < |rels| && rels[i].src == s
    {
      if s in m' && s != r.src {
        var i :| 0 <= i < |init| && init[i].src == s;
        assert rels[i].src == s;
      }
      if exists i :: 0 <= i < |rels| && rels[i].src == s {
        var i :| 0 <= i < |rels| && rels[i].src == s;
        if i < |init| {
          assert init[i].src == s;
        }
      }
    }
    forall s | s in m'
      ensures m'[s] == TargetsOf(rels, s)
    {
      assert TargetsOf(rels, s) == TargetsOf(init, s) + (if r.src == s then [r.tgt] else []);
      if s !in m {
        assert forall i :: 0 <= i < |init| ==> init[i].src != s;
        NoSourceNoTargets(init, s);
      }
    }
  }

  lemma {:induction false} NoSourceNoTargets(rels: seq<Relation>, s: string)
    requires forall i :: 0 <= i < |rels| ==> rels[i].src != s
    ensures TargetsOf(rels, s) == []
    decreases |rels|
  {
    if |rels| > 0 {
      NoSourceNoTargets(rels[..|rels| - 1], s);
    }
  }

  /** The `relations:N` description, present when N > 0. */
  function RelationLog(before: nat, after: nat): seq<string> {
    if before > after then ["relations:" + NatToString(before - after)] else []
  }

  /** Every hierarchy node and every relation refers to something that
      exists: what the pass establishes. */
  predicate RefsClosed(c: Content) {
    && (forall i :: 0 <= i < |c.specifications| ==> AllRefsIn(c.specifications[i].roots, SpecObjectIds(c.specObjects)))
    && (forall i :: 0 <= i < |c.relations| ==> KeepRelation(SpecObjectIds(c.specObjects), SpecTypeIds(c.specTypes), c.relations[i]))
  }

  /** The pass. */
  function FixMissingSpecObjectRefs(b: Bundle): (r: PassResult)
    ensures r.bundle.content.Some? <==> b.content.Some?
    ensures b.content.None? ==> r == PassResult(b, [])
    ensures b.content.Some? ==>
      var c, c' := b.content.value, r.bundle.content.value;
      var valid := SpecObjectIds(c.specObjects);
      var types := SpecTypeIds(c.specTypes);
      && c'.specTypes == c.specTypes
      && c'.specObjects == c.specObjects
      && RefsClosed(c')
      && |c'.specifications| == |c.specifications|
      && (forall i :: 0 <= i < |c.specifications| ==>
            && c'.specifications[i].id == c.specifications[i].id
            && c'.specifications[i] == c.specifications[i].(roots := FilterNodes(c.specifications[i].roots, valid).0)
            && TreeSize(c'.specifications[i].roots) <= TreeSize(c.specifications[i].roots)
            && (AllRefsIn(c.specifications[i].roots, valid) ==> c'.specifications[i] == c.specifications[i]))
      && c'.relations == Filter(KeepFn(valid, types), c.relations)
      && (forall s :: s in r.bundle.lookup <==> exists i :: 0 <= i < |c'.relations| && c'.relations[i].src == s)
      && (forall s :: s in r.bundle.lookup ==> r.bundle.lookup[s] == TargetsOf(c'.relations, s))
      && r.log == HierarchyLog(c.specifications, valid) + RelationLog(|c.relations|, |c'.relations|)
  {
    if b.content.None? then PassResult(b, [])
    else
      var c := b.content.value;
      var valid := SpecObjectIds(c.specObjects);
      var types := SpecTypeIds(c.specTypes);
      var specs := seq(|c.specifications|, i requires 0 <= i < |c.specifications| => FilterSpec(c.specifications[i], valid));
      var rels := Filter(KeepFn(valid, types), c.relations);
      var c' := c.(specifications := specs, relations := rels);
      assert forall i :: 0 <= i < |specs| ==> specs[i] == FilterSpec(c.specifications[i], valid);
      assert forall i :: 0 <= i < |rels| ==> KeepFn(valid, types)(rels[i]);
      PassResult(Bundle(Some(c'), BuildLookup(rels)),
                 HierarchyLog(c.specifications, valid) + RelationLog(|c.relations|, |rels|))
  }

  lemma {:induction false} HierarchyLogClosed(specs: seq<Specification>, valid: set<string>)
    requires forall i :: 0 <= i < |specs| ==> AllRefsIn(specs[i].roots, valid)
    ensures HierarchyLog(specs, valid) == []
    decreases |specs|
  {
    if |specs| > 0 {
      HierarchyLogClosed(specs[1..], valid);
    }
  }

  /** On content whose references are all resolved the pass reports nothing
      and changes nothing but the rebuilt lookup. */
  lemma {:induction false} ClosedIsFixpoint(b: Bundle)
    requires b.content.Some? && RefsClosed(b.content.value)
    ensures var r := FixMissingSpecObjectRefs(b);
      r.log == [] && r.bundle.content == b.content
  {
    var c := b.content.value;
    var r := FixMissingSpecObjectRefs(b);
    var c' := r.bundle.content.value;
    var valid := SpecObjectIds(c.specObjects);
    var types := SpecTypeIds(c.specTypes);
    HierarchyLogClosed(c.specifications, valid);
    assert forall i :: 0 <= i < |c.relations| ==> KeepFn(valid, types)(c.relations[i]);
    FilterKeepsAll(KeepFn(valid, types), c.relations);
    assert c'.specifications == c.specifications;
    assert c' == c;
  }

  /** A second run changes nothing and reports nothing. */
  lemma {:induction false} FixRefsIdempotent(b: Bundle)
    ensures var r := FixMissingSpecObjectRefs(b);
      FixMissingSpecObjectRefs(r.bundle) == PassResult(r.bundle, [])
  {
    var r := FixMissingSpecObjectRefs(b);
    if b.content.Some? {
      var c' := r.bundle.content.value;
      ClosedIsFixpoint(r.bundle);
      var r2 := FixMissingSpecObjectRefs(r.bundle);
      assert r2.bundle.lookup == BuildLookup(c'.relations);
      assert r2.bundle.lookup == r.bundle.lookup;
    }
  }

  /** Every specification keeps its surviving nodes in their original
      pre-order. */
  lemma {:induction false} FixRefsKeepsOrder(b: Bundle)
    requires b.content.Some?
    ensures var c, c' := b.content.value, FixMissingSpecObjectRefs(b).bundle.content.value;
      forall i :: 0 <= i < |c.specifications| ==>
        IsSubseq(PreOrder(c'.specifications[i].roots), PreOrder(c.specifications[i].roots))
  {
    var c := b.content.value;
    var valid := SpecObjectIds(c.specObjects);
    forall i | 0 <= i < |c.specifications|
      ensures IsSubseq(PreOrder(FilterSpec(c.specifications[i], valid).roots), PreOrder(c.specifications[i].roots))
    {
      FilterNodesKeepsOrder(c.specifications[i].roots, valid);
    }
  }
}
