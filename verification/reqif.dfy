/** The ReqIF object graph the repair passes work on: spec types with their
    attribute definitions, spec objects with their attributes, the
    specification hierarchies, the spec relations and the bundle's reverse
    lookup from a relation source to its targets. Every entity is an
    immutable value; a repair pass returns a new bundle. */
module ReqIF {
  import opened Wrappers

  /** The reqif library's SpecObjectAttributeType. */
  datatype Kind = String | Boolean | Integer | Real | Date | Enumeration | Xhtml

  /** The enum member's `.name`, as printed in a repair description. */
  function KindName(k: Kind): string {
    match k
    case String => "STRING"
    case Boolean => "BOOLEAN"
    case Integer => "INTEGER"
    case Real => "REAL"
    case Date => "DATE"
    case Enumeration => "ENUMERATION"
    case Xhtml => "XHTML"
  }

  /** The kinds the downstream converter rejects (main.py:72-77). */
  predicate Unsupported(k: Kind) {
    k.Boolean? || k.Real? || k.Integer? || k.Date?
  }

  /** A Python attribute value: None, a string, a bool, an int, or any other
      object, represented by what `str()` makes of it. */
  datatype Value = Null | Str(s: string) | Bool(b: bool) | Int(i: int) | Other(shown: string)

  datatype AttrDef = AttrDef(id: string, longName: string, kind: Kind)

  /** `longName` None is a missing LONG-NAME. `defs` is empty when the type
      has no attribute definitions. */
  datatype SpecType = SpecType(id: string, longName: Option<string>, defs: seq<AttrDef>)

  datatype Attr = Attr(defRef: string, kind: Kind, value: Value)

  datatype SpecObject = SpecObject(id: string, attrs: seq<Attr>)

  /** A SPEC-HIERARCHY node; `ref` is the identifier of the spec object it
      points at. */
  datatype Node = Node(id: string, ref: string, children: seq<Node>)

  datatype Specification = Specification(id: string, roots: seq<Node>)

  /** `typeRef` None or Some("") is a relation without a type reference. */
  datatype Relation = Relation(src: string, tgt: string, typeRef: Option<string>)

  datatype Content = Content(
    specTypes: seq<SpecType>,
    specObjects: seq<SpecObject>,
    specifications: seq<Specification>,
    relations: seq<Relation>)

  /** `content` None stands for a bundle whose core content or REQ-IF
      content is missing. `lookup` is spec_relations_parent_lookup. */
  datatype Bundle = Bundle(content: Option<Content>, lookup: map<string, seq<string>>)

  /** What one repair pass hands back: the repaired bundle and the pass's
      list of descriptions, empty when the pass changed nothing it reports. */
  datatype PassResult = PassResult(bundle: Bundle, log: seq<string>)

  /** Number of nodes in a forest. */
  function TreeSize(nodes: seq<Node>): nat {
    if |nodes| == 0 then 0 else 1 + TreeSize(nodes[0].children) + TreeSize(nodes[1..])
  }

  /** The nodes of a forest in pre-order, each as its (identifier, reference)
      pair. */
  function PreOrder(nodes: seq<Node>): (r: seq<(string, string)>)
    ensures |r| == TreeSize(nodes)
  {
    if |nodes| == 0 then []
    else [(nodes[0].id, nodes[0].ref)] + PreOrder(nodes[0].children) + PreOrder(nodes[1..])
  }

  /** The pre-order listing with each node's depth, the roots at depth `d`.
      Unlike `PreOrder`, this listing determines the forest
      (`PreOrderDepthDetermines`). */
  function PreOrderDepth(nodes: seq<Node>, d: nat): (r: seq<(string, string, nat)>)
    ensures |r| == TreeSize(nodes)
    decreases nodes
  {
    if |nodes| == 0 then []
    else [(nodes[0].id, nodes[0].ref, d)] + PreOrderDepth(nodes[0].children, d + 1) + PreOrderDepth(nodes[1..], d)
  }

  /** The listing starts at depth `d` and never goes above it. */
  lemma {:induction false} PreOrderDepthFloor(nodes: seq<Node>, d: nat)
    ensures forall k :: 0 <= k < |PreOrderDepth(nodes, d)| ==> PreOrderDepth(nodes, d)[k].2 >= d
    ensures |nodes| > 0 ==> PreOrderDepth(nodes, d)[0].2 == d
    decreases nodes
  {
    if |nodes| > 0 {
      PreOrderDepthFloor(nodes[0].children, d + 1);
      PreOrderDepthFloor(nodes[1..], d);
      var h, a, b := [(nodes[0].id, nodes[0].ref, d)], PreOrderDepth(nodes[0].children, d + 1), PreOrderDepth(nodes[1..], d);
      assert PreOrderDepth(nodes, d) == h + a + b;
      forall k | 0 <= k < |h + a + b|
        ensures (h + a + b)[k].2 >= d
      {
        if 0 < k < 1 + |a| {
          assert (h + a + b)[k] == a[k - 1];
        } else if k >= 1 + |a| {
          assert (h + a + b)[k] == b[k - 1 - |a|];
        }
      }
    }
  }

  /** Where the listing of a node's children ends: the children are deeper
      than `d` and the next sibling, if any, sits at depth `d`. */
  lemma SplitAtDepth(a: seq<(string, string, nat)>, b: seq<(string, string, nat)>,
                     a': seq<(string, string, nat)>, b': seq<(string, string, nat)>, d: nat)
    requires a + b == a' + b'
    requires forall k :: 0 <= k < |a| ==> a[k].2 > d
    requires forall k :: 0 <= k < |a'| ==> a'[k].2 > d
    requires |b| > 0 ==> b[0].2 == d
    requires |b'| > 0 ==> b'[0].2 == d
    ensures a == a' && b == b'
  {
    var s := a + b;
    assert forall k :: 0 <= k < |a| ==> s[k].2 > d;
    assert forall k :: 0 <= k < |a'| ==> s[k] == a'[k];
    assert |b| > 0 ==> s[|a|].2 == d;
    assert |b'| > 0 ==> s[|a'|] == b'[0];
    assert |a| == |a'|;
    assert a == (a + b)[..|a|] && a' == (a' + b')[..|a'|];
    assert b == (a + b)[|a|..] && b' == (a' + b')[|a'|..];
  }

  lemma ConsInjective<T>(h: T, s: seq<T>, h': T, s': seq<T>)
    requires [h] + s == [h'] + s'
    ensures h == h' && s == s'
  {
    assert ([h] + s)[0] == h && ([h] + s)[1..] == s;
  }

  lemma PreOrderDepthCons(nodes: seq<Node>, d: nat)
    requires |nodes| > 0
    ensures PreOrderDepth(nodes, d)
      == [(nodes[0].id, nodes[0].ref, d)] + (PreOrderDepth(nodes[0].children, d + 1) + PreOrderDepth(nodes[1..], d))
  {
  }

  /** Equal listings of two non-empty forests agree on the first node and
      on the listings of its children and of its later siblings. */
  lemma PreOrderDepthHead(f: seq<Node>, g: seq<Node>, d: nat)
    requires |f| > 0 && |g| > 0
    requires PreOrderDepth(f, d) == PreOrderDepth(g, d)
    ensures f[0].id == g[0].id && f[0].ref == g[0].ref
    ensures PreOrderDepth(f[0].children, d + 1) == PreOrderDepth(g[0].children, d + 1)
    ensures PreOrderDepth(f[1..], d) == PreOrderDepth(g[1..], d)
  {
    var a, b := PreOrderDepth(f[0].children, d + 1), PreOrderDepth(f[1..], d);
    var a', b' := PreOrderDepth(g[0].children, d + 1), PreOrderDepth(g[1..], d);
    PreOrderDepthCons(f, d);
    PreOrderDepthCons(g, d);
    ConsInjective((f[0].id, f[0].ref, d), a + b, (g[0].id, g[0].ref, d), a' + b');
    PreOrderDepthFloor(f[0].children, d + 1);
    PreOrderDepthFloor(f[1..], d);
    PreOrderDepthFloor(g[0].children, d + 1);
    PreOrderDepthFloor(g[1..], d);
    SplitAtDepth(a, b, a', b', d);
  }

  /** Two forests with the same depth-annotated pre-order listing are equal. */
  lemma {:induction false} PreOrderDepthDetermines(f: seq<Node>, g: seq<Node>, d: nat)
    requires PreOrderDepth(f, d) == PreOrderDepth(g, d)
    ensures f == g
    decreases f
  {
    if |f| > 0 && |g| > 0 {
      PreOrderDepthHead(f, g, d);
      PreOrderDepthDetermines(f[0].children, g[0].children, d + 1);
      PreOrderDepthDetermines(f[1..], g[1..], d);
      assert f == [f[0]] + f[1..] && g == [g[0]] + g[1..];
    }
  }

  lemma {:induction false} TreeSizeConcat(a: seq<Node>, b: seq<Node>)
    ensures TreeSize(a + b) == TreeSize(a) + TreeSize(b)
    decreases |a|
  {
    if |a| > 0 {
      assert (a + b)[0] == a[0];
      assert (a + b)[1..] == a[1..] + b;
      TreeSizeConcat(a[1..], b);
    } else {
      assert a + b == b;
    }
  }

  lemma {:induction false} PreOrderConcat(a: seq<Node>, b: seq<Node>)
    ensures PreOrder(a + b) == PreOrder(a) + PreOrder(b)
    decreases |a|
  {
    if |a| > 0 {
      assert (a + b)[0] == a[0];
      assert (a + b)[1..] == a[1..] + b;
      PreOrderConcat(a[1..], b);
    } else {
      assert a + b == b;
    }
  }

  function TypeId(t: SpecType): string {
    t.id
  }

  function ObjectId(o: SpecObject): string {
    o.id
  }

  function SpecObjectIds(objs: seq<SpecObject>): set<string> {
    set i | 0 <= i < |objs| :: objs[i].id
  }

  function SpecTypeIds(types: seq<SpecType>): set<string> {
    set i | 0 <= i < |types| :: types[i].id
  }
}
