/** A serialized document node: the dictionary with `_TOC`, `_NODE_TYPE`,
    the grammar's field entries and, for a composite node, `NODES`:
    `hasNodes` says whether the `NODES` entry exists and `nodes` holds its
    list. */
module JsonTree {
  import opened Dicts

  datatype JNode = JNode(toc: string, nodeType: string, fields: Dict<string>, hasNodes: bool, nodes: seq<JNode>)

  /** The children of a node, `node.get("NODES", [])`. */
  function Children(n: JNode): seq<JNode> {
    if n.hasNodes then n.nodes else []
  }

  /** `count_nodes` (main.py:505-511): the nodes of the list, plus, for each
      node that has a `NODES` entry, the count of that list. */
  function CountNodes(nodes: seq<JNode>): nat
    decreases nodes
  {
    if |nodes| == 0 then 0
    else
      1 + (if nodes[0].hasNodes then CountNodes(nodes[0].nodes) else 0) + CountNodes(nodes[1..])
  }

  /** Every node of the forest, each before its children, siblings in
      order. */
  function PreOrder(nodes: seq<JNode>): seq<JNode>
    decreases nodes
  {
    if |nodes| == 0 then []
    else [nodes[0]] + (if nodes[0].hasNodes then PreOrder(nodes[0].nodes) else []) + PreOrder(nodes[1..])
  }

  /** `count_nodes` counts exactly the nodes a depth-first walk visits. */
  lemma {:induction false} CountNodesIsPreOrderLength(nodes: seq<JNode>)
    ensures CountNodes(nodes) == |PreOrder(nodes)|
    decreases nodes
  {
    if |nodes| > 0 {
      if nodes[0].hasNodes {
        CountNodesIsPreOrderLength(nodes[0].nodes);
      }
      CountNodesIsPreOrderLength(nodes[1..]);
    }
  }

  /** Counting two lists of siblings one after the other adds their
      counts. */
  lemma {:induction false} CountNodesConcat(a: seq<JNode>, b: seq<JNode>)
    ensures CountNodes(a + b) == CountNodes(a) + CountNodes(b)
    decreases |a|
  {
    if |a| > 0 {
      assert (a + b)[0] == a[0];
      assert (a + b)[1..] == a[1..] + b;
      CountNodesConcat(a[1..], b);
    } else {
      assert a + b == b;
    }
  }
}
