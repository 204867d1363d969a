/** The already-parsed markup tree the builder consumes (the output of the HTML parser). */
module Html {

  /** Node kinds of the parsed tree that are neither elements nor text, with the
      content their debug form shows. */
  datatype OtherKind =
    | Document
    | Fragment
    | Doctype(name: string, publicId: string, systemId: string)
    | Comment(comment: string)
    | ProcessingInstruction(target: string, data: string)

  /** A node of the parsed tree: an element with its tag name, its attributes in
      iteration order and its ordered children; a text node; or any other node. */
  datatype Node =
    | Element(name: string, attrs: seq<(string, string)>, children: seq<Node>)
    | Text(text: string)
    | Other(kind: OtherKind)

  /** The nodes of `nodes` that are not text nodes, in their original order. */
  function NonText(nodes: seq<Node>): (r: seq<Node>)
    ensures |r| <= |nodes|
    ensures forall i :: 0 <= i < |r| ==> r[i] in nodes && !r[i].Text?
  {
    if |nodes| == 0 then []
    else if nodes[0].Text? then NonText(nodes[1..])
    else [nodes[0]] + NonText(nodes[1..])
  }

  /** Every non-text node of `nodes` is kept by `NonText`. */
  lemma {:induction false} NonTextKeeps(nodes: seq<Node>, i: nat)
    requires i < |nodes| && !nodes[i].Text?
    ensures nodes[i] in NonText(nodes)
    decreases i
  {
    if i > 0 {
      NonTextKeeps(nodes[1..], i - 1);
      assert nodes[1..][i - 1] == nodes[i];
    }
  }

  /** A sequence of text nodes only has no non-text node. */
  lemma {:induction false} NonTextOfText(nodes: seq<Node>)
    requires forall i :: 0 <= i < |nodes| ==> nodes[i].Text?
    ensures NonText(nodes) == []
    decreases |nodes|
  {
    if |nodes| > 0 {
      NonTextOfText(nodes[1..]);
    }
  }

  /** `d` is `n` itself or lies somewhere in the subtree below `n`. */
  ghost predicate Descendant(n: Node, d: Node)
    decreases n
  {
    n == d || (n.Element? && exists i :: 0 <= i < |n.children| && Descendant(n.children[i], d))
  }
}
