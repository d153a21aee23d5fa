/**
 * The live DOM tree of one render, as the history processor sees it.
 *
 * The source keeps a `parent` back-pointer on every node; here a tree is an
 * immutable value and an element's place in it is carried alongside it as the
 * tag names of its ancestors, root first (`Located`).
 */
module DomViews {
  import opened Base

  /** An element or a text node. `highlight` is present only on interactable elements. */
  datatype Node =
    | Element(tag: string, xpath: string, attrs: seq<(string, string)>,
              highlight: Option<nat>, shadowRoot: bool, children: seq<Node>)
    | Text(text: string)

  /**
   * A node together with the tag names of its ancestors from the root down to
   * its parent; `ancestors == []` means the node is the root (`parent is None`).
   */
  datatype Located = Located(ancestors: seq<string>, node: Node)

  /**
   * The element nodes of the subtree rooted at `n`, in document (pre-order,
   * depth-first) order, each with its ancestors; text nodes contribute nothing.
   */
  function PreOrder(ancestors: seq<string>, n: Node): (r: seq<Located>)
    ensures n.Text? ==> r == []
    ensures n.Element? ==> |r| > 0 && r[0] == Located(ancestors, n)
    ensures forall k :: 0 <= k < |r| ==> r[k].node.Element?
    decreases n
  {
    match n
    case Text(_) => []
    case Element(_, _, _, _, _, children) =>
      [Located(ancestors, n)] + PreOrderChildren(ancestors + [n.tag], children)
  }

  /** The pre-order element sequences of `children`, one after the other. */
  function PreOrderChildren(ancestors: seq<string>, children: seq<Node>): (r: seq<Located>)
    ensures forall k :: 0 <= k < |r| ==> r[k].node.Element?
    decreases children
  {
    if |children| == 0 then []
    else PreOrder(ancestors, children[0]) + PreOrderChildren(ancestors, children[1..])
  }

  /** An element with no children is its own whole pre-order sequence. */
  lemma PreOrderLeaf(ancestors: seq<string>, n: Node)
    requires n.Element? && n.children == []
    ensures PreOrder(ancestors, n) == [Located(ancestors, n)]
  {
  }

  /** The pre-order sequence of an element with children: itself, then each child's in turn. */
  lemma {:induction false} PreOrderCons(ancestors: seq<string>, n: Node, c: Node, rest: seq<Node>)
    requires n.Element? && n.children == [c] + rest
    ensures PreOrder(ancestors, n)
            == [Located(ancestors, n)] + PreOrder(ancestors + [n.tag], c)
               + PreOrderChildren(ancestors + [n.tag], rest)
  {
    assert n.children[1..] == rest;
  }
}
