/**
 * The parsed document tree the converter navigates (the part of roxmltree's
 * `Node` API it uses). Parsing the XML text itself is outside the model: a
 * document is given as its tree.
 */
module Xml {
  import opened Wrappers

  /** An element with its attributes in document order, or a run of character data. */
  datatype Node =
    | Element(tag: string, attributes: seq<(string, string)>, children: seq<Node>)
    | Text(content: string)

  /** `Node::children`: a text node has none. */
  function Children(n: Node): seq<Node>
  {
    if n.Element? then n.children else []
  }

  /** `Node::has_tag_name`: an element with this local name. */
  predicate HasTagName(n: Node, tag: string)
  {
    n.Element? && n.tag == tag
  }

  /** The value of the first attribute called `name`. */
  function AttributeIn(attributes: seq<(string, string)>, name: string): (r: Option<string>)
    ensures r.Some? ==> (name, r.value) in attributes
    ensures r.None? ==> forall i :: 0 <= i < |attributes| ==> attributes[i].0 != name
  {
    if |attributes| == 0 then None
    else if attributes[0].0 == name then Some(attributes[0].1)
    else AttributeIn(attributes[1..], name)
  }

  /** `Node::attribute`: a text node has no attributes. */
  function Attribute(n: Node, name: string): Option<string>
  {
    if n.Element? then AttributeIn(n.attributes, name) else None
  }

  /**
   * `Node::text`: a text node's own text, or an element's first child when that
   * child is a text node. An element whose content is empty has no text child,
   * so its text is absent.
   */
  function TextOf(n: Node): Option<string>
  {
    match n
    case Text(s) => Some(s)
    case Element(_, _, cs) => if |cs| > 0 && cs[0].Text? then Some(cs[0].content) else None
  }

  /** `Node::descendants`: the node itself, then its subtrees, in document order. */
  function Descendants(n: Node): (r: seq<Node>)
    decreases n
    ensures |r| > 0 && r[0] == n
  {
    [n] + if n.Element? then DescendantsOfAll(n.children) else []
  }

  /** The descendants of each node of `ns` in turn. */
  function DescendantsOfAll(ns: seq<Node>): seq<Node>
    decreases ns
  {
    if |ns| == 0 then [] else Descendants(ns[0]) + DescendantsOfAll(ns[1..])
  }
}
