/** The parsed document as the extractor sees it: a tree of elements (tag, attributes,
    children in document order) and leaf nodes of other kinds (text, comments). The
    HTML parser that builds it is not part of this model. */
module Dom {
  import opened Errors
  import opened Collections

  datatype Node =
    | Element(tag: string, attrs: map<string, string>, children: seq<Node>)
    | Text(text: string)
    | Comment(text: string)

  /** The children of a node; only elements have any. */
  function ChildrenOf(n: Node): seq<Node> {
    if n.Element? then n.children else []
  }

  /** The attributes of a node; only elements have any. */
  function AttrsOf(n: Node): map<string, string> {
    if n.Element? then n.attrs else map[]
  }

  predicate IsElement(n: Node, tag: string) {
    n.Element? && n.tag == tag
  }

  /** `el.attr(name)`. */
  function Attr(n: Node, name: string): Option<string> {
    if name in AttrsOf(n) then Some(AttrsOf(n)[name]) else None
  }

  /** The nodes `ns` and their descendants, in document order: each node is followed
      by its own descendants. */
  function DescendantsOf(ns: seq<Node>): seq<Node>
    decreases ns
  {
    if ns == [] then []
    else
      var last := ns[|ns| - 1];
      assert last in ns;
      DescendantsOf(ns[..|ns| - 1]) + [last] + (if last.Element? then DescendantsOf(last.children) else [])
  }

  /** A node and its descendants in document order, the order of `select`. */
  function SubtreeOf(n: Node): seq<Node> {
    [n] + DescendantsOf(ChildrenOf(n))
  }

  predicate IsTable(n: Node) {
    IsElement(n, "table")
  }

  /** `el.select("table").next().is_some()`: `select` on an element looks below it, not
      at the element itself. */
  predicate HasNestedTable(n: Node) {
    exists k :: 0 <= k < |DescendantsOf(ChildrenOf(n))| && IsTable(DescendantsOf(ChildrenOf(n))[k])
  }

  /** `document.select("table")`: every table element in document order. */
  function TableElements(doc: Node): (r: seq<Node>)
    ensures forall k :: 0 <= k < |r| ==> IsTable(r[k]) && r[k] in SubtreeOf(doc)
  {
    Filter(SubtreeOf(doc), IsTable)
  }
}
