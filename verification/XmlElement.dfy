/** The element records the parser builds, and how a reader of the finished buffer sees them. */
module XmlElement {
  import opened Wrappers
  import opened XmlSyntax

  /** A name and a value, each the position of its first character in the buffer. */
  datatype Pair = Pair(name: nat, value: nat)

  /** `children` is the whole array the record points to, with its terminating element; [] is no array. */
  datatype Elem = Elem(tag: Option<nat>, text: Option<nat>, attributes: seq<Pair>, childCount: nat, children: seq<Elem>)

  const ZERO := Elem(None, None, [], 0, [])

  function StringAt(s: seq<char>, p: nat): string
    decreases |s| - p
  {
    if p >= |s| || s[p] == NUL then "" else [s[p]] + StringAt(s, p + 1)
  }

  function ReadPairs(s: seq<char>, pairs: seq<Pair>): seq<(string, string)> {
    if pairs == [] then [] else [(StringAt(s, pairs[0].name), StringAt(s, pairs[0].value))] + ReadPairs(s, pairs[1..])
  }

  function Read(s: seq<char>, e: Elem): Tree
    decreases e, 1
  {
    Tree(if e.tag.Some? then StringAt(s, e.tag.value) else "",
         ReadPairs(s, e.attributes),
         if e.text.Some? then Some(StringAt(s, e.text.value)) else None,
         ReadChildren(s, e.children))
  }

  /** A walk up to the element without a tag. */
  function ReadChildren(s: seq<char>, children: seq<Elem>): seq<Tree>
    decreases children, 0
  {
    if children == [] || children[0].tag.None? then [] else [Read(s, children[0])] + ReadChildren(s, children[1..])
  }

  function Terminated(kids: seq<Elem>): seq<Elem> {
    if kids == [] then [] else kids + [ZERO]
  }

  function PairsAt(attributes: seq<Attribute>, p: nat): seq<Pair> {
    if attributes == [] then [] else
      var a := attributes[0];
      [Pair(p, p + |a.name| + 2)] + PairsAt(attributes[1..], p + |AttributeText(a, false)|)
  }

  function StartPairs(n: Node, p: nat): seq<Pair> {
    if n.gap.Spaced? then PairsAt(n.attributes, p + |n.tag| + 1 + |n.gap.blanks|) else []
  }

  /** The record for the node whose text starts at p. */
  function ElemAt(n: Node, p: nat): Elem {
    var pairs := StartPairs(n, p);
    match n.body
    case Closed => Elem(Some(p), None, pairs, 0, [])
    case Open(lead, text, content) =>
      var t := p + |StartText(n, false)| + |lead|;
      var kids := KidsAt(content, t + |text| + 1);
      Elem(Some(p), Some(t), pairs, |kids|, Terminated(kids))
  }

  /** The position after the '<' that follows a comment or a child. */
  function After(c: Content, p: nat): nat
    requires !c.End?
  {
    p + |ItemText(c, false)|
  }

  function KidsAt(c: Content, p: nat): seq<Elem> {
    match c
    case End(_) => []
    case Comment(_, _, rest) => KidsAt(rest, After(c, p))
    case Child(node, _, rest) => [ElemAt(node, p)] + KidsAt(rest, After(c, p))
  }
}
