/** The XML subset that ddi_xml.c accepts, as concrete syntax trees that keep every white-space choice, and the text
    such a tree stands for: the text as written, and the text the parser leaves behind after it has put a NUL at the
    end of every string it recorded. */
module XmlSyntax {
  import opened Wrappers

  datatype Attribute = Attribute(name: string, quote: char, value: string, gap: string)

  /** `content` is everything after the '<' that ends the element's text. */
  datatype Body = Closed | Open(lead: string, text: string, content: Content)

  /** The markup following a '<' up to the end of the enclosing element; `close` is the name in the closing tag. */
  datatype Content =
    | End(close: string)
    | Comment(note: string, gap: string, rest: Content)
    | Child(node: Node, gap: string, rest: Content)

  /** What follows a tag: at once the end of the start tag, or a blank, more white space and the attributes. */
  datatype Gap = Direct(end: char) | Spaced(blanks: string)

  datatype Node = Node(tag: string, gap: Gap, attributes: seq<Attribute>, body: Body)

  /** The meaning of a node: names, values, texts and order, without the layout and the comments. */
  datatype Tree = Tree(tag: string, attributes: seq<(string, string)>, text: Option<string>, children: seq<Tree>)

  const NUL: char := '\0'

  predicate IsSpace(c: char) {
    c == ' ' || c == '\t' || c == '\r' || c == '\n'
  }

  predicate IsNameStart(c: char) {
    'a' <= c <= 'z' || 'A' <= c <= 'Z' || c == ':' || c == '_'
  }

  predicate Blank(s: string) {
    forall i :: 0 <= i < |s| ==> IsSpace(s[i])
  }

  predicate Lacks(s: string, c: char) {
    forall i :: 0 <= i < |s| ==> s[i] != c && s[i] != NUL
  }

  predicate WellFormedAttribute(a: Attribute) {
    && a.name != "" && IsNameStart(a.name[0]) && Lacks(a.name, '=')
    && (a.quote == '"' || a.quote == '\'') && Lacks(a.value, a.quote)
    && Blank(a.gap)
  }

  predicate WellFormedTag(tag: string) {
    && tag != "" && tag[0] != '!'
    && Lacks(tag, ' ') && Lacks(tag, '>') && Lacks(tag, '/')
  }

  /** The comment rule of section 2.5 of XML 1.0: no "--" inside, and no '-' before the closing "-->". */
  predicate WellFormedNote(note: string) {
    && Lacks(note, NUL)
    && (forall i :: 0 < i < |note| ==> note[i - 1] != '-' || note[i] != '-')
    && (note != "" ==> note[|note| - 1] != '-')
  }

  predicate WellFormedStart(n: Node) {
    && WellFormedTag(n.tag)
    && (n.gap.Direct? ==> TagEnd(n) in ['>', '/'] && n.attributes == [])
    && (n.gap.Spaced? ==> Blank(n.gap.blanks))
    && (forall i :: 0 <= i < |n.attributes| ==> WellFormedAttribute(n.attributes[i]))
  }

  /** A slash directly after the tag opens the element, as '>' does: see XmlDocument.ParseTightSlash. */
  predicate WellFormed(n: Node) {
    && WellFormedStart(n)
    && (n.gap.Direct? ==> n.body.Open?)
    && (n.body.Open? ==>
          && Blank(n.body.lead)
          && Lacks(n.body.text, '<') && (n.body.text != "" ==> !IsSpace(n.body.text[0]))
          && WellFormedContent(n.body.content, n.tag))
  }

  /** A closing tag need only be a prefix of the tag it closes: that is how far the parser compares it. */
  predicate WellFormedContent(c: Content, tag: string) {
    match c
    case End(close) => close <= tag
    case Comment(note, gap, rest) => WellFormedNote(note) && Blank(gap) && WellFormedContent(rest, tag)
    case Child(node, gap, rest) => WellFormed(node) && Blank(gap) && WellFormedContent(rest, tag)
  }

  /** The character that ends the tag. */
  function TagEnd(n: Node): char {
    if n.gap.Direct? then n.gap.end else ' '
  }

  /** A character the parser overwrites. */
  function Mark(c: char, parsed: bool): string {
    if parsed then [NUL] else [c]
  }

  function AttributeText(a: Attribute, parsed: bool): string {
    a.name + Mark('=', parsed) + [a.quote] + a.value + Mark(a.quote, parsed) + a.gap
  }

  function AttributesText(attributes: seq<Attribute>, parsed: bool): string {
    if attributes == [] then "" else AttributeText(attributes[0], parsed) + AttributesText(attributes[1..], parsed)
  }

  /** The start tag, up to and including the '>' of an open element or the '/' of a closed one. */
  function StartText(n: Node, parsed: bool): string {
    match n.gap
    case Direct(end) => n.tag + Mark(end, parsed)
    case Spaced(gap) =>
      n.tag + Mark(' ', parsed) + gap + AttributesText(n.attributes, parsed) + (if n.body.Closed? then "/" else ">")
  }

  /** A node from one past its '<' to its last '>'. */
  function NodeText(n: Node, parsed: bool): string {
    StartText(n, parsed) + BodyText(n.body, parsed)
  }

  function BodyText(b: Body, parsed: bool): string {
    match b
    case Closed => ">"
    case Open(lead, text, content) => lead + text + Mark('<', parsed) + ContentText(content, parsed)
  }

  /** A comment or a child, up to the '<' of what comes next. */
  function ItemText(c: Content, parsed: bool): string
    requires !c.End?
    decreases c, 0
  {
    (if c.Comment? then "!--" + c.note + "-->" else NodeText(c.node, parsed)) + c.gap + "<"
  }

  function ContentText(c: Content, parsed: bool): string
    decreases c, 1
  {
    if c.End? then "/" + c.close + ">" else ItemText(c, parsed) + ContentText(c.rest, parsed)
  }

  function Pairs(attributes: seq<Attribute>): seq<(string, string)> {
    if attributes == [] then [] else [(attributes[0].name, attributes[0].value)] + Pairs(attributes[1..])
  }

  function Meaning(n: Node): Tree {
    match n.body
    case Closed => Tree(n.tag, Pairs(n.attributes), None, [])
    case Open(_, text, content) => Tree(n.tag, Pairs(n.attributes), Some(text), Children(content))
  }

  function Children(c: Content): seq<Tree> {
    match c
    case End(_) => []
    case Comment(_, _, rest) => Children(rest)
    case Child(node, _, rest) => [Meaning(node)] + Children(rest)
  }

  /** Parsing in place keeps every position. */
  lemma {:induction false} AttributesLength(attributes: seq<Attribute>)
    ensures |AttributesText(attributes, true)| == |AttributesText(attributes, false)|
  {
    if attributes != [] { AttributesLength(attributes[1..]); }
  }

  lemma {:induction false} NodeLength(n: Node)
    ensures |StartText(n, true)| == |StartText(n, false)|
    ensures |NodeText(n, true)| == |NodeText(n, false)|
  {
    AttributesLength(n.attributes);
    if n.body.Open? { ContentLength(n.body.content); }
  }

  lemma {:induction false} ContentLength(c: Content)
    ensures |ContentText(c, true)| == |ContentText(c, false)|
    ensures !c.End? ==> |ItemText(c, true)| == |ItemText(c, false)|
  {
    if !c.End? {
      if c.Child? { NodeLength(c.node); }
      ContentLength(c.rest);
    }
  }
}
