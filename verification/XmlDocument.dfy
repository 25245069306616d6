/** A whole document: the prolog is skipped, the root element parsed; and what becomes of an empty element whose slash
    follows its tag directly. */
module XmlDocument {
  import opened Wrappers
  import opened XmlSyntax
  import opened XmlElement
  import opened XmlReadback
  import opened XmlParser
  import opened XmlTree

  /** A declaration, instruction or comment before the root, with what stands before it. */
  datatype Prolog = Prolog(before: string, text: string)

  predicate WellFormedProlog(d: Prolog) {
    Lacks(d.before, '<') && d.text != "" && (d.text[0] == '?' || d.text[0] == '!') && Lacks(d.text, '>')
  }

  function DocumentText(prologs: seq<Prolog>, lead: string, n: Node): string {
    if prologs == [] then
      lead + "<" + NodeText(n, false)
    else
      prologs[0].before + "<" + prologs[0].text + ">" + DocumentText(prologs[1..], lead, n)
  }

  function RootStart(prologs: seq<Prolog>, lead: string): nat {
    if prologs == [] then |lead| + 1
    else |prologs[0].before| + |prologs[0].text| + 2 + RootStart(prologs[1..], lead)
  }

  predicate WellFormedDocument(prologs: seq<Prolog>, lead: string, n: Node) {
    && (forall i :: 0 <= i < |prologs| ==> WellFormedProlog(prologs[i]))
    && Lacks(lead, '<') && WellFormed(n) && n.tag[0] != '?'
  }

  /** The next '<' is at k, followed by the root. */
  lemma RootMarkup(s: seq<char>, p: nat, lead: string, n: Node, k: nat)
    requires Lacks(lead, '<') && WellFormed(n) && n.tag[0] != '?'
    requires At(s, p, lead + "<" + NodeText(n, false)) && k == p + |lead|
    ensures k + 1 < |s| && s[k] == '<' && forall i :: p <= i < k ==> s[i] != '<' && s[i] != NUL
    ensures s[k + 1] != '?' && s[k + 1] != '!' && At(s, k + 1, NodeText(n, false))
  {
    AtConcat(s, p, lead + "<", NodeText(n, false));
    AtConcat(s, p, lead, "<");
    AtOne(s, k, '<');
    StopsAt(s, p, lead, '<');
    AtConcat(s, k + 1, StartText(n, false), BodyText(n.body, false));
    StartParts(s, k + 1, n, false);
    AtMeans(s, k + 1, n.tag);
    assert s[k + 1 + 0] == n.tag[0];
  }

  /** The next '<' is at k, followed by a declaration, its '>' and `rest`. */
  lemma DeclarationMarkup(s: seq<char>, p: nat, d: Prolog, rest: string, k: nat, e: nat)
    requires WellFormedProlog(d) && At(s, p, d.before + "<" + d.text + ">" + rest)
    requires k == p + |d.before| && e == k + 1 + |d.text|
    ensures e < |s| && s[k] == '<' && forall i :: p <= i < k ==> s[i] != '<' && s[i] != NUL
    ensures (s[k + 1] == '?' || s[k + 1] == '!') && s[e] == '>' && forall i :: k < i < e ==> s[i] != '>'
    ensures At(s, e + 1, rest)
  {
    FiveParts(s, p, d.before, "<", d.text, ">", rest);
    AtOne(s, k, '<');
    AtOne(s, e, '>');
    StopsAt(s, p, d.before, '<');
    StopsAt(s, k + 1, d.text, '>');
    AtMeans(s, k + 1, d.text);
    assert s[k + 1 + 0] == d.text[0];
  }

  lemma NextMarkup(s: seq<char>, p: nat, prologs: seq<Prolog>, lead: string, n: Node, k: nat)
    requires WellFormedDocument(prologs, lead, n) && At(s, p, DocumentText(prologs, lead, n))
    requires k == p + (if prologs == [] then |lead| else |prologs[0].before|)
    ensures k + 1 < |s| && s[k] == '<' && forall i :: p <= i < k ==> s[i] != '<' && s[i] != NUL
    ensures if prologs == [] then s[k + 1] != '?' && s[k + 1] != '!' && At(s, k + 1, NodeText(n, false)) else
      var e := k + 1 + |prologs[0].text|;
      && (s[k + 1] == '?' || s[k + 1] == '!') && e < |s| && s[e] == '>'
      && (forall i :: k < i < e ==> s[i] != '>') && At(s, e + 1, DocumentText(prologs[1..], lead, n))
  {
    if prologs == [] {
      RootMarkup(s, p, lead, n, k);
    } else {
      DeclarationMarkup(s, p, prologs[0], DocumentText(prologs[1..], lead, n), k, k + 1 + |prologs[0].text|);
    }
  }

  /** The position after the next '>', or the end of the buffer. */
  method PastMarkup(buf: array<char>, p: nat, end: nat) returns (q: nat)
    requires p <= end == buf.Length
    ensures p <= q <= end
    ensures forall i :: p <= i < q - 1 ==> buf[i] != '>'
    ensures q == end || (p < q && buf[q - 1] == '>')
  {
    q := p;
    var found := false;
    while q < end && !found
      invariant p <= q <= end
      invariant forall i :: p <= i < q - 1 ==> buf[i] != '>'
      invariant if found then p < q && buf[q - 1] == '>' else p < q ==> buf[q - 1] != '>'
      decreases end - q
    {
      found := buf[q] == '>';
      q := q + 1;
    }
  }

  /** Before p only declarations have been passed; the next markup starts at k, and the root at `start`. */
  ghost predicate PrologInv(s: seq<char>, p: nat, rest: seq<Prolog>, lead: string, n: Node, base: nat, k: nat,
      start: nat)
  {
    && WellFormedDocument(rest, lead, n) && At(s, base, DocumentText(rest, lead, n))
    && base <= p <= k && k == base + (if rest == [] then |lead| else |rest[0].before|)
    && base + RootStart(rest, lead) == start
  }

  /** From the character after a '<': the root, or past one declaration. */
  method PassMarkup(buf: array<char>, p: nat, ghost rest: seq<Prolog>, ghost lead: string, ghost n: Node,
      ghost base: nat, ghost k: nat, ghost start: nat)
    returns (root: bool, q: nat)
    requires PrologInv(buf[..], k, rest, lead, n, base, k, start) && p == k + 1
    ensures root ==> q == start && At(buf[..], q, NodeText(n, false))
    ensures !root ==> rest != []
    ensures !root ==>
      var m := q + if rest[1..] == [] then |lead| else |rest[1..][0].before|;
      PrologInv(buf[..], q, rest[1..], lead, n, q, m, start)
  {
    NextMarkup(buf[..], base, rest, lead, n, k);
    q := p;
    root := buf[p] != '?' && buf[p] != '!';
    if !root {
      q := PastMarkup(buf, p, buf.Length);
    }
  }

  /** The characters up to the next markup. */
  lemma PrologChars(s: seq<char>, p: nat, rest: seq<Prolog>, lead: string, n: Node, base: nat, k: nat, start: nat)
    requires PrologInv(s, p, rest, lead, n, base, k, start)
    ensures p < |s| && s[p] != NUL && (s[p] == '<' <==> p == k)
    ensures p < k ==> PrologInv(s, p + 1, rest, lead, n, base, k, start)
  {
    NextMarkup(s, base, rest, lead, n, k);
  }

  /** The loop at ddi_xml.c:366. */
  method SkipProlog(buf: array<char>, ghost prologs: seq<Prolog>, ghost lead: string, ghost n: Node) returns (p: nat)
    requires WellFormedDocument(prologs, lead, n) && At(buf[..], 0, DocumentText(prologs, lead, n))
    ensures p == RootStart(prologs, lead) && At(buf[..], p, NodeText(n, false))
  {
    ghost var start := RootStart(prologs, lead);
    ghost var rest, base: nat := prologs, 0;
    ghost var k: nat := if rest == [] then |lead| else |rest[0].before|;
    p := 0;
    var root := false;
    PrologChars(buf[..], p, rest, lead, n, base, k, start);
    while p < buf.Length && buf[p] != NUL && !root
      invariant root ==> p == start && At(buf[..], p, NodeText(n, false))
      invariant !root ==> PrologInv(buf[..], p, rest, lead, n, base, k, start)
      invariant !root ==> p < buf.Length && buf[p] != NUL
      decreases !root, |rest|, k - p
    {
      PrologChars(buf[..], p, rest, lead, n, base, k, start);
      var c := buf[p];
      p := p + 1;
      if c == '<' {
        root, p := PassMarkup(buf, p, rest, lead, n, base, k, start);
        if !root {
          rest, base := rest[1..], p;
          k := p + if rest == [] then |lead| else |rest[0].before|;
        }
      }
      if !root {
        PrologChars(buf[..], p, rest, lead, n, base, k, start);
      }
    }
  }

  /** The parser undoes the printer: whatever tree of the subset the document holds, the records of the parsed document
      read back from the overwritten buffer as that tree, and nothing outside the root element has changed. */
  method ParseDocument(buf: array<char>, ghost prologs: seq<Prolog>, ghost lead: string, ghost n: Node)
    returns (root: Element)
    requires WellFormedDocument(prologs, lead, n) && At(buf[..], 0, DocumentText(prologs, lead, n))
    modifies buf
    ensures fresh(root) && Read(buf[..], root.Value()) == Meaning(n)
    ensures root.Value() == ElemAt(n, RootStart(prologs, lead))
    ensures var p := RootStart(prologs, lead); Same(old(buf[..]), buf[..], p, p + |NodeText(n, false)|)
  {
    root := new Element();
    var p := SkipProlog(buf, prologs, lead, n);
    var q := ParseNode(root, buf, p, n);
    ParsedReadsBack(buf[..], n, p);
  }

  /** A start tag with attributes, and a content of every kind of markup. */
  const START := "r a=\"1\"\t" + "_b='2>' >"
  const INSIDE := "!-- c --><" + ("k /><" + ("KK>y</K>\n<" + "/r>"))
  const EXAMPLE := "<?xml?>" + ("\n<" + (START + ("x<" + INSIDE)))

  const SMALL := Node("k", Spaced(""), [], Closed)
  const LARGE := Node("KK", Direct('>'), [], Open("", "y", End("K")))
  const NESTED := Comment(" c ", "", Child(SMALL, "", Child(LARGE, "\n", End("r"))))
  const ROOT := Node("r", Spaced(""), [Attribute("a", '"', "1", "\t"), Attribute("_b", '\'', "2>", " ")],
                     Open("", "x", NESTED))

  lemma StartIs()
    ensures StartText(ROOT, false) == START && WellFormedStart(ROOT)
  {
    assert AttributeText(ROOT.attributes[0], false) == "a=\"1\"\t";
    assert AttributesText(ROOT.attributes[1..], false) == "_b='2>' ";
  }

  lemma KidsAre()
    ensures NodeText(SMALL, false) == "k />" && NodeText(LARGE, false) == "KK>y</K>"
    ensures WellFormed(SMALL) && WellFormed(LARGE)
  {
    assert StartText(SMALL, false) == "k /";
    assert ContentText(End("K"), false) == "/K>";
    assert BodyText(LARGE.body, false) == "y</K>";
  }

  lemma ItemThen(c: Content, item: string, rest: string)
    requires !c.End? && ItemText(c, false) == item && ContentText(c.rest, false) == rest
    ensures ContentText(c, false) == item + rest
  {
  }

  lemma InsideIs()
    ensures ContentText(NESTED, false) == INSIDE && WellFormedContent(NESTED, "r")
  {
    KidsAre();
    assert ContentText(End("r"), false) == "/r>";
    assert ItemText(NESTED.rest.rest, false) == "KK>y</K>\n<";
    ItemThen(NESTED.rest.rest, "KK>y</K>\n<", "/r>");
    assert ItemText(NESTED.rest, false) == "k /><";
    ItemThen(NESTED.rest, "k /><", "KK>y</K>\n<" + "/r>");
    assert ItemText(NESTED, false) == "!-- c --><";
    ItemThen(NESTED, "!-- c --><", "k /><" + ("KK>y</K>\n<" + "/r>"));
  }

  const DECLARATION := Prolog("", "?xml?")

  lemma DocumentIs(n: Node, root: string)
    requires NodeText(n, false) == root
    ensures DocumentText([DECLARATION], "\n", n) == "<?xml?>" + ("\n<" + root)
  {
    assert [DECLARATION][1..] == [];
    assert "" + "<" + "?xml?" + ">" == "<?xml?>";
    assert "\n" + "<" == "\n<";
  }

  lemma ExampleIs()
    ensures DocumentText([DECLARATION], "\n", ROOT) == EXAMPLE
    ensures WellFormedDocument([DECLARATION], "\n", ROOT)
  {
    StartIs();
    InsideIs();
    RootIs(ROOT, START, INSIDE);
    assert "x" + "<" == "x<";
    DocumentIs(ROOT, START + ("x<" + INSIDE));
    DeclarationIs();
  }

  lemma DeclarationIs()
    ensures WellFormedProlog(DECLARATION) && Lacks("\n", '<')
  {
  }

  lemma RootIs(n: Node, start: string, inside: string)
    requires StartText(n, false) == start && n.body.Open? && n.body.lead == ""
    requires ContentText(n.body.content, false) == inside
    ensures NodeText(n, false) == start + (n.body.text + "<" + inside)
  {
    assert "" + n.body.text == n.body.text;
  }

  /** The example is in the subset; what the parser makes of it. */
  method ParseExample(buf: array<char>) returns (root: Element)
    requires buf[..] == EXAMPLE
    modifies buf
    ensures Read(buf[..], root.Value()) ==
      Tree("r", [("a", "1"), ("_b", "2>")], Some("x"), [Tree("k", [], None, []), Tree("KK", [], Some("y"), [])])
  {
    ExampleIs();
    AtMeans(buf[..], 0, buf[..]);
    ExampleMeans();
    root := ParseDocument(buf, [DECLARATION], "\n", ROOT);
  }

  lemma ExampleMeans()
    ensures Meaning(ROOT) ==
      Tree("r", [("a", "1"), ("_b", "2>")], Some("x"), [Tree("k", [], None, []), Tree("KK", [], Some("y"), [])])
  {
    assert Pairs(ROOT.attributes[1..]) == [("_b", "2>")];
    assert Children(NESTED.rest.rest) == [Meaning(LARGE)];
  }

  /** <t/> as the text of an open element. */
  lemma TightSlashOpens(tag: string, text: string, content: Content, n: Node)
    requires WellFormedTag(tag) && Lacks(text, '<') && WellFormedContent(content, tag)
    requires n == Node(tag, Direct('/'), [], Open("", ">" + text, content))
    ensures WellFormed(n) && Meaning(n) == Tree(tag, [], Some(">" + text), Children(content))
    ensures NodeText(n, false) == tag + "/>" + text + "<" + ContentText(content, false)
  {
    assert "" + (">" + text) + "<" == ">" + text + "<";
    assert tag + "/" + (">" + text + "<" + ContentText(content, false))
        == tag + "/>" + text + "<" + ContentText(content, false);
  }

  /** <t/> with no blank before the slash is not read as the empty element: the slash is overwritten before it is looked
      at (ddi_xml.c:226, 294). Whatever follows, the element is open, and its text begins with the '>'. */
  method ParseTightSlash(node: Element, buf: array<char>, p: nat, ghost tag: string, ghost text: string,
      ghost content: Content)
    returns (q: nat)
    requires WellFormedTag(tag) && Lacks(text, '<') && WellFormedContent(content, tag) && node.Value() == ZERO
    requires At(buf[..], p, tag + "/>" + text + "<" + ContentText(content, false))
    modifies node, buf
    ensures Read(buf[..], node.Value()) == Tree(tag, [], Some(">" + text), Children(content))
  {
    ghost var n := Node(tag, Direct('/'), [], Open("", ">" + text, content));
    TightSlashOpens(tag, text, content, n);
    q := ParseNode(node, buf, p, n);
    ParsedReadsBack(buf[..], n, p);
  }

  /** An element is read as empty, with no text and no children, if and only if a blank follows its tag and a slash ends
      its start tag. */
  method ParseEmptyIff(node: Element, buf: array<char>, p: nat, ghost n: Node) returns (q: nat)
    requires WellFormed(n) && At(buf[..], p, NodeText(n, false)) && node.Value() == ZERO
    modifies node, buf
    ensures var e, end := p + |n.tag|, p + |StartText(n, false)| - 1;
      && e <= end < buf.Length
      && (node.text == None <==> old(buf[e]) == ' ' && old(buf[end]) == '/')
      && (node.text == None ==> node.childCount == 0 && node.children == [])
  {
    AtConcat(buf[..], p, StartText(n, false), BodyText(n.body, false));
    StartChars(buf[..], p, n, p + |StartText(n, false)| - 1);
    q := ParseNode(node, buf, p, n);
  }

  lemma StartChars(s: seq<char>, p: nat, n: Node, end: nat)
    requires WellFormed(n) && At(s, p, StartText(n, false)) && end == p + |StartText(n, false)| - 1
    ensures p + |n.tag| <= end < |s|
    ensures n.body.Closed? <==> s[p + |n.tag|] == ' ' && s[end] == '/'
  {
    StartParts(s, p, n, false);
    AtOne(s, p + |n.tag|, TagEnd(n));
    if n.gap.Spaced? { AtOne(s, end, if n.body.Closed? then '/' else '>'); }
  }
}
