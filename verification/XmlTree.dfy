/** The recursive descent of ddi_xml.c: parsing a printed tree in place builds
    its records and reads back as the tree. */
module XmlTree {
  import opened Wrappers
  import opened XmlSyntax
  import opened XmlElement
  import opened XmlReadback
  import opened XmlParser

  /** The children found so far, and what the record says about them. */
  ghost predicate HasKids(node: Element, kids: seq<Elem>)
    reads node
  {
    node.childCount == |kids| && node.children == Terminated(kids)
  }

  lemma ContentStarts(s: seq<char>, p: nat, c: Content, tag: string)
    requires WellFormedContent(c, tag) && At(s, p, ContentText(c, false))
    ensures p < |s| && (s[p] == '/' <==> c.End?) && (s[p] == '!' <==> c.Comment?)
  {
    if c.End? {
      AtConcat(s, p, "/" + c.close, ">");
      AtConcat(s, p, "/", c.close);
      AtOne(s, p, '/');
    } else {
      AtConcat(s, p, ItemText(c, false), ContentText(c.rest, false));
      ItemParts(s, p, c, false);
      if c.Comment? {
        AtMeans(s, p, "!--");
        assert "!--"[0] == '!' == s[p + 0];
      } else {
        AtConcat(s, p, StartText(c.node, false), BodyText(c.node.body, false));
        StartParts(s, p, c.node, false);
        AtMeans(s, p, c.node.tag);
        assert s[p + 0] == c.node.tag[0];
      }
    }
  }

  lemma ChildParsed(s: seq<char>, t: seq<char>, p: nat, c: Content, e: nat, r: nat)
    requires c.Child? && Blank(c.gap) && At(s, p, ItemText(c, false))
    requires e == p + |NodeText(c.node, false)| && At(t, p, NodeText(c.node, true)) && Same(s, t, p, e)
    requires r == After(c, p)
    ensures At(t, p, ItemText(c, true)) && e < r <= |t| && t[r - 1] == '<'
    ensures forall i :: e <= i < r - 1 ==> IsSpace(t[i])
  {
    ItemParts(s, p, c, false);
    NodeLength(c.node);
    AtKept(s, t, p, e, e, c.gap);
    AtKept(s, t, p, e, e + |c.gap|, "<");
    AtOne(t, e + |c.gap|, '<');
    SpacesAt(t, e, c.gap);
    ItemParts(t, p, c, true);
  }

  lemma {:induction false} LastChar(n: Node, parsed: bool)
    ensures var text := NodeText(n, parsed); text != "" && text[|text| - 1] == '>'
  {
    if n.body.Open? { LastOfContent(n.body.content, parsed); }
  }

  lemma {:induction false} LastOfContent(c: Content, parsed: bool)
    ensures var text := ContentText(c, parsed); text != "" && text[|text| - 1] == '>'
  {
    if !c.End? { LastOfContent(c.rest, parsed); }
  }

  lemma NodeEnds(s: seq<char>, p: nat, n: Node, q: nat)
    requires At(s, p, NodeText(n, true)) && q == p + |NodeText(n, false)| - 1
    ensures q < |s| && s[q] == '>'
  {
    var text := NodeText(n, true);
    NodeLength(n);
    LastChar(n, true);
    AtMeans(s, p, text);
    assert s[p + (|text| - 1)] == text[|text| - 1];
  }

  lemma SlotFilled(children: seq<Elem>, kids: seq<Elem>, e: Elem)
    requires children == kids + [ZERO, ZERO]
    ensures children[|kids| := e] == Terminated(kids + [e])
  {
  }

  /** One comment or child of the loop at ddi_xml.c:307; ch is the character before the new position. */
  method ParseItem(node: Element, buf: array<char>, p: nat, ghost c: Content, ghost tag: string, ghost kids: seq<Elem>)
    returns (ch: char, q: nat)
    requires !c.End? && WellFormedContent(c, tag) && At(buf[..], p, ContentText(c, false)) && HasKids(node, kids)
    modifies node`childCount, node`children, buf
    ensures q == After(c, p) && ch == '<'
    ensures At(buf[..], p, ItemText(c, true)) && Same(old(buf[..]), buf[..], p, q)
    ensures HasKids(node, kids + if c.Child? then [ElemAt(c.node, p)] else [])
    decreases c, 0
  {
    ghost var s := buf[..];
    ContentStarts(s, p, c, tag);
    AtConcat(s, p, ItemText(c, false), ContentText(c.rest, false));
    if buf[p] == '!' {
      q := SkipComment(buf, p, c);
      ch := buf[q];
      q := q + 1;
      SameItself(s, p, q);
    } else {
      node.EnsureCapacity(node.childCount + 1);
      node.childCount := node.childCount + 1;
      ch, q := ParseChild(node, buf, p, c, kids);
    }
  }

  method ParseChild(node: Element, buf: array<char>, p: nat, ghost c: Content, ghost kids: seq<Elem>)
    returns (ch: char, q: nat)
    requires c.Child? && WellFormed(c.node) && Blank(c.gap) && At(buf[..], p, ItemText(c, false))
    requires node.childCount == |kids| + 1 && node.children == kids + [ZERO, ZERO]
    modifies node`children, buf
    ensures q == After(c, p) && ch == '<'
    ensures At(buf[..], p, ItemText(c, true)) && Same(old(buf[..]), buf[..], p, q)
    ensures HasKids(node, kids + [ElemAt(c.node, p)])
    decreases c.node, 3
  {
    ghost var s := buf[..];
    ItemParts(s, p, c, false);
    var child := new Element();
    SlotFilled(node.children, kids, ElemAt(c.node, p));
    q := ParseNode(child, buf, p, c.node);
    node.children := node.children[node.childCount - 1 := child.Value()];
    ghost var r := After(c, p);
    ChildParsed(s, buf[..], p, c, q + 1, r);
    SameGrow(s, buf[..], p, q + 1, p, r);
    assert buf[r - 1] == '<';
    ch := buf[q];
    q := q + 1;
    if ch == '>' {
      q := SkipSpaces(buf, q);
      ch := buf[q];
      q := q + 1;
    }
  }

  /** What the loop over content has done and has left to do. */
  ghost predicate ContentInv(s: seq<char>, t: seq<char>, p: nat, q: nat, done: string, rest: Content, content: Content,
      tag: string, kids: seq<Elem>)
  {
    && q == p + |done| && At(t, p, done) && Same(s, t, p, q)
    && At(t, q, ContentText(rest, false)) && WellFormedContent(rest, tag)
    && done + ContentText(rest, true) == ContentText(content, true)
    && kids + KidsAt(rest, q) == KidsAt(content, p)
  }

  lemma ContentTurn(s: seq<char>, t: seq<char>, u: seq<char>, p: nat, q: nat, done: string, rest: Content,
      content: Content, tag: string, kids: seq<Elem>)
    requires ContentInv(s, t, p, q, done, rest, content, tag, kids) && !rest.End?
    requires At(u, q, ItemText(rest, true)) && Same(t, u, q, After(rest, q))
    ensures ContentInv(s, u, p, After(rest, q), done + ItemText(rest, true), rest.rest, content, tag,
                       kids + if rest.Child? then [ElemAt(rest.node, q)] else [])
  {
    var r := After(rest, q);
    ContentLength(rest);
    AtConcat(t, q, ItemText(rest, false), ContentText(rest.rest, false));
    SameTwice(s, t, u, p, q, q, r, p, r);
    AtKept(t, u, q, r, p, done);
    AtConcat(u, p, done, ItemText(rest, true));
    AtKept(t, u, q, r, r, ContentText(rest.rest, false));
    Assoc(done, ItemText(rest, true), ContentText(rest.rest, true));
    Assoc(kids, if rest.Child? then [ElemAt(rest.node, q)] else [], KidsAt(rest.rest, r));
  }

  lemma ContentEnds(s: seq<char>, t: seq<char>, p: nat, q: nat, done: string, rest: Content, content: Content,
      tag: string, kids: seq<Elem>)
    requires ContentInv(s, t, p, q, done, rest, content, tag, kids) && rest.End?
    ensures At(t, p, ContentText(content, true)) && kids == KidsAt(content, p)
    ensures q + |rest.close| + 2 == p + |ContentText(content, false)|
    ensures At(t, q + 1, rest.close + ">") && rest.close <= tag
  {
    AtConcat(t, p, done, ContentText(rest, true));
    ContentLength(content);
    assert "/" + rest.close + ">" == "/" + (rest.close + ">");
    AtConcat(t, q, "/", rest.close + ">");
  }

  /** The open tag, ended before the content. */
  ghost predicate TagBefore(node: Element, t: seq<char>, p: nat, tag: string)
    reads node
  {
    && node.tag.Some? && node.tag.value + |tag| + 1 <= p && At(t, node.tag.value, tag + [NUL])
    && Lacks(tag, '>')
  }

  method ItemTurn(node: Element, buf: array<char>, p: nat, q: nat, ghost s: seq<char>, ghost done: string,
      ghost rest: Content, ghost content: Content, ghost tag: string, ghost kids: seq<Elem>)
    returns (ch: char, r: nat, ghost more: seq<Elem>)
    requires ContentInv(s, buf[..], p, q, done, rest, content, tag, kids) && !rest.End?
    requires TagBefore(node, buf[..], p, tag) && HasKids(node, kids)
    modifies node`childCount, node`children, buf
    ensures ch == '<' && ContentInv(s, buf[..], p, r, done + ItemText(rest, true), rest.rest, content, tag, more)
    ensures TagBefore(node, buf[..], p, tag) && HasKids(node, more)
    decreases rest, 1
  {
    ghost var t := buf[..];
    ch, r := ParseItem(node, buf, q, rest, tag, kids);
    more := kids + if rest.Child? then [ElemAt(rest.node, q)] else [];
    ContentTurn(s, t, buf[..], p, q, done, rest, content, tag, kids);
    AtKept(t, buf[..], q, r, node.tag.value, tag + [NUL]);
  }

  /** The closing tag of well-formed content. */
  method CloseTurn(node: Element, buf: array<char>, p: nat, q: nat, ghost s: seq<char>, ghost done: string,
      ghost rest: Content, ghost content: Content, ghost tag: string, ghost kids: seq<Elem>)
    returns (closed: bool, r: nat)
    requires ContentInv(s, buf[..], p, q, done, rest, content, tag, kids) && rest.End?
    requires TagBefore(node, buf[..], p, tag)
    modifies buf
    ensures closed && r == p + |ContentText(content, false)| - 1 && kids == KidsAt(content, p)
    ensures At(buf[..], p, ContentText(content, true)) && Same(s, buf[..], p, r + 1)
  {
    ContentEnds(s, buf[..], p, q, done, rest, content, tag, kids);
    assert Lacks(rest.close, '>') by { forall i | 0 <= i < |rest.close| ensures rest.close[i] == tag[i] {} }
    SameGrow(s, buf[..], p, q, p, q + |rest.close| + 2);
    closed, r := CloseTag(node, buf, q + 1, tag, rest.close);
  }

  /** The loop at ddi_xml.c:307. */
  method ParseContent(node: Element, buf: array<char>, p: nat, ghost content: Content, ghost tag: string)
    returns (q: nat)
    requires WellFormedContent(content, tag) && At(buf[..], p, ContentText(content, false))
    requires TagBefore(node, buf[..], p, tag) && HasKids(node, [])
    modifies node`childCount, node`children, buf
    ensures q == p + |ContentText(content, false)| - 1
    ensures At(buf[..], p, ContentText(content, true)) && Same(old(buf[..]), buf[..], p, q + 1)
    ensures HasKids(node, KidsAt(content, p))
    decreases content, 2
  {
    ghost var s, done, rest, kids: seq<Elem> := buf[..], "", content, [];
    AtMeans(s, p, "");
    SameItself(s, p, p);
    var c := '<';
    var closed := false;
    q := p;
    while !closed && c == '<'
      invariant c == '<' && (rest == content || rest < content) && HasKids(node, kids)
      invariant !closed ==>
        ContentInv(s, buf[..], p, q, done, rest, content, tag, kids) && TagBefore(node, buf[..], p, tag)
      invariant closed ==>
        && q == p + |ContentText(content, false)| - 1 && At(buf[..], p, ContentText(content, true))
        && Same(s, buf[..], p, q + 1) && kids == KidsAt(content, p)
      decreases !closed, rest
    {
      ContentStarts(buf[..], q, rest, tag);
      if buf[q] == '/' {
        closed, q := CloseTurn(node, buf, p, q, s, done, rest, content, tag, kids);
      } else {
        c, q, kids := ItemTurn(node, buf, p, q, s, done, rest, content, tag, kids);
        done, rest := done + ItemText(rest, true), rest.rest;
      }
    }
  }

  lemma NodeParsed(t: seq<char>, u: seq<char>, p: nat, n: Node, hi: nat)
    requires At(t, p, StartText(n, true)) && Same(t, u, p + |StartText(n, false)|, hi)
    requires At(u, p + |StartText(n, false)|, BodyText(n.body, true))
    ensures At(u, p, NodeText(n, true))
  {
    NodeLength(n);
    AtKept(t, u, p + |StartText(n, false)|, hi, p, StartText(n, true));
    AtConcat(u, p, StartText(n, true), BodyText(n.body, true));
  }

  lemma TextChars(s: seq<char>, p: nat, b: Body)
    requires b.Open? && Blank(b.lead) && Lacks(b.text, '<') && (b.text != "" ==> !IsSpace(b.text[0]))
    requires At(s, p, BodyText(b, false))
    ensures var t := p + |b.lead|; var e := t + |b.text|;
      && e < |s| && s[e] == '<' && !IsSpace(s[t])
      && (forall i :: p <= i < t ==> IsSpace(s[i])) && (forall i :: t <= i < e ==> s[i] != '<' && s[i] != NUL)
  {
    var t := p + |b.lead|;
    OpenParts(s, p, b, false);
    AtOne(s, t + |b.text|, '<');
    SpacesAt(s, p, b.lead);
    StopsAt(s, t, b.text, '<');
    if b.text != "" {
      AtMeans(s, t, b.text);
      assert s[t + 0] == b.text[0];
    }
  }

  method ScanText(buf: array<char>, p: nat, ghost b: Body) returns (t: nat, e: nat)
    requires b.Open? && Blank(b.lead) && Lacks(b.text, '<') && (b.text != "" ==> !IsSpace(b.text[0]))
    requires At(buf[..], p, BodyText(b, false))
    ensures t == p + |b.lead| && e == t + |b.text| < buf.Length
  {
    ghost var start := p + |b.lead|;
    ghost var end := start + |b.text|;
    TextChars(buf[..], p, b);
    assert !IsSpace(buf[start]) && buf[end] == '<';
    t := SkipSpaces(buf, p);
    e := ScanTo(buf, t, '<');
  }

  lemma TextEnded(s: seq<char>, t: seq<char>, p: nat, b: Body, k: nat)
    requires b.Open? && At(s, p, BodyText(b, false)) && k == p + |b.lead| + |b.text| + 1
    requires k <= |s| && t == s[k - 1 := NUL]
    ensures At(t, p, b.lead + b.text + [NUL]) && At(t, k, ContentText(b.content, false))
  {
    var e := k - 1;
    OpenParts(s, p, b, false);
    SameOne(s, t, e);
    AtKept(s, t, e, e + 1, p, b.lead);
    AtKept(s, t, e, e + 1, p + |b.lead|, b.text);
    AtOne(t, e, NUL);
    AtConcat(t, p, b.lead, b.text);
    AtConcat(t, p, b.lead + b.text, [NUL]);
    AtKept(s, t, e, k, k, ContentText(b.content, false));
  }

  lemma BodyParsed(t: seq<char>, u: seq<char>, p: nat, b: Body, k: nat, hi: nat)
    requires b.Open? && At(t, p, b.lead + b.text + [NUL]) && k == p + |b.lead| + |b.text| + 1
    requires At(u, k, ContentText(b.content, true)) && Same(t, u, k, hi)
    ensures At(u, p, BodyText(b, true)) && |BodyText(b, true)| == |BodyText(b, false)|
  {
    AtKept(t, u, k, hi, p, b.lead + b.text + [NUL]);
    AtConcat(u, p, b.lead + b.text + [NUL], ContentText(b.content, true));
    ContentLength(b.content);
  }

  /** From one past the start tag of an open element: its text at t, then its content at k. */
  method ParseBody(node: Element, buf: array<char>, b: nat, ghost n: Node, ghost p: nat, ghost t: nat, ghost k: nat)
    returns (q: nat)
    requires WellFormed(n) && n.body.Open? && At(buf[..], b, BodyText(n.body, false))
    requires t == b + |n.body.lead| && k == t + |n.body.text| + 1
    requires node.tag == Some(p) && p + |n.tag| + 1 <= b && At(buf[..], p, n.tag + [NUL]) && HasKids(node, [])
    modifies node`text, node`childCount, node`children, buf
    ensures q == b + |BodyText(n.body, false)| - 1
    ensures At(buf[..], b, BodyText(n.body, true)) && Same(old(buf[..]), buf[..], b, q + 1)
    ensures node.text == Some(t) && HasKids(node, KidsAt(n.body.content, k))
    decreases n, 1
  {
    ghost var s := buf[..];
    var start;
    start, q := ScanText(buf, b, n.body);
    node.text := Some(start);
    buf[q] := NUL;
    q := q + 1;
    ghost var u := buf[..];
    TextEnded(s, u, b, n.body, k);
    SameOne(s, u, k - 1);
    AtKept(s, u, k - 1, k, p, n.tag + [NUL]);
    q := ParseContent(node, buf, q, n.body.content, n.tag);
    BodyParsed(u, buf[..], b, n.body, k, q + 1);
    SameTwice(s, u, buf[..], k - 1, k, k, q + 1, b, q + 1);
  }

  lemma ElemIs(n: Node, p: nat, t: nat, k: nat)
    requires n.body.Open? && t == p + |StartText(n, false)| + |n.body.lead| && k == t + |n.body.text| + 1
    ensures var kids := KidsAt(n.body.content, k);
      ElemAt(n, p) == Elem(Some(p), Some(t), StartPairs(n, p), |kids|, Terminated(kids))
  {
  }

  /** Parsing the printed form of any tree of the subset, wherever it stands in the buffer. */
  method ParseNode(node: Element, buf: array<char>, p: nat, ghost n: Node) returns (q: nat)
    requires WellFormed(n) && At(buf[..], p, NodeText(n, false)) && node.Value() == ZERO
    modifies node, buf
    ensures q == p + |NodeText(n, false)| - 1 && q < buf.Length && buf[q] == '>'
    ensures At(buf[..], p, NodeText(n, true)) && Same(old(buf[..]), buf[..], p, q + 1)
    ensures node.Value() == ElemAt(n, p)
    decreases n, 2
  {
    ghost var s := buf[..];
    ghost var b := p + |StartText(n, false)|;
    AtConcat(s, p, StartText(n, false), BodyText(n.body, false));
    q := ParseTag(node, buf, p, n);
    ghost var u := buf[..];
    AtKept(s, u, p, b, b, BodyText(n.body, false));
    if buf[q] == '/' {
      q := q + 1;
      SameItself(u, b, q + 1);
    } else {
      ghost var t := b + |n.body.lead|;
      ghost var k := t + |n.body.text| + 1;
      q := ParseBody(node, buf, q + 1, n, p, t, k);
      ElemIs(n, p, t, k);
    }
    SameTwice(s, u, buf[..], p, b, b, q + 1, p, q + 1);
    NodeParsed(u, buf[..], p, n, q + 1);
    NodeEnds(buf[..], p, n, q);
  }
}
