/** Reading the finished buffer back: the records of a parsed node, read as C strings, give the node's meaning. */
module XmlReadback {
  import opened XmlSyntax
  import opened XmlElement

  /** The buffer reads t at position p. Counting down to the definition keeps it folded in proofs that only combine
      facts about whole strings; AtMeans unfolds it. */
  predicate At(s: seq<char>, p: nat, t: string) {
    p + |t| <= |s| && AtWithin(s, p, t, |t| + 3)
  }

  predicate AtWithin(s: seq<char>, p: nat, t: string, n: nat)
    requires p + |t| <= |s|
  {
    if n > 0 then AtWithin(s, p, t, n - 1) else forall i :: 0 <= i < |t| ==> s[p + i] == t[i]
  }

  lemma {:induction false} AtUnfolds(s: seq<char>, p: nat, t: string, n: nat)
    requires p + |t| <= |s|
    ensures AtWithin(s, p, t, n) <==> forall i :: 0 <= i < |t| ==> s[p + i] == t[i]
  {
    if n > 0 { AtUnfolds(s, p, t, n - 1); }
  }

  lemma AtMeans(s: seq<char>, p: nat, t: string)
    ensures At(s, p, t) <==> p + |t| <= |s| && forall i :: 0 <= i < |t| ==> s[p + i] == t[i]
  {
    if p + |t| <= |s| { AtUnfolds(s, p, t, |t| + 3); }
  }

  lemma AtConcat(s: seq<char>, p: nat, a: string, b: string)
    ensures At(s, p, a + b) <==> At(s, p, a) && At(s, p + |a|, b)
  {
    AtMeans(s, p, a + b);
    AtMeans(s, p, a);
    AtMeans(s, p + |a|, b);
    forall i | 0 <= i < |a| ensures (a + b)[i] == a[i] {}
    if At(s, p, a + b) {
      forall i | 0 <= i < |b| ensures s[p + |a| + i] == b[i] { assert (a + b)[|a| + i] == b[i]; }
    }
  }

  lemma AtOne(s: seq<char>, p: nat, c: char)
    ensures At(s, p, [c]) <==> p < |s| && s[p] == c
  {
    AtMeans(s, p, [c]);
    if At(s, p, [c]) { assert s[p + 0] == [c][0]; }
  }

  lemma FiveParts(s: seq<char>, p: nat, a: string, b: string, c: string, d: string, e: string)
    ensures At(s, p, a + b + c + d + e) <==>
      && At(s, p, a) && At(s, p + |a|, b) && At(s, p + |a| + |b|, c)
      && At(s, p + |a| + |b| + |c|, d) && At(s, p + |a| + |b| + |c| + |d|, e)
  {
    AtConcat(s, p, a + b + c + d, e);
    AtConcat(s, p, a + b + c, d);
    AtConcat(s, p, a + b, c);
    AtConcat(s, p, a, b);
  }

  /** Where each part of an attribute lies. */
  predicate AttributeAt(s: seq<char>, p: nat, a: Attribute, parsed: bool) {
    var v := p + |a.name| + 2;
    && At(s, p, a.name) && At(s, v - 1, [a.quote]) && At(s, v - 2, Mark('=', parsed))
    && At(s, v, a.value) && At(s, v + |a.value|, Mark(a.quote, parsed)) && At(s, v + |a.value| + 1, a.gap)
  }

  lemma AttributeParts(s: seq<char>, p: nat, a: Attribute, parsed: bool)
    ensures At(s, p, AttributeText(a, parsed)) <==> AttributeAt(s, p, a, parsed)
  {
    var t := a.name + Mark('=', parsed) + [a.quote] + a.value + Mark(a.quote, parsed);
    AtConcat(s, p, t, a.gap);
    FiveParts(s, p, a.name, Mark('=', parsed), [a.quote], a.value, Mark(a.quote, parsed));
  }

  /** Where each part of a start tag lies. */
  predicate StartAt(s: seq<char>, p: nat, n: Node, parsed: bool) {
    && At(s, p, n.tag)
    && match n.gap
       case Direct(_) => At(s, p + |n.tag|, Mark(n.gap.end, parsed))
       case Spaced(gap) =>
         var start := p + |n.tag| + 1;
         var a := start + |gap|;
         && At(s, p + |n.tag|, Mark(' ', parsed)) && At(s, start, gap)
         && At(s, a, AttributesText(n.attributes, parsed))
         && At(s, a + |AttributesText(n.attributes, parsed)|, if n.body.Closed? then "/" else ">")
  }

  lemma StartParts(s: seq<char>, p: nat, n: Node, parsed: bool)
    ensures At(s, p, StartText(n, parsed)) <==> StartAt(s, p, n, parsed)
  {
    match n.gap
    case Direct(_) => AtConcat(s, p, n.tag, Mark(n.gap.end, parsed));
    case Spaced(gap) =>
      var end := if n.body.Closed? then "/" else ">";
      FiveParts(s, p, n.tag, Mark(' ', parsed), gap, AttributesText(n.attributes, parsed), end);
  }

  /** Where each part of an open body lies. */
  predicate OpenAt(s: seq<char>, p: nat, b: Body, parsed: bool)
    requires b.Open?
  {
    var t := p + |b.lead|;
    && At(s, p, b.lead) && At(s, t, b.text) && At(s, t + |b.text|, Mark('<', parsed))
    && At(s, t + |b.text| + 1, ContentText(b.content, parsed))
  }

  lemma OpenParts(s: seq<char>, p: nat, b: Body, parsed: bool)
    requires b.Open?
    ensures At(s, p, BodyText(b, parsed)) <==> OpenAt(s, p, b, parsed)
  {
    var t1 := b.lead + b.text;
    var t2 := t1 + Mark('<', parsed);
    AtConcat(s, p, t2, ContentText(b.content, parsed));
    AtConcat(s, p, t1, Mark('<', parsed));
    AtConcat(s, p, b.lead, b.text);
  }

  /** Where each part of a comment or a child lies. */
  predicate ItemAt(s: seq<char>, p: nat, c: Content, parsed: bool)
    requires !c.End?
  {
    var e := if c.Comment? then p + |c.note| + 6 else p + |NodeText(c.node, parsed)|;
    && (c.Comment? ==> At(s, p, "!--") && At(s, p + 3, c.note) && At(s, p + 3 + |c.note|, "-->"))
    && (c.Child? ==> At(s, p, NodeText(c.node, parsed)))
    && At(s, e, c.gap) && At(s, e + |c.gap|, "<")
  }

  lemma ItemParts(s: seq<char>, p: nat, c: Content, parsed: bool)
    requires !c.End?
    ensures At(s, p, ItemText(c, parsed)) <==> ItemAt(s, p, c, parsed)
  {
    if c.Comment? {
      FiveParts(s, p, "!--", c.note, "-->", c.gap, "<");
    } else {
      AtConcat(s, p, NodeText(c.node, parsed) + c.gap, "<");
      AtConcat(s, p, NodeText(c.node, parsed), c.gap);
    }
  }

  lemma {:induction false} StringIs(s: seq<char>, p: nat, t: string)
    requires At(s, p, t + [NUL]) && Lacks(t, NUL)
    ensures StringAt(s, p) == t
    decreases t
  {
    AtConcat(s, p, t, [NUL]);
    AtOne(s, p + |t|, NUL);
    if t != "" {
      AtMeans(s, p, t);
      assert s[p + 0] == t[0];
      assert t + [NUL] == [t[0]] + (t[1..] + [NUL]);
      AtConcat(s, p, [t[0]], t[1..] + [NUL]);
      StringIs(s, p + 1, t[1..]);
    }
  }

  lemma AttributeReadsBack(s: seq<char>, a: Attribute, p: nat)
    requires WellFormedAttribute(a) && At(s, p, AttributeText(a, true))
    ensures StringAt(s, p) == a.name && StringAt(s, p + |a.name| + 2) == a.value
  {
    AttributeParts(s, p, a, true);
    AtConcat(s, p, a.name, [NUL]);
    AtConcat(s, p + |a.name| + 2, a.value, [NUL]);
    StringIs(s, p, a.name);
    StringIs(s, p + |a.name| + 2, a.value);
  }

  lemma ReadFirst(s: seq<char>, x: Pair, rest: seq<Pair>)
    ensures ReadPairs(s, [x] + rest) == [(StringAt(s, x.name), StringAt(s, x.value))] + ReadPairs(s, rest)
  {
    assert ([x] + rest)[1..] == rest;
  }

  lemma HeadReadsBack(s: seq<char>, attributes: seq<Attribute>, p: nat, q: nat)
    requires attributes != [] && WellFormedAttribute(attributes[0]) && At(s, p, AttributesText(attributes, true))
    requires q == p + |AttributeText(attributes[0], false)|
    ensures At(s, q, AttributesText(attributes[1..], true))
    ensures ReadPairs(s, PairsAt(attributes, p))
         == [(attributes[0].name, attributes[0].value)] + ReadPairs(s, PairsAt(attributes[1..], q))
  {
    AtConcat(s, p, AttributeText(attributes[0], true), AttributesText(attributes[1..], true));
    AttributeReadsBack(s, attributes[0], p);
    ReadFirst(s, Pair(p, p + |attributes[0].name| + 2), PairsAt(attributes[1..], q));
  }

  lemma {:induction false} PairsReadBack(s: seq<char>, attributes: seq<Attribute>, p: nat)
    requires forall i :: 0 <= i < |attributes| ==> WellFormedAttribute(attributes[i])
    requires At(s, p, AttributesText(attributes, true))
    ensures ReadPairs(s, PairsAt(attributes, p)) == Pairs(attributes)
  {
    if attributes != [] {
      var q := p + |AttributeText(attributes[0], false)|;
      HeadReadsBack(s, attributes, p, q);
      PairsReadBack(s, attributes[1..], q);
    }
  }

  lemma {:induction false} KidsHaveTags(c: Content, p: nat)
    ensures forall i :: 0 <= i < |KidsAt(c, p)| ==> KidsAt(c, p)[i].tag.Some?
  {
    if !c.End? { KidsHaveTags(c.rest, After(c, p)); }
  }

  lemma {:induction false} ReadTerminated(s: seq<char>, kids: seq<Elem>)
    requires forall i :: 0 <= i < |kids| ==> kids[i].tag.Some?
    ensures ReadChildren(s, Terminated(kids)) == ReadChildren(s, kids)
  {
    if kids != [] {
      assert Terminated(kids)[1..] == kids[1..] + [ZERO];
      if |kids| > 1 { ReadTerminated(s, kids[1..]); }
    }
  }

  lemma TagReadsBack(s: seq<char>, n: Node, p: nat)
    requires WellFormedTag(n.tag) && StartAt(s, p, n, true)
    ensures StringAt(s, p) == n.tag
  {
    AtConcat(s, p, n.tag, [NUL]);
    StringIs(s, p, n.tag);
  }

  lemma StartPairsReadBack(s: seq<char>, n: Node, p: nat)
    requires WellFormedStart(n) && StartAt(s, p, n, true)
    ensures ReadPairs(s, StartPairs(n, p)) == Pairs(n.attributes)
  {
    if n.gap.Spaced? { PairsReadBack(s, n.attributes, p + |n.tag| + 1 + |n.gap.blanks|); }
  }

  lemma StartReadsBack(s: seq<char>, n: Node, p: nat)
    requires WellFormedStart(n) && At(s, p, StartText(n, true))
    ensures StringAt(s, p) == n.tag && ReadPairs(s, StartPairs(n, p)) == Pairs(n.attributes)
  {
    StartParts(s, p, n, true);
    TagReadsBack(s, n, p);
    StartPairsReadBack(s, n, p);
  }

  lemma NodeParts(s: seq<char>, n: Node, p: nat)
    requires At(s, p, NodeText(n, true))
    ensures At(s, p, StartText(n, true))
    ensures n.body.Open? ==>
      var t := p + |StartText(n, false)| + |n.body.lead|;
      At(s, t, n.body.text + [NUL]) && At(s, t + |n.body.text| + 1, ContentText(n.body.content, true))
  {
    NodeLength(n);
    AtConcat(s, p, StartText(n, true), BodyText(n.body, true));
    if n.body.Open? {
      OpenParts(s, p + |StartText(n, false)|, n.body, true);
      AtConcat(s, p + |StartText(n, false)| + |n.body.lead|, n.body.text, [NUL]);
    }
  }

  lemma ContentParts(s: seq<char>, p: nat, c: Content)
    requires !c.End? && At(s, p, ContentText(c, true))
    ensures c.Child? ==> At(s, p, NodeText(c.node, true))
    ensures At(s, After(c, p), ContentText(c.rest, true))
  {
    AtConcat(s, p, ItemText(c, true), ContentText(c.rest, true));
    ContentLength(c);
    ItemParts(s, p, c, true);
  }

  lemma TextReadsBack(s: seq<char>, b: Body, t: nat)
    requires b.Open? && Lacks(b.text, '<') && At(s, t, b.text + [NUL])
    ensures StringAt(s, t) == b.text
  {
    StringIs(s, t, b.text);
  }

  lemma NodeReadsBack(s: seq<char>, n: Node, p: nat)
    requires StringAt(s, p) == n.tag && ReadPairs(s, StartPairs(n, p)) == Pairs(n.attributes)
    requires n.body.Open? ==>
      var t := p + |StartText(n, false)| + |n.body.lead|;
      && StringAt(s, t) == n.body.text
      && ReadChildren(s, Terminated(KidsAt(n.body.content, t + |n.body.text| + 1))) == Children(n.body.content)
    ensures Read(s, ElemAt(n, p)) == Meaning(n)
  {
  }

  /** The parser undoes the printer: the records and the buffer after parsing say what the text meant. */
  lemma {:induction false} ParsedReadsBack(s: seq<char>, n: Node, p: nat)
    requires WellFormed(n) && At(s, p, NodeText(n, true))
    ensures Read(s, ElemAt(n, p)) == Meaning(n)
    decreases n, 2
  {
    NodeParts(s, n, p);
    StartReadsBack(s, n, p);
    if n.body.Open? { BodyReadsBack(s, n, p + |StartText(n, false)| + |n.body.lead|); }
    NodeReadsBack(s, n, p);
  }

  lemma {:induction false} BodyReadsBack(s: seq<char>, n: Node, t: nat)
    requires WellFormed(n) && n.body.Open? && At(s, t, n.body.text + [NUL])
    requires At(s, t + |n.body.text| + 1, ContentText(n.body.content, true))
    ensures StringAt(s, t) == n.body.text
    ensures ReadChildren(s, Terminated(KidsAt(n.body.content, t + |n.body.text| + 1))) == Children(n.body.content)
    decreases n, 1
  {
    TextReadsBack(s, n.body, t);
    KidsOfNode(s, n, t + |n.body.text| + 1);
  }

  lemma {:induction false} KidsOfNode(s: seq<char>, n: Node, k: nat)
    requires WellFormed(n) && n.body.Open? && At(s, k, ContentText(n.body.content, true))
    ensures ReadChildren(s, Terminated(KidsAt(n.body.content, k))) == Children(n.body.content)
    decreases n, 0
  {
    KidsReadBack(s, n.body.content, n.tag, k);
    KidsHaveTags(n.body.content, k);
    ReadTerminated(s, KidsAt(n.body.content, k));
  }

  lemma {:induction false} KidsReadBack(s: seq<char>, c: Content, tag: string, p: nat)
    requires WellFormedContent(c, tag) && At(s, p, ContentText(c, true))
    ensures ReadChildren(s, KidsAt(c, p)) == Children(c)
    decreases c, 0
  {
    match c
    case End(_) =>
    case Comment(_, _, rest) =>
      ContentParts(s, p, c);
      KidsReadBack(s, rest, tag, After(c, p));
    case Child(node, _, rest) =>
      ContentParts(s, p, c);
      ParsedReadsBack(s, node, p);
      KidsReadBack(s, rest, tag, After(c, p));
      assert KidsAt(c, p)[1..] == KidsAt(rest, After(c, p));
  }

  lemma {:induction false} PairsAre(s: seq<char>, pairs: seq<Pair>, attributes: seq<Attribute>)
    requires ReadPairs(s, pairs) == Pairs(attributes)
    ensures |pairs| == |attributes|
    ensures forall i :: 0 <= i < |pairs| ==>
      StringAt(s, pairs[i].name) == attributes[i].name && StringAt(s, pairs[i].value) == attributes[i].value
  {
    if pairs != [] && attributes != [] {
      assert ReadPairs(s, pairs)[0] == Pairs(attributes)[0];
      assert ReadPairs(s, pairs)[1..] == Pairs(attributes)[1..];
      PairsAre(s, pairs[1..], attributes[1..]);
      assert forall i :: 0 < i < |pairs| ==> pairs[i] == pairs[1..][i - 1] && attributes[i] == attributes[1..][i - 1];
    }
  }

  /** Field by field: tag, names, values and text of a parsed record are the
      strings of the node. */
  lemma ParsedFields(s: seq<char>, n: Node, p: nat)
    requires WellFormed(n) && At(s, p, NodeText(n, true))
    ensures var e := ElemAt(n, p);
      && e.tag.Some? && StringAt(s, e.tag.value) == n.tag
      && |e.attributes| == |n.attributes|
      && (forall i :: 0 <= i < |e.attributes| ==>
            && StringAt(s, e.attributes[i].name) == n.attributes[i].name
            && StringAt(s, e.attributes[i].value) == n.attributes[i].value)
      && (if n.body.Closed? then e.text.None? && e.childCount == 0
          else e.text.Some? && StringAt(s, e.text.value) == n.body.text)
  {
    ParsedReadsBack(s, n, p);
    PairsAre(s, ElemAt(n, p).attributes, n.attributes);
  }
}
