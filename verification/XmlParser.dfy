/** The parser of ddi_xml.c on the buffer it overwrites: every string it records is ended in place with a NUL. */
module XmlParser {
  import opened Wrappers
  import opened XmlSyntax
  import opened XmlElement
  import opened XmlReadback

  /** Nothing outside [lo, hi) differs; folded like At. */
  predicate Same(s: seq<char>, t: seq<char>, lo: nat, hi: nat) {
    |s| == |t| && SameWithin(s, t, lo, hi, lo + 3)
  }

  predicate SameWithin(s: seq<char>, t: seq<char>, lo: nat, hi: nat, n: nat)
    requires |s| == |t|
  {
    if n > 0 then SameWithin(s, t, lo, hi, n - 1)
    else forall i :: 0 <= i < |s| && (i < lo || hi <= i) ==> s[i] == t[i]
  }

  lemma {:induction false} SameUnfolds(s: seq<char>, t: seq<char>, lo: nat, hi: nat, n: nat)
    requires |s| == |t|
    ensures SameWithin(s, t, lo, hi, n) <==> forall i :: 0 <= i < |s| && (i < lo || hi <= i) ==> s[i] == t[i]
  {
    if n > 0 { SameUnfolds(s, t, lo, hi, n - 1); }
  }

  lemma SameMeans(s: seq<char>, t: seq<char>, lo: nat, hi: nat)
    ensures Same(s, t, lo, hi) <==>
      |s| == |t| && forall i :: 0 <= i < |s| && (i < lo || hi <= i) ==> s[i] == t[i]
  {
    if |s| == |t| { SameUnfolds(s, t, lo, hi, lo + 3); }
  }

  lemma SameItself(s: seq<char>, lo: nat, hi: nat)
    ensures Same(s, s, lo, hi)
  {
    SameMeans(s, s, lo, hi);
  }

  /** Changes from s to t within [a, b), then from t to u within [c, d). */
  lemma SameTwice(s: seq<char>, t: seq<char>, u: seq<char>, a: nat, b: nat, c: nat, d: nat, lo: nat, hi: nat)
    requires Same(s, t, a, b) && Same(t, u, c, d) && lo <= a && lo <= c && b <= hi && d <= hi
    ensures Same(s, u, lo, hi)
  {
    SameMeans(s, t, a, b);
    SameMeans(t, u, c, d);
    SameMeans(s, u, lo, hi);
  }

  lemma SameGrow(s: seq<char>, t: seq<char>, a: nat, b: nat, lo: nat, hi: nat)
    requires Same(s, t, a, b) && lo <= a && b <= hi
    ensures Same(s, t, lo, hi)
  {
    SameMeans(s, t, a, b);
    SameMeans(s, t, lo, hi);
  }

  lemma SameAt(s: seq<char>, t: seq<char>, lo: nat, hi: nat, i: nat)
    requires Same(s, t, lo, hi) && i < |s| && (i < lo || hi <= i)
    ensures s[i] == t[i]
  {
    SameMeans(s, t, lo, hi);
  }

  lemma SameOne(s: seq<char>, t: seq<char>, e: nat)
    requires e < |s| && t == s[e := NUL]
    ensures Same(s, t, e, e + 1)
  {
    SameMeans(s, t, e, e + 1);
  }

  lemma AtKept(s: seq<char>, t: seq<char>, lo: nat, hi: nat, p: nat, u: string)
    requires Same(s, t, lo, hi) && At(s, p, u) && (p + |u| <= lo || hi <= p)
    ensures At(t, p, u)
  {
    SameMeans(s, t, lo, hi);
    AtMeans(s, p, u);
    AtMeans(t, p, u);
  }

  /** A text up to a character it lacks. */
  lemma StopsAt(s: seq<char>, p: nat, t: string, c: char)
    requires At(s, p, t) && p + |t| < |s| && Lacks(t, c)
    ensures forall i :: p <= i < p + |t| ==> s[i] != c && s[i] != NUL
  {
    AtMeans(s, p, t);
    forall i | p <= i < p + |t| ensures s[i] != c && s[i] != NUL { assert s[p + (i - p)] == t[i - p]; }
  }

  lemma SpacesAt(s: seq<char>, p: nat, gap: string)
    requires At(s, p, gap) && Blank(gap)
    ensures p + |gap| <= |s| && forall i :: p <= i < p + |gap| ==> IsSpace(s[i])
  {
    AtMeans(s, p, gap);
    forall i | p <= i < p + |gap| ensures IsSpace(s[i]) { assert s[p + (i - p)] == gap[i - p]; }
  }

  method ScanTo(buf: array<char>, p: nat, c: char) returns (q: nat)
    requires exists k :: p <= k < buf.Length && (buf[k] == c || buf[k] == NUL)
    ensures p <= q < buf.Length && (buf[q] == c || buf[q] == NUL)
    ensures forall i :: p <= i < q ==> buf[i] != c && buf[i] != NUL
  {
    ghost var k :| p <= k < buf.Length && (buf[k] == c || buf[k] == NUL);
    q := p;
    while buf[q] != NUL && buf[q] != c
      invariant p <= q <= k
      invariant forall i :: p <= i < q ==> buf[i] != c && buf[i] != NUL
      decreases k - q
    {
      q := q + 1;
    }
  }

  method SkipSpaces(buf: array<char>, p: nat) returns (q: nat)
    requires exists k :: p <= k < buf.Length && !IsSpace(buf[k])
    ensures p <= q < buf.Length && !IsSpace(buf[q])
    ensures forall i :: p <= i < q ==> IsSpace(buf[i])
  {
    ghost var k :| p <= k < buf.Length && !IsSpace(buf[k]);
    q := p;
    var c := buf[q];
    while c == ' ' || c == '\t' || c == '\r' || c == '\n'
      invariant p <= q <= k && c == buf[q]
      invariant forall i :: p <= i < q ==> IsSpace(buf[i])
      decreases k - q
    {
      q := q + 1;
      c := buf[q];
    }
  }

  /** strncmp(a, b, len) == 0 on the strings at a and b. */
  method ComparePrefix(buf: array<char>, a: nat, b: nat, len: nat, ghost tag: string, ghost close: string)
    returns (equal: bool)
    requires At(buf[..], a, tag + [NUL]) && Lacks(tag, NUL)
    requires At(buf[..], b, close) && Lacks(close, NUL) && len == |close|
    ensures equal <==> close <= tag
  {
    AtMeans(buf[..], a, tag + [NUL]);
    AtMeans(buf[..], b, close);
    var i := 0;
    equal := true;
    while i < len && equal
      invariant 0 <= i <= len
      invariant equal ==> i <= |tag| && close[..i] == tag[..i]
      invariant !equal ==> !(close <= tag)
    {
      assert buf[..][b + i] == close[i] && buf[..][a + i] == (tag + [NUL])[i];
      if buf[a + i] != buf[b + i] {
        equal := false;
      }
      i := i + 1;
    }
  }

  class Element {
    var tag: Option<nat>
    var text: Option<nat>
    var attributes: seq<Pair>
    var childCount: nat
    var children: seq<Elem>

    function Value(): Elem
      reads this
    {
      Elem(tag, text, attributes, childCount, children)
    }

    /** Memory set to zero, as every new array element is. */
    constructor ()
      ensures Value() == ZERO
    {
      tag, text, attributes, childCount, children := None, None, [], 0, [];
    }

    /** A zeroed slot for each element up to `count`, and one more to end the array; what is there is kept. */
    method EnsureCapacity(count: nat)
      requires childCount <= |children|
      modifies this`children
      ensures count <= childCount ==> children == old(children)
      ensures count > childCount ==>
        children == old(children)[..childCount] + seq(count + 1 - childCount, i => ZERO)
    {
      if count <= childCount {
        return;
      }
      var size := count + 1;
      children := children[..childCount] + seq(size - childCount, i => ZERO);
    }
  }

  lemma AttributeParsed(s: seq<char>, t: seq<char>, p: nat, a: Attribute)
    requires At(s, p, AttributeText(a, false)) && |s| == |t|
    requires var e := p + |a.name|; var f := e + 2 + |a.value|;
      f < |t| && t[e] == t[f] == NUL && forall i :: 0 <= i < |s| && i != e && i != f ==> t[i] == s[i]
    ensures At(t, p, AttributeText(a, true))
  {
    var e := p + |a.name|;
    var f := e + 2 + |a.value|;
    AttributeParts(s, p, a, false);
    AtOne(t, e, NUL);
    AtOne(t, f, NUL);
    KeptBetween(s, t, p, a.name);
    KeptBetween(s, t, e + 1, [a.quote]);
    KeptBetween(s, t, e + 2, a.value);
    KeptBetween(s, t, f + 1, a.gap);
    AttributeParts(t, p, a, true);
  }

  lemma KeptBetween(s: seq<char>, t: seq<char>, p: nat, u: string)
    requires At(s, p, u) && |s| == |t|
    requires forall i :: p <= i < p + |u| && i < |s| ==> t[i] == s[i]
    ensures At(t, p, u)
  {
    AtMeans(s, p, u);
    AtMeans(t, p, u);
  }

  lemma AttributeChars(s: seq<char>, p: nat, a: Attribute)
    requires WellFormedAttribute(a) && At(s, p, AttributeText(a, false))
    ensures var e := p + |a.name|; var f := e + 2 + |a.value|; var g := p + |AttributeText(a, false)|;
      && g == f + 1 + |a.gap| <= |s|
      && s[e] == '=' && s[e + 1] == a.quote && s[f] == a.quote
      && (forall i :: p <= i < e ==> s[i] != '=')
      && (forall i :: e + 2 <= i < f ==> s[i] != a.quote)
      && (forall i :: f < i < g ==> IsSpace(s[i]))
  {
    var e := p + |a.name|;
    var f := e + 2 + |a.value|;
    AttributeParts(s, p, a, false);
    AtOne(s, e, '=');
    AtOne(s, e + 1, a.quote);
    AtOne(s, f, a.quote);
    StopsAt(s, p, a.name, '=');
    StopsAt(s, e + 2, a.value, a.quote);
    SpacesAt(s, f + 1, a.gap);
  }

  method ParseAttribute(node: Element, buf: array<char>, p: nat, ghost a: Attribute) returns (q: nat)
    requires WellFormedAttribute(a) && At(buf[..], p, AttributeText(a, false))
    requires p + |AttributeText(a, false)| < buf.Length && !IsSpace(buf[p + |AttributeText(a, false)|])
    modifies node`attributes, buf
    ensures q == p + |AttributeText(a, false)|
    ensures At(buf[..], p, AttributeText(a, true)) && Same(old(buf[..]), buf[..], p, q)
    ensures node.attributes == old(node.attributes) + [Pair(p, p + |a.name| + 2)]
  {
    ghost var s := buf[..];
    ghost var e := p + |a.name|;
    ghost var f := e + 2 + |a.value|;
    ghost var g := p + |AttributeText(a, false)|;
    AttributeChars(s, p, a);

    var name := p;
    q := p;
    while buf[q] != '='
      invariant p <= q <= e
      invariant buf[..] == s
      decreases e - q
    {
      q := q + 1;
    }
    buf[q] := NUL;
    var c := buf[q + 1];
    q := q + 2;
    var value := q;
    while buf[q] != c
      invariant value <= q <= f
      invariant buf[..] == s[e := NUL]
      decreases f - q
    {
      q := q + 1;
    }
    buf[q] := NUL;
    node.attributes := node.attributes + [Pair(name, value)];
    assert !IsSpace(buf[g]);
    q := SkipSpaces(buf, q + 1);
    AttributeParsed(s, buf[..], p, a);
    SameMeans(s, buf[..], p, q);
  }

  /** At q: the attributes still to come, then the character that ends the start tag. */
  ghost predicate AttributesAt(s: seq<char>, q: nat, rest: seq<Attribute>, end: nat, last: char) {
    && (last == '/' || last == '>')
    && (forall i :: 0 <= i < |rest| ==> WellFormedAttribute(rest[i]))
    && end == q + |AttributesText(rest, false)| && end < |s| && s[end] == last
    && At(s, q, AttributesText(rest, false))
  }

  predicate Starts(c: char, rest: seq<Attribute>, last: char) {
    !IsSpace(c) && if rest == [] then c == last else IsNameStart(c)
  }

  lemma FirstChar(s: seq<char>, q: nat, rest: seq<Attribute>, end: nat, last: char)
    requires AttributesAt(s, q, rest, end, last)
    ensures Starts(s[q], rest, last)
  {
    if rest != [] {
      AtConcat(s, q, AttributeText(rest[0], false), AttributesText(rest[1..], false));
      AttributeParts(s, q, rest[0], false);
      AtMeans(s, q, rest[0].name);
      assert s[q + 0] == rest[0].name[0];
    }
  }

  lemma NextAttribute(s: seq<char>, q: nat, rest: seq<Attribute>, end: nat, last: char)
    requires AttributesAt(s, q, rest, end, last) && rest != []
    ensures At(s, q, AttributeText(rest[0], false))
    ensures AttributesAt(s, q + |AttributeText(rest[0], false)|, rest[1..], end, last)
    ensures !IsSpace(s[q + |AttributeText(rest[0], false)|])
  {
    AtConcat(s, q, AttributeText(rest[0], false), AttributesText(rest[1..], false));
    FirstChar(s, q + |AttributeText(rest[0], false)|, rest[1..], end, last);
  }

  lemma Assoc<T>(a: seq<T>, b: seq<T>, c: seq<T>)
    ensures a + b + c == a + (b + c)
  {
  }

  /** What the loop over attributes has done (`done`) and has left to do (`rest`). */
  ghost predicate AttributesInv(s: seq<char>, t: seq<char>, node: Element, was: seq<Pair>, a: nat, q: nat, done: string,
      rest: seq<Attribute>, all: seq<Attribute>, end: nat, last: char)
    reads node
  {
    && AttributesAt(t, q, rest, end, last)
    && q == a + |done| && At(t, a, done) && Same(s, t, a, q)
    && done + AttributesText(rest, true) == AttributesText(all, true)
    && node.attributes + PairsAt(rest, q) == was + PairsAt(all, a)
  }

  /** One attribute of the loop at ddi_xml.c:229. */
  method AttributeTurn(node: Element, buf: array<char>, q: nat, ghost s: seq<char>, ghost was: seq<Pair>, ghost a: nat,
      ghost done: string, ghost rest: seq<Attribute>, ghost all: seq<Attribute>, ghost end: nat, ghost last: char)
    returns (r: nat)
    requires AttributesInv(s, buf[..], node, was, a, q, done, rest, all, end, last) && rest != []
    modifies node`attributes, buf
    ensures AttributesInv(s, buf[..], node, was, a, r, done + AttributeText(rest[0], true), rest[1..], all, end, last)
  {
    ghost var t := buf[..];
    ghost var next := q + |AttributeText(rest[0], false)|;
    NextAttribute(t, q, rest, end, last);
    r := ParseAttribute(node, buf, q, rest[0]);
    SameTwice(s, t, buf[..], a, q, q, r, a, r);
    SameAt(t, buf[..], q, r, end);
    AtKept(t, buf[..], q, r, a, done);
    AtConcat(buf[..], a, done, AttributeText(rest[0], true));
    AtKept(t, buf[..], q, r, next, AttributesText(rest[1..], false));
    Assoc(done, AttributeText(rest[0], true), AttributesText(rest[1..], true));
    assert node.attributes == old(node.attributes) + [Pair(q, q + |rest[0].name| + 2)];
    Assoc(old(node.attributes), [Pair(q, q + |rest[0].name| + 2)], PairsAt(rest[1..], r));
  }

  /** The loop at ddi_xml.c:229: before its first turn c is the blank at e, later it is the character at q. */
  ghost predicate TagLoop(s: seq<char>, t: seq<char>, node: Element, was: seq<Pair>, e: nat, a: nat, q: nat, c: char,
      done: string, rest: seq<Attribute>, all: seq<Attribute>, end: nat, last: char)
    reads node
  {
    if c == ' ' then
      q == e && t == s && node.attributes == was && rest == all && done == ""
    else
      && AttributesInv(s, t, node, was, a, q, done, rest, all, end, last)
      && q < |t| && c == t[q]
  }

  lemma TagLoopChar(s: seq<char>, t: seq<char>, node: Element, was: seq<Pair>, e: nat, a: nat, q: nat, c: char,
      done: string, rest: seq<Attribute>, all: seq<Attribute>, end: nat, last: char)
    requires TagLoop(s, t, node, was, e, a, q, c, done, rest, all, end, last) && c != ' '
    ensures if rest == [] then c == '/' || c == '>' else IsNameStart(c)
  {
    FirstChar(t, q, rest, end, last);
  }

  /** One turn of the loop that meets an attribute. */
  method TagTurn(node: Element, buf: array<char>, q: nat, c: char, ghost s: seq<char>, ghost was: seq<Pair>,
      ghost e: nat, ghost a: nat, ghost done: string, ghost rest: seq<Attribute>, ghost all: seq<Attribute>,
      ghost end: nat, ghost last: char)
    returns (r: nat)
    requires TagLoop(s, buf[..], node, was, e, a, q, c, done, rest, all, end, last)
    requires IsNameStart(c) && rest != []
    modifies node`attributes, buf
    ensures r < buf.Length && buf[r] != ' '
    ensures TagLoop(s, buf[..], node, was, e, a, r, buf[r], done + AttributeText(rest[0], true), rest[1..], all, end, last)
  {
    r := AttributeTurn(node, buf, q, s, was, a, done, rest, all, end, last);
    FirstChar(buf[..], r, rest[1..], end, last);
  }

  method SkipGap(node: Element, buf: array<char>, e: nat, ghost gap: string, ghost all: seq<Attribute>,
      ghost end: nat, ghost last: char)
    returns (q: nat)
    requires Blank(gap) && At(buf[..], e + 1, gap)
    requires AttributesAt(buf[..], e + 1 + |gap|, all, end, last)
    ensures q < buf.Length && buf[q] != ' '
    ensures TagLoop(buf[..], buf[..], node, node.attributes, e, e + 1 + |gap|, q, buf[q], "", all, all, end, last)
  {
    SpacesAt(buf[..], e + 1, gap);
    FirstChar(buf[..], e + 1 + |gap|, all, end, last);
    assert !IsSpace(buf[e + 1 + |gap|]);
    q := SkipSpaces(buf, e + 1);
    AtMeans(buf[..], q, "");
    SameItself(buf[..], q, q);
  }

  lemma TagLoopEnds(s: seq<char>, t: seq<char>, node: Element, was: seq<Pair>, e: nat, a: nat, q: nat, c: char,
      done: string, rest: seq<Attribute>, all: seq<Attribute>, end: nat, last: char)
    requires TagLoop(s, t, node, was, e, a, q, c, done, rest, all, end, last) && (c == '>' || c == '/')
    ensures q == end && At(t, a, AttributesText(all, true)) && Same(s, t, a, end)
    ensures node.attributes == was + PairsAt(all, a)
  {
    TagLoopChar(s, t, node, was, e, a, q, c, done, rest, all, end, last);
    assert done + "" == done;
  }

  method ParseAttributes(node: Element, buf: array<char>, e: nat, ghost gap: string, ghost all: seq<Attribute>,
      ghost end: nat, ghost last: char)
    returns (q: nat)
    requires Blank(gap) && At(buf[..], e + 1, gap)
    requires AttributesAt(buf[..], e + 1 + |gap|, all, end, last)
    modifies node`attributes, buf
    ensures q == end
    ensures At(buf[..], e + 1 + |gap|, AttributesText(all, true)) && Same(old(buf[..]), buf[..], e + 1 + |gap|, end)
    ensures node.attributes == old(node.attributes) + PairsAt(all, e + 1 + |gap|)
  {
    ghost var s, was, a := buf[..], node.attributes, e + 1 + |gap|;
    ghost var done, rest: seq<Attribute> := "", all;
    var c := ' ';
    q := e;
    while c != '>'
      invariant TagLoop(s, buf[..], node, was, e, a, q, c, done, rest, all, end, last)
      decreases |rest|, c == ' '
    {
      if c == ' ' {
        q := SkipGap(node, buf, q, gap, all, end, last);
        c := buf[q];
      }
      TagLoopChar(s, buf[..], node, was, e, a, q, c, done, rest, all, end, last);
      if c == '/' {
        break;
      }
      if 'a' <= c <= 'z' || 'A' <= c <= 'Z' || c == ':' || c == '_' {
        q := TagTurn(node, buf, q, c, s, was, e, a, done, rest, all, end, last);
        c := buf[q];
        done, rest := done + AttributeText(rest[0], true), rest[1..];
      }
    }
    TagLoopEnds(s, buf[..], node, was, e, a, q, c, done, rest, all, end, last);
  }

  lemma TagChars(s: seq<char>, p: nat, n: Node)
    requires WellFormedStart(n) && At(s, p, StartText(n, false))
    ensures var e := p + |n.tag|;
      && e < |s| && (forall i :: p <= i < e ==> s[i] != NUL && s[i] != ' ' && s[i] != '>' && s[i] != '/')
      && s[e] == TagEnd(n)
  {
    var e := p + |n.tag|;
    StartParts(s, p, n, false);
    AtOne(s, e, TagEnd(n));
    StopsAt(s, p, n.tag, ' ');
    StopsAt(s, p, n.tag, '>');
    StopsAt(s, p, n.tag, '/');
  }

  /** The tag of n has been ended, and its attributes are still to come. */
  lemma TagEnded(s: seq<char>, t: seq<char>, p: nat, n: Node, end: nat, last: char)
    requires WellFormedStart(n) && At(s, p, StartText(n, false)) && end == p + |StartText(n, false)| - 1
    requires |s| == |t| && p + |n.tag| < |s| && t == s[p + |n.tag| := NUL]
    requires last == if n.body.Closed? then '/' else '>'
    ensures At(t, p, n.tag + [NUL])
    ensures n.gap.Direct? ==> At(t, p, StartText(n, true))
    ensures n.gap.Spaced? ==>
      && At(t, p + |n.tag| + 1, n.gap.blanks)
      && AttributesAt(t, p + |n.tag| + 1 + |n.gap.blanks|, n.attributes, end, last)
  {
    var e := p + |n.tag|;
    StartParts(s, p, n, false);
    SameOne(s, t, e);
    AtKept(s, t, e, e + 1, p, n.tag);
    AtOne(t, e, NUL);
    AtConcat(t, p, n.tag, [NUL]);
    if n.gap.Spaced? {
      AtOne(s, end, last);
      AtKept(s, t, e, e + 1, e + 1, n.gap.blanks);
      AtKept(s, t, e, e + 1, e + 1 + |n.gap.blanks|, AttributesText(n.attributes, false));
    }
  }

  /** Then the attributes have been ended too. */
  lemma AttributesEnded(t: seq<char>, u: seq<char>, p: nat, n: Node, end: nat, last: char)
    requires n.gap.Spaced? && end == p + |StartText(n, false)| - 1
    requires At(t, p, n.tag + [NUL]) && At(t, p + |n.tag| + 1, n.gap.blanks)
    requires last == (if n.body.Closed? then '/' else '>') && end < |t| && t[end] == last
    requires Same(t, u, p + |n.tag| + 1 + |n.gap.blanks|, end)
    requires At(u, p + |n.tag| + 1 + |n.gap.blanks|, AttributesText(n.attributes, true))
    ensures At(u, p, StartText(n, true))
  {
    var e := p + |n.tag|;
    var a := e + 1 + |n.gap.blanks|;
    AttributesLength(n.attributes);
    SameAt(t, u, a, end, end);
    AtKept(t, u, a, end, p, n.tag + [NUL]);
    AtConcat(u, p, n.tag, [NUL]);
    AtKept(t, u, a, end, e + 1, n.gap.blanks);
    AtOne(u, end, last);
    StartParts(u, p, n, true);
  }

  /** The loop at ddi_xml.c:225. */
  method ScanTag(buf: array<char>, p: nat, ghost n: Node) returns (q: nat, c: char)
    requires WellFormedStart(n) && At(buf[..], p, StartText(n, false))
    ensures q == p + |n.tag| < buf.Length && c == buf[q] == TagEnd(n)
  {
    TagChars(buf[..], p, n);
    q := p;
    c := buf[q];
    while c != NUL && c != ' ' && c != '>' && c != '/'
      invariant p <= q <= p + |n.tag| && c == buf[q]
      decreases p + |n.tag| - q
    {
      q := q + 1;
      c := buf[q];
    }
  }

  /** The end of a start tag before and after: its slash survives exactly when a blank followed the tag. */
  lemma StartEnds(s: seq<char>, t: seq<char>, p: nat, n: Node, q: nat)
    requires WellFormedStart(n) && At(s, p, StartText(n, false)) && At(t, p, StartText(n, true))
    requires q == p + |StartText(n, false)| - 1
    ensures p + |n.tag| <= q < |s| && q < |t| && At(t, p, n.tag + [NUL])
    ensures t[q] == '/' <==> n.gap.Spaced? && n.body.Closed?
    ensures t[q] == '/' <==> s[p + |n.tag|] == ' ' && s[q] == '/'
  {
    var e := p + |n.tag|;
    AttributesLength(n.attributes);
    StartParts(s, p, n, false);
    StartParts(t, p, n, true);
    AtConcat(t, p, n.tag, [NUL]);
    AtOne(s, e, TagEnd(n));
    if n.gap.Direct? {
      AtOne(t, e, NUL);
    } else {
      AtOne(s, q, if n.body.Closed? then '/' else '>');
      AtOne(t, q, if n.body.Closed? then '/' else '>');
    }
  }

  method ParseTag(node: Element, buf: array<char>, p: nat, ghost n: Node) returns (q: nat)
    requires WellFormedStart(n) && At(buf[..], p, StartText(n, false)) && node.attributes == []
    modifies node`tag, node`attributes, buf
    ensures q == p + |StartText(n, false)| - 1
    ensures At(buf[..], p, StartText(n, true)) && Same(old(buf[..]), buf[..], p, q + 1)
    ensures node.tag == Some(p) && node.attributes == StartPairs(n, p)
    ensures At(buf[..], p, n.tag + [NUL])
    ensures buf[q] == '/' <==> old(buf[p + |n.tag|]) == ' ' && old(buf[q]) == '/'
    ensures buf[q] == '/' <==> n.gap.Spaced? && n.body.Closed?
  {
    ghost var s := buf[..];
    ghost var last := if n.body.Closed? then '/' else '>';
    ghost var end := p + |StartText(n, false)| - 1;
    var c: char;
    q, c := ScanTag(buf, p, n);
    node.tag := Some(p);
    buf[q] := NUL;
    ghost var t := buf[..];
    TagEnded(s, t, p, n, end, last);
    SameOne(s, t, q);
    SameGrow(s, t, q, q + 1, p, end + 1);
    if c != '>' && c != '/' { // with either, the loop at ddi_xml.c:229 ends at once
      q := ParseAttributes(node, buf, q, n.gap.blanks, n.attributes, end, last);
      AttributesEnded(t, buf[..], p, n, end, last);
      SameTwice(s, t, buf[..], p, end + 1, p + |n.tag| + 1 + |n.gap.blanks|, end, p, end + 1);
    }
    StartEnds(s, buf[..], p, n, end);
  }

  /** A well-formed comment holds no "--" before its end. */
  lemma CommentChars(s: seq<char>, p: nat, c: Content)
    requires c.Comment? && WellFormedNote(c.note) && Blank(c.gap) && At(s, p, ItemText(c, false))
    ensures var a := p + 3; var e := a + |c.note|;
      && After(c, p) == e + 4 + |c.gap| <= |s|
      && s[e] == '-' && s[e + 1] == '-' && s[e + 2] == '>' && s[e + 3 + |c.gap|] == '<'
      && (forall i :: a <= i < e ==> s[i] != NUL && (s[i] == '-' ==> s[i + 1] != '-'))
      && (forall i :: e + 3 <= i < e + 3 + |c.gap| ==> IsSpace(s[i]))
  {
    var a := p + 3;
    var e := a + |c.note|;
    ItemParts(s, p, c, false);
    AtMeans(s, e, "-->");
    assert s[e + 0] == "-->"[0] && s[e + 1] == "-->"[1] && s[e + 2] == "-->"[2];
    AtOne(s, e + 3 + |c.gap|, '<');
    SpacesAt(s, e + 3, c.gap);
    AtMeans(s, a, c.note);
    forall i | a <= i < e ensures s[i] != NUL && (s[i] == '-' ==> s[i + 1] != '-') {
      assert s[a + (i - a)] == c.note[i - a];
      if i + 1 < e { assert s[a + (i + 1 - a)] == c.note[i + 1 - a]; }
    }
  }

  method SkipComment(buf: array<char>, p: nat, ghost c: Content) returns (q: nat)
    requires c.Comment? && WellFormedNote(c.note) && Blank(c.gap) && At(buf[..], p, ItemText(c, false))
    ensures q == After(c, p) - 1 && q < buf.Length && buf[q] == '<'
  {
    ghost var e := p + 3 + |c.note|;
    ghost var g := e + 3 + |c.gap|;
    CommentChars(buf[..], p, c);
    assert buf[g] == '<';
    q := p + 3;
    var ended := false;
    while !ended
      invariant if ended then q == e + 3 else p + 3 <= q <= e
      decreases e - q, !ended
    {
      q := ScanTo(buf, q, '-');
      if buf[q + 1] == '-' {
        q := q + 3;
        ended := true;
      } else {
        q := q + 1;
      }
    }
    assert !IsSpace(buf[g]);
    q := SkipSpaces(buf, q);
  }

  /** The closing tag whose name starts at p: taken when that name is a prefix of the open tag, otherwise ended in
      place for the error message. */
  method CloseTag(node: Element, buf: array<char>, p: nat, ghost tag: string, ghost close: string)
    returns (balanced: bool, q: nat)
    requires node.tag.Some? && At(buf[..], node.tag.value, tag + [NUL]) && Lacks(tag, NUL)
    requires At(buf[..], p, close + ">") && Lacks(close, '>')
    modifies buf
    ensures balanced <==> close <= tag
    ensures balanced ==> q == p + |close| && buf[..] == old(buf[..])
    ensures !balanced ==> q == p && buf[..] == old(buf[..])[p + |close| := NUL]
  {
    AtConcat(buf[..], p, close, ">");
    AtOne(buf[..], p + |close|, '>');
    StopsAt(buf[..], p, close, '>');
    assert buf[p + |close|] == '>';
    var e := ScanTo(buf, p, '>');
    var len := e - p;
    balanced := ComparePrefix(buf, node.tag.value, p, len, tag, close);
    if balanced {
      return balanced, e;
    }
    buf[e] := NUL;
    q := p;
  }
}
