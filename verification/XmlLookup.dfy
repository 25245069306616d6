/** The lookups of ddi_xml.c on a finished element: pointer walks over child and attribute arrays. */
module XmlLookup {
  import opened Wrappers
  import opened XmlSyntax
  import opened XmlElement
  import opened XmlReadback

  /** The child array of a parsed element: `count` elements with tags, then one without; or no array at all. */
  predicate Ended(e: Elem) {
    && |e.children| == (if e.childCount == 0 then 0 else e.childCount + 1)
    && (forall i :: 0 <= i < e.childCount ==> e.children[i].tag.Some?)
    && (e.childCount > 0 ==> e.children[e.childCount].tag.None?)
  }

  predicate Wanted(s: seq<char>, e: Elem, i: nat, tag: Option<string>)
    requires Ended(e) && i < e.childCount
  {
    tag.Some? ==> StringAt(s, e.children[i].tag.value) == tag.value
  }

  /** r is the first wanted child from i on. */
  predicate IsNext(s: seq<char>, e: Elem, i: nat, tag: Option<string>, r: Option<nat>)
    requires Ended(e)
  {
    && (r.Some? ==> i <= r.value < e.childCount && Wanted(s, e, r.value, tag))
    && forall j :: i <= j < (if r.Some? then r.value else e.childCount) ==> !Wanted(s, e, j, tag)
  }

  /** xml_first: the position of the child found, if any. */
  method First(s: seq<char>, e: Elem, tag: Option<string>) returns (r: Option<nat>)
    requires Ended(e)
    ensures IsNext(s, e, 0, tag, r)
    ensures if tag.None? then r == if e.childCount > 0 then Some(0) else None
            else
              var skipped := if r.Some? then r.value else e.childCount;
              && skipped <= e.childCount && (r.Some? ==> r.value < e.childCount)
              && (r.Some? ==> StringAt(s, e.children[r.value].tag.value) == tag.value)
              && forall j :: 0 <= j < skipped ==> StringAt(s, e.children[j].tag.value) != tag.value
  {
    if tag.None? {
      return if e.children == [] then None else Some(0);
    }
    if e.childCount > 0 && e.children != [] {
      var child := 0;
      var last := child + e.childCount;
      while child < last
        invariant 0 <= child <= last
        invariant forall j :: 0 <= j < child ==> StringAt(s, e.children[j].tag.value) != tag.value
      {
        if tag.value == StringAt(s, e.children[child].tag.value) {
          return Some(child);
        }
        child := child + 1;
      }
    }
    return None;
  }

  /** xml_next: from one child to the next one wanted; it stops at the element without a tag and never sees the count. */
  method Next(s: seq<char>, e: Elem, i: nat, tag: Option<string>) returns (r: Option<nat>)
    requires Ended(e) && i < e.childCount
    ensures IsNext(s, e, i + 1, tag, r)
    ensures if tag.None? then r == if i + 1 < e.childCount then Some(i + 1) else None
            else
              var skipped := if r.Some? then r.value else e.childCount;
              && i < skipped <= e.childCount && (r.Some? ==> r.value < e.childCount)
              && (r.Some? ==> StringAt(s, e.children[r.value].tag.value) == tag.value)
              && forall j :: i < j < skipped ==> StringAt(s, e.children[j].tag.value) != tag.value
  {
    var elem := i + 1;
    if tag.None? {
      return if e.children[elem].tag.Some? then Some(elem) else None;
    }
    while e.children[elem].tag.Some?
      invariant i + 1 <= elem <= e.childCount
      invariant forall j :: i < j < elem ==> StringAt(s, e.children[j].tag.value) != tag.value
      decreases e.childCount - elem
    {
      if tag.value == StringAt(s, e.children[elem].tag.value) {
        return Some(elem);
      }
      elem := elem + 1;
    }
    return None;
  }

  predicate IsWanted(t: Tree, tag: Option<string>) {
    tag.None? || t.tag == tag.value
  }

  function WantedTrees(trees: seq<Tree>, tag: Option<string>): seq<Tree> {
    if trees == [] then []
    else (if IsWanted(trees[0], tag) then [trees[0]] else []) + WantedTrees(trees[1..], tag)
  }

  /** The trees wanted are chosen one by one, by their tag alone. */
  lemma {:induction false} WantedLast(trees: seq<Tree>, i: nat, tag: Option<string>)
    requires i < |trees|
    ensures WantedTrees([], tag) == []
    ensures WantedTrees(trees[..i + 1], tag)
         == WantedTrees(trees[..i], tag) + if tag.None? || trees[i].tag == tag.value then [trees[i]] else []
  {
    if i == 0 {
      assert trees[..1][1..] == [];
    } else {
      WantedLast(trees[1..], i - 1, tag);
      assert trees[..i + 1][1..] == trees[1..][..i] && trees[..i][1..] == trees[1..][..i - 1];
    }
  }

  /** The child at i reads as the tree at i. */
  lemma {:induction false} ReadChild(s: seq<char>, children: seq<Elem>, i: nat)
    requires i < |children| && forall j :: 0 <= j <= i ==> children[j].tag.Some?
    ensures i < |ReadChildren(s, children)| && ReadChildren(s, children)[i] == Read(s, children[i])
  {
    if i > 0 { ReadChild(s, children[1..], i - 1); }
  }

  lemma {:induction false} ReadCount(s: seq<char>, children: seq<Elem>, count: nat)
    requires count <= |children| && (count < |children| ==> children[count].tag.None?)
    requires forall j :: 0 <= j < count ==> children[j].tag.Some?
    ensures |ReadChildren(s, children)| == count
  {
    if count > 0 { ReadCount(s, children[1..], count - 1); }
  }

  /** Passing over trees that are not wanted adds nothing. */
  lemma {:induction false} NoneWanted(trees: seq<Tree>, from: nat, i: nat, tag: Option<string>)
    requires from <= i <= |trees| && forall j :: from <= j < i ==> !IsWanted(trees[j], tag)
    ensures WantedTrees(trees[..i], tag) == WantedTrees(trees[..from], tag)
    decreases i - from
  {
    if from < i {
      NoneWanted(trees, from, i - 1, tag);
      WantedLast(trees, i - 1, tag);
    }
  }

  /** The children up to i that First or Next pass over. */
  lemma Passed(s: seq<char>, e: Elem, trees: seq<Tree>, from: nat, i: nat, tag: Option<string>)
    requires Ended(e) && trees == ReadChildren(s, e.children) && from <= i <= e.childCount == |trees|
    requires forall j :: from <= j < i ==> !Wanted(s, e, j, tag)
    ensures WantedTrees(trees[..i], tag) == WantedTrees(trees[..from], tag)
  {
    forall j | from <= j < i ensures !IsWanted(trees[j], tag) {
      ReadChild(s, e.children, j);
      assert !Wanted(s, e, j, tag);
    }
    NoneWanted(trees, from, i, tag);
  }

  /** The usual walk, for (c = xml_first(e, tag); c; c = xml_next(c, tag)): it meets exactly the wanted children, each
      once and in order, and then stops. */
  method Walk(buf: seq<char>, e: Elem, tag: Option<string>) returns (met: seq<Tree>)
    requires Ended(e)
    ensures met == WantedTrees(ReadChildren(buf, e.children), tag)
  {
    ghost var trees := ReadChildren(buf, e.children);
    ReadCount(buf, e.children, e.childCount);
    met := [];
    var c := First(buf, e, tag);
    ghost var from: nat := 0;
    while c.Some?
      invariant from <= e.childCount && IsNext(buf, e, from, tag, c)
      invariant met == WantedTrees(trees[..from], tag)
      decreases e.childCount - from
    {
      var i := c.value;
      Passed(buf, e, trees, from, i, tag);
      ReadChild(buf, e.children, i);
      WantedLast(trees, i, tag);
      met := met + [Read(buf, e.children[i])];
      from := i + 1;
      c := Next(buf, e, i, tag);
    }
    Passed(buf, e, trees, from, e.childCount, tag);
    assert trees[..e.childCount] == trees;
  }

  /** What a walk over a parsed node needs, and what it meets there. */
  lemma ParsedIsEnded(n: Node, p: nat)
    ensures Ended(ElemAt(n, p))
  {
    if n.body.Open? {
      KidsHaveTags(n.body.content, p + |StartText(n, false)| + |n.body.lead| + |n.body.text| + 1);
    }
  }

  /** xml_get_attrib: the position of the value of the first attribute of that
      name, none exactly when no attribute has it. */
  method GetAttrib(s: seq<char>, e: Elem, name: string) returns (value: Option<nat>)
    ensures value.Some? ==>
      exists k ::
        && 0 <= k < |e.attributes|
        && StringAt(s, e.attributes[k].name) == name && e.attributes[k].value == value.value
        && forall j :: 0 <= j < k ==> StringAt(s, e.attributes[j].name) != name
    ensures value.None? ==> forall k :: 0 <= k < |e.attributes| ==> StringAt(s, e.attributes[k].name) != name
  {
    var p: nat := 0;
    var i := |e.attributes|;
    while i > 0
      invariant i >= 0 && p + i == |e.attributes|
      invariant forall j :: 0 <= j < p ==> StringAt(s, e.attributes[j].name) != name
    {
      if name == StringAt(s, e.attributes[p].name) {
        return Some(e.attributes[p].value);
      }
      p := p + 1;
      i := i - 1;
    }
    return None;
  }

  /** The attribute found by name in a parsed record is the first of that name
      in the node, with its value. */
  method GetParsedAttrib(s: seq<char>, n: Node, p: nat, name: string) returns (value: Option<nat>)
    requires WellFormed(n) && At(s, p, NodeText(n, true))
    ensures value.Some? ==>
      exists k ::
        && 0 <= k < |n.attributes|
        && n.attributes[k].name == name && n.attributes[k].value == StringAt(s, value.value)
        && forall j :: 0 <= j < k ==> n.attributes[j].name != name
    ensures value.None? ==> forall k :: 0 <= k < |n.attributes| ==> n.attributes[k].name != name
  {
    ParsedFields(s, n, p);
    value := GetAttrib(s, ElemAt(n, p), name);
  }
}
