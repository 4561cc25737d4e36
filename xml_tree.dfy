/**
 * Namespaced XML element trees as lxml exposes them, the two ElementPath queries
 * the scripts use (`find` and `findall` with a `.//prefix:name` path), and a mutable
 * document in which `etree.Element` / `etree.SubElement` / `.text = ...` build a tree
 * step by step.
 */
module XmlTree {
  import opened Wrappers

  /** One element: namespace URI ("" for none), local name, attributes (keyed by
      attribute name), the text before its first child (None when lxml reports
      `text is None`) and its children in document order. */
  datatype Element = Element(
    ns: string,
    name: string,
    attrs: map<string, string>,
    text: Option<string>,
    children: seq<Element>)

  /** A character that may occur in XML character data: the Char production of section
      2.2 of the XML 1.0 specification (tab, line feed, carriage return and everything
      from space up, except the surrogates and U+FFFE, U+FFFF). */
  predicate XmlChar(c: char) {
    var n := c as int;
    n == 0x9 || n == 0xA || n == 0xD || 0x20 <= n <= 0xD7FF || 0xE000 <= n <= 0xFFFD || 0x10000 <= n
  }

  predicate XmlText(s: string) {
    forall i :: 0 <= i < |s| ==> XmlChar(s[i])
  }

  predicate Named(e: Element, ns: string, name: string) {
    e.ns == ns && e.name == name
  }

  /** The proper descendants of the elements cs and of their subtrees, in document
      order: each element comes before its own descendants, which come before its
      later siblings. */
  function DescendantsOf(cs: seq<Element>): seq<Element>
    decreases cs
  {
    if cs == [] then []
    else [cs[0]] + DescendantsOf(cs[0].children) + DescendantsOf(cs[1..])
  }

  /** Each of the elements cs is among the descendants they start. */
  lemma {:induction false} DescendantsOfContains(cs: seq<Element>)
    ensures forall i :: 0 <= i < |cs| ==> cs[i] in DescendantsOf(cs)
  {
    if cs != [] {
      DescendantsOfContains(cs[1..]);
      forall i | 0 <= i < |cs|
        ensures cs[i] in DescendantsOf(cs)
      {
        if i > 0 {
          assert cs[i] == cs[1..][i - 1];
        }
      }
    }
  }

  /** What `.//` ranges over from the root: every element below it, root excluded. */
  function Descendants(root: Element): seq<Element> {
    DescendantsOf(root.children)
  }

  /** The elements of s named {ns}name, in order. */
  function Matching(s: seq<Element>, ns: string, name: string): (r: seq<Element>)
    ensures |r| <= |s|
  {
    if s == [] then []
    else (if Named(s[0], ns, name) then [s[0]] else []) + Matching(s[1..], ns, name)
  }

  /** What matches is exactly the elements of s with that name. */
  lemma {:induction false} MatchingMembers(s: seq<Element>, ns: string, name: string)
    ensures forall e :: e in Matching(s, ns, name) <==> e in s && Named(e, ns, name)
  {
    if s != [] {
      MatchingMembers(s[1..], ns, name);
      assert forall e :: e in s <==> e == s[0] || e in s[1..];
    }
  }

  /** The position of the first element of s named {ns}name. */
  function FirstMatch(s: seq<Element>, ns: string, name: string): (r: Option<nat>)
    ensures r.Some? ==> r.value < |s| && Named(s[r.value], ns, name)
    ensures r.Some? ==> forall j :: 0 <= j < r.value ==> !Named(s[j], ns, name)
    ensures r.None? ==> forall j :: 0 <= j < |s| ==> !Named(s[j], ns, name)
  {
    if s == [] then None
    else if Named(s[0], ns, name) then Some(0)
    else match FirstMatch(s[1..], ns, name)
      case None => None
      case Some(k) => Some(k + 1)
  }

  /** `root.findall(".//p:name", namespaces=...)` with p bound to ns. */
  function FindAll(root: Element, ns: string, name: string): seq<Element> {
    Matching(Descendants(root), ns, name)
  }

  /** `root.find(".//p:name", namespaces=...)`: the first match in document order. */
  function Find(root: Element, ns: string, name: string): Option<Element> {
    match FirstMatch(Descendants(root), ns, name)
    case None => None
    case Some(i) => Some(Descendants(root)[i])
  }

  /** `find` returns the head of what `findall` returns. */
  lemma {:induction false} FindIsFirstOfFindAll(root: Element, ns: string, name: string)
    ensures Find(root, ns, name).None? <==> FindAll(root, ns, name) == []
    ensures Find(root, ns, name).Some? ==> Find(root, ns, name).value == FindAll(root, ns, name)[0]
  {
    FirstMatchIsHead(Descendants(root), ns, name);
  }

  lemma {:induction false} FirstMatchIsHead(s: seq<Element>, ns: string, name: string)
    ensures FirstMatch(s, ns, name).None? <==> Matching(s, ns, name) == []
    ensures FirstMatch(s, ns, name).Some? ==> s[FirstMatch(s, ns, name).value] == Matching(s, ns, name)[0]
  {
    if s != [] && !Named(s[0], ns, name) {
      FirstMatchIsHead(s[1..], ns, name);
    }
  }

  /** The first match is determined by where the first matching element sits. */
  lemma FirstMatchAt(s: seq<Element>, ns: string, name: string, i: nat)
    requires i < |s| && Named(s[i], ns, name)
    requires forall j :: 0 <= j < i ==> !Named(s[j], ns, name)
    ensures FirstMatch(s, ns, name) == Some(i)
  {
  }

  // ---------------------------------------------------------------------------
  // A tree under construction
  // ---------------------------------------------------------------------------

  /** An element of a document under construction; its children are positions in the
      document, so that a child can still be changed after it has been attached. */
  datatype Node = Node(
    ns: string,
    name: string,
    attrs: map<string, string>,
    text: Option<string>,
    kids: seq<nat>)

  /** The elements created by `etree.Element` (position 0, the root) and
      `etree.SubElement`, each one updated in place. */
  class Document {
    var nodes: seq<Node>

    /** Every child index is later than its parent's, so that following children from
        position 0 always ends (no element is its own ancestor). */
    ghost predicate Valid()
      reads this
    {
      && |nodes| > 0
      && forall i, k :: 0 <= i < |nodes| && 0 <= k < |nodes[i].kids| ==> i < nodes[i].kids[k] < |nodes|
    }

    /** `etree.Element("{ns}name", **attrs)`. */
    constructor (ns: string, name: string, attrs: map<string, string>)
      ensures Valid()
      ensures nodes == [Node(ns, name, attrs, None, [])]
    {
      nodes := [Node(ns, name, attrs, None, [])];
    }

    /** `etree.SubElement(parent, "{ns}name")`: a new empty element appended as the
        last child of parent. */
    method SubElement(parent: nat, ns: string, name: string) returns (child: nat)
      requires Valid() && parent < |nodes|
      modifies this
      ensures Valid()
      ensures child == old(|nodes|)
      ensures nodes == old(nodes[parent := nodes[parent].(kids := nodes[parent].kids + [|nodes|])])
                       + [Node(ns, name, map[], None, [])]
    {
      child := |nodes|;
      nodes := nodes[parent := nodes[parent].(kids := nodes[parent].kids + [child])]
               + [Node(ns, name, map[], None, [])];
    }

    /** `element.text = t`: lxml refuses (with `ValueError`) a string that is not XML
        character data, and then leaves the element as it was. */
    method SetText(i: nat, t: Option<string>) returns (ok: bool)
      requires Valid() && i < |nodes|
      modifies this
      ensures Valid()
      ensures ok <==> t.None? || XmlText(t.value)
      ensures nodes == if ok then old(nodes[i := nodes[i].(text := t)]) else old(nodes)
    {
      ok := t.None? || XmlText(t.value);
      if ok {
        nodes := nodes[i := nodes[i].(text := t)];
      }
    }

    /** The element at position i together with everything below it. */
    function ToElement(i: nat): Element
      reads this
      requires Valid() && i < |nodes|
      decreases |nodes| - i, |nodes[i].kids| + 1
    {
      var n := nodes[i];
      Element(n.ns, n.name, n.attrs, n.text, ToElements(i, n.kids))
    }

    function ToElements(parent: nat, ks: seq<nat>): (r: seq<Element>)
      reads this
      requires Valid() && parent < |nodes|
      requires forall k :: 0 <= k < |ks| ==> parent < ks[k] < |nodes|
      ensures |r| == |ks|
      decreases |nodes| - parent, |ks|
    {
      if ks == [] then [] else [ToElement(ks[0])] + ToElements(parent, ks[1..])
    }
  }
}
