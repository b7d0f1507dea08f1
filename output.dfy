/**
 * The output tree: independent copies of source nodes (`cloneNode(true)`)
 * and the rewrites applied to them. A copy is a value, so nothing done to it
 * can reach the source page.
 */
module Output {
  import opened Wrappers
  import opened Dom

  datatype OutNode =
    | OElem(tag: string, attrs: map<string, string>, children: seq<OutNode>)
    | OText(data: string)

  /** `textContent`: the concatenated text of every text node below, in order. */
  function TextOf(n: OutNode): string
    decreases n, 1
  {
    match n
    case OText(d) => d
    case OElem(_, _, cs) => TextOfAll(cs)
  }

  function TextOfAll(cs: seq<OutNode>): string
    decreases cs, 0
  {
    if cs == [] then "" else TextOf(cs[0]) + TextOfAll(cs[1..])
  }

  /** `cloneNode(true)` of node `j`: the element with its attributes and a copy of each child, in order. */
  function Clone(nodes: seq<Node>, j: nat): (r: OutNode)
    requires j < |nodes|
    ensures nodes[j].Element? ==> r.OElem? && r.tag == nodes[j].tag && r.attrs == nodes[j].attrs
    ensures nodes[j].Text? ==> r == OText(nodes[j].data)
    decreases |nodes| - j, 1, 0
  {
    match nodes[j]
    case Text(d, _) => OText(d)
    case Element(tag, attrs, _, _, _, _, _, _) => OElem(tag, attrs, CloneChildren(nodes, j, j + 1))
  }

  /** Copies of the children of `j` found at index `k` or later. */
  function CloneChildren(nodes: seq<Node>, j: nat, k: nat): seq<OutNode>
    requires j < k <= |nodes|
    decreases |nodes| - j, 0, |nodes| - k
  {
    if k == |nodes| then []
    else (if nodes[k].parent == Some(j) then [Clone(nodes, k)] else []) + CloneChildren(nodes, j, k + 1)
  }

  /** `t` is `n` or a node somewhere below it. */
  predicate Within(t: OutNode, n: OutNode)
    decreases n
  {
    t == n || (n.OElem? && exists k :: 0 <= k < |n.children| && Within(t, n.children[k]))
  }

  lemma {:induction false} WithinTransitive(t: OutNode, m: OutNode, n: OutNode)
    requires Within(t, m) && Within(m, n)
    ensures Within(t, n)
    decreases n
  {
    if m != n {
      var k :| 0 <= k < |n.children| && Within(m, n.children[k]);
      WithinTransitive(t, m, n.children[k]);
    }
  }

  /** The copies of `j`'s children include a copy of each child found at index `k` or later. */
  lemma {:induction false} CloneChildrenHas(nodes: seq<Node>, j: nat, k: nat, y: nat)
    requires j < k <= y < |nodes| && nodes[y].parent == Some(j)
    ensures Clone(nodes, y) in CloneChildren(nodes, j, k)
    decreases y - k
  {
    if k < y {
      CloneChildrenHas(nodes, j, k + 1, y);
    }
  }

  /**
   * The copy of an element holds a copy of each of its descendants, so a
   * candidate nested in another candidate is copied twice.
   */
  lemma {:induction false} CloneHoldsDescendant(doc: Document, x: nat, y: nat)
    requires WellFormed(doc)
    requires IsAncestor(doc.nodes, x, y)
    ensures Within(Clone(doc.nodes, y), Clone(doc.nodes, x))
    decreases y
  {
    var nodes := doc.nodes;
    var p := nodes[y].parent.value;
    CloneChildrenHas(nodes, p, p + 1, y);
    var cs := CloneChildren(nodes, p, p + 1);
    var i :| 0 <= i < |cs| && cs[i] == Clone(nodes, y);
    assert Clone(nodes, p).children == cs;
    assert Within(Clone(nodes, y), cs[i]);
    assert Within(Clone(nodes, y), Clone(nodes, p));
    if p != x {
      CloneHoldsDescendant(doc, x, p);
      WithinTransitive(Clone(nodes, y), Clone(nodes, p), Clone(nodes, x));
    }
  }

  /** `a.href`, read as the stored `href` attribute ("" when absent). */
  function Href(attrs: map<string, string>): string {
    if "href" in attrs then attrs["href"] else ""
  }

  /** Setting `textContent` to a non-empty `s`: the children become a single text node. */
  function SetText(n: OutNode, s: string): (r: OutNode)
    requires s != ""
    ensures TextOf(r) == s
    ensures n.OElem? ==> r.OElem? && r.tag == n.tag && r.attrs == n.attrs && r.children == [OText(s)]
    ensures n.OText? ==> r == OText(s)
  {
    match n
    case OElem(tag, attrs, _) =>
      var r := OElem(tag, attrs, [OText(s)]);
      assert TextOfAll([OText(s)]) == s + TextOfAll([]);
      r
    case OText(_) => OText(s)
  }

  /**
   * The link rewrite of one node and everything under it: an anchor gets
   * its text in brackets and its `href` as `title` (its old children, and any
   * anchor among them, are gone); any other element is rewritten below.
   */
  function FormatLinks(n: OutNode): (r: OutNode)
    ensures n.OText? ==> r == n
    ensures n.OElem? && n.tag == "a" ==>
      && r.OElem? && r.tag == "a" && r.attrs == n.attrs["title" := Href(n.attrs)]
      && TextOf(r) == "[" + TextOf(n) + "]"
    ensures n.OElem? && n.tag != "a" ==>
      r.OElem? && r.tag == n.tag && r.attrs == n.attrs && |r.children| == |n.children|
    decreases n, 1
  {
    match n
    case OText(_) => n
    case OElem(tag, attrs, cs) =>
      if tag == "a" then
      var t := "[" + TextOf(n) + "]";
      assert TextOfAll([OText(t)]) == t + TextOfAll([]);
      OElem(tag, attrs["title" := Href(attrs)], [OText(t)])
      else OElem(tag, attrs, FormatLinksAll(cs))
  }

  function FormatLinksAll(cs: seq<OutNode>): (r: seq<OutNode>)
    ensures |r| == |cs|
    decreases cs, 0
  {
    if cs == [] then [] else [FormatLinks(cs[0])] + FormatLinksAll(cs[1..])
  }

  /**
   * `clone.querySelectorAll('a').forEach(…)`: the rewrite of every anchor
   * strictly below the clone's root.
   */
  function FormatNestedLinks(n: OutNode): (r: OutNode)
    ensures n.OElem? ==>
      r.OElem? && r.tag == n.tag && r.attrs == n.attrs && |r.children| == |n.children|
    ensures !(n.OElem? && n.tag == "a") ==> r == FormatLinks(n)
  {
    match n
    case OText(_) => n
    case OElem(tag, attrs, cs) => OElem(tag, attrs, FormatLinksAll(cs))
  }

  predicate IsBracketed(s: string) {
    |s| >= 2 && s[0] == '[' && s[|s| - 1] == ']'
  }

  /** Every anchor in `n` carries a `title` equal to its `href` and shows only a bracketed text. */
  predicate AnchorsFormatted(n: OutNode)
    decreases n
  {
    match n
    case OText(_) => true
    case OElem(tag, attrs, cs) =>
      if tag == "a" then
        && "title" in attrs && attrs["title"] == Href(attrs)
        && |cs| == 1 && cs[0].OText? && IsBracketed(cs[0].data)
      else forall k :: 0 <= k < |cs| ==> AnchorsFormatted(cs[k])
  }

  /** `n` has no anchor element anywhere. */
  predicate NoAnchors(n: OutNode)
    decreases n
  {
    match n
    case OText(_) => true
    case OElem(tag, _, cs) => tag != "a" && forall k :: 0 <= k < |cs| ==> NoAnchors(cs[k])
  }

  lemma {:induction false} FormatLinksAllAt(cs: seq<OutNode>, k: nat)
    requires k < |cs|
    ensures FormatLinksAll(cs)[k] == FormatLinks(cs[k])
    decreases cs
  {
    if k > 0 {
      FormatLinksAllAt(cs[1..], k - 1);
    }
  }

  /** After the rewrite, every anchor is formatted. */
  lemma {:induction false} FormatLinksFormats(n: OutNode)
    ensures AnchorsFormatted(FormatLinks(n))
    decreases n
  {
    match n
    case OText(_) =>
    case OElem(tag, attrs, cs) =>
      if tag == "a" {
        var t := "[" + TextOf(n) + "]";
        assert IsBracketed(t);
      } else {
        forall k | 0 <= k < |cs| ensures AnchorsFormatted(FormatLinksAll(cs)[k]) {
          FormatLinksAllAt(cs, k);
          FormatLinksFormats(cs[k]);
        }
      }
  }

  /** A tree without anchors comes out of the rewrite unchanged. */
  lemma {:induction false} FormatLinksIdentity(n: OutNode)
    requires NoAnchors(n)
    ensures FormatLinks(n) == n
    decreases n
  {
    match n
    case OText(_) =>
    case OElem(tag, attrs, cs) =>
      forall k | 0 <= k < |cs| ensures FormatLinksAll(cs)[k] == cs[k] {
        FormatLinksAllAt(cs, k);
        FormatLinksIdentity(cs[k]);
      }
  }

  /** The rewrite below the root formats every anchor under the root and keeps the root. */
  lemma FormatNestedLinksFormats(n: OutNode)
    requires n.OElem? && n.tag != "a"
    ensures AnchorsFormatted(FormatNestedLinks(n))
    ensures FormatNestedLinks(n).tag == n.tag && FormatNestedLinks(n).attrs == n.attrs
  {
    forall k | 0 <= k < |n.children| ensures AnchorsFormatted(FormatLinksAll(n.children)[k]) {
      FormatLinksAllAt(n.children, k);
      FormatLinksFormats(n.children[k]);
    }
  }

  /** Where there is no anchor the rewrite below the root changes nothing. */
  lemma FormatNestedLinksIdentity(n: OutNode)
    requires NoAnchors(n)
    ensures FormatNestedLinks(n) == n
  {
    if n.OElem? {
      FormatLinksIdentity(n);
    }
  }

  /** The node reached from `n` by following the child indices of `p`, if there is one. */
  function NodeAt(n: OutNode, p: seq<nat>): Option<OutNode>
    decreases p
  {
    if p == [] then Some(n)
    else if n.OElem? && p[0] < |n.children| then NodeAt(n.children[p[0]], p[1..])
    else None
  }

  /** `p` leads somewhere in `n` through elements none of which is an anchor. */
  predicate NoAnchorAbove(n: OutNode, p: seq<nat>)
    decreases p
  {
    p == [] || (n.OElem? && n.tag != "a" && p[0] < |n.children| && NoAnchorAbove(n.children[p[0]], p[1..]))
  }

  /**
   * Each anchor the rewrite meets, that is each anchor with no anchor above
   * it, ends up in the same place with its own text in brackets, its
   * attributes kept and a `title` equal to its `href`.
   */
  lemma {:induction false} AnchorRewrittenAt(n: OutNode, p: seq<nat>)
    requires NoAnchorAbove(n, p)
    requires NodeAt(n, p).Some? && NodeAt(n, p).value.OElem? && NodeAt(n, p).value.tag == "a"
    ensures var a := NodeAt(n, p).value;
      NodeAt(FormatLinks(n), p) == Some(OElem("a", a.attrs["title" := Href(a.attrs)], [OText("[" + TextOf(a) + "]")]))
    decreases p
  {
    if p != [] {
      FormatLinksAllAt(n.children, p[0]);
      AnchorRewrittenAt(n.children[p[0]], p[1..]);
    }
  }

  /**
   * Everything else the rewrite meets stays where it was: a text node
   * unchanged, an element with its tag, its attributes and as many children.
   */
  lemma {:induction false} NonAnchorKeptAt(n: OutNode, p: seq<nat>)
    requires NoAnchorAbove(n, p)
    requires NodeAt(n, p).Some? && !(NodeAt(n, p).value.OElem? && NodeAt(n, p).value.tag == "a")
    ensures var m := NodeAt(n, p).value; var r := NodeAt(FormatLinks(n), p);
      && r.Some?
      && (m.OText? ==> r.value == m)
      && (m.OElem? ==> r.value.OElem? && r.value.tag == m.tag && r.value.attrs == m.attrs
                       && |r.value.children| == |m.children|)
    decreases p
  {
    if p != [] {
      FormatLinksAllAt(n.children, p[0]);
      NonAnchorKeptAt(n.children[p[0]], p[1..]);
    }
  }

  /** The rewrite of a single anchor, on an example: `source` linking to `https://x.test`. */
  lemma AnchorExample()
    ensures FormatLinks(OElem("a", map["href" := "https://x.test"], [OText("source")]))
         == OElem("a", map["href" := "https://x.test", "title" := "https://x.test"], [OText("[source]")])
  {
    var n := OElem("a", map["href" := "https://x.test"], [OText("source")]);
    assert TextOf(n) == "source" by {
      assert TextOfAll([OText("source")]) == "source" + TextOfAll([]);
    }
    assert Href(n.attrs) == "https://x.test";
    assert "[" + "source" + "]" == "[source]";
  }
}
