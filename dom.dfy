/**
 * The page as an abstract element tree: a sequence of nodes in document
 * order, each pointing at its parent by index. Rendering-dependent values
 * (`innerText`, `clientHeight`, `offsetWidth`, `naturalWidth`,
 * `naturalHeight`) are plain inputs on each element.
 *
 * Only the fixed simple selectors that the extractor uses are modelled:
 * a tag, a class token, an id, a tag with a class, an attribute equality
 * (ASCII case-insensitive for the attributes, such as `rel`, whose values
 * HTML documents compare that way), and a tag with an attribute equality. A selector list `a, b` matches an
 * element that matches any of its members.
 */
module Dom {
  import opened Wrappers
  import opened Strings

  /** An element (tag name stored lower-case) or a text node. */
  datatype Node =
    | Element(tag: string, attrs: map<string, string>, innerText: string,
              clientHeight: nat, offsetWidth: nat, naturalWidth: nat, naturalHeight: nat,
              parent: Option<nat>)
    | Text(data: string, parent: Option<nat>)

  /** The page: its nodes in document order, the index of `body`, and `document.title`. */
  datatype Document = Document(nodes: seq<Node>, body: nat, title: string)

  /** `a` is a proper ancestor of node `j`: reachable by following parent links. */
  predicate IsAncestor(nodes: seq<Node>, a: int, j: int)
    ensures IsAncestor(nodes, a, j) ==> 0 <= a < j < |nodes|
    decreases j
  {
    && 0 <= j < |nodes|
    && nodes[j].parent.Some?
    && nodes[j].parent.value < j
    && (nodes[j].parent.value == a || IsAncestor(nodes, a, nodes[j].parent.value))
  }

  /**
   * A DOM tree: node 0 is the root, every other node has an element parent
   * earlier in the sequence, the nodes are laid out in preorder (everything
   * between a parent and its child lies inside the parent), and `body` is an
   * element.
   */
  predicate WellFormed(doc: Document) {
    var nodes := doc.nodes;
    && |nodes| > 0
    && nodes[0].parent.None?
    && (forall j :: 0 < j < |nodes| ==>
          nodes[j].parent.Some? && nodes[j].parent.value < j && nodes[nodes[j].parent.value].Element?)
    && (forall j, k :: 0 < j < |nodes| && nodes[j].parent.Some? && nodes[j].parent.value < k < j ==>
          IsAncestor(nodes, nodes[j].parent.value, k))
    && doc.body < |nodes|
    && nodes[doc.body].Element?
  }

  /** `getAttribute(name)`, with a missing attribute read as "". */
  function Attr(n: Node, name: string): string {
    if n.Element? && name in n.attrs then n.attrs[name] else ""
  }

  /** `element.id` */
  function Id(n: Node): string { Attr(n, "id") }

  /** `element.className`: the raw `class` attribute. */
  function ClassName(n: Node): string { Attr(n, "class") }

  /** `innerText` of an element; text nodes have none. */
  function InnerText(n: Node): string { if n.Element? then n.innerText else "" }

  /** ASCII whitespace, which separates the tokens of a `class` attribute. */
  predicate IsAsciiWhitespace(c: char) {
    c == ' ' || c == '\t' || c == '\n' || c == '\U{C}' || c == '\r'
  }

  /** The token `c` stands in `s` at index `i`, delimited by whitespace or the ends of `s`. */
  predicate TokenAt(s: string, c: string, i: int) {
    && 0 <= i && i + |c| <= |s|
    && s[i..i + |c|] == c
    && (i == 0 || IsAsciiWhitespace(s[i - 1]))
    && (i + |c| == |s| || IsAsciiWhitespace(s[i + |c|]))
  }

  /** `c` is one of the whitespace-separated tokens of `s` (`classList.contains`). */
  predicate HasToken(s: string, c: string) {
    c != "" && exists i :: 0 <= i <= |s| && TokenAt(s, c, i)
  }

  datatype Selector =
    | Tag(name: string)                                  // `article`
    | Class(name: string)                                // `.entry-content`
    | IdIs(name: string)                                 // `#storytext`
    | TagClass(tagName: string, className: string)       // `article.story`
    | AttrIs(attr: string, value: string)                // `[role="main"]`
    | AttrIsNoCase(attr: string, value: string)          // `[rel="author"]`, ASCII case-insensitive
    | TagAttr(tagName: string, attr: string, value: string)  // `meta[name="author"]`

  predicate HasAttr(n: Node, attr: string, value: string) {
    n.Element? && attr in n.attrs && n.attrs[attr] == value
  }

  /** Whether node `n` matches the simple selector `s`; text nodes match nothing. */
  predicate Matches(n: Node, s: Selector) {
    n.Element? &&
    match s
    case Tag(t) => n.tag == t
    case Class(c) => HasToken(ClassName(n), c)
    case IdIs(i) => Id(n) == i
    case TagClass(t, c) => n.tag == t && HasToken(ClassName(n), c)
    case AttrIs(a, v) => HasAttr(n, a, v)
    case AttrIsNoCase(a, v) => a in n.attrs && AsciiLower(n.attrs[a]) == AsciiLower(v)
    case TagAttr(t, a, v) => n.tag == t && HasAttr(n, a, v)
  }

  /** Whether `n` matches the selector list `sels` (`sels[0], sels[1], …`). */
  predicate MatchesAny(n: Node, sels: seq<Selector>) {
    exists k :: 0 <= k < |sels| && Matches(n, sels[k])
  }

  /** The first node at index `k` or later that matches `sels`. */
  function FirstFrom(nodes: seq<Node>, sels: seq<Selector>, k: nat): (r: Option<nat>)
    ensures r.Some? ==>
      && k <= r.value < |nodes|
      && MatchesAny(nodes[r.value], sels)
      && forall i :: k <= i < r.value ==> !MatchesAny(nodes[i], sels)
    ensures r.None? ==> forall i :: k <= i < |nodes| ==> !MatchesAny(nodes[i], sels)
    decreases |nodes| - k
  {
    if k >= |nodes| then None
    else if MatchesAny(nodes[k], sels) then Some(k)
    else FirstFrom(nodes, sels, k + 1)
  }

  /** `document.querySelector(sels)`: the first matching element in document order. */
  function QuerySelector(nodes: seq<Node>, sels: seq<Selector>): (r: Option<nat>)
    ensures r.Some? ==> r.value < |nodes| && MatchesAny(nodes[r.value], sels)
    ensures r.Some? ==> forall i :: 0 <= i < r.value ==> !MatchesAny(nodes[i], sels)
    ensures r.None? ==> forall i :: 0 <= i < |nodes| ==> !MatchesAny(nodes[i], sels)
  {
    FirstFrom(nodes, sels, 0)
  }

  predicate Increasing(s: seq<nat>) {
    forall a, b :: 0 <= a < b < |s| ==> s[a] < s[b]
  }

  /** The descendants of `root` at index `k` or later that match `sels`, in document order. */
  function MatchingDescendantsFrom(nodes: seq<Node>, root: nat, sels: seq<Selector>, k: nat): (r: seq<nat>)
    ensures forall x :: x in r <==>
      k <= x < |nodes| && IsAncestor(nodes, root, x) && MatchesAny(nodes[x], sels)
    ensures Increasing(r)
    ensures forall a :: 0 <= a < |r| ==> k <= r[a] < |nodes|
    decreases |nodes| - k
  {
    if k >= |nodes| then []
    else
      var rest := MatchingDescendantsFrom(nodes, root, sels, k + 1);
      if IsAncestor(nodes, root, k) && MatchesAny(nodes[k], sels) then [k] + rest else rest
  }

  /**
   * `root.querySelectorAll(sels)`: every proper descendant of `root` that
   * matches, each once, in document order.
   */
  function QueryAll(nodes: seq<Node>, root: nat, sels: seq<Selector>): (r: seq<nat>)
    ensures forall x :: x in r <==> x < |nodes| && IsAncestor(nodes, root, x) && MatchesAny(nodes[x], sels)
    ensures Increasing(r)
    ensures forall a :: 0 <= a < |r| ==> r[a] < |nodes|
  {
    MatchingDescendantsFrom(nodes, root, sels, 0)
  }

  /**
   * `nodes[j].closest(sels)`: the nearest of `j` itself and its ancestors
   * that matches `sels`.
   */
  function Closest(nodes: seq<Node>, j: nat, sels: seq<Selector>): (r: Option<nat>)
    requires j < |nodes|
    ensures r.Some? ==>
      && r.value <= j
      && MatchesAny(nodes[r.value], sels)
      && (r.value == j || IsAncestor(nodes, r.value, j))
    ensures r.None? <==>
      && !MatchesAny(nodes[j], sels)
      && forall a :: IsAncestor(nodes, a, j) ==> !MatchesAny(nodes[a], sels)
    decreases j
  {
    if MatchesAny(nodes[j], sels) then Some(j)
    else if nodes[j].parent.Some? && nodes[j].parent.value < j then
      Closest(nodes, nodes[j].parent.value, sels)
    else None
  }
}
