/**
 * The rest of the content script: the node filter, the per-node rewrites,
 * the body loop, the content wrapper, and the guard that keeps the script
 * from building a second overlay.
 */
module Assembly {
  import opened Wrappers
  import opened Dom
  import opened Output
  import opened Locator
  import opened Metadata

  /** `p, h2, h3, h4, img, pre, ul, ol, blockquote` */
  const ContentSelectors: seq<Selector> := [
    Tag("p"), Tag("h2"), Tag("h3"), Tag("h4"), Tag("img"),
    Tag("pre"), Tag("ul"), Tag("ol"), Tag("blockquote")
  ]

  /** The junk markers tested on a node and all its ancestors. */
  const JunkSelectors: seq<Selector> := [
    Class("sr-only"), Class("visually-hidden"), Class("screen-reader-text"),
    AttrIs("aria-hidden", "true"), Class("ad"), Class("advertisement"),
    Tag("footer"), Class("footer"), Class("comments"), IdIs("comments"),
    Class("related-posts"), Class("author-bio"), Class("social-links")
  ]

  /** `.ad, .advertisement`, tested again on images. */
  const AdSelectors: seq<Selector> := [Class("ad"), Class("advertisement")]

  predicate ContentTag(t: string) {
    t == "p" || t == "h2" || t == "h3" || t == "h4" || t == "img"
    || t == "pre" || t == "ul" || t == "ol" || t == "blockquote"
  }

  predicate HeadingTag(t: string) {
    t == "h2" || t == "h3" || t == "h4"
  }

  /** The tag of an element, "" for a text node. */
  function TagOf(n: Node): string {
    if n.Element? then n.tag else ""
  }

  /** `sels` marks node `j` or one of its ancestors, up to the root of the page. */
  predicate MarkedWithin(nodes: seq<Node>, j: nat, sels: seq<Selector>)
    requires j < |nodes|
  {
    MatchesAny(nodes[j], sels)
    || exists a :: 0 <= a < j && IsAncestor(nodes, a, j) && MatchesAny(nodes[a], sels)
  }

  /** The image gate: a source, at least 100x100 natural pixels, at least 50 rendered pixels wide, no ad marker. */
  predicate ImageUsable(nodes: seq<Node>, j: nat)
    requires j < |nodes|
  {
    var n := nodes[j];
    && Attr(n, "src") != ""
    && n.Element? && n.naturalWidth >= 100 && n.naturalHeight >= 100 && n.offsetWidth >= 50
    && !MarkedWithin(nodes, j, AdSelectors)
  }

  /** The filter's verdict: no junk marker on the node or above it, and an image also passes its gate. */
  predicate Keep(nodes: seq<Node>, j: nat)
    requires j < |nodes|
    ensures Keep(nodes, j) <==>
      && Closest(nodes, j, JunkSelectors).None?
      && (TagOf(nodes[j]) == "img" ==>
            && Attr(nodes[j], "src") != ""
            && nodes[j].naturalWidth >= 100 && nodes[j].naturalHeight >= 100 && nodes[j].offsetWidth >= 50
            && Closest(nodes, j, AdSelectors).None?)
  {
    && !MarkedWithin(nodes, j, JunkSelectors)
    && (TagOf(nodes[j]) == "img" ==> ImageUsable(nodes, j))
  }

  /** Every entry of `cs` is the index of a node. */
  predicate Indices(nodes: seq<Node>, cs: seq<nat>) {
    forall k :: 0 <= k < |cs| ==> cs[k] < |nodes|
  }

  /** The candidate nodes: `container.querySelectorAll(...)` over the content tags. */
  function Candidates(nodes: seq<Node>, container: nat): (cs: seq<nat>)
    ensures Indices(nodes, cs)
  {
    QueryAll(nodes, container, ContentSelectors)
  }

  /** Exactly the descendants of the container with a content tag, each once, in document order. */
  lemma CandidatesExactly(nodes: seq<Node>, container: nat, x: nat)
    ensures x in Candidates(nodes, container) <==>
      x < |nodes| && IsAncestor(nodes, container, x) && nodes[x].Element? && ContentTag(nodes[x].tag)
    ensures Increasing(Candidates(nodes, container))
  {
    if x < |nodes| && nodes[x].Element? && ContentTag(nodes[x].tag) {
      var t := nodes[x].tag;
      var k := if t == "p" then 0 else if t == "h2" then 1 else if t == "h3" then 2
        else if t == "h4" then 3 else if t == "img" then 4 else if t == "pre" then 5
        else if t == "ul" then 6 else if t == "ol" then 7 else 8;
      assert Matches(nodes[x], ContentSelectors[k]);
    }
  }

  /** The `tagName === 'a'` branch is dead: no candidate is an anchor. */
  lemma NoCandidateIsAnchor(nodes: seq<Node>, container: nat, x: nat)
    requires x in Candidates(nodes, container)
    ensures TagOf(nodes[x]) != "a"
  {
    CandidatesExactly(nodes, container, x);
  }

  /** The presentational wrapper of a kept image. */
  function ImageWrapper(img: OutNode): OutNode {
    OElem("div", map["class" := "terminal-image-wrapper"], [img])
  }

  /** What the body receives for a kept node `j`. */
  function Emit(nodes: seq<Node>, j: nat): (r: OutNode)
    requires j < |nodes|
    ensures nodes[j].Element? && nodes[j].tag != "img" ==>
      r.OElem? && r.tag == nodes[j].tag && r.attrs == nodes[j].attrs
    ensures nodes[j].Element? && nodes[j].tag == "img" ==>
      && r.OElem? && r.tag == "div" && r.attrs == map["class" := "terminal-image-wrapper"]
      && |r.children| == 1 && r.children[0].OElem? && r.children[0].tag == "img"
  {
    var clone := Clone(nodes, j);
    var tag := TagOf(nodes[j]);
    var rewritten := if HeadingTag(tag) then SetText(clone, "-> " + TextOf(clone)) else clone;
    var linked := FormatNestedLinks(rewritten);
    if tag == "img" then ImageWrapper(linked) else linked
  }

  /**
   * A heading becomes its tag with `-> ` before its text and no anchor left;
   * an image is wrapped, alone, in a `terminal-image-wrapper` div; any other
   * node keeps its tag and attributes with its anchors rewritten.
   */
  lemma EmitShape(nodes: seq<Node>, j: nat)
    requires j < |nodes| && nodes[j].Element?
    ensures var e := Emit(nodes, j); var tag := nodes[j].tag;
      && (HeadingTag(tag) ==>
            && e.OElem? && e.tag == tag && e.attrs == nodes[j].attrs
            && TextOf(e) == "-> " + TextOf(Clone(nodes, j)) && NoAnchors(e))
      && (tag == "img" ==>
            && e.OElem? && e.tag == "div" && e.attrs == map["class" := "terminal-image-wrapper"]
            && |e.children| == 1 && e.children[0].OElem?
            && e.children[0].tag == "img" && e.children[0].attrs == nodes[j].attrs
            && AnchorsFormatted(e.children[0])
            && e.children[0] == FormatLinks(Clone(nodes, j))
            && (NoAnchors(Clone(nodes, j)) ==> e.children[0] == Clone(nodes, j)))
      && (!HeadingTag(tag) && tag != "img" && tag != "a" ==>
            && e.OElem? && e.tag == tag && e.attrs == nodes[j].attrs && AnchorsFormatted(e)
            && e == FormatLinks(Clone(nodes, j))
            && (NoAnchors(Clone(nodes, j)) ==> e == Clone(nodes, j)))
  {
    var clone := Clone(nodes, j);
    var tag := nodes[j].tag;
    if HeadingTag(tag) {
      var h := SetText(clone, "-> " + TextOf(clone));
      assert NoAnchors(h) by {
        assert h.children == [OText("-> " + TextOf(clone))];
      }
      FormatNestedLinksIdentity(h);
    } else if tag != "a" {
      FormatNestedLinksFormats(clone);
      if NoAnchors(clone) {
        FormatNestedLinksIdentity(clone);
      }
    }
  }

  /** The kept candidates, in their order. */
  function Kept(nodes: seq<Node>, cs: seq<nat>): (r: seq<nat>)
    requires Indices(nodes, cs)
    ensures Indices(nodes, r)
  {
    if cs == [] then []
    else
      var last := cs[|cs| - 1];
      Kept(nodes, cs[..|cs| - 1]) + (if Keep(nodes, last) then [last] else [])
  }

  /** The body items for the candidates `cs`: one per kept candidate. */
  function Body(nodes: seq<Node>, cs: seq<nat>): seq<OutNode>
    requires Indices(nodes, cs)
  {
    if cs == [] then []
    else
      var last := cs[|cs| - 1];
      Body(nodes, cs[..|cs| - 1]) + (if Keep(nodes, last) then [Emit(nodes, last)] else [])
  }

  /** A candidate is kept exactly when the filter keeps it, and the kept ones keep their order. */
  lemma {:induction false} KeptExactly(nodes: seq<Node>, cs: seq<nat>)
    requires Indices(nodes, cs)
    ensures forall x :: x in Kept(nodes, cs) <==> x in cs && Keep(nodes, x)
    ensures Increasing(cs) ==> Increasing(Kept(nodes, cs))
  {
    if cs != [] {
      var init := cs[..|cs| - 1];
      var last := cs[|cs| - 1];
      assert cs == init + [last];
      KeptExactly(nodes, init);
      if Increasing(cs) {
        assert Increasing(init);
        var ki := Kept(nodes, init);
        if Keep(nodes, last) {
          forall a, b | 0 <= a < b < |ki| + 1 ensures (ki + [last])[a] < (ki + [last])[b] {
            if b == |ki| {
              assert ki[a] in init;
              var i :| 0 <= i < |init| && init[i] == ki[a];
              assert cs[i] == init[i] && cs[|cs| - 1] == last;
            }
          }
        }
      }
    }
  }

  /** The `k`-th body item is the emitted form of the `k`-th kept candidate. */
  lemma {:induction false} BodyFollowsKept(nodes: seq<Node>, cs: seq<nat>)
    requires Indices(nodes, cs)
    ensures |Body(nodes, cs)| == |Kept(nodes, cs)|
    ensures forall k :: 0 <= k < |Body(nodes, cs)| ==> Body(nodes, cs)[k] == Emit(nodes, Kept(nodes, cs)[k])
  {
    if cs != [] {
      BodyFollowsKept(nodes, cs[..|cs| - 1]);
    }
  }

  /**
   * A kept candidate inside another kept candidate is emitted on its own as
   * well as inside the copy of the outer one: its content appears twice.
   */
  lemma NestedCandidateTwice(doc: Document, container: nat, x: nat, y: nat)
    requires WellFormed(doc)
    requires x in Candidates(doc.nodes, container) && y in Candidates(doc.nodes, container)
    requires IsAncestor(doc.nodes, x, y)
    requires Keep(doc.nodes, x) && Keep(doc.nodes, y)
    ensures x in Kept(doc.nodes, Candidates(doc.nodes, container))
    ensures y in Kept(doc.nodes, Candidates(doc.nodes, container))
    ensures Within(Clone(doc.nodes, y), Clone(doc.nodes, x))
    ensures doc.nodes[x].Element? && !HeadingTag(doc.nodes[x].tag) && doc.nodes[x].tag != "img"
            && NoAnchors(Clone(doc.nodes, x))
            ==> Within(Clone(doc.nodes, y), Emit(doc.nodes, x))
  {
    KeptExactly(doc.nodes, Candidates(doc.nodes, container));
    CloneHoldsDescendant(doc, x, y);
    if doc.nodes[x].Element? {
      EmitShape(doc.nodes, x);
    }
  }

  /** The image gate's own `.ad`/`.advertisement` test never fires on a node the junk test let through. */
  lemma AdCheckRedundant(nodes: seq<Node>, j: nat)
    requires j < |nodes|
    requires !MarkedWithin(nodes, j, JunkSelectors)
    ensures !MarkedWithin(nodes, j, AdSelectors)
  {
    assert AdSelectors[0] == JunkSelectors[4] && AdSelectors[1] == JunkSelectors[5];
    forall n: Node | MatchesAny(n, AdSelectors) ensures MatchesAny(n, JunkSelectors) {
      if Matches(n, AdSelectors[0]) {
        assert Matches(n, JunkSelectors[4]);
      } else {
        assert Matches(n, JunkSelectors[5]);
      }
    }
  }

  /**
   * For an image that passed the junk test, the image gate comes down to its
   * geometry and source: kept exactly when `src` is non-empty, it is at least
   * 100x100 natural pixels and at least 50 pixels wide as rendered.
   */
  lemma ImageKeptBySize(nodes: seq<Node>, j: nat)
    requires j < |nodes| && nodes[j].Element? && nodes[j].tag == "img"
    requires !MarkedWithin(nodes, j, JunkSelectors)
    ensures Keep(nodes, j) <==>
      && Attr(nodes[j], "src") != ""
      && nodes[j].naturalWidth >= 100 && nodes[j].naturalHeight >= 100
      && nodes[j].offsetWidth >= 50
  {
    AdCheckRedundant(nodes, j);
  }

  /**
   * The `contentNodes.forEach` loop: skip junk, clone, rewrite headings and
   * nested anchors, gate and wrap images, append to the body in order.
   */
  method BuildBody(nodes: seq<Node>, container: nat) returns (items: seq<OutNode>)
    ensures items == Body(nodes, Candidates(nodes, container))
  {
    var contentNodes := Candidates(nodes, container);
    items := [];
    for i := 0 to |contentNodes|
      invariant items == Body(nodes, contentNodes[..i])
    {
      var node := contentNodes[i];
      assert contentNodes[..i + 1][..i] == contentNodes[..i];
      assert node in contentNodes;
      if Closest(nodes, node, JunkSelectors).Some? {
        continue;
      }
      var clonedNode := Clone(nodes, node);
      var tagName := TagOf(nodes[node]);
      if HeadingTag(tagName) {
        clonedNode := SetText(clonedNode, "-> " + TextOf(clonedNode));
      }
      clonedNode := FormatNestedLinks(clonedNode);
      if tagName == "img" {
        var n := nodes[node];
        if Attr(n, "src") == "" || n.naturalWidth < 100 || n.naturalHeight < 100 || n.offsetWidth < 50
          || Closest(nodes, node, AdSelectors).Some?
        {
          continue;
        }
        items := items + [ImageWrapper(clonedNode)];
        continue;
      }
      items := items + [clonedNode];
    }
    assert contentNodes[..|contentNodes|] == contentNodes;
  }

  const TitleHeadingPrefix: string := "> LOAD_DATA: \""
  const BylinePrefix: string := "//_SOURCE_ACKNOWLEDGED: \""

  function TitleHeading(title: string): OutNode {
    OElem("h1", map[], [OText(TitleHeadingPrefix + title + "\"")])
  }

  function BylineNode(author: string): OutNode {
    OElem("p", map["class" := "byline"], [OText(BylinePrefix + author + "\"")])
  }

  /** The blinking cursor that closes the content. */
  const Cursor: OutNode := OElem("span", map["class" := "terminal-cursor"], [OText("_")])

  /** The title heading, then the byline when the author is truthy. */
  function Header(title: string, author: Option<string>): seq<OutNode> {
    [TitleHeading(title)] + (if HasByline(author) then [BylineNode(author.value)] else [])
  }

  /** The `terminal-content` div: the header, the body items, the cursor. */
  function Content(title: string, author: Option<string>, items: seq<OutNode>): OutNode {
    OElem("div", map["class" := "terminal-content"], Header(title, author) + items + [Cursor])
  }

  /** The content for page `doc` when the container is `c`. */
  function ContentWrapper(doc: Document, c: nat): OutNode {
    Content(ArticleTitle(doc), ArticleAuthor(doc), Body(doc.nodes, Candidates(doc.nodes, c)))
  }

  /**
   * The content holds, in order: the title heading, the byline exactly when
   * the author is truthy, the body items, and the cursor last.
   */
  lemma ContentLayout(title: string, author: Option<string>, items: seq<OutNode>)
    ensures var cs := Content(title, author, items).children;
      var b := if HasByline(author) then 1 else 0;
      && |cs| == 2 + b + |items|
      && cs[0] == TitleHeading(title)
      && (b == 1 ==> cs[1] == BylineNode(author.value))
      && (forall k :: 0 <= k < |items| ==> cs[1 + b + k] == items[k])
      && cs[|cs| - 1] == Cursor
  {
  }

  /** Sections 3 and 4 of the script: the content wrapper, title, byline, container, body loop, cursor. */
  method Extract(doc: Document) returns (contentWrapper: OutNode)
    requires WellFormed(doc)
    ensures exists c :: LocatorResult(doc, c) && contentWrapper == ContentWrapper(doc, c)
  {
    var title := ArticleTitle(doc);
    var children := [TitleHeading(title)];
    var author := ArticleAuthor(doc);
    if author.Some? && author.value != "" {
      children := children + [BylineNode(author.value)];
    }
    assert children == Header(title, author);
    var articleBody := FindArticleContainer(doc);
    var items := BuildBody(doc.nodes, articleBody);
    children := children + items + [Cursor];
    contentWrapper := OElem("div", map["class" := "terminal-content"], children);
    assert LocatorResult(doc, articleBody);
  }

  const OverlayId: string := "terminal-view-overlay"

  const ExitButton: OutNode := OElem("button", map["id" := "terminal-exit-btn"], [OText("[X] CLOSE")])

  function Overlay(content: OutNode): OutNode {
    OElem("div", map["id" := OverlayId], [ExitButton, content])
  }

  /** Some element of the tree `n` has id `id`. */
  predicate HasId(n: OutNode, id: string)
    decreases n
  {
    match n
    case OText(_) => false
    case OElem(_, attrs, cs) =>
      ("id" in attrs && attrs["id"] == id) || exists k :: 0 <= k < |cs| && HasId(cs[k], id)
  }

  /**
   * The host page: the source tree, never changed, and the overlays that
   * runs of the script have appended to its `body`.
   */
  class Page {
    const doc: Document
    var injected: seq<OutNode>

    constructor (doc: Document)
      ensures this.doc == doc && injected == []
    {
      this.doc := doc;
      injected := [];
    }

    /** `document.getElementById('terminal-view-overlay')` finds an element. */
    predicate OverlayPresent()
      reads this
      ensures (exists content :: Overlay(content) in injected) ==> OverlayPresent()
    {
      || (exists j :: 0 <= j < |doc.nodes| && Matches(doc.nodes[j], IdIs(OverlayId)))
      || (exists k :: 0 <= k < |injected| && HasId(injected[k], OverlayId))
    }

    /** One run of the content script. */
    method Run()
      requires WellFormed(doc)
      modifies this`injected
      ensures old(OverlayPresent()) ==> injected == old(injected)
      ensures !old(OverlayPresent()) ==>
        exists c :: LocatorResult(doc, c) && injected == old(injected) + [Overlay(ContentWrapper(doc, c))]
      ensures OverlayPresent()
    {
      if OverlayPresent() {
        return;
      }
      var contentWrapper := Extract(doc);
      var overlay := Overlay(contentWrapper);
      injected := injected + [overlay];
      assert HasId(injected[|injected| - 1], OverlayId);
    }
  }

  /** Two runs in a row build one overlay at most: the second run changes nothing. */
  method RunTwice(page: Page)
    requires WellFormed(page.doc)
    modifies page
    ensures old(page.OverlayPresent()) ==> page.injected == old(page.injected)
    ensures !old(page.OverlayPresent()) ==>
      exists c :: LocatorResult(page.doc, c) && page.injected == old(page.injected) + [Overlay(ContentWrapper(page.doc, c))]
  {
    page.Run();
    ghost var afterFirst := page.injected;
    page.Run();
    assert page.injected == afterFirst;
  }
}
