/**
 * `findArticleContainer`: which element of the page holds the article.
 *
 * Stage 1 tries an ordered list of selectors and takes the first match of
 * the first selector whose match is long enough and is not a listing of
 * articles. Stage 2 scores every `div`/`main` that passes a set of gates and
 * keeps the highest score, earliest on ties. Stage 3 falls back to `body`.
 */
module Locator {
  import opened Wrappers
  import opened Strings
  import opened Dom

  /** The Stage 1 selectors, in priority order. */
  const SpecificSelectors: seq<Selector> := [
    Tag("article"),
    Class("article-content"),
    IdIs("storytext"),
    Class("storytext"),
    TagClass("article", "story"),
    Class("entry-content"),
    Class("post-content"),
    Class("article-body"),
    IdIs("main-content"),
    IdIs("article-body"),
    AttrIs("role", "main")
  ]

  const MinTextLength: nat := 500
  const MaxNestedArticles: nat := 3

  /** Stage 1's test of a selector's first match: enough text, and not a list of articles. */
  predicate Accepts(doc: Document, e: nat)
    requires e < |doc.nodes|
  {
    && Utf16Length(InnerText(doc.nodes[e])) > MinTextLength
    && |QueryAll(doc.nodes, e, [Tag("article")])| <= MaxNestedArticles
  }

  /** The first match of selector `s` exists and passes Stage 1's test. */
  predicate FirstMatchAccepted(doc: Document, s: Selector) {
    var m := QuerySelector(doc.nodes, [s]);
    m.Some? && Accepts(doc, m.value)
  }

  /**
   * Stage 1 picks `e`: `e` is the first match of the `k`-th selector, it
   * passes the test, and no earlier selector's first match does.
   */
  ghost predicate CascadePicks(doc: Document, e: nat) {
    exists k :: 0 <= k < |SpecificSelectors|
      && QuerySelector(doc.nodes, [SpecificSelectors[k]]) == Some(e)
      && Accepts(doc, e)
      && forall k' :: 0 <= k' < k ==> !FirstMatchAccepted(doc, SpecificSelectors[k'])
  }

  /** Stage 1 finds nothing: no selector's first match passes the test. */
  ghost predicate CascadeFails(doc: Document) {
    forall k :: 0 <= k < |SpecificSelectors| ==> !FirstMatchAccepted(doc, SpecificSelectors[k])
  }

  /** Stage 1: the `for … of specificSelectors` loop with its early `continue` and `return`. */
  method SelectorCascade(doc: Document) returns (r: Option<nat>)
    ensures r.Some? ==> r.value < |doc.nodes| && CascadePicks(doc, r.value)
    ensures r.None? ==> CascadeFails(doc)
  {
    for i := 0 to |SpecificSelectors|
      invariant forall k :: 0 <= k < i ==> !FirstMatchAccepted(doc, SpecificSelectors[k])
    {
      var specificElement := QuerySelector(doc.nodes, [SpecificSelectors[i]]);
      if specificElement.Some?
        && Utf16Length(InnerText(doc.nodes[specificElement.value])) > MinTextLength
      {
        var nestedArticles := QueryAll(doc.nodes, specificElement.value, [Tag("article")]);
        if |nestedArticles| > MaxNestedArticles {
          continue;
        }
        return specificElement;
      }
    }
    return None;
  }

  /** The keywords whose presence in `id + className` rules a container out. */
  const DenyKeywords: seq<string> := ["nav", "footer", "sidebar", "comment", "header", "menu"]

  /** The landmark tags (`closest('article, main')`). */
  const Landmarks: seq<Selector> := [Tag("article"), Tag("main")]

  /** The lower-cased `id` and `className`, joined with no separator. */
  function IdAndClass(n: Node): string {
    AsciiLower(Id(n) + ClassName(n))
  }

  /** The id/class text contains one of the denied keywords as a raw substring. */
  predicate Denied(n: Node) {
    exists k :: 0 <= k < |DenyKeywords| && Contains(IdAndClass(n), DenyKeywords[k])
  }

  function ParagraphCount(doc: Document, j: nat): nat {
    |QueryAll(doc.nodes, j, [Tag("p")])|
  }

  function LinkCount(doc: Document, j: nat): nat {
    |QueryAll(doc.nodes, j, [Tag("a")])|
  }

  /**
   * Stage 2's gates, stated declaratively: a `div` or `main`, no denied
   * keyword, a `div` sits under no `article`/`main`, at least 300 pixels
   * high, at least three paragraphs.
   */
  predicate Eligible(doc: Document, j: nat)
    requires j < |doc.nodes|
  {
    var n := doc.nodes[j];
    && n.Element?
    && (n.tag == "div" || n.tag == "main")
    && !Denied(n)
    && (n.tag == "main" || forall a :: 0 <= a < j && IsAncestor(doc.nodes, a, j) ==> !MatchesAny(doc.nodes[a], Landmarks))
    && n.clientHeight >= 300
    && ParagraphCount(doc, j) >= 3
  }

  /**
   * The density score `pCount * 20 + textLength / 10`, divided by
   * `linkCount - pCount + 1` when there are more links than paragraphs.
   */
  function DensityScore(pCount: nat, linkCount: nat, textLength: nat): (score: real)
    ensures score >= 0.0
    ensures linkCount <= pCount ==> score >= (pCount * 20) as real
  {
    var base := (pCount * 20) as real + (textLength as real) / 10.0;
    if linkCount > pCount then
      var divisor := (linkCount - pCount + 1) as real;
      assert base / divisor >= 0.0;
      base / divisor
    else base
  }

  function Score(doc: Document, j: nat): real
    requires j < |doc.nodes|
  {
    DensityScore(ParagraphCount(doc, j), LinkCount(doc, j), Utf16Length(InnerText(doc.nodes[j])))
  }

  /** `e` is eligible, scores highest, and every earlier eligible element scores strictly less. */
  ghost predicate IsBestCandidate(doc: Document, e: nat) {
    && e < |doc.nodes|
    && Eligible(doc, e)
    && (forall j :: 0 <= j < |doc.nodes| && Eligible(doc, j) ==> Score(doc, j) <= Score(doc, e))
    && (forall j :: 0 <= j < e && Eligible(doc, j) ==> Score(doc, j) < Score(doc, e))
  }

  ghost predicate NoEligible(doc: Document) {
    forall j :: 0 <= j < |doc.nodes| ==> !Eligible(doc, j)
  }

  /** `closest('article, main')` finds something for a `div` exactly when a proper ancestor is a landmark. */
  lemma DivUnderLandmark(doc: Document, j: nat)
    requires j < |doc.nodes| && doc.nodes[j].Element? && doc.nodes[j].tag == "div"
    ensures Closest(doc.nodes, j, Landmarks).Some? <==>
      exists a :: IsAncestor(doc.nodes, a, j) && MatchesAny(doc.nodes[a], Landmarks)
  {
    assert !MatchesAny(doc.nodes[j], Landmarks) by {
      assert !Matches(doc.nodes[j], Landmarks[0]) && !Matches(doc.nodes[j], Landmarks[1]);
    }
  }

  /** The denylist test written out as in the script, keyword by keyword, is `Denied`. */
  lemma DeniedByKeyword(n: Node)
    ensures Denied(n) <==>
      var s := IdAndClass(n);
      Contains(s, "nav") || Contains(s, "footer") || Contains(s, "sidebar")
      || Contains(s, "comment") || Contains(s, "header") || Contains(s, "menu")
  {
    var s := IdAndClass(n);
    if Contains(s, "nav") { assert Contains(s, DenyKeywords[0]); }
    if Contains(s, "footer") { assert Contains(s, DenyKeywords[1]); }
    if Contains(s, "sidebar") { assert Contains(s, DenyKeywords[2]); }
    if Contains(s, "comment") { assert Contains(s, DenyKeywords[3]); }
    if Contains(s, "header") { assert Contains(s, DenyKeywords[4]); }
    if Contains(s, "menu") { assert Contains(s, DenyKeywords[5]); }
  }

  /**
   * The gates of the Stage 2 callback, each an early exit: the score of
   * element `i` when it is eligible, nothing otherwise.
   */
  method GatedScore(doc: Document, i: nat) returns (score: Option<real>)
    requires i < |doc.nodes|
    ensures score.Some? <==> Eligible(doc, i)
    ensures score.Some? ==> score.value == Score(doc, i)
  {
    var element := doc.nodes[i];
    if !(element.Element? && (element.tag == "div" || element.tag == "main")) {
      return None;
    }
    var idAndClass := IdAndClass(element);
    DeniedByKeyword(element);
    if Contains(idAndClass, "nav") || Contains(idAndClass, "footer") || Contains(idAndClass, "sidebar")
      || Contains(idAndClass, "comment") || Contains(idAndClass, "header") || Contains(idAndClass, "menu")
    {
      return None;
    }
    if element.tag == "div" {
      DivUnderLandmark(doc, i);
    }
    if Closest(doc.nodes, i, Landmarks).Some? {
      if !(element.tag == "article" || element.tag == "main") {
        return None;
      }
    }
    if element.clientHeight < 300 {
      return None;
    }
    var pCount := |QueryAll(doc.nodes, i, [Tag("p")])|;
    if pCount < 3 {
      return None;
    }
    var linkCount := |QueryAll(doc.nodes, i, [Tag("a")])|;
    var textLength := Utf16Length(element.innerText);
    return Some(DensityScore(pCount, linkCount, textLength));
  }

  /**
   * Stage 2: the `forEach` over `querySelectorAll('div, main')`, updating
   * `bestCandidate` and `maxScore` on a strictly greater score.
   */
  method DensityFallback(doc: Document) returns (bestCandidate: Option<nat>)
    ensures bestCandidate.Some? ==> IsBestCandidate(doc, bestCandidate.value)
    ensures bestCandidate.None? ==> NoEligible(doc)
  {
    bestCandidate := None;
    var maxScore: real := -1.0;
    for i := 0 to |doc.nodes|
      invariant bestCandidate.None? ==> maxScore == -1.0 && forall j :: 0 <= j < i ==> !Eligible(doc, j)
      invariant bestCandidate.Some? ==>
        && bestCandidate.value < i
        && Eligible(doc, bestCandidate.value)
        && maxScore == Score(doc, bestCandidate.value)
        && (forall j :: 0 <= j < i && Eligible(doc, j) ==> Score(doc, j) <= maxScore)
        && (forall j :: 0 <= j < bestCandidate.value && Eligible(doc, j) ==> Score(doc, j) < maxScore)
    {
      var score := GatedScore(doc, i);
      if score.Some? && score.value > maxScore {
        maxScore := score.value;
        bestCandidate := Some(i);
      }
    }
  }

  /**
   * What `findArticleContainer` may return: Stage 1's pick; otherwise
   * Stage 2's best candidate; otherwise `body`.
   */
  ghost predicate LocatorResult(doc: Document, c: nat) {
    && c < |doc.nodes|
    && (|| CascadePicks(doc, c)
        || (CascadeFails(doc) && IsBestCandidate(doc, c))
        || (CascadeFails(doc) && NoEligible(doc) && c == doc.body))
  }

  /** `findArticleContainer`: total, always some element of the page. */
  method FindArticleContainer(doc: Document) returns (c: nat)
    requires WellFormed(doc)
    ensures LocatorResult(doc, c)
    ensures doc.nodes[c].Element?
  {
    var specific := SelectorCascade(doc);
    if specific.Some? {
      return specific.value;
    }
    var bestCandidate := DensityFallback(doc);
    if bestCandidate.Some? {
      return bestCandidate.value;
    }
    return doc.body;
  }

  lemma {:induction false} CascadeDeterministic(doc: Document, a: nat, b: nat)
    requires CascadePicks(doc, a) && CascadePicks(doc, b)
    ensures a == b
  {
    var ka :| 0 <= ka < |SpecificSelectors|
      && QuerySelector(doc.nodes, [SpecificSelectors[ka]]) == Some(a) && Accepts(doc, a)
      && forall k' :: 0 <= k' < ka ==> !FirstMatchAccepted(doc, SpecificSelectors[k']);
    var kb :| 0 <= kb < |SpecificSelectors|
      && QuerySelector(doc.nodes, [SpecificSelectors[kb]]) == Some(b) && Accepts(doc, b)
      && forall k' :: 0 <= k' < kb ==> !FirstMatchAccepted(doc, SpecificSelectors[k']);
    assert FirstMatchAccepted(doc, SpecificSelectors[ka]);
    assert FirstMatchAccepted(doc, SpecificSelectors[kb]);
    assert ka == kb;
  }

  lemma {:induction false} CascadePicksExcludesFails(doc: Document, e: nat)
    requires CascadePicks(doc, e)
    ensures !CascadeFails(doc)
  {
    var k :| 0 <= k < |SpecificSelectors|
      && QuerySelector(doc.nodes, [SpecificSelectors[k]]) == Some(e) && Accepts(doc, e)
      && forall k' :: 0 <= k' < k ==> !FirstMatchAccepted(doc, SpecificSelectors[k']);
    assert FirstMatchAccepted(doc, SpecificSelectors[k]);
  }

  /** Strict `>` makes the maximum unique: the earliest of the top-scoring candidates. */
  lemma BestCandidateUnique(doc: Document, a: nat, b: nat)
    requires IsBestCandidate(doc, a) && IsBestCandidate(doc, b)
    ensures a == b
  {
    if a < b {
      assert false;
    } else if b < a {
      assert false;
    }
  }

  /** The three stages determine the container: at most one element satisfies `LocatorResult`. */
  lemma LocatorDeterministic(doc: Document, a: nat, b: nat)
    requires LocatorResult(doc, a) && LocatorResult(doc, b)
    ensures a == b
  {
    if CascadePicks(doc, a) {
      CascadePicksExcludesFails(doc, a);
      CascadeDeterministic(doc, a, b);
    } else if CascadePicks(doc, b) {
      CascadePicksExcludesFails(doc, b);
    } else if IsBestCandidate(doc, a) && IsBestCandidate(doc, b) {
      BestCandidateUnique(doc, a, b);
    }
  }

  /**
   * The first `article` of the page, when it has more than 500 characters
   * and at most three nested articles, is the container, whatever else the
   * page holds.
   */
  lemma FirstArticleWins(doc: Document, e: nat, c: nat)
    requires QuerySelector(doc.nodes, [Tag("article")]) == Some(e)
    requires Accepts(doc, e)
    requires LocatorResult(doc, c)
    ensures c == e
  {
    assert SpecificSelectors[0] == Tag("article");
    assert CascadePicks(doc, e);
    assert e < |doc.nodes|;
    LocatorDeterministic(doc, e, c);
  }

  /**
   * Stage 1 looks at a selector only through its first match: an element
   * that is the first match of no selector is never picked, however long its
   * text and however few articles it nests.
   */
  lemma OnlyFirstMatchConsulted(doc: Document, e: nat)
    requires forall k :: 0 <= k < |SpecificSelectors| ==> QuerySelector(doc.nodes, [SpecificSelectors[k]]) != Some(e)
    ensures !CascadePicks(doc, e)
  {
  }

  /**
   * A selector whose first match fails passes the turn to the next selector:
   * when selectors `0..k` all fail and selector `k + 1`'s first match passes,
   * that match is Stage 1's pick.
   */
  lemma FailingSelectorFallsThrough(doc: Document, k: nat)
    requires k + 1 < |SpecificSelectors|
    requires forall k' :: 0 <= k' <= k ==> !FirstMatchAccepted(doc, SpecificSelectors[k'])
    requires FirstMatchAccepted(doc, SpecificSelectors[k + 1])
    ensures CascadePicks(doc, QuerySelector(doc.nodes, [SpecificSelectors[k + 1]]).value)
  {
  }
}
