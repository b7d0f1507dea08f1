/**
 * `getArticleTitle` and `getArticleAuthor`: straight-line fallback lookups
 * over the page's metadata and headings.
 */
module Metadata {
  import opened Wrappers
  import opened Strings
  import opened Dom

  const NoTitleSentinel: string := "NO_TITLE_DETECTED"

  const OgTitleSelector: seq<Selector> := [TagAttr("meta", "property", "og:title")]
  const MetaAuthorSelector: seq<Selector> := [TagAttr("meta", "name", "author")]
  const BylineSelectors: seq<Selector> :=
    [Class("byline"), Class("author"), AttrIsNoCase("rel", "author"), Class("author-name")]

  /** `querySelector(sels)?.content`, with a missing element or attribute read as "". */
  function MetaContent(doc: Document, sels: seq<Selector>): string {
    match QuerySelector(doc.nodes, sels)
    case Some(m) => Attr(doc.nodes[m], "content")
    case None => ""
  }

  /** `querySelector(sels)?.innerText`, with a missing element read as "". */
  function FirstInnerText(doc: Document, sels: seq<Selector>): string {
    match QuerySelector(doc.nodes, sels)
    case Some(m) => InnerText(doc.nodes[m])
    case None => ""
  }

  /** The first non-empty string of `xs`, or `default` when all are empty. */
  function FirstNonEmpty(xs: seq<string>, default: string): (r: string)
    ensures (exists k :: 0 <= k < |xs| && xs[k] != "" && r == xs[k] && forall i :: 0 <= i < k ==> xs[i] == "")
         || (r == default && forall i :: 0 <= i < |xs| ==> xs[i] == "")
  {
    if xs == [] then default
    else if xs[0] != "" then xs[0]
    else
      var r := FirstNonEmpty(xs[1..], default);
      assert forall i :: 1 <= i < |xs| ==> xs[i] == xs[1..][i - 1];
      r
  }

  /** The title sources in priority order: `og:title` content, the first `h1`'s text, `document.title`. */
  function TitleSources(doc: Document): seq<string> {
    [MetaContent(doc, OgTitleSelector), FirstInnerText(doc, [Tag("h1")]), doc.title]
  }

  /** `getArticleTitle`: the first non-empty source, else the sentinel; never empty. */
  function ArticleTitle(doc: Document): (t: string)
    ensures t != ""
    ensures (exists k :: 0 <= k < 3 && TitleSources(doc)[k] != "" && t == TitleSources(doc)[k]
               && forall i :: 0 <= i < k ==> TitleSources(doc)[i] == "")
         || (t == NoTitleSentinel && forall i :: 0 <= i < 3 ==> TitleSources(doc)[i] == "")
  {
    FirstNonEmpty(TitleSources(doc), NoTitleSentinel)
  }

  /** `ch` matches `b` or `y` case-insensitively at positions `i`, `i + 1`. */
  predicate ByAt(s: string, i: int) {
    0 <= i && i + 1 < |s| && (s[i] == 'b' || s[i] == 'B') && (s[i + 1] == 'y' || s[i + 1] == 'Y')
  }

  /** The first index at or after `k` where `by` occurs, case-insensitively. */
  function FindBy(s: string, k: nat): (r: Option<nat>)
    ensures r.Some? ==> k <= r.value && ByAt(s, r.value) && forall i :: k <= i < r.value ==> !ByAt(s, i)
    ensures r.None? ==> forall i :: k <= i ==> !ByAt(s, i)
    decreases |s| - k
  {
    if k + 1 >= |s| then None
    else if ByAt(s, k) then Some(k)
    else FindBy(s, k + 1)
  }

  /** `s.replace(/by/i, '')`: the first `by` in any letter case is cut out, wherever it stands. */
  function RemoveFirstBy(s: string): (r: string)
    ensures (exists i :: ByAt(s, i) && (forall k :: 0 <= k < i ==> !ByAt(s, k)) && r == s[..i] + s[i + 2..])
         || ((forall i :: !ByAt(s, i)) && r == s)
  {
    match FindBy(s, 0)
    case Some(i) => s[..i] + s[i + 2..]
    case None => s
  }

  /**
   * `getArticleAuthor`: the `meta[name=author]` content if non-empty; else,
   * when the first byline element has text, that text with its first `by`
   * removed and trimmed; else null.
   */
  function ArticleAuthor(doc: Document): (r: Option<string>)
    ensures r.None? <==>
      MetaContent(doc, MetaAuthorSelector) == "" && FirstInnerText(doc, BylineSelectors) == ""
    ensures MetaContent(doc, MetaAuthorSelector) != "" ==> r == Some(MetaContent(doc, MetaAuthorSelector))
    ensures r.Some? && MetaContent(doc, MetaAuthorSelector) == "" ==>
      var raw := FirstInnerText(doc, BylineSelectors);
      && |r.value| <= |raw|
      && (r.value != [] ==> !IsJsWhitespace(r.value[0]) && !IsJsWhitespace(r.value[|r.value| - 1]))
      && exists i :: 0 <= i <= |RemoveFirstBy(raw)| && SliceWithinWhitespace(RemoveFirstBy(raw), r.value, i)
  {
    var metaAuthor := MetaContent(doc, MetaAuthorSelector);
    if metaAuthor != "" then Some(metaAuthor)
    else
      var byline := FirstInnerText(doc, BylineSelectors);
      if byline != "" then Some(Trim(RemoveFirstBy(byline))) else None
  }

  /** The byline paragraph is emitted only for a truthy author: present and non-empty. */
  predicate HasByline(author: Option<string>) {
    author.Some? && author.value != ""
  }

  /** A byline that is nothing but `by` and whitespace emits no byline at all. */
  lemma {:induction false} ByOnlyBylineOmitted(doc: Document)
    requires MetaContent(doc, MetaAuthorSelector) == ""
    requires FirstInnerText(doc, BylineSelectors) == " By "
    ensures !HasByline(ArticleAuthor(doc))
  {
    var s := " By ";
    assert ByAt(s, 1);
    assert !ByAt(s, 0);
    assert RemoveFirstBy(s) == "  ";
    assert TrimStart("  ") == "";
  }

  /** `*[rel="author"]` takes `rel` in any letter case: `rel="Author"` marks a byline too. */
  lemma {:induction false} RelAuthorAnyCase(n: Node)
    requires n.Element? && "rel" in n.attrs && n.attrs["rel"] == "Author"
    ensures MatchesAny(n, BylineSelectors)
  {
    var lowered := AsciiLower("Author");
    assert lowered[0] == 'a';
    assert lowered == "author";
    assert AsciiLower("author") == "author";
    assert Matches(n, BylineSelectors[2]);
  }

  /** The first `by` goes wherever it stands, even inside a name. */
  lemma {:induction false} ByRemovedInsideWord()
    ensures RemoveFirstBy("Abby Lee") == "Ab Lee"
  {
    var s := "Abby Lee";
    assert !ByAt(s, 0) && !ByAt(s, 1) && ByAt(s, 2);
    assert s[..2] + s[4..] == "Ab Lee";
  }
}
