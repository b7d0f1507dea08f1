# Terminal reader view: the extraction pipeline

This project models the content script of a browser extension that re-renders
a page as a "terminal" reader view. The script finds the element that holds
the article (`findArticleContainer`), looks up a title and an author, keeps
the content nodes of that element that are not junk, rewrites copies of them
(heading prefix, bracketed links, wrapped images), and appends everything,
closed by a blinking cursor, in an overlay. If the overlay already exists the
script does nothing.

The page is an abstract element tree (`Dom`): a sequence of nodes in document
order, each naming its parent by a smaller index. `WellFormed` also says the
sequence is in preorder, so index order is document order. Rendering values
(`innerText`, `clientHeight`, `offsetWidth`, `naturalWidth`, `naturalHeight`)
are plain fields of each element. `id` and `className` are the `id` and
`class` attributes. Only the fixed selectors the script uses are modelled, as
the `Selector` datatype. A class selector matches a whitespace-separated class
token. The `rel` attribute selector compares values without regard to ASCII
case, as HTML documents do for `rel`. The Stage 2 denylist is a different test: a raw substring search in the
lower-cased `id + className`.

Modules:

- `Wrappers`: `Option`.
- `Strings`: `.length` in UTF-16 code units, ASCII `toLowerCase`, `includes`, `trim`.
- `Dom`: nodes, selectors, `querySelector`, `querySelectorAll`, `closest`.
- `Locator`: the three stages of `findArticleContainer`, as methods with loops, and the predicates that specify them.
- `Metadata`: `getArticleTitle` and `getArticleAuthor` as functions.
- `Output`: the output tree, `cloneNode(true)`, `textContent`, and the link rewrite.
- `Assembly`: the node filter, the body loop, the content wrapper, and the `Page` class holding the single-run guard.

The source page is a value and is never changed. Every output node is either
a copy of a source node or a freshly built node (the `terminal-content` wrapper, the title heading,
the byline, the image wrappers, the cursor, the exit button and the overlay), so no rewrite
of an output node can reach the source.

Behaviour of the script that is easy to misread:

- The author lookup removes the first case-insensitive `by` wherever it stands, not only a leading word.
- Only the first byline match is consulted; if its text is empty there is no byline.
- The Stage 2 nesting test rejects a `div` under any `article` or `main`.
- The branch for top-level anchors never runs, because `a` is not among the queried tags.

## Model

| member | source | states |
|---|---|---|
| `Strings.Utf16Length` | content.js:38 | `.length` counts UTF-16 code units: between one and two per character |
| `Strings.AsciiLower` | content.js:60 | lower-casing keeps the length and maps each character on its own |
| `Strings.TrimStart` | content.js:125 | the result is a suffix, everything cut is whitespace, and it starts with non-whitespace |
| `Strings.TrimEnd` | content.js:125 | the result is a prefix, everything cut is whitespace, and it ends with non-whitespace |
| `Strings.Trim` | content.js:125 | `trim()` is a slice of the input with only whitespace outside it and none at its ends |
| `Dom.IsAncestor` | content.js:66 | an ancestor lies earlier in document order |
| `Dom.FirstFrom` | content.js:35 | the search returns the first matching index at or after its start, or reports that none matches |
| `Dom.QuerySelector` | content.js:35 | `querySelector` returns a matching element with no match before it in document order, or nothing when no element matches |
| `Dom.MatchingDescendantsFrom` | content.js:41 | the scan collects exactly the matching descendants from its start, in increasing order |
| `Dom.QueryAll` | content.js:41 | `querySelectorAll` holds exactly the matching proper descendants, each once, in document order |
| `Dom.Closest` | content.js:172 | `closest` gives the node or an ancestor that matches, and gives nothing exactly when neither the node nor any ancestor matches |
| `Locator.SelectorCascade` | content.js:20-49 | Stage 1 returns the first match of the first selector whose first match has more than 500 characters and at most 3 nested articles; otherwise it reports that no selector qualifies |
| `Locator.CascadeDeterministic` | content.js:34-49 | Stage 1 can pick at most one element |
| `Locator.OnlyFirstMatchConsulted` | content.js:34-43 | an element that is the first match of no selector is never Stage 1's pick |
| `Locator.FailingSelectorFallsThrough` | content.js:34-49 | when selectors up to `k` all fail, the first match of selector `k + 1`, if it passes, is the pick |
| `Locator.DeniedByKeyword` | content.js:60-63 | the six `includes` tests on the lower-cased `id + className` are the denylist test |
| `Locator.GatedScore` | content.js:59-92 | the callback's early exits reject exactly the ineligible elements, and an eligible element gets its density score |
| `Locator.DivUnderLandmark` | content.js:66-68 | for a `div`, `closest('article, main')` finds something exactly when a proper ancestor is an `article` or `main` |
| `Locator.DensityScore` | content.js:87-92 | the score is never negative, and without the link penalty it is at least `pCount * 20` |
| `Locator.DensityFallback` | content.js:52-98 | Stage 2 returns an eligible element with the highest score, earlier than every other eligible element of equal score; otherwise it reports that none is eligible |
| `Locator.BestCandidateUnique` | content.js:94-97 | under the strict `>` test, at most one element is the best candidate |
| `Locator.FindArticleContainer` | content.js:13-102 | on a page that has a `body`, the locator is total: Stage 1's pick, else Stage 2's best, else `body`, and always an element |
| `Locator.LocatorDeterministic` | content.js:13-102 | the three stages determine a single container |
| `Locator.FirstArticleWins` | content.js:20-47 | when the page's first `article` has more than 500 characters and at most 3 nested articles, it is the container |
| `Metadata.FirstNonEmpty` | content.js:105-115 | the fallback chain gives the first non-empty entry, or the default when all are empty |
| `Metadata.ArticleTitle` | content.js:105-115 | the title is never empty; it is the first non-empty of `og:title`, the first `h1`'s text and `document.title`, else `NO_TITLE_DETECTED` |
| `Metadata.FindBy` | content.js:125 | the search finds the first case-insensitive `by`, or reports there is none |
| `Metadata.RemoveFirstBy` | content.js:125 | `replace(/by/i, '')` cuts out the first `by` in any letter case and nothing else, or returns the input when there is none |
| `Metadata.ArticleAuthor` | content.js:118-128 | the author is null exactly when the meta content and the first byline's text are both empty; a non-empty meta author wins; otherwise the author is the byline text with its first `by` removed and the surrounding whitespace trimmed |
| `Metadata.ByOnlyBylineOmitted` | content.js:124-125 | a byline reading ` By ` leaves an empty author, so no byline is shown |
| `Metadata.ByRemovedInsideWord` | content.js:125 | the `by` inside `Abby` is the one removed |
| `Metadata.RelAuthorAnyCase` | content.js:123 | an element with `rel="Author"` matches the byline selector list |
| `Output.Clone` | content.js:177 | a copy of an element keeps its tag and attributes; a copy of a text node keeps its text |
| `Output.CloneHoldsDescendant` | content.js:177 | the copy of an element contains a copy of each of its descendants |
| `Output.SetText` | content.js:183 | after setting `textContent` to a non-empty string, an element keeps its tag and attributes and has that string as its single text child |
| `Output.FormatLinks` | content.js:193-196 | an anchor gets `[` + its own text + `]` as its only text and its `href` as `title`, other attributes kept; any other element keeps its tag, attributes and number of children; text is unchanged |
| `Output.FormatLinksAll` | content.js:193-196 | the rewrite of a child list keeps its length |
| `Output.FormatNestedLinks` | content.js:193-196 | the clone's root keeps its tag, attributes and number of children, and below a non-anchor root the rewrite is the link rewrite of the whole clone |
| `Output.FormatLinksFormats` | content.js:193-196 | after the rewrite every anchor shows one bracketed text and has a `title` equal to its `href` |
| `Output.FormatLinksIdentity` | content.js:193-196 | a tree without anchors is unchanged by the rewrite |
| `Output.FormatNestedLinksFormats` | content.js:193-196 | rewriting the anchors below a clone formats all of them and keeps the clone's own tag and attributes |
| `Output.FormatNestedLinksIdentity` | content.js:193-196 | a clone without anchors is unchanged |
| `Output.AnchorRewrittenAt` | content.js:193-196 | every anchor with no anchor above it is replaced, in place, by the anchor with its own text in brackets and `title` set to its `href` |
| `Output.NonAnchorKeptAt` | content.js:193-196 | every text node with no anchor above it is unchanged, and every such non-anchor element keeps its place, tag, attributes and number of children |
| `Output.AnchorExample` | content.js:194-195 | the anchor `source` linking to `https://x.test` becomes `[source]` with that URL as its `title` |
| `Assembly.CandidatesExactly` | content.js:163 | the candidates are exactly the container's descendants tagged p, h2, h3, h4, img, pre, ul, ol or blockquote, in document order |
| `Assembly.NoCandidateIsAnchor` | content.js:187-190 | no candidate is an anchor, so the top-level anchor branch never runs |
| `Assembly.Keep` | content.js:172-205 | a node is kept exactly when `closest` finds no junk marker and, for an image, `src` is non-empty, natural size is at least 100x100, rendered width at least 50, and `closest('.ad, .advertisement')` finds nothing |
| `Assembly.KeptExactly` | content.js:165-205 | a candidate is kept exactly when it has no junk marker on itself or any ancestor and, if an image, passes the image gate; the kept ones keep document order |
| `Assembly.AdCheckRedundant` | content.js:171-172 | the image gate's `.ad, .advertisement` test never fires on a node that passed the junk test |
| `Assembly.Emit` | content.js:177-213 | a kept element goes out with its own tag and attributes, except an image, which goes out as a `terminal-image-wrapper` div holding exactly one `img` |
| `Assembly.ImageKeptBySize` | content.js:203-205 | an image free of junk markers is kept exactly when it has a non-empty `src`, natural size at least 100x100 and rendered width at least 50 |
| `Assembly.NestedCandidateTwice` | content.js:163-216 | a kept candidate inside another kept candidate is emitted on its own, and its copy also lies inside the outer copy, and inside the outer body item when that item is a plain copy (not a heading, not an image, no anchors) |
| `Assembly.EmitShape` | content.js:177-216 | a heading becomes `-> ` plus its text with no anchor left; an image is wrapped on its own in a `terminal-image-wrapper` div around its link-rewritten copy; any other node goes out as its link-rewritten copy, which is its plain copy when it holds no anchor |
| `Assembly.BodyFollowsKept` | content.js:165-217 | the body has one item per kept candidate, in candidate order |
| `Assembly.BuildBody` | content.js:163-217 | the loop produces the body of the container's candidates |
| `Assembly.ContentLayout` | content.js:146-223 | the content holds the title heading, the byline when the author is truthy, the body items, and finally the cursor `_` |
| `Assembly.Extract` | content.js:142-223 | the content wrapper is built for the one container the locator determines |
| `Assembly.Page.Run` | content.js:3-228 | with the overlay id present the run changes nothing; otherwise it appends one overlay built from the page; afterwards the overlay is present |
| `Assembly.Page.OverlayPresent` | content.js:3 | once an overlay built by a run is in the page, `getElementById('terminal-view-overlay')` finds it |
| `Assembly.RunTwice` | content.js:228 | two runs in a row add at most one overlay |

## Left out

- `popup.js`: it only injects the stylesheet and the script into the active tab.
- How `innerText`, `clientHeight`, `offsetWidth`, `naturalWidth` and `naturalHeight` are computed: they are given per element.
- `document.title` is given as a field of the document, not derived from a `title` element.
- A general CSS selector engine: only the fixed selectors of the script are modelled.
- URL resolution behind `a.href`: the stored `href` attribute stands for it.
- The exit button's click handler, which removes the overlay and so lets a later run build a new one, and the `overflow` style changes are not modelled: `Page` has no close operation.
- `Locator.DensityScore`: exact `real` arithmetic, not IEEE-754 doubles, so rounding in the score and in its comparison is not modelled.
- `Strings.AsciiLower`: only ASCII letters are lowered. No non-ASCII character lowers to a string that could complete one of the six denylist keywords, so the denylist test is unaffected.
- The in-place edits of each clone (`textContent`, `setAttribute`) are modelled as rewrites of the copied value. The copy is fresh and shared with nothing, so no aliasing is lost.
- The top-level `tagName === 'a'` branch is not modelled: `Assembly.NoCandidateIsAnchor` shows it cannot run.
- `Locator.DensityFallback` visits every node and skips those that are not `div` or `main`. It does not first build the `querySelectorAll('div, main')` list, but it visits the same elements in the same order.
- Quirks-mode documents: class and id selectors are matched case-sensitively, as in a standards-mode document. A quirks-mode page compares them without regard to ASCII case.
- Metadata.ArticleAuthor: the `.byline`, `.author` and `.author-name` selectors are case-sensitive here, so on a quirks-mode page a byline whose class differs only in letter case is not found.
- Assembly.NestedCandidateTwice: the inner node's copy is shown inside the outer body item only when that item is a plain copy. Inside a rewritten outer item (a heading's flattened text, or anchors in brackets), the inner content appears in its rewritten form, and the lemma does not state that form.
- Locator.FindArticleContainer, Assembly.Extract and Assembly.Page.Run: `WellFormed` requires a `body`, so these do not describe pages where `document.body` is null, as for an SVG or XML file. On such pages the script throws at content.js:163 or content.js:228 and builds no overlay, and every later run throws again.
