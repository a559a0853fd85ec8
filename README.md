# A verified model of the static site generator's Markdown-to-HTML core

The static site generator turns a Markdown document into a tree of HTML
nodes and renders that tree as a string. This project models that pipeline
in Dafny and proves properties of it:

- **HTML nodes** (`htmlnode.dfy`, module `HtmlNodes`). A node is a leaf
  (tag, value, props) or a parent (tag, children, props). Props become
  `key="value"` attributes. `ToHtml` renders a node or returns the error
  that `to_html` raises.
- **Text spans** (`textnode.dfy`, module `TextNodes`). A span has a text,
  a kind and an optional url. Spans compare equal on text and kind only.
  `TextNodeToHtmlNode` maps each of the six kinds to its leaf.
- **The inline tokenizer** (`delimiter.dfy`, `extract.dfy`, `tokenizer.dfy`):
  - the delimiter pass `split_nodes_delimiter`, including its special case
    for an italic `*` that is really half of `**`;
  - the two scanners that stand in for the image and link regular
    expressions;
  - the image and link passes;
  - `text_to_textnodes`, which runs bold, italic, code, images and links in
    that order.
- **Blocks** (`blocks.dfy`, module `Blocks`):
  - splitting a document into blocks on blank lines;
  - classifying a block (heading, code, quote, ordered list, unordered list,
    paragraph);
  - removing a block's Markdown markers;
  - finding the title.
- **Assembly** (`assemble.dfy`, module `Assembler`). Each block becomes a
  parent node: `p`, `h1`..`h6`, `pre` wrapping `code`, `blockquote`, or
  `ol`/`ul` of `li`. The document becomes a `div` of its blocks.
- **Support modules**:
  - `pystr.dfy` (module `PyStr`) holds the Python string operations those
    functions use: `find`, `in`, `split`, `split(maxsplit=1)`, `join`,
    `strip`, `removeprefix`/`removesuffix` and clamped slicing.
  - `wrappers.dfy` (module `Wrappers`) holds `Option`, `Result` and the
    `Error` datatype. `Error` has one constructor per kind of failure the
    pipeline can raise; one constructor may stand for several raise sites.

The code that loops over lists is modelled as methods (`SplitNodesDelimiter`,
`SplitNodesMatched`, `ListItemNodes`, `CleanQuoteLines`, `BlockHtmlNodes`,
`MarkdownToHtml`, `PropsToHtml`). Each method is proved equal to a function,
and the lemmas are proved about those functions. A raised exception becomes
an `Err` of the matching `Error`, so the error paths are part of every
contract.

Main results:

- Splitting a document into blocks is idempotent (`Blocks.BlocksIdempotent`).
- Joining non-empty stripped blocks that contain no blank line with blank lines, then
  splitting again, gives the same blocks back (`Blocks.BlocksRoundTrip`).
- For text that is symmetric under the delimiter, a delimiter pass
  alternates plain and formatted spans exactly as `str.split` would cut the
  text (`Delimiters.SplitNodeAlternates`).
- Joining those spans' texts with the delimiter gives the text back
  (`Delimiters.DelimiterRoundTrip`).
- After the bold pass no plain span contains `**`
  (`Delimiters.BoldPassClears`). So the italic collision branch is never
  taken inside `text_to_textnodes`.
- The tokenizer produces only spans that convert to leaves
  (`Tokenizer.TokensWellFormed`).
- The scanners return the leftmost matches, in order
  (`Extractors.FirstFoundIsLeftmost`, `Extractors.FoundInOrder`,
  `Extractors.GapsHaveNoMatch`). A link is
  never taken right after `!` (`Extractors.LinkNotAfterBang`).
- The image pass cuts a plain node at its first image: the text before it,
  the image span, then the spans of the text after it
  (`Tokenizer.ImageHead`, `Tokenizer.ImageRest`, `Tokenizer.ImageOnce`). The
  link pass does the same at the first occurrence of the link's source
  (`Tokenizer.LinkHead`, `Tokenizer.LinkRest`, `Tokenizer.LinkOnce`).
- A document whose node is built (`markdown_to_html` returns) renders exactly
  when it has at least one block. Such a document with no blocks renders to
  the `Expected Children` error
  (`Assembler.DocumentRenders`).

## Model

| member | source | states |
|---|---|---|
| PyStr.Find | src/main.py:119 | `s.find(sub)`: the result is an index where `sub` occurs, and no occurrence lies before it; None (Python's -1) only when there is none |
| PyStr.SplitOnce | src/main.py:267 | `split(sep, maxsplit=1)` when `sep` occurs: `s` is the head, then `sep`, then the tail, and the head ends at the first occurrence |
| PyStr.Split | src/main.py:188 | `split(sep)` returns at least one piece, and at least two exactly when `sep` occurs |
| PyStr.SplitJoin | src/main.py:188 | joining the pieces of `s.split(sep)` with `sep` gives `s` back |
| PyStr.SplitPiecesFree | src/main.py:188 | no piece of `s.split(sep)` contains `sep` |
| PyStr.SplitOnceIsSplitHead | src/main.py:267 | the two parts of `split(sep, maxsplit=1)` are the first piece of `split(sep)` and the remaining pieces joined with `sep` |
| PyStr.Drop | src/main.py:122 | slicing `s[k:]` keeps what follows the first `k` characters, and gives "" when `k` is past the end |
| PyStr.RemovePrefix | src/main.py:115 | `removeprefix(p)` takes `p` off the front when `s` starts with it and otherwise leaves `s` unchanged |
| PyStr.RemoveSuffix | src/main.py:115 | `removesuffix(p)` takes a non-empty `p` off the end when `s` ends with it and otherwise leaves `s` unchanged |
| PyStr.Strip | src/main.py:189 | `strip()`: the result has no leading or trailing whitespace and is no longer than `s` |
| PyStr.StripMargins | src/main.py:189 | `strip()` removes only whitespace: the result is the slice of `s` between a whitespace prefix and a whitespace suffix |
| PyStr.StrippedIsFixed | src/main.py:189 | stripping a stripped string changes nothing |
| PyStr.StripKeepsAbsent | src/main.py:189 | stripping cannot create an occurrence of a string that was absent |
| HtmlNodes.PropsToHtml | src/htmlnode.py:14-21 | the loop builds `key="value" ` for each prop, then drops the last space; the result equals `PropsText` |
| HtmlNodes.PaddedIsJoinedPlusSpace | src/htmlnode.py:17-20 | the loop's text, before the last space is dropped, is the attributes joined by single spaces plus one trailing space |
| HtmlNodes.PropsTextEmpty | src/htmlnode.py:14-21 | the attribute text is empty exactly when props is missing or empty; otherwise it ends with a closing quote |
| HtmlNodes.PropsTextAppend | src/htmlnode.py:17-18 | one more prop adds a space and that prop's attribute at the end, in order |
| HtmlNodes.PropsText | src/htmlnode.py:14-21 | for non-empty props, the attribute text followed by one space is the text the loop of `props_to_html` accumulates |
| HtmlNodes.OneAttribute | src/htmlnode.py:18 | a single prop renders as `key="value"`, and the opening tag as `<tag key="value">` |
| HtmlNodes.ToHtml | src/htmlnode.py:32-58 | `to_html` succeeds exactly when the node and every node below it pass the leaf and parent checks |
| HtmlNodes.RenderChildren | src/htmlnode.py:55 | the children render exactly when every child renders |
| HtmlNodes.LeafToHtml | src/htmlnode.py:32-39 | leaf: no value is `Value has not been set`; no tag gives the bare value; a tag gives `<tag>v</tag>`, with ` props` inside the opening tag when the attribute text is not empty |
| HtmlNodes.TaggedLeafWithProps | src/htmlnode.py:37-38 | a tagged leaf with attributes renders as `<tag attrs>value</tag>` |
| HtmlNodes.ParentChecks | src/htmlnode.py:49-53 | parent: no tag is `Tag has not been set`; missing or empty children is `Expected Children` |
| HtmlNodes.RenderChildrenIsConcatenation | src/htmlnode.py:55-58 | rendered children are the children's HTML concatenated in order |
| HtmlNodes.ParentRendersChildrenInOrder | src/htmlnode.py:49-58 | a tagged parent with renderable children renders as the open tag, the children's HTML in order, then the close tag |
| HtmlNodes.FirstFailingChild | src/htmlnode.py:55 | the children's rendering fails with the error of the first child that fails |
| HtmlNodes.ChildErrorPropagates | src/htmlnode.py:49-58 | a parent whose child fails fails with the first failing child's error |
| HtmlNodes.ChildlessChildrenExample | src/htmlnode.py:49-58 | a div holding a childless parent fails with `Expected Children` from that child |
| TextNodes.SameSpanProperties | src/textnode.py:11-14 | span equality is reflexive, symmetric and transitive, ignores the url, and is equality of text and kind |
| TextNodes.TextNodeToHtmlNode | src/textnode.py:19-40 | a leaf exactly for the six known kinds and `Text type does not match` otherwise; every leaf renders; every leaf but the image leaf has the span's text as its value |
| TextNodes.PlainSpanRendering | src/textnode.py:28-29 | a plain span renders as its bare text |
| TextNodes.FormatSpanRendering | src/textnode.py:30-35 | bold, italic and code spans render as the text inside `b`, `i` and `code` tags |
| TextNodes.LinkSpanRendering | src/textnode.py:36-37 | a link renders as `<a href="url">text</a>` |
| TextNodes.ImageSpanRendering | src/textnode.py:38-39 | an image renders as `<img src="url" alt="text"></img>`, with src before alt |
| TextNodes.TotalLengthBound | src/main.py:290-292 | each span's text fits within the total text length, so the recursion on the rest of a node terminates |
| Extractors.UrlEnd | src/main.py:301 | the lazy `(.*?)\)` group: the first `)` at or after the start, unless a newline comes first |
| Extractors.LabelEnd | src/main.py:301 | the lazy `\[(.*?)\]\(` group: the first `](`, newline-free, that is followed by a closable url |
| Extractors.MatchAt | src/main.py:299-306 | a match found at a position starts there and ends inside the text |
| Extractors.MatchSource | src/main.py:301 | the matched slice is exactly `![text](url)` or `[text](url)`, with a url free of newlines and `)` |
| Extractors.MatchShape | src/main.py:299-306 | a match starts with the opener and its slice is the markdown source built from its text and url |
| Extractors.FoundAreMatches | src/main.py:299-306 | every element `re.findall` returns from position p starts at or after p and is the match at its own start, so it ends after its start, inside the text |
| Extractors.FirstMatch | src/main.py:299-306 | (proof step) the first match of a scan from the start lies inside the text |
| Extractors.FindMatchesStep | src/main.py:299-306 | (proof step) scanning resumes after a match, or one character later when there is none |
| Extractors.ScanResumes | src/main.py:299-306 | resuming the scan at the end of a match finds exactly the matches after it |
| Extractors.FoundInOrder | src/main.py:299-306 | the matches are left to right and do not overlap |
| Extractors.FirstFoundIsLeftmost | src/main.py:299-306 | no match starts before the first one found |
| Extractors.GapsHaveNoMatch | src/main.py:299-306 | no match starts before the first match, between two consecutive matches, or after the last one: the scan returns every leftmost non-overlapping match |
| Extractors.FoundSources | src/main.py:299-306 | text without the opener has no matches, and every match starts with its own markdown source |
| Extractors.Matches | src/main.py:299-306 | every (text, url) pair returned occurs in the text as its markdown source; no pairs when the opener is absent |
| Extractors.ExtractMarkdownImages | src/main.py:299-301 | one (alt, url) pair per image match; each pair's `![alt](url)` occurs in the text; none when the text has no `![` |
| Extractors.ExtractMarkdownLinks | src/main.py:304-306 | one (text, url) pair per link match; each pair's `[text](url)` occurs in the text; none when the text has no `[` |
| Extractors.SourceOccurrenceMatches | src/main.py:299-306 | wherever a well-formed `![text](url)` occurs (for links: with no `!` before it), the scanner matches there |
| Extractors.FirstImageIsFirstOccurrence | src/main.py:347 | the first image found starts at the first occurrence of its own markdown source, which is where `split` cuts |
| Extractors.NoEarlierSource | src/main.py:347 | the first image's source does not occur before that image |
| Extractors.LinkNotAfterBang | src/main.py:306 | the `(?<!!)` look-behind: no link found starts right after `!` |
| Extractors.LinkOpener | src/main.py:306 | a link match starts at a `[` not preceded by `!` |
| Extractors.NoLinksWhenAllBracketsAreImages | src/main.py:306 | when every `[` follows a `!`, there are no links |
| Extractors.NoOpenerNoMatches | src/main.py:299-306 | text without the opener has no matches |
| Extractors.FirstMatchOccurs | src/main.py:322 | the first match's markdown source is non-empty and occurs in the text, so splitting on it gives at least two sections |
| Extractors.LinkCut | src/main.py:322 | the first link's source occurs; its first occurrence, where `split` cuts, is the link itself or an earlier position right after a `!`, and it is the link when `!` followed by the source never occurs |
| Extractors.BangBefore | src/main.py:322 | (proof step) an occurrence right after a `!` is an occurrence of `!` plus the source one position earlier |
| Delimiters.ValidateDelimiterForType | src/main.py:223-236 | true exactly for the six (delimiter, kind) pairs of the constants; `Invalid delimiter` for anything else |
| Delimiters.ValidPairIsFunctional | src/main.py:8-13 | every valid pair names a known kind, and each kind has exactly one delimiter |
| Delimiters.SetClosingDelimiter | src/main.py:239-253 | `]` for links and images, the kind's own delimiter for the other known kinds, `Invalid text type` otherwise |
| Delimiters.OpeningSplit | src/main.py:267-281 | outside the italic pass, the split at the first delimiter; italics: an index error when nothing follows `*`; the `**` re-split only when a `*` follows; a kept node (None) only in that case; the tail shrinks |
| Delimiters.SplitNode | src/main.py:264-294 | a node that is not plain or lacks the delimiter is kept as it is; errors only for such nodes, and only empty separator, index or `Closing Syntax not found`; never an empty result |
| Delimiters.DelimitedCases | src/main.py:256-262 | no nodes give `[]` before any validation; otherwise an invalid pair fails with `Invalid delimiter`, which no other case gives; a valid pair is the node-by-node pass; at least one span per node; errors only `Invalid delimiter`, empty separator, index or `Closing Syntax not found` |
| Delimiters.DelimitedEach | src/main.py:264-294 | node by node, at least one span per node; the same error classes |
| Delimiters.ErrorStops | src/main.py:286 | once a node fails, the pass fails with that error whatever follows |
| Delimiters.DelimitedSingle | src/main.py:292 | the recursive call on the rest of a node is the split of that one node |
| Delimiters.NextNode | src/main.py:264-294 | (proof step) a successful node appends its spans to those already built |
| Delimiters.FailingNode | src/main.py:286 | a failing node makes the whole pass fail with its error |
| Delimiters.SplitNodeStep | src/main.py:284-292 | (proof step) the rest is shorter than the text; the node is the plain head, the inner span, then the spans of the rest, or the rest's error |
| Delimiters.SplitNodesDelimiter | src/main.py:256-296 | the loop returns `[]` for no nodes, the validation error, or the node-by-node result, equal to `Delimited` |
| Delimiters.SplitTextNode | src/main.py:265-294 | the loop body for one node equals `SplitNode` |
| Delimiters.SplitNodeKinds | src/main.py:287-294 | every span of a split node is the node itself, a plain span, or a url-less span of the pass's kind |
| Delimiters.Alternate | src/main.py:284-292 | an odd number of pieces alternates plain and formatted spans, one per piece; an even number fails with the error the last unclosed opener raises |
| Delimiters.AlternateStep | src/main.py:284-292 | (proof step) two more pieces in front add a plain and a formatted span and keep the error |
| Delimiters.SplitStep | src/main.py:267 | `split(d)` is the head of `split(d, maxsplit=1)` followed by the split of its tail |
| Delimiters.ClosedPieces | src/main.py:267-288 | an opening and a closing split are the first two pieces of `split(d)` |
| Delimiters.Unclosed | src/main.py:285-286 | a tail without the closing delimiter fails with `Closing Syntax not found`, as an even piece count does |
| Delimiters.Closed | src/main.py:284-292 | a closed pair followed by an alternating rest alternates |
| Delimiters.LoneStar | src/main.py:269 | in text without `**`, the character after a `*` is never `*` |
| Delimiters.SelfClosingAlternates | src/main.py:264-294 | for a closing delimiter equal to the opening one, and no `**` in italics, one node's spans are `Alternate(split(d))` |
| Delimiters.SplitNodeAlternates | src/main.py:264-294 | for symmetric text, the delimiter pass alternates plain and formatted spans exactly as the text splits on the delimiter, errors included |
| Delimiters.DelimiterRoundTrip | src/main.py:264-294 | joining the span texts with the delimiter gives back the original text |
| Delimiters.DelimitedPassThrough | src/main.py:293-294 | when no plain span contains the delimiter, the pass returns the list unchanged |
| Delimiters.SplitIgnoresUrl | src/main.py:287-292 | each split builds new url-less spans, so the result does not depend on the node's url |
| Delimiters.PlainFreeConcat | src/main.py:292 | lists whose plain spans lack a string concatenate into one that lacks it too |
| Delimiters.BoldNodeClears | src/main.py:214 | after the bold split of one node, no plain span contains `**` |
| Delimiters.BoldPassClears | src/main.py:214-215 | after the bold pass no plain span contains `**`, so the italic collision branch is never reached from `text_to_textnodes` |
| Tokenizer.SplitMatched | src/main.py:339-355 | at least one span; the node is kept when it is not plain, lacks the opener, or has no match |
| Tokenizer.MatchedEach | src/main.py:339-355 | node by node, at least one span per node |
| Tokenizer.SplitNodesMatched | src/main.py:334-356 | the loop returns the node-by-node result, `[]` for no nodes |
| Tokenizer.FirstSource | src/main.py:347 | the first match's source is non-empty and splits the text into at least two sections |
| Tokenizer.SplitMatchedStep | src/main.py:347-353 | (proof step) a split node is the first section as plain text, the match's span, and the spans of the second section when it is not empty |
| Tokenizer.MatchedSingle | src/main.py:353 | (proof step) the recursive call on the second section is the pass over that one node |
| Tokenizer.FirstPair | src/main.py:316-322 | (proof step) the first pair `findall` returns is the first match's groups, and the text holds the opener |
| Tokenizer.FirstCut | src/main.py:347-353 | a plain node with a match: the first piece of the split on the match's source as plain text, the match's span, then the spans of the second piece |
| Tokenizer.CutSections | src/main.py:322 | for a separator first occurring at i and ending at k, the first piece of `split` is the text before i and the second the text from k up to the next occurrence |
| Tokenizer.SecondSectionShape | src/main.py:347 | the second piece is all of the text after the first occurrence, or the part of it before the next occurrence, which it does not contain |
| Tokenizer.ImageHead | src/main.py:347-349 | a plain node with images: the first two spans are the text before the first image as plain text, then the image span with the image's alt text and url |
| Tokenizer.ImageSections | src/main.py:347 | the second piece of the split on the first image's source starts right after that image |
| Tokenizer.ImageRest | src/main.py:347-353 | the remaining spans are the split of the text after the first image, up to the next occurrence of the same image; none when that text is empty |
| Tokenizer.ImageOnce | src/main.py:347-353 | when the first image does not occur again, the remaining spans are the split of all the text after it |
| Tokenizer.FirstEnd | src/main.py:299-306 | (proof step) the first match ends right after its non-empty source |
| Tokenizer.LinkHead | src/main.py:322-324 | a plain node with links: the first two spans are the text before the cut as plain text, then the link span; the cut is the first link unless its source occurs earlier right after a `!`, and always the link when `!` followed by the source never occurs |
| Tokenizer.LinkRest | src/main.py:322-328 | the remaining spans are the split of the second piece of the split on the first link's source |
| Tokenizer.LinkOnce | src/main.py:322-328 | when the source occurs neither after a `!` nor again after the link, the remaining spans are the split of all the text after the link |
| Tokenizer.CutHead | src/main.py:323-324 | (proof step) the first two spans of a cut, read off the list |
| Tokenizer.CutRest | src/main.py:325-328 | (proof step) the spans after the first two of a cut, read off the list |
| Tokenizer.MatchedEachSnoc | src/main.py:339 | (proof step) one more node at the end appends its spans |
| Tokenizer.MatchedEachConcat | src/main.py:339-355 | the pass over two lists put together is the pass over each, concatenated: each node is handled on its own, in order |
| Tokenizer.SplitMatchedNode | src/main.py:340-355 | the loop body for one node equals `SplitMatched` |
| Tokenizer.SplitNodesImage | src/main.py:334-356 | `split_nodes_image` is the image pass node by node (`MatchedEach`, `MatchedEachConcat`); a plain node with an image is cut as `ImageHead`, `ImageRest` and `ImageOnce` state |
| Tokenizer.SplitNodesLink | src/main.py:309-331 | `split_nodes_link` is the link pass node by node (`MatchedEach`, `MatchedEachConcat`); a plain node with a link is cut as `LinkHead`, `LinkRest` and `LinkOnce` state |
| Tokenizer.TextToTextNodes | src/main.py:209-220 | tokenizing fails only with an unclosed delimiter or an index error, and otherwise yields at least one span |
| Tokenizer.DelimiterAbsent | src/main.py:264-265 | a node without the delimiter passes through a delimiter pass |
| Tokenizer.OpenerAbsent | src/main.py:340 | a node without `![` (or `[`) passes through the image (link) pass |
| Tokenizer.UnmarkedTextIsOneSpan | src/main.py:209-220 | text without `*`, backtick or `[` is one plain span |
| Tokenizer.AllWellFormedConcat | src/main.py:264-294 | lists of well-formed spans concatenate into a well-formed list |
| Tokenizer.DelimitedEachWellFormed | src/main.py:264-294 | a bold, italic or code pass keeps every span of a known kind, with a url exactly for links and images |
| Tokenizer.DelimitedWellFormed | src/main.py:256-296 | the same for `split_nodes_delimiter` as a whole |
| Tokenizer.SplitMatchedWellFormed | src/main.py:339-355 | an image or link split of a well-formed node gives well-formed spans |
| Tokenizer.MatchedWellFormed | src/main.py:309-356 | the image and link passes keep every span well-formed |
| Tokenizer.TokensWellFormed | src/main.py:209-220 | every span of a successful tokenization is well-formed and converts to an HTML leaf |
| Blocks.MarkdownToBlocks | src/main.py:185-191 | no more blocks than pieces between blank lines, and at most one block for text without a blank line |
| Blocks.NonEmpty | src/main.py:190 | the filter keeps only non-empty pieces, and only pieces there were |
| Blocks.NonEmptyConcat | src/main.py:190 | filtering distributes over concatenation, so order is preserved |
| Blocks.BlocksShape | src/main.py:185-191 | every block is non-empty, stripped, and contains no blank line |
| Blocks.PieceStripFree | src/main.py:188-189 | a stripped piece of the blank-line split is stripped and has no blank line |
| Blocks.BlockThenRest | src/main.py:185-191 | a block-shaped text, a blank line, then more text: that block comes first, then the blocks of the rest |
| Blocks.StripAllCons | src/main.py:189 | a stripped first piece is kept as it is |
| Blocks.NonEmptyCons | src/main.py:190 | (proof step) a non-empty first piece is kept first |
| Blocks.EmptyDocumentHasNoBlocks | src/main.py:185-191 | the empty document has no blocks |
| Blocks.BlocksRoundTrip | src/main.py:185-191 | joining block-shaped strings with blank lines and splitting again gives them back |
| Blocks.SingleBlock | src/main.py:185-191 | a block-shaped string on its own is one block |
| Blocks.BlockBeforeBlocks | src/main.py:185-191 | one more block in front of a list that round-trips keeps the round trip |
| Blocks.BlocksIdempotent | src/main.py:185-191 | splitting the rejoined blocks of a document gives the same blocks |
| Blocks.HeadingCount | src/main.py:125-132 | 1 to 6 for a run of that many `#` then a space, None (the implicit return) when there is no such run |
| Blocks.HeadingCountIsRun | src/main.py:125-132 | the heading count of a text starting with n `#` and a space is n |
| Blocks.BlockToBlockType | src/main.py:194-206 | each type exactly when its test holds and the earlier tests fail: heading, code, quote, ordered list, unordered list, paragraph |
| Blocks.StripMarkdownSyntax | src/main.py:108-122 | a heading without a count fails (the None + 1 TypeError) and nothing else fails; the result is stripped and never longer than the input |
| Blocks.HeadingStripped | src/main.py:112-113 | a heading of level n leaves the text after the n `#` and the space, stripped |
| Blocks.CodeMarkersRemoved | src/main.py:114-115 | a code block loses its triple backticks at both ends |
| Blocks.QuoteMarkerRemoved | src/main.py:116-117 | a quote line loses its `>` |
| Blocks.OrderedMarkerRemoved | src/main.py:118-120 | an ordered item `d. text` leaves `text`, stripped |
| Blocks.OrderedCutIsFirstMarker | src/main.py:119-120 | the ordered-list cut is 1 (`-1 + 2`) when the line has no `. `, and otherwise just past the first `. ` |
| Blocks.UnorderedMarkerRemoved | src/main.py:121-122 | an unordered item `- text` or `* text` leaves `text`, stripped |
| Blocks.TitleLine | src/main.py:102 | the index of the first line starting with `# `, or None when there is none |
| Blocks.ExtractTitle | src/main.py:99-105 | `No Header found` exactly when no line starts with `# `; otherwise the stripped rest of the first such line |
| Blocks.TitleOfLeadingHeading | src/main.py:99-105 | a document that opens with `# t` has the stripped `t` as its title |
| Assembler.InlineChildren | src/main.py:158-159 | fails exactly when tokenizing fails; otherwise one leaf per span, each the span's conversion |
| Assembler.ListItemShape | src/main.py:145-147 | a list item is an `li` parent that renders, whose children are the leaves of the stripped line; errors only from tokenizing or the heading count |
| Assembler.ListItemsRender | src/main.py:144-147 | (proof step) every `li` mapped from the lines of a list block renders |
| Assembler.ListBlockNode | src/main.py:135-148 | an `ol`/`ul` parent with one `li` per line of the block, each that line's item; failing exactly with the error of a line that fails |
| Assembler.PopulateListItem | src/main.py:145-147 | the loop body equals `ListItem` for the line (as `ItemOf`, the function the loop maps) |
| Assembler.ListItemNodes | src/main.py:143-147 | the loop over the lines equals mapping `ListItem` over them: the items in order, or the error of the first line that fails |
| Assembler.PopulateHtmlNodeForListBlocks | src/main.py:135-148 | the `ol`/`ul` node over the items of the loop equals `ListBlockNode` |
| Assembler.QuoteLine | src/main.py:156 | one quote line without its `>`, stripped and no longer than the line |
| Assembler.QuoteLines | src/main.py:155-156 | one cleaned line per line: the i-th cleaned line is the i-th line cleaned |
| Assembler.CleanQuoteLines | src/main.py:154-156 | the loop equals `QuoteLines` of the block's lines |
| Assembler.HeadingTag | src/main.py:167 | `h` followed by the digit of the level |
| Assembler.BlockNode | src/main.py:151-172 | every block node is a renderable parent; errors only from tokenizing or a missing heading count |
| Assembler.BlockNodeShape | src/main.py:151-172 | quote: `blockquote` of the cleaned lines rejoined; paragraph: `p`; heading: `h` with its level; code: `pre` around one `code` parent; lists as `ListBlockNode`; each holds the leaves of the stripped block |
| Assembler.ListItemErrors | src/main.py:144-147 | a failing list block fails with the error of one of its lines |
| Assembler.PopulateHtmlNodeForBlock | src/main.py:151-172 | the method equals `BlockNode` on every block type |
| Assembler.ClassifiedBlockNode | src/main.py:180-181 | a classified block is a renderable parent, or fails with an unclosed-delimiter or index error |
| Assembler.DocumentNode | src/main.py:175-182 | a `div` parent of the block nodes, one per block, in order; errors only from tokenizing |
| Assembler.BlockHtmlNodes | src/main.py:178-181 | the loop over the blocks equals mapping `ClassifiedBlockNode` over them |
| Assembler.MarkdownToHtml | src/main.py:175-182 | the method equals `DocumentNode` |
| Assembler.DocumentRenders | src/main.py:175-182 | a document whose node is built renders exactly when it has a block; with none it is `Expected Children`; otherwise `<div>`, the blocks' HTML in order, `</div>` |
| Assembler.DivTags | src/main.py:182 | the document's tags are `<div>` and `</div>` |
| Assembler.ChildrenRender | src/main.py:175-182 | every block node of a document renders |
| Assembler.BlocklessDocument | src/main.py:175-182 | a document with no blocks is an empty `div`, and rendering it fails with `Expected Children` |

## Left out

- The file and directory functions (`src/main.py:15-96`: copying static files, reading the template, writing pages) are not modelled. They are I/O; the model starts from the Markdown text and ends at the rendered string.
- `HTMLNode.to_html` raising `NotImplementedError` on the base class is not modelled: the node datatype has only the leaf and parent forms.
- The `__repr__` methods of the three classes are not modelled; they only give a debugging text.
- `re.findall` is not modelled as a general regular-expression engine. It is modelled by two scanners for the only two patterns used (`src/main.py:301` and `src/main.py:306`), with the lazy groups, the no-newline rule of `.` and the `(?<!!)` look-behind written out.
- `str.isspace` and `str.isnumeric` are modelled on ASCII only. Unicode whitespace and Unicode digits are not covered.
- A prop whose value is `None` (a link or image without url) renders as an empty attribute value. Python would print `None`.
- Props are a sequence of pairs, not a dictionary. The uniqueness of keys is not enforced; the order of the pairs is the insertion order Python iterates.
- Span kinds are a datatype with six constructors and `Other(name)` for any other string. `Other(name)` is meant only for names outside the six; the model does not forbid `Other("bold")` and the like, and treats them as unknown kinds. Block types are a datatype of the six types `block_to_block_type` returns. As a result, `strip_markdown_syntax` returning `None` for an unknown type string, and `populate_html_node_for_block` sending an unknown type to the list code, are not modelled.
- Delimiters.SplitNode: asks its callers for a known kind, and for the `*` delimiter in the italic pass, instead of validating the pair again. `split_nodes_delimiter` validates once before its loop (`src/main.py:262`) and the recursion keeps the pair.
- Assembler.HeadingTag: the `hNone` tag that `f"h{None}"` would build is not modelled. It cannot occur, because a heading without a count already fails when its markers are stripped (`src/main.py:113`).
- Exceptions are modelled as `Err` values with one `Error` constructor per kind of failure; `IndexOutOfRange` stands for both index errors of `split_nodes_delimiter` (`src/main.py:269` and `src/main.py:275`). Their message texts are not modelled, and neither is the exception class (`ValueError`, `IndexError`, `TypeError`, `Exception`).
- Tokenizer.SplitMatched: as in the source, the text is split on every occurrence of the first match's source, but only the first two pieces are used. Text after a second occurrence of the same image or link is lost. The model keeps this behaviour; `Tokenizer.ImageRest` and `Tokenizer.LinkRest` state which text is kept, and nothing is stated about the lost text.
- Tokenizer.LinkHead: the link pass cuts at the first occurrence of the link's source, which can lie inside image syntax before the link. For `![a](b) [a](b)` the cut is at index 1, giving the spans `!`, the link, and a space. The lemma states this cut as it is; `Tokenizer.LinkOnce` gives the plain result when the source never follows a `!`. Inside `text_to_textnodes` images are taken out before links, so this arises only when the link pass is called on its own.
- Deep recursion: `split_nodes_delimiter`, `split_nodes_link` and `split_nodes_image` call themselves on the rest of a node (`src/main.py:292`, `src/main.py:328`, `src/main.py:353`). Python stops with `RecursionError` after about a thousand nested calls, so a text with that many spans fails in the source, while the model returns `Ok`.
