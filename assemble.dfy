/**
 * The HTML assembly of main.py: each block becomes a parent node holding
 * the leaves of its inline spans (populate_html_node_for_list_blocks,
 * populate_html_node_for_block), and a document becomes a div of its
 * blocks (markdown_to_html).
 */
module Assembler {
  import opened Wrappers
  import opened PyStr
  import opened HtmlNodes
  import opened TextNodes
  import opened Tokenizer
  import opened Blocks

  /**
   * The leaves of a text: its spans, each converted to a leaf. Tokenizer
   * spans always convert, so only an unclosed delimiter makes it fail.
   */
  function InlineChildren(text: string): (r: Result<seq<HtmlNode>>)
    ensures r.Err? <==> TextToTextNodes(text).Err?
    ensures r.Err? ==> r.error == ClosingNotFound || r.error == IndexOutOfRange
    ensures r.Ok? ==> |r.value| == |TextToTextNodes(text).value| >= 1
    ensures r.Ok? ==> forall i :: 0 <= i < |r.value| ==>
              r.value[i].Leaf? && Renderable(r.value[i]) && TextNodeToHtmlNode(TextToTextNodes(text).value[i]) == Ok(r.value[i])
  {
    var spans :- TextToTextNodes(text);
    TokensWellFormed(text);
    MapResult(TextNodeToHtmlNode, spans)
  }

  /** The tag of a list block: ol for an ordered list, ul for anything else. */
  function ListTag(t: BlockType): string {
    if t == OrderedList then "ol" else "ul"
  }

  /** One list line: its marker removed, then an li over the leaves of the rest. */
  function ListItem(t: BlockType, line: string): Result<HtmlNode> {
    var text :- StripMarkdownSyntax(line, t);
    var children :- InlineChildren(text);
    Ok(Parent(Some("li"), Given(children), None))
  }

  /**
   * A list item is an li that renders, whose leaves are those of the
   * stripped line; it fails only with an unclosed delimiter, or on a heading
   * type for a line that is no heading.
   */
  lemma ListItemShape(t: BlockType, line: string)
    ensures ListItem(t, line).Ok? ==>
              var n := ListItem(t, line).value;
              n.Parent? && n.tag == Some("li") && n.children.Given? && Renderable(n) &&
              StripMarkdownSyntax(line, t).Ok? && InlineChildren(StripMarkdownSyntax(line, t).value) == Ok(n.children.nodes)
    ensures ListItem(t, line).Err? ==>
              var e := ListItem(t, line).error;
              e == ClosingNotFound || e == IndexOutOfRange || (t == Heading && e == NoneOperand)
  {
    var text := StripMarkdownSyntax(line, t);
    if text.Ok? {
      var children := InlineChildren(text.value);
      if children.Ok? {
        assert ListItem(t, line) == Ok(Parent(Some("li"), Given(children.value), None));
        LeavesRender(children.value);
      }
    }
  }

  /** An li over leaves that render, at least one of them, renders. */
  lemma LeavesRender(cs: seq<HtmlNode>)
    requires |cs| >= 1 && forall i :: 0 <= i < |cs| ==> Renderable(cs[i])
    ensures Renderable(Parent(Some("li"), Given(cs), None))
  {
  }

  /** Every li mapped from the lines of a list block renders. */
  lemma ListItemsRender(t: BlockType, lines: seq<string>, items: seq<HtmlNode>)
    requires MapResult(ItemOf(t), lines) == Ok(items)
    ensures forall i :: 0 <= i < |items| ==> Renderable(items[i])
  {
    forall i | 0 <= i < |items|
      ensures Renderable(items[i])
    {
      ListItemShape(t, lines[i]);
    }
  }

  /** ListItem for a fixed list type, as the function mapped over the lines. */
  function ItemOf(t: BlockType): string -> Result<HtmlNode> {
    line => ListItem(t, line)
  }

  /** The list node of a list block: one li per line, in order. */
  function ListBlockNode(t: BlockType, block: string): (r: Result<HtmlNode>)
    ensures r.Ok? ==> r.value.Parent? && r.value.tag == Some(ListTag(t)) && r.value.children.Given? && Renderable(r.value)
    ensures r.Ok? ==> (|r.value.children.nodes| == |Split(block, "\n")| &&
                       forall i :: 0 <= i < |Split(block, "\n")| ==> ListItem(t, Split(block, "\n")[i]) == Ok(r.value.children.nodes[i]))
    ensures r.Err? ==> exists i :: 0 <= i < |Split(block, "\n")| && ListItem(t, Split(block, "\n")[i]) == Err(r.error)
  {
    var lines := Split(block, "\n");
    var items :- MapResult(ItemOf(t), lines);
    ListItemsRender(t, lines, items);
    Ok(Parent(Some(ListTag(t)), Given(items), None))
  }

  /** The body of the loop of populate_html_node_for_list_blocks: one line to its li. */
  method PopulateListItem(t: BlockType, line: string) returns (r: Result<HtmlNode>)
    ensures r == ItemOf(t)(line)
  {
    var text := StripMarkdownSyntax(line, t);
    if text.Err? {
      return Err(text.error);
    }
    var lineChildren := InlineChildren(text.value);
    if lineChildren.Err? {
      return Err(lineChildren.error);
    }
    r := Ok(Parent(Some("li"), Given(lineChildren.value), None));
  }

  /** The loop of populate_html_node_for_list_blocks: each line turned into its li, in order. */
  method ListItemNodes(t: BlockType, lines: seq<string>) returns (r: Result<seq<HtmlNode>>)
    ensures r == MapResult(ItemOf(t), lines)
  {
    var listNodes: seq<HtmlNode> := [];
    for i := 0 to |lines|
      invariant MapResult(ItemOf(t), lines[..i]) == Ok(listNodes)
    {
      var item := PopulateListItem(t, lines[i]);
      if item.Err? {
        MapResultFails(ItemOf(t), lines, i);
        return Err(item.error);
      }
      MapResultNext(ItemOf(t), lines, i, listNodes, item.value);
      listNodes := listNodes + [item.value];
    }
    assert lines[..|lines|] == lines;
    r := Ok(listNodes);
  }

  /** populate_html_node_for_list_blocks */
  method PopulateHtmlNodeForListBlocks(t: BlockType, block: string) returns (r: Result<HtmlNode>)
    ensures r == ListBlockNode(t, block)
  {
    var tag := if t == OrderedList then "ol" else "ul";
    var lines := Split(block, "\n");
    var listNodes :- ListItemNodes(t, lines);
    r := Ok(Parent(Some(tag), Given(listNodes), None));
  }

  /** A quote line: its leading '>' removed and the rest stripped. */
  function QuoteLine(line: string): (r: string)
    ensures IsStripped(r) && |r| <= |line|
  {
    StripMarkdownSyntax(line, Quote).value
  }

  /** The cleaned lines of a quote block. */
  function QuoteLines(lines: seq<string>): (r: seq<string>)
    ensures |r| == |lines| && forall i :: 0 <= i < |lines| ==> r[i] == QuoteLine(lines[i])
  {
    if lines == [] then []
    else
      var front := QuoteLines(lines[..|lines| - 1]);
      MapSnoc(QuoteLine, lines, front);
      front + [QuoteLine(lines[|lines| - 1])]
  }

  /** The text of a quote block that is tokenized as one unit: its cleaned lines joined with "\n". */
  function QuoteText(block: string): string {
    Join("\n", QuoteLines(Split(block, "\n")))
  }

  /** The loop of the quote branch of populate_html_node_for_block. */
  method CleanQuoteLines(lines: seq<string>) returns (newLines: seq<string>)
    ensures newLines == QuoteLines(lines)
  {
    newLines := [];
    for i := 0 to |lines|
      invariant newLines == QuoteLines(lines[..i])
    {
      var cleaned := QuoteLine(lines[i]);
      assert lines[..i + 1][..i] == lines[..i];
      newLines := newLines + [cleaned];
    }
    assert lines[..|lines|] == lines;
  }

  /** The tag of a heading of n '#': h1 to h6. */
  function HeadingTag(n: nat): (r: string)
    requires 1 <= n <= 6
    ensures |r| == 2 && r[0] == 'h' && IsDigit(r[1]) && r[1] as int - '0' as int == n
  {
    "h" + [(48 + n) as char]
  }

  /**
   * The node of a block of type t: a blockquote, a p, an h1..h6, a pre
   * wrapping a code, or a list. It renders whenever it is built; building it
   * fails only with an unclosed delimiter, or on a heading type for a block
   * that is no heading.
   */
  function BlockNode(t: BlockType, block: string): (r: Result<HtmlNode>)
    ensures r.Ok? ==> r.value.Parent? && r.value.children.Given? && Renderable(r.value)
    ensures r.Err? ==> r.error == ClosingNotFound || r.error == IndexOutOfRange ||
                       (r.error == NoneOperand && t == Heading && HeadingCount(block).None?)
  {
    if t == Quote then
      var children :- InlineChildren(QuoteText(block));
      Ok(Parent(Some("blockquote"), Given(children), None))
    else if t != OrderedList && t != UnorderedList then
      var text :- StripMarkdownSyntax(block, t);
      var children :- InlineChildren(text);
      if t == Paragraph then Ok(Parent(Some("p"), Given(children), None))
      else if t == Heading then Ok(Parent(Some(HeadingTag(HeadingCount(block).value)), Given(children), None))
      else Ok(Parent(Some("pre"), Given([Parent(Some("code"), Given(children), None)]), None))
    else
      ListItemErrors(t, block);
      ListBlockNode(t, block)
  }

  /**
   * The element each block type becomes, and what its leaves are made of: a
   * blockquote over the cleaned quote text, a p or an h1..h6 over the
   * stripped block, a pre holding one code over the stripped block, and an
   * ol or ul.
   */
  lemma BlockNodeShape(t: BlockType, block: string)
    requires BlockNode(t, block).Ok?
    ensures t == Quote ==> BlockNode(t, block).value.tag == Some("blockquote") &&
                           InlineChildren(QuoteText(block)) == Ok(BlockNode(t, block).value.children.nodes)
    ensures t == Paragraph ==> BlockNode(t, block).value.tag == Some("p")
    ensures t == Heading ==> HeadingCount(block).Some? &&
                             BlockNode(t, block).value.tag == Some(HeadingTag(HeadingCount(block).value))
    ensures t == Paragraph || t == Heading ==>
              InlineChildren(StripMarkdownSyntax(block, t).value) == Ok(BlockNode(t, block).value.children.nodes)
    ensures t == CodeBlock ==> BlockNode(t, block).value.tag == Some("pre") &&
                               |BlockNode(t, block).value.children.nodes| == 1 &&
                               BlockNode(t, block).value.children.nodes[0].Parent? &&
                               BlockNode(t, block).value.children.nodes[0].tag == Some("code") &&
                               BlockNode(t, block).value.children.nodes[0].children.Given? &&
                               InlineChildren(StripMarkdownSyntax(block, t).value) ==
                                 Ok(BlockNode(t, block).value.children.nodes[0].children.nodes)
    ensures t == OrderedList || t == UnorderedList ==> BlockNode(t, block) == ListBlockNode(t, block)
  {
    var r := BlockNode(t, block).value;
    if t == Quote {
      assert r == Parent(Some("blockquote"), Given(InlineChildren(QuoteText(block)).value), None);
    } else if t != OrderedList && t != UnorderedList {
      var children := InlineChildren(StripMarkdownSyntax(block, t).value).value;
      if t == Paragraph {
        assert r == Parent(Some("p"), Given(children), None);
      } else if t == Heading {
        assert r == Parent(Some(HeadingTag(HeadingCount(block).value)), Given(children), None);
      } else {
        assert r == Parent(Some("pre"), Given([Parent(Some("code"), Given(children), None)]), None);
      }
    }
  }

  /** The lines of a list block fail only with an unclosed delimiter. */
  lemma ListItemErrors(t: BlockType, block: string)
    requires t == OrderedList || t == UnorderedList
    ensures ListBlockNode(t, block).Err? ==>
              ListBlockNode(t, block).error == ClosingNotFound || ListBlockNode(t, block).error == IndexOutOfRange
  {
    var r := ListBlockNode(t, block);
    if r.Err? {
      var lines := Split(block, "\n");
      var i :| 0 <= i < |lines| && ListItem(t, lines[i]) == Err(r.error);
      ListItemShape(t, lines[i]);
    }
  }

  /** populate_html_node_for_block; the quote branch cleans the block line by line. */
  method PopulateHtmlNodeForBlock(t: BlockType, block: string) returns (r: Result<HtmlNode>)
    ensures r == BlockNode(t, block)
  {
    if t == Quote {
      var newLines := CleanQuoteLines(Split(block, "\n"));
      var cleanedBlock := Join("\n", newLines);
      var children := InlineChildren(cleanedBlock);
      if children.Err? {
        return Err(children.error);
      }
      return Ok(Parent(Some("blockquote"), Given(children.value), None));
    }
    if t != OrderedList && t != UnorderedList {
      var text := StripMarkdownSyntax(block, t);
      if text.Err? {
        return Err(text.error);
      }
      var children := InlineChildren(text.value);
      if children.Err? {
        return Err(children.error);
      }
      if t == Paragraph {
        return Ok(Parent(Some("p"), Given(children.value), None));
      }
      if t == Heading {
        return Ok(Parent(Some(HeadingTag(HeadingCount(block).value)), Given(children.value), None));
      }
      var codeNode := Parent(Some("code"), Given(children.value), None);
      return Ok(Parent(Some("pre"), Given([codeNode]), None));
    }
    r := PopulateHtmlNodeForListBlocks(t, block);
  }

  /** The node of one block, under the type it classifies as. */
  function ClassifiedBlockNode(block: string): (r: Result<HtmlNode>)
    ensures r.Ok? ==> r.value.Parent? && Renderable(r.value)
    ensures r.Err? ==> r.error == ClosingNotFound || r.error == IndexOutOfRange
  {
    BlockNode(BlockToBlockType(block), block)
  }

  /** The div of a document: the i-th child is the node of the i-th block. */
  function DocumentNode(md: string): (r: Result<HtmlNode>)
    ensures r.Err? ==> r.error == ClosingNotFound || r.error == IndexOutOfRange
    ensures r.Ok? ==> (r.value.Parent? && r.value.tag == Some("div") && r.value.children.Given? &&
                       |r.value.children.nodes| == |MarkdownToBlocks(md)| &&
                       forall i :: 0 <= i < |MarkdownToBlocks(md)| ==>
                         ClassifiedBlockNode(MarkdownToBlocks(md)[i]) == Ok(r.value.children.nodes[i]))
  {
    var blocks := MarkdownToBlocks(md);
    var children :- MapResult(ClassifiedBlockNode, blocks);
    Ok(Parent(Some("div"), Given(children), None))
  }

  /** The loop of markdown_to_html: each block classified and turned into its node, in order. */
  method BlockHtmlNodes(blocks: seq<string>) returns (r: Result<seq<HtmlNode>>)
    ensures r == MapResult(ClassifiedBlockNode, blocks)
  {
    var blockHtmlNodes: seq<HtmlNode> := [];
    for i := 0 to |blocks|
      invariant MapResult(ClassifiedBlockNode, blocks[..i]) == Ok(blockHtmlNodes)
    {
      var blockType := BlockToBlockType(blocks[i]);
      var node := PopulateHtmlNodeForBlock(blockType, blocks[i]);
      if node.Err? {
        MapResultFails(ClassifiedBlockNode, blocks, i);
        return Err(node.error);
      }
      MapResultNext(ClassifiedBlockNode, blocks, i, blockHtmlNodes, node.value);
      blockHtmlNodes := blockHtmlNodes + [node.value];
    }
    assert blocks[..|blocks|] == blocks;
    r := Ok(blockHtmlNodes);
  }

  /** markdown_to_html */
  method MarkdownToHtml(md: string) returns (r: Result<HtmlNode>)
    ensures r == DocumentNode(md)
  {
    var blocks := MarkdownToBlocks(md);
    var blockHtmlNodes :- BlockHtmlNodes(blocks);
    r := Ok(Parent(Some("div"), Given(blockHtmlNodes), None));
  }

  /** The div renders exactly when the document has a block; without one it has no children. */
  lemma DocumentRenders(md: string, n: HtmlNode)
    requires DocumentNode(md) == Ok(n)
    ensures Renderable(n) <==> MarkdownToBlocks(md) != []
    ensures MarkdownToBlocks(md) == [] ==> ToHtml(n) == Err(ExpectedChildren)
    ensures MarkdownToBlocks(md) != [] ==> ToHtml(n) == Ok("<div>" + Join("", ChildHtml(n.children.nodes)) + "</div>")
  {
    var cs := n.children.nodes;
    assert n == Parent(Some("div"), Given(cs), None);
    ChildrenRender(md);
    if cs == [] {
      ParentChecks(Some("div"), Given(cs), None);
    } else {
      ParentRendersChildrenInOrder("div", cs, None);
      DivTags();
    }
  }

  lemma DivTags()
    ensures OpenTag("div", None) == "<div>" && CloseTag("div") == "</div>"
  {
    assert PropsText(None) == "";
  }

  /** Every child of the div renders. */
  lemma ChildrenRender(md: string)
    requires DocumentNode(md).Ok?
    ensures forall i :: 0 <= i < |DocumentNode(md).value.children.nodes| ==> Renderable(DocumentNode(md).value.children.nodes[i])
  {
    var blocks := MarkdownToBlocks(md);
    var cs := DocumentNode(md).value.children.nodes;
    forall i | 0 <= i < |cs|
      ensures Renderable(cs[i])
    {
      assert ClassifiedBlockNode(blocks[i]) == Ok(cs[i]);
    }
  }

  /** A document without blocks, such as the empty one, becomes an empty div, which fails to render. */
  lemma BlocklessDocument(md: string)
    requires MarkdownToBlocks(md) == []
    ensures DocumentNode(md) == Ok(Parent(Some("div"), Given([]), None))
    ensures ToHtml(DocumentNode(md).value) == Err(ExpectedChildren)
  {
    assert MapResult(ClassifiedBlockNode, []) == Ok([]);
    ParentChecks(Some("div"), Given([]), None);
  }
}
