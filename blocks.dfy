/**
 * The block layer of main.py: cutting a document into blocks, classifying
 * each block and removing its markdown markers (markdown_to_blocks,
 * get_heading_count, block_to_block_type, strip_markdown_syntax,
 * extract_title).
 */
module Blocks {
  import opened Wrappers
  import opened PyStr

  /** The six block types block_to_block_type yields; the source names them by strings. */
  datatype BlockType = Paragraph | Heading | CodeBlock | Quote | OrderedList | UnorderedList

  /** map(strip, pieces) */
  function StripAll(ps: seq<string>): (r: seq<string>)
  {
    MapSeq(Strip, ps)
  }

  /** filter(lambda x: x != "", parts): the non-empty parts in their order. */
  function NonEmpty(qs: seq<string>): (r: seq<string>)
    ensures |r| <= |qs|
    ensures forall i :: 0 <= i < |r| ==> r[i] != "" && r[i] in qs
  {
    if qs == [] then []
    else
      var rest := NonEmpty(qs[1..]);
      if qs[0] == "" then rest else [qs[0]] + rest
  }

  /** Filtering works part by part, so it keeps the order of the parts. */
  lemma {:induction false} NonEmptyConcat(a: seq<string>, b: seq<string>)
    ensures NonEmpty(a + b) == NonEmpty(a) + NonEmpty(b)
  {
    if a != [] {
      var ab := a + b;
      assert ab[0] == a[0];
      assert ab[1..] == a[1..] + b;
      NonEmptyConcat(a[1..], b);
    } else {
      assert a + b == b;
    }
  }

  /** markdown_to_blocks: the stripped, non-empty pieces between blank lines ("\n\n"), in order. */
  function MarkdownToBlocks(md: string): (r: seq<string>)
    ensures |r| <= |Split(md, "\n\n")|
    ensures !Contains(md, "\n\n") ==> |r| <= 1
  {
    NonEmpty(StripAll(Split(md, "\n\n")))
  }

  /** What a block looks like: non-empty, stripped and free of blank lines. */
  predicate BlockShaped(b: string) {
    b != "" && IsStripped(b) && !Contains(b, "\n\n")
  }

  /** Blocks are non-empty, stripped and free of blank lines. */
  lemma BlocksShape(md: string)
    ensures forall i :: 0 <= i < |MarkdownToBlocks(md)| ==> BlockShaped(MarkdownToBlocks(md)[i])
  {
    var qs := StripAll(Split(md, "\n\n"));
    var bs := MarkdownToBlocks(md);
    forall i | 0 <= i < |bs|
      ensures BlockShaped(bs[i])
    {
      var j :| 0 <= j < |qs| && qs[j] == bs[i];
      PieceStripFree(md, j);
    }
  }

  /** The strip of a piece between blank lines holds no blank line. */
  lemma PieceStripFree(md: string, j: nat)
    requires j < |Split(md, "\n\n")|
    ensures IsStripped(Strip(Split(md, "\n\n")[j])) && !Contains(Strip(Split(md, "\n\n")[j]), "\n\n")
  {
    SplitPiecesFree(md, "\n\n", j);
    StripKeepsAbsent(Split(md, "\n\n")[j], "\n\n");
  }

  /** A stripped, non-empty block without a blank line, written before a blank line, is the first block. */
  lemma BlockThenRest(b: string, rest: string)
    requires BlockShaped(b)
    ensures MarkdownToBlocks(b + "\n\n" + rest) == [b] + MarkdownToBlocks(rest)
  {
    SplitAfterFree(b, "\n\n", rest);
    var tail := Split(rest, "\n\n");
    StripAllCons(b, tail);
    NonEmptyCons(b, StripAll(tail));
  }

  lemma StripAllCons(b: string, tail: seq<string>)
    requires IsStripped(b)
    ensures StripAll([b] + tail) == [b] + StripAll(tail)
  {
    MapSeqCons(Strip, b, tail);
    StrippedIsFixed(b);
  }

  lemma NonEmptyCons(b: string, qs: seq<string>)
    requires b != ""
    ensures NonEmpty([b] + qs) == [b] + NonEmpty(qs)
  {
    assert ([b] + qs)[1..] == qs;
  }

  /** The empty document has no blocks. */
  lemma EmptyDocumentHasNoBlocks()
    ensures MarkdownToBlocks("") == []
  {
    assert Split("", "\n\n") == [""];
    StripEmpty("");
    assert StripAll([""]) == [""];
  }

  /** Blocks joined with blank lines are cut back into the same blocks. */
  lemma {:induction false} BlocksRoundTrip(bs: seq<string>)
    requires forall i :: 0 <= i < |bs| ==> BlockShaped(bs[i])
    ensures MarkdownToBlocks(Join("\n\n", bs)) == bs
  {
    if bs == [] {
      EmptyDocumentHasNoBlocks();
    } else if |bs| == 1 {
      SingleBlock(bs[0]);
    } else {
      var tail := bs[1..];
      assert forall i :: 0 <= i < |tail| ==> tail[i] == bs[i + 1];
      BlocksRoundTrip(tail);
      BlockBeforeBlocks(bs);
    }
  }

  lemma SingleBlock(b: string)
    requires BlockShaped(b)
    ensures MarkdownToBlocks(Join("\n\n", [b])) == [b]
  {
    assert Split(b, "\n\n") == [b] + [];
    StripAllCons(b, []);
    NonEmptyCons(b, []);
  }

  lemma BlockBeforeBlocks(bs: seq<string>)
    requires |bs| >= 2 && BlockShaped(bs[0])
    requires MarkdownToBlocks(Join("\n\n", bs[1..])) == bs[1..]
    ensures MarkdownToBlocks(Join("\n\n", bs)) == bs
  {
    BlockThenRest(bs[0], Join("\n\n", bs[1..]));
    assert bs == [bs[0]] + bs[1..];
  }

  /** Cutting the blocks of a document, joined again with blank lines, gives the same blocks. */
  lemma BlocksIdempotent(md: string)
    ensures MarkdownToBlocks(Join("\n\n", MarkdownToBlocks(md))) == MarkdownToBlocks(md)
  {
    BlocksShape(md);
    BlocksRoundTrip(MarkdownToBlocks(md));
  }

  /** The text starts with n '#' characters and then a space. */
  predicate HashRun(text: string, n: nat) {
    n < |text| && text[n] == ' ' && forall i :: 0 <= i < n ==> text[i] == '#'
  }

  /** get_heading_count: the number of leading '#' for the headings "# " to "###### ", None otherwise. */
  function HeadingCount(text: string): (r: Option<nat>)
    ensures r.Some? ==> 1 <= r.value <= 6 && HashRun(text, r.value)
    ensures r.None? ==> forall n :: 1 <= n <= 6 ==> !HashRun(text, n)
  {
    if StartsWith(text, "# ") then Some(1)
    else if StartsWith(text, "## ") then Some(2)
    else if StartsWith(text, "### ") then Some(3)
    else if StartsWith(text, "#### ") then Some(4)
    else if StartsWith(text, "##### ") then Some(5)
    else if StartsWith(text, "###### ") then Some(6)
    else None
  }

  /** A text starts with at most one run of '#' followed by a space, so the count is the run's length. */
  lemma HeadingCountIsRun(text: string, n: nat)
    requires 1 <= n <= 6 && HashRun(text, n)
    ensures HeadingCount(text) == Some(n)
  {
  }

  /**
   * block_to_block_type, first rule that holds: a heading, a fenced block
   * opening and closing with three backquotes, a quote, a digit followed by
   * ". ", a "- " or "* " item, and otherwise a paragraph.
   */
  function BlockToBlockType(b: string): (r: BlockType)
    ensures r == Heading <==> exists n :: 1 <= n <= 6 && HashRun(b, n)
    ensures r == CodeBlock <==> r != Heading && |b| >= 3 && b[..3] == "```" && b[|b| - 3..] == "```"
    ensures r == Quote <==> r != Heading && r != CodeBlock && |b| >= 1 && b[0] == '>'
    ensures r == OrderedList <==>
              r != Heading && r != CodeBlock && r != Quote && |b| >= 3 && IsDigit(b[0]) && b[1] == '.' && b[2] == ' '
    ensures r == UnorderedList <==>
              r != Heading && r != CodeBlock && r != Quote && r != OrderedList &&
              |b| >= 2 && (b[0] == '-' || b[0] == '*') && b[1] == ' '
  {
    PairAt(b, 1, ". ");
    PairAt(b, 0, "- ");
    PairAt(b, 0, "* ");
    if HeadingCount(b).Some? then Heading
    else if StartsWith(b, "```") && EndsWith(b, "```") then CodeBlock
    else if StartsWith(b, ">") then Quote
    else if StartsWithAt(b, ". ", 1) && IsDigit(b[0]) then OrderedList
    else if StartsWith(b, "- ") || StartsWith(b, "* ") then UnorderedList
    else Paragraph
  }

  /** The index strip_markdown_syntax cuts an ordered-list line at: find(". ") + 2, so 1 when there is none. */
  function OrderedCut(s: string): nat {
    match Find(s, ". ")
    case None => 1
    case Some(i) => i + 2
  }

  /** The cut is 1 without a ". ", and otherwise just past the first ". ". */
  lemma OrderedCutIsFirstMarker(s: string)
    ensures !Contains(s, ". ") ==> OrderedCut(s) == 1
    ensures Contains(s, ". ") ==>
              2 <= OrderedCut(s) && StartsWithAt(s, ". ", OrderedCut(s) - 2) &&
              forall j: nat :: j < OrderedCut(s) - 2 ==> !StartsWithAt(s, ". ", j)
  {
  }

  /**
   * strip_markdown_syntax: the block's marker removed and the rest stripped.
   * A heading type on a text that is not a heading raises, since the count
   * is None there.
   */
  function StripMarkdownSyntax(s: string, t: BlockType): (r: Result<string>)
    ensures r.Err? <==> t == Heading && HeadingCount(s).None?
    ensures r.Err? ==> r.error == NoneOperand
    ensures r.Ok? ==> IsStripped(r.value) && |r.value| <= |s|
  {
    match t
    case Paragraph => Ok(Strip(s))
    case Heading =>
      (match HeadingCount(s)
       case None => Err(NoneOperand)
       case Some(c) => Ok(Strip(Drop(s, c + 1))))
    case CodeBlock => Ok(Strip(RemoveSuffix(RemovePrefix(s, "```"), "```")))
    case Quote => Ok(Strip(RemovePrefix(s, ">")))
    case OrderedList => Ok(Strip(Drop(s, OrderedCut(s))))
    case UnorderedList => Ok(Strip(Drop(s, 2)))
  }

  /** A heading of n '#' loses exactly n + 1 characters and is then stripped. */
  lemma HeadingStripped(s: string, n: nat)
    requires 1 <= n <= 6 && HashRun(s, n)
    ensures StripMarkdownSyntax(s, Heading) == Ok(Strip(s[n + 1..]))
  {
    HeadingCountIsRun(s, n);
    assert Drop(s, n + 1) == s[n + 1..];
  }

  /** A fenced block loses both fences, and the inner text is what remains, stripped. */
  lemma CodeMarkersRemoved(t: string)
    ensures StripMarkdownSyntax("```" + t + "```", CodeBlock) == Ok(Strip(t))
  {
    var c := "```" + t + "```";
    assert StartsWith(c, "```");
    assert RemovePrefix(c, "```") == t + "```";
    assert EndsWith(t + "```", "```");
    assert RemoveSuffix(t + "```", "```") == t;
  }

  /** A quote line loses its '>', and the rest is stripped. */
  lemma QuoteMarkerRemoved(t: string)
    ensures StripMarkdownSyntax(">" + t, Quote) == Ok(Strip(t))
  {
    assert StartsWith(">" + t, ">");
    assert RemovePrefix(">" + t, ">") == t;
  }

  /** An unordered item loses its two-character marker, "- " or "* ", and the rest is stripped. */
  lemma UnorderedMarkerRemoved(m: char, t: string)
    requires m == '-' || m == '*'
    ensures StripMarkdownSyntax([m, ' '] + t, UnorderedList) == Ok(Strip(t))
  {
    assert Drop([m, ' '] + t, 2) == t;
  }

  /** An ordered item "<digit>. text" is cut after its ". ", the first one in the line. */
  lemma OrderedMarkerRemoved(digit: char, t: string)
    requires IsDigit(digit)
    ensures StripMarkdownSyntax([digit] + ". " + t, OrderedList) == Ok(Strip(t))
  {
    var s := [digit] + ". " + t;
    assert s[1..3] == ". ";
    assert StartsWithAt(s, ". ", 1);
    assert s[0] != '.';
    assert Find(s, ". ") == Some(1);
    assert s[3..] == t;
  }

  /** The index of the first line starting with "# ", with nothing before it qualifying. */
  function TitleLine(lines: seq<string>): (r: Option<nat>)
    ensures r.Some? ==> r.value < |lines| && StartsWith(lines[r.value], "# ")
    ensures forall j :: 0 <= j < |lines| && (r.None? || j < r.value) ==> !StartsWith(lines[j], "# ")
  {
    if lines == [] then None
    else if StartsWith(lines[0], "# ") then Some(0)
    else
      var rest := TitleLine(lines[1..]);
      assert forall j :: 1 <= j < |lines| ==> lines[j] == lines[1..][j - 1];
      if rest.None? then None else Some(rest.value + 1)
  }

  /**
   * extract_title: the first line starting with "# ", without those two
   * characters and stripped; an error when no line starts so.
   */
  function ExtractTitle(md: string): (r: Result<string>)
    ensures r.Err? ==> forall j :: 0 <= j < |Split(md, "\n")| ==> !StartsWith(Split(md, "\n")[j], "# ")
    ensures r.Err? ==> r.error == NoHeaderFound
    ensures r.Ok? ==> exists j :: 0 <= j < |Split(md, "\n")| && StartsWith(Split(md, "\n")[j], "# ") &&
                                 r.value == Strip(Split(md, "\n")[j][2..]) &&
                                 forall i :: 0 <= i < j ==> !StartsWith(Split(md, "\n")[i], "# ")
  {
    var lines := Split(md, "\n");
    var title := TitleLine(lines);
    if title.None? then Err(NoHeaderFound)
    else
      var j := title.value;
      assert StartsWith(Split(md, "\n")[j], "# ");
      Ok(Strip(lines[j][2..]))
  }

  /** A document whose first line is a "# " heading has that heading's text as its title. */
  lemma TitleOfLeadingHeading(t: string, rest: string)
    requires !Contains(t, "\n")
    ensures ExtractTitle("# " + t + "\n" + rest) == Ok(Strip(t))
  {
    var first := "# " + t;
    CharAbsent("# ", "\n");
    CharAbsentFromConcat("# ", t, "\n");
    SplitAfterFreeChar(first, "\n", rest);
    assert StartsWith(first, "# ");
    assert TitleLine(Split(first + "\n" + rest, "\n")) == Some(0);
    assert first[2..] == t;
  }
}
