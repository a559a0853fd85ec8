/**
 * split_nodes_image, split_nodes_link and text_to_textnodes (main.py): the
 * passes that turn image and link syntax into spans, and the whole inline
 * tokenizer (bold, italic, code, images, links, in that order).
 */
module Tokenizer {
  import opened Wrappers
  import opened PyStr
  import opened TextNodes
  import opened Extractors
  import opened Delimiters

  /** The span kind a pattern produces. */
  function KindOf(pat: Pattern): TextType {
    if pat == ImagePattern then Image else Link
  }

  /**
   * The spans split_nodes_image (split_nodes_link) makes of one node: the node
   * itself when it is not plain, lacks the opener or has no match; otherwise
   * the text is split on every occurrence of the first match's markdown
   * source, the first section becomes a plain span (even when empty), the
   * match becomes an image (link) span, and only the second section, when
   * it is not empty, is split further. Later sections are dropped.
   */
  function SplitMatched(n: TextNode, pat: Pattern): (r: seq<TextNode>)
    decreases |n.text|
    ensures |r| >= 1
    ensures !(n.textType == Text && Contains(n.text, Opener(pat)) && Matches(n.text, pat) != []) ==> r == [n]
  {
    if !(n.textType == Text && Contains(n.text, Opener(pat))) then [n]
    else
      var found := Matches(n.text, pat);
      if |found| == 0 then [n]
      else
        var src := Source(pat, found[0].0, found[0].1);
        FirstMatchOccurs(n.text, pat);
        var sections := Split(n.text, src);
        SplitPieceShorter(n.text, src, 1);
        [Plain(sections[0]), TextNode(found[0].0, KindOf(pat), Some(found[0].1))] +
        (if |sections[1]| > 0 then SplitMatched(Plain(sections[1]), pat) else [])
  }

  /** The spans of a list of nodes, node by node. */
  function MatchedEach(ns: seq<TextNode>, pat: Pattern): (r: seq<TextNode>)
    ensures |r| >= |ns|
  {
    if ns == [] then [] else MatchedEach(ns[..|ns| - 1], pat) + SplitMatched(ns[|ns| - 1], pat)
  }

  /** split_nodes_image and split_nodes_link, which differ only in the pattern. */
  method SplitNodesMatched(oldNodes: seq<TextNode>, pat: Pattern) returns (newList: seq<TextNode>)
    decreases TotalLength(oldNodes), 1
    ensures newList == MatchedEach(oldNodes, pat)
  {
    newList := [];
    if |oldNodes| == 0 {
      return;
    }
    for i := 0 to |oldNodes|
      invariant newList == MatchedEach(oldNodes[..i], pat)
    {
      assert oldNodes[..i + 1][..i] == oldNodes[..i];
      TotalLengthBound(oldNodes, i);
      var out := SplitMatchedNode(oldNodes[i], pat);
      newList := newList + out;
    }
    assert oldNodes[..|oldNodes|] == oldNodes;
  }

  /** The markdown source of a node's first match, which occurs in its text. */
  lemma FirstSource(n: TextNode, pat: Pattern, found: seq<(string, string)>, src: string)
    requires found == Matches(n.text, pat) && |found| > 0
    requires src == Source(pat, found[0].0, found[0].1)
    ensures |src| > 0 && |Split(n.text, src)| >= 2
  {
    FirstMatchOccurs(n.text, pat);
  }

  /** The spans of a node split on its first match, in the terms the loop body computes them. */
  lemma SplitMatchedStep(n: TextNode, pat: Pattern, found: seq<(string, string)>, src: string, sections: seq<string>)
    requires n.textType == Text && Contains(n.text, Opener(pat))
    requires found == Matches(n.text, pat) && |found| > 0
    requires src == Source(pat, found[0].0, found[0].1) && |src| > 0
    requires sections == Split(n.text, src) && |sections| >= 2
    ensures SplitMatched(n, pat) ==
              [Plain(sections[0]), TextNode(found[0].0, KindOf(pat), Some(found[0].1))] +
              (if |sections[1]| > 0 then SplitMatched(Plain(sections[1]), pat) else [])
  {
  }

  /** The recursive call on the second section is a pass over one node. */
  lemma MatchedSingle(n: TextNode, pat: Pattern)
    ensures MatchedEach([n], pat) == SplitMatched(n, pat)
  {
    assert [n][..0] == [];
    assert MatchedEach([n], pat) == [] + SplitMatched(n, pat);
  }

  /** The body of the loop of split_nodes_image (split_nodes_link), for one node. */
  method SplitMatchedNode(node: TextNode, pat: Pattern) returns (r: seq<TextNode>)
    decreases |node.text|, 0
    ensures r == SplitMatched(node, pat)
  {
    if !(node.textType == Text && Contains(node.text, Opener(pat))) {
      return [node];
    }
    var found := Matches(node.text, pat);
    if |found| == 0 {
      return [node];
    }
    var src := Source(pat, found[0].0, found[0].1);
    FirstSource(node, pat, found, src);
    var sections := Split(node.text, src);
    SplitMatchedStep(node, pat, found, src, sections);
    var span := TextNode(found[0].0, KindOf(pat), Some(found[0].1));
    r := [Plain(sections[0])];
    r := r + [span];
    assert r == [Plain(sections[0]), span];
    if |sections[1]| > 0 {
      var rest := Plain(sections[1]);
      SplitPieceShorter(node.text, src, 1);
      TotalLengthSingle(rest);
      var more := SplitNodesMatched([rest], pat);
      MatchedSingle(rest, pat);
      r := r + more;
    } else {
      assert r == r + [];
    }
  }

  /**
   * The second section of a split on src of a text whose first occurrence of
   * src has just been cut off: the rest up to the next occurrence of src, or
   * all of it when there is none.
   */
  function SecondSection(rest: string, src: string): string
    requires |src| > 0
  {
    if Contains(rest, src) then rest[..Find(rest, src).value] else rest
  }

  /** The second section is all of the rest, or the rest up to an occurrence of src that it does not hold. */
  lemma SecondSectionShape(rest: string, src: string)
    requires |src| > 0
    ensures |SecondSection(rest, src)| <= |rest|
    ensures !Contains(rest, src) ==> SecondSection(rest, src) == rest
    ensures Contains(rest, src) ==>
              rest == SecondSection(rest, src) + src + SplitOnce(rest, src).1 && !Contains(SecondSection(rest, src), src)
  {
    if Contains(rest, src) {
      NothingBeforeFirst(rest, src, Find(rest, src).value);
    }
  }

  /** The spans of the second section: split further only when it is not empty. */
  function SecondSpans(c: string, pat: Pattern): seq<TextNode> {
    if c != "" then SplitMatched(Plain(c), pat) else []
  }

  /** The same cut in terms of the pieces of str.split on the first match's source. */
  lemma FirstCut(n: TextNode, pat: Pattern)
    requires n.textType == Text && FindMatches(n.text, 0, pat) != []
    ensures var m := FindMatches(n.text, 0, pat)[0];
            var sections := Split(n.text, Source(pat, m.text, m.url));
            |sections| >= 2 &&
            SplitMatched(n, pat) ==
              [Plain(sections[0]), TextNode(m.text, KindOf(pat), Some(m.url))] + SecondSpans(sections[1], pat)
  {
    var m := FindMatches(n.text, 0, pat)[0];
    var found := Matches(n.text, pat);
    assert found != [] && found[0].0 == m.text && found[0].1 == m.url && Contains(n.text, Opener(pat)) by {
      FirstPair(n.text, pat);
    }
    var src := Source(pat, m.text, m.url);
    FirstMatchOccurs(n.text, pat);
    SplitMatchedStep(n, pat, found, src, Split(n.text, src));
  }

  /** The first pair findall returns is the first match's groups, and the text holds the opener. */
  lemma FirstPair(s: string, pat: Pattern)
    requires FindMatches(s, 0, pat) != []
    ensures Matches(s, pat) != [] && Contains(s, Opener(pat))
    ensures Matches(s, pat)[0] == (FindMatches(s, 0, pat)[0].text, FindMatches(s, 0, pat)[0].url)
  {
    var ms := FindMatches(s, 0, pat);
    FoundAreMatches(s, 0, pat, 0);
    assert OpensAt(s, ms[0].start, pat);
    assert Matches(s, pat) == Groups(ms);
  }

  /**
   * Splitting on a separator whose first occurrence is at i and ends at k:
   * the first piece is the text before i, the second the text from k up to
   * the separator's next occurrence.
   */
  lemma CutSections(s: string, sep: string, i: nat, k: nat)
    requires |sep| > 0 && Find(s, sep) == Some(i) && k == i + |sep|
    ensures |Split(s, sep)| >= 2 && Split(s, sep)[0] == s[..i]
    ensures Split(s, sep)[1] == SecondSection(s[k..], sep)
  {
    var rest := s[k..];
    assert Split(s, sep) == [s[..i]] + Split(rest, sep);
    if Contains(rest, sep) {
      SplitOnceIsSplitHead(rest, sep);
    }
  }

  /** The first two spans of a cut, read off the whole list. */
  lemma CutHead(r: seq<TextNode>, a: string, a': string, span: TextNode, c: string, pat: Pattern)
    requires r == [Plain(a), span] + SecondSpans(c, pat) && a == a'
    ensures |r| >= 2 && r[..2] == [Plain(a'), span]
  {
  }

  /** The spans after the first two of a cut, read off the whole list. */
  lemma CutRest(r: seq<TextNode>, a: string, span: TextNode, c: string, pat: Pattern)
    requires r == [Plain(a), span] + SecondSpans(c, pat)
    ensures |r| >= 2 && r[2..] == SecondSpans(c, pat)
  {
  }

  /**
   * split_nodes_image on a plain node with images: the text before the first
   * image becomes a plain span, then comes the image span with its alt text
   * and url.
   */
  lemma ImageHead(n: TextNode)
    requires n.textType == Text && FindMatches(n.text, 0, ImagePattern) != []
    ensures var m := FirstMatch(n.text, ImagePattern);
            |SplitMatched(n, ImagePattern)| >= 2 &&
            SplitMatched(n, ImagePattern)[..2] == [Plain(n.text[..m.start]), TextNode(m.text, Image, Some(m.url))]
  {
    var m := FirstMatch(n.text, ImagePattern);
    var src := Source(ImagePattern, m.text, m.url);
    var sections := Split(n.text, src);
    assert Find(n.text, src) == Some(m.start) by {
      FirstImageIsFirstOccurrence(n.text);
    }
    FirstCut(n, ImagePattern);
    CutSections(n.text, src, m.start, m.start + |src|);
    CutHead(SplitMatched(n, ImagePattern), sections[0], n.text[..m.start], TextNode(m.text, Image, Some(m.url)),
            sections[1], ImagePattern);
  }

  /**
   * The rest of split_nodes_image's spans for a plain node with images: the
   * spans of the text after the first image, up to the next occurrence of
   * the same image.
   */
  lemma ImageRest(n: TextNode)
    requires n.textType == Text && FindMatches(n.text, 0, ImagePattern) != []
    ensures var m := FirstMatch(n.text, ImagePattern);
            var sections := Split(n.text, Source(ImagePattern, m.text, m.url));
            |sections| >= 2 && sections[1] == SecondSection(n.text[m.end..], Source(ImagePattern, m.text, m.url)) &&
            |SplitMatched(n, ImagePattern)| >= 2 && SplitMatched(n, ImagePattern)[2..] == SecondSpans(sections[1], ImagePattern)
  {
    var m := FirstMatch(n.text, ImagePattern);
    var src := Source(ImagePattern, m.text, m.url);
    var sections := Split(n.text, src);
    ImageSections(n.text);
    FirstCut(n, ImagePattern);
    CutRest(SplitMatched(n, ImagePattern), sections[0], TextNode(m.text, Image, Some(m.url)), sections[1], ImagePattern);
  }

  /** Splitting a text on its first image's source: the second piece starts right after that image. */
  lemma ImageSections(s: string)
    requires FindMatches(s, 0, ImagePattern) != []
    ensures var m := FirstMatch(s, ImagePattern);
            var sections := Split(s, Source(ImagePattern, m.text, m.url));
            |sections| >= 2 && sections[1] == SecondSection(s[m.end..], Source(ImagePattern, m.text, m.url))
  {
    var m := FirstMatch(s, ImagePattern);
    var src := Source(ImagePattern, m.text, m.url);
    assert Find(s, src) == Some(m.start) by {
      FirstImageIsFirstOccurrence(s);
    }
    assert m.end == m.start + |src| by {
      FirstEnd(s, ImagePattern);
    }
    CutSections(s, src, m.start, m.end);
  }

  /** The first match ends right after its source. */
  lemma FirstEnd(s: string, pat: Pattern)
    requires FindMatches(s, 0, pat) != []
    ensures var m := FindMatches(s, 0, pat)[0];
            0 < |Source(pat, m.text, m.url)| && m.end == m.start + |Source(pat, m.text, m.url)| <= |s|
  {
    var m := FindMatches(s, 0, pat)[0];
    FoundAreMatches(s, 0, pat, 0);
    MatchShape(s, m.start, pat);
  }


  /** When the first image does not occur again, the rest is the split of all the text after it. */
  lemma ImageOnce(n: TextNode)
    requires n.textType == Text && FindMatches(n.text, 0, ImagePattern) != []
    requires var m := FirstMatch(n.text, ImagePattern);
             !Contains(n.text[m.end..], Source(ImagePattern, m.text, m.url))
    ensures var m := FirstMatch(n.text, ImagePattern);
            |SplitMatched(n, ImagePattern)| >= 2 &&
            SplitMatched(n, ImagePattern)[2..] == SecondSpans(n.text[m.end..], ImagePattern)
  {
    var m := FirstMatch(n.text, ImagePattern);
    ImageRest(n);
    SecondSectionShape(n.text[m.end..], Source(ImagePattern, m.text, m.url));
  }

  /**
   * split_nodes_link on a plain node with links: the text before the cut
   * becomes a plain span, then comes the link span with its text and url.
   * The cut is the first occurrence of the first link's source: the link
   * itself, unless the same source occurs earlier right after a '!' (as
   * image syntax).
   */
  lemma LinkHead(n: TextNode)
    requires n.textType == Text && FindMatches(n.text, 0, LinkPattern) != []
    ensures var m := FirstMatch(n.text, LinkPattern);
            var src := Source(LinkPattern, m.text, m.url);
            Find(n.text, src).Some? &&
            var i := Find(n.text, src).value;
            (i == m.start || (0 < i < m.start && n.text[i - 1] == '!')) &&
            (!Contains(n.text, "!" + src) ==> i == m.start) &&
            |SplitMatched(n, LinkPattern)| >= 2 &&
            SplitMatched(n, LinkPattern)[..2] == [Plain(n.text[..i]), TextNode(m.text, Link, Some(m.url))]
  {
    var m := FirstMatch(n.text, LinkPattern);
    var src := Source(LinkPattern, m.text, m.url);
    var sections := Split(n.text, src);
    LinkCut(n.text);
    var i := Find(n.text, src).value;
    FirstCut(n, LinkPattern);
    CutSections(n.text, src, i, i + |src|);
    CutHead(SplitMatched(n, LinkPattern), sections[0], n.text[..i], TextNode(m.text, Link, Some(m.url)),
            sections[1], LinkPattern);
  }

  /**
   * The rest of split_nodes_link's spans for a plain node with links: the
   * spans of the second piece of the split on the first link's source, that
   * is (CutSections, at the cut LinkHead names) the text after the cut
   * source up to its next occurrence.
   */
  lemma LinkRest(n: TextNode)
    requires n.textType == Text && FindMatches(n.text, 0, LinkPattern) != []
    ensures var m := FirstMatch(n.text, LinkPattern);
            var src := Source(LinkPattern, m.text, m.url);
            var sections := Split(n.text, src);
            |sections| >= 2 &&
            |SplitMatched(n, LinkPattern)| >= 2 && SplitMatched(n, LinkPattern)[2..] == SecondSpans(sections[1], LinkPattern)
  {
    var m := FirstMatch(n.text, LinkPattern);
    var src := Source(LinkPattern, m.text, m.url);
    var sections := Split(n.text, src);
    FirstCut(n, LinkPattern);
    CutRest(SplitMatched(n, LinkPattern), sections[0], TextNode(m.text, Link, Some(m.url)), sections[1], LinkPattern);
  }

  /**
   * When the first link's source occurs neither after a '!' nor again after
   * the link, the rest is the split of all the text after the link.
   */
  lemma LinkOnce(n: TextNode)
    requires n.textType == Text && FindMatches(n.text, 0, LinkPattern) != []
    requires var m := FirstMatch(n.text, LinkPattern);
             !Contains(n.text, "!" + Source(LinkPattern, m.text, m.url)) &&
             !Contains(n.text[m.end..], Source(LinkPattern, m.text, m.url))
    ensures var m := FirstMatch(n.text, LinkPattern);
            |SplitMatched(n, LinkPattern)| >= 2 &&
            SplitMatched(n, LinkPattern)[2..] == SecondSpans(n.text[m.end..], LinkPattern)
  {
    var m := FirstMatch(n.text, LinkPattern);
    var src := Source(LinkPattern, m.text, m.url);
    var sections := Split(n.text, src);
    assert Find(n.text, src) == Some(m.start) by {
      LinkCut(n.text);
    }
    assert sections[1] == SecondSection(n.text[m.end..], src) by {
      FirstEnd(n.text, LinkPattern);
      CutSections(n.text, src, m.start, m.end);
    }
    SecondSectionShape(n.text[m.end..], src);
    FirstCut(n, LinkPattern);
    CutRest(SplitMatched(n, LinkPattern), sections[0], TextNode(m.text, Link, Some(m.url)), sections[1], LinkPattern);
  }

  /** One more node at the end of the list appends its spans. */
  lemma MatchedEachSnoc(ns: seq<TextNode>, x: TextNode, pat: Pattern)
    ensures MatchedEach(ns + [x], pat) == MatchedEach(ns, pat) + SplitMatched(x, pat)
  {
    LastOfConcat(ns, [x]);
  }

  /** A pass over a list is the pass over each part, concatenated in order. */
  lemma {:induction false} MatchedEachConcat(a: seq<TextNode>, b: seq<TextNode>, pat: Pattern)
    ensures MatchedEach(a + b, pat) == MatchedEach(a, pat) + MatchedEach(b, pat)
    decreases |b|
  {
    if b == [] {
      assert a + b == a;
    } else {
      var init, last := b[..|b| - 1], b[|b| - 1];
      var y := SplitMatched(last, pat);
      assert a + b == (a + init) + [last] && b == init + [last] by {
        SnocParts(a, b);
      }
      assert MatchedEach((a + init) + [last], pat) == MatchedEach(a + init, pat) + y by {
        MatchedEachSnoc(a + init, last, pat);
      }
      assert MatchedEach(init + [last], pat) == MatchedEach(init, pat) + y by {
        MatchedEachSnoc(init, last, pat);
      }
      assert MatchedEach(a + init, pat) == MatchedEach(a, pat) + MatchedEach(init, pat) by {
        MatchedEachConcat(a, init, pat);
      }
      calc {
        MatchedEach(a + b, pat);
        MatchedEach((a + init) + [last], pat);
        MatchedEach(a + init, pat) + y;
        (MatchedEach(a, pat) + MatchedEach(init, pat)) + y;
        { AppendAssoc(MatchedEach(a, pat), MatchedEach(init, pat), y); }
        MatchedEach(a, pat) + (MatchedEach(init, pat) + y);
        MatchedEach(a, pat) + MatchedEach(init + [last], pat);
        MatchedEach(a, pat) + MatchedEach(b, pat);
      }
    }
  }

  lemma LastOfConcat<T>(a: seq<T>, b: seq<T>)
    requires b != []
    ensures (a + b)[..|a + b| - 1] == a + b[..|b| - 1] && (a + b)[|a + b| - 1] == b[|b| - 1]
  {
  }

  lemma AppendAssoc<T>(x: seq<T>, y: seq<T>, z: seq<T>)
    ensures (x + y) + z == x + (y + z)
  {
  }

  lemma SnocParts<T>(a: seq<T>, b: seq<T>)
    requires b != []
    ensures a + b == (a + b[..|b| - 1]) + [b[|b| - 1]] && b == b[..|b| - 1] + [b[|b| - 1]]
  {
  }

  /** split_nodes_image */
  method SplitNodesImage(oldNodes: seq<TextNode>) returns (newList: seq<TextNode>)
    ensures newList == MatchedEach(oldNodes, ImagePattern)
  {
    newList := SplitNodesMatched(oldNodes, ImagePattern);
  }

  /** split_nodes_link */
  method SplitNodesLink(oldNodes: seq<TextNode>) returns (newList: seq<TextNode>)
    ensures newList == MatchedEach(oldNodes, LinkPattern)
  {
    newList := SplitNodesMatched(oldNodes, LinkPattern);
  }

  /**
   * text_to_textnodes: the five passes over the single plain span of the
   * text. It fails only with an unclosed delimiter or with the index error
   * of an italic '*' that ends the text, and otherwise returns at least one
   * span.
   */
  function TextToTextNodes(text: string): (r: Result<seq<TextNode>>)
    ensures r.Err? ==> r.error == ClosingNotFound || r.error == IndexOutOfRange
    ensures r.Ok? ==> |r.value| >= 1
  {
    var bold :- Delimited([Plain(text)], "**", Bold);
    var italic :- Delimited(bold, "*", Italic);
    var code :- Delimited(italic, "`", Code);
    Ok(MatchedEach(MatchedEach(code, ImagePattern), LinkPattern))
  }

  /** A pass leaves a span without its delimiter as it is. */
  lemma DelimiterAbsent(n: TextNode, d: string, k: TextType)
    requires ValidPair(d, k) && !Contains(n.text, d)
    ensures Delimited([n], d, k) == Ok([n])
  {
    DelimitedSingle(n, d, k);
  }

  /** An image or link pass leaves a span without the opener as it is. */
  lemma OpenerAbsent(n: TextNode, pat: Pattern)
    requires !Contains(n.text, Opener(pat))
    ensures MatchedEach([n], pat) == [n]
  {
    MatchedSingle(n, pat);
  }

  /** A text with no '*', '`' or '[' is a single plain span. */
  lemma UnmarkedTextIsOneSpan(text: string)
    requires !Contains(text, "*") && !Contains(text, "`") && !Contains(text, "[")
    ensures TextToTextNodes(text) == Ok([Plain(text)])
  {
    if Contains(text, "**") {
      ContainsPart(text, "**", 0);
    }
    if Contains(text, "![") {
      ContainsPart(text, "![", 1);
    }
    var n := Plain(text);
    DelimiterAbsent(n, "**", Bold);
    DelimiterAbsent(n, "*", Italic);
    DelimiterAbsent(n, "`", Code);
    OpenerAbsent(n, ImagePattern);
    OpenerAbsent(n, LinkPattern);
  }

  /** A span as the tokenizer emits them: a known kind, and a url exactly on links and images. */
  predicate WellFormed(n: TextNode) {
    KnownType(n.textType) && (n.url.Some? <==> (n.textType == Link || n.textType == Image))
  }

  predicate AllWellFormed(ns: seq<TextNode>) {
    forall j :: 0 <= j < |ns| ==> WellFormed(ns[j])
  }

  lemma AllWellFormedConcat(a: seq<TextNode>, b: seq<TextNode>)
    requires AllWellFormed(a) && AllWellFormed(b)
    ensures AllWellFormed(a + b)
  {
    forall j | 0 <= j < |a + b|
      ensures WellFormed((a + b)[j])
    {
      if j >= |a| {
        assert (a + b)[j] == b[j - |a|];
      }
    }
  }

  /** A bold, italic or code pass keeps every span well formed. */
  lemma {:induction false} DelimitedEachWellFormed(ns: seq<TextNode>, d: string, k: TextType)
    requires ValidPair(d, k) && (k == Bold || k == Italic || k == Code)
    requires AllWellFormed(ns) && DelimitedEach(ns, d, k).Ok?
    ensures AllWellFormed(DelimitedEach(ns, d, k).value)
  {
    if ns != [] {
      var init := ns[..|ns| - 1];
      var n := ns[|ns| - 1];
      assert forall j :: 0 <= j < |init| ==> init[j] == ns[j];
      var before := DelimitedEach(init, d, k);
      var after := SplitNode(n, d, k);
      assert before.Ok? && after.Ok?;
      DelimitedEachWellFormed(init, d, k);
      SplitNodeKinds(n, d, k);
      var last := after.value;
      forall j | 0 <= j < |last|
        ensures WellFormed(last[j])
      {
        assert FromPass(last[j], n, k);
      }
      AllWellFormedConcat(before.value, last);
      assert DelimitedEach(ns, d, k).value == before.value + last;
    }
  }

  lemma DelimitedWellFormed(ns: seq<TextNode>, d: string, k: TextType)
    requires ValidPair(d, k) && (k == Bold || k == Italic || k == Code)
    requires AllWellFormed(ns) && Delimited(ns, d, k).Ok?
    ensures AllWellFormed(Delimited(ns, d, k).value)
  {
    if ns != [] {
      DelimitedEachWellFormed(ns, d, k);
    }
  }

  /** An image or link pass keeps a well-formed span's pieces well formed. */
  lemma {:induction false} SplitMatchedWellFormed(n: TextNode, pat: Pattern)
    requires WellFormed(n)
    ensures AllWellFormed(SplitMatched(n, pat))
    decreases |n.text|
  {
    if n.textType == Text && Contains(n.text, Opener(pat)) {
      var found := Matches(n.text, pat);
      if |found| > 0 {
        var src := Source(pat, found[0].0, found[0].1);
        FirstSource(n, pat, found, src);
        var sections := Split(n.text, src);
        SplitMatchedStep(n, pat, found, src, sections);
        var head := [Plain(sections[0]), TextNode(found[0].0, KindOf(pat), Some(found[0].1))];
        assert WellFormed(head[0]) && WellFormed(head[1]);
        if |sections[1]| > 0 {
          SplitPieceShorter(n.text, src, 1);
          SplitMatchedWellFormed(Plain(sections[1]), pat);
          AllWellFormedConcat(head, SplitMatched(Plain(sections[1]), pat));
        } else {
          assert SplitMatched(n, pat) == head;
        }
      }
    }
  }

  lemma {:induction false} MatchedWellFormed(ns: seq<TextNode>, pat: Pattern)
    requires AllWellFormed(ns)
    ensures AllWellFormed(MatchedEach(ns, pat))
  {
    if ns != [] {
      var init := ns[..|ns| - 1];
      assert forall j :: 0 <= j < |init| ==> init[j] == ns[j];
      MatchedWellFormed(init, pat);
      SplitMatchedWellFormed(ns[|ns| - 1], pat);
      AllWellFormedConcat(MatchedEach(init, pat), SplitMatched(ns[|ns| - 1], pat));
    }
  }

  /**
   * Every span text_to_textnodes returns has a known kind and a url exactly
   * when it is a link or an image, so each one converts to an HTML leaf.
   */
  lemma TokensWellFormed(text: string)
    requires TextToTextNodes(text).Ok?
    ensures AllWellFormed(TextToTextNodes(text).value)
    ensures forall j :: 0 <= j < |TextToTextNodes(text).value| ==> TextNodeToHtmlNode(TextToTextNodes(text).value[j]).Ok?
  {
    var start := [Plain(text)];
    assert AllWellFormed(start);
    var bold := Delimited(start, "**", Bold);
    DelimitedWellFormed(start, "**", Bold);
    var italic := Delimited(bold.value, "*", Italic);
    DelimitedWellFormed(bold.value, "*", Italic);
    var code := Delimited(italic.value, "`", Code);
    DelimitedWellFormed(italic.value, "`", Code);
    MatchedWellFormed(code.value, ImagePattern);
    MatchedWellFormed(MatchedEach(code.value, ImagePattern), LinkPattern);
  }
}
