/**
 * Text spans (textnode.py): a piece of inline text with a kind and, for
 * links and images, a url; and the mapping of each kind to an HTML leaf.
 */
module TextNodes {
  import opened Wrappers
  import opened PyStr
  import opened HtmlNodes

  /**
   * A span's kind. The source keeps it as a string; the six strings of the
   * module's constants ("text", "bold", "italic", "code", "link", "image")
   * become six constructors, and any other string is carried in Other, which
   * the conversion to HTML rejects.
   */
  datatype TextType = Text | Bold | Italic | Code | Link | Image | Other(name: string)

  datatype TextNode = TextNode(text: string, textType: TextType, url: Option<string>)

  /** A plain span, as the tokenizer builds them (no url). */
  function Plain(text: string): TextNode {
    TextNode(text, Text, None)
  }

  /** The summed text length of a list of spans: what the tokenizer's recursion shrinks. */
  function TotalLength(ns: seq<TextNode>): nat {
    if ns == [] then 0 else TotalLength(ns[..|ns| - 1]) + |ns[|ns| - 1].text|
  }

  lemma TotalLengthSingle(n: TextNode)
    ensures TotalLength([n]) == |n.text|
  {
    assert [n][..0] == [];
  }

  lemma {:induction false} TotalLengthBound(ns: seq<TextNode>, i: nat)
    requires i < |ns|
    ensures |ns[i].text| <= TotalLength(ns)
  {
    if i < |ns| - 1 {
      TotalLengthBound(ns[..|ns| - 1], i);
    }
  }

  predicate KnownType(k: TextType) {
    !k.Other?
  }

  /** TextNode.__eq__: spans are equal when text and kind agree; the url is not compared. */
  predicate SameSpan(a: TextNode, b: TextNode) {
    a.text == b.text && a.textType == b.textType
  }

  /** Span equality is an equivalence that cannot see the url. */
  lemma SameSpanProperties(a: TextNode, b: TextNode, c: TextNode, u: Option<string>)
    ensures SameSpan(a, a)
    ensures SameSpan(a, b) ==> SameSpan(b, a)
    ensures SameSpan(a, b) && SameSpan(b, c) ==> SameSpan(a, c)
    ensures SameSpan(a, a.(url := u))
    ensures SameSpan(a, b) <==> a.(url := None) == b.(url := None)
  {
  }

  /** text_node_to_html_node: a leaf per kind; any other kind is an error. */
  function TextNodeToHtmlNode(n: TextNode): (r: Result<HtmlNode>)
    ensures r.Ok? <==> KnownType(n.textType)
    ensures r.Err? ==> r.error == UnknownTextType
    ensures r.Ok? ==> r.value.Leaf? && Renderable(r.value)
    ensures r.Ok? && n.textType != Image ==> r.value.value == Some(n.text)
  {
    if n.textType == Text then Ok(Leaf(None, Some(n.text), None))
    else if n.textType == Bold then Ok(Leaf(Some("b"), Some(n.text), None))
    else if n.textType == Italic then Ok(Leaf(Some("i"), Some(n.text), None))
    else if n.textType == Code then Ok(Leaf(Some("code"), Some(n.text), None))
    else if n.textType == Link then Ok(Leaf(Some("a"), Some(n.text), Some([("href", n.url)])))
    else if n.textType == Image then
      Ok(Leaf(Some("img"), Some(""), Some([("src", n.url), ("alt", Some(n.text))])))
    else Err(UnknownTextType)
  }

  function UrlText(u: Option<string>): string {
    if u.Some? then u.value else ""
  }

  /** A plain span renders as its bare text. */
  lemma PlainSpanRendering(n: TextNode)
    requires n.textType == Text
    ensures ToHtml(TextNodeToHtmlNode(n).value) == Ok(n.text)
  {
  }

  /** The tag of the leaf for a bold, italic or code span. */
  function FormatTag(k: TextType): string {
    if k == Bold then "b" else if k == Italic then "i" else "code"
  }

  /** Bold, italic and code spans render as their text wrapped in b, i and code tags. */
  lemma FormatSpanRendering(n: TextNode)
    requires n.textType == Bold || n.textType == Italic || n.textType == Code
    ensures ToHtml(TextNodeToHtmlNode(n).value) ==
            Ok("<" + FormatTag(n.textType) + ">" + n.text + "</" + FormatTag(n.textType) + ">")
  {
    LeafToHtml(Some(FormatTag(n.textType)), Some(n.text), None);
  }

  lemma LinkProps(url: Option<string>)
    ensures PropsText(Some([("href", url)])) == "href=\"" + UrlText(url) + "\""
  {
    var ps: Props := [("href", url)];
    assert PropsText(Some(ps)) == Attributes(ps)[0];
  }

  lemma ImageProps(url: Option<string>, alt: string)
    ensures PropsText(Some([("src", url), ("alt", Some(alt))])) ==
            "src=\"" + UrlText(url) + "\" alt=\"" + alt + "\""
  {
    var p0, p1 := ("src", url), ("alt", Some(alt));
    assert PropsText(Some([p0])) == Attributes([p0])[0];
    PropsTextAppend([p0], p1);
    assert [p0] + [p1] == [p0, p1];
  }

  /** A link span renders as an anchor whose only attribute is href. */
  lemma LinkSpanRendering(n: TextNode)
    requires n.textType == Link
    ensures ToHtml(TextNodeToHtmlNode(n).value) ==
            Ok("<a href=\"" + UrlText(n.url) + "\">" + n.text + "</a>")
  {
    var ps: Props := [("href", n.url)];
    assert TextNodeToHtmlNode(n).value == Leaf(Some("a"), Some(n.text), Some(ps));
    LinkProps(n.url);
    TaggedLeafWithProps("a", n.text, Some(ps));
    LinkMarkup(UrlText(n.url), n.text);
  }

  lemma LinkMarkup(u: string, t: string)
    ensures "<" + "a" + " " + ("href=\"" + u + "\"") + ">" + t + "</" + "a" + ">" ==
            "<a href=\"" + u + "\">" + t + "</a>"
  {
  }

  lemma ImageMarkup(u: string, t: string)
    ensures "<" + "img" + " " + ("src=\"" + u + "\" alt=\"" + t + "\"") + ">" + "" + "</" + "img" + ">" ==
            "<img src=\"" + u + "\" alt=\"" + t + "\"></img>"
  {
  }

  /** An image span renders as an empty img element with src then alt. */
  lemma ImageSpanRendering(n: TextNode)
    requires n.textType == Image
    ensures ToHtml(TextNodeToHtmlNode(n).value) ==
            Ok("<img src=\"" + UrlText(n.url) + "\" alt=\"" + n.text + "\"></img>")
  {
    var ps: Props := [("src", n.url), ("alt", Some(n.text))];
    assert TextNodeToHtmlNode(n).value == Leaf(Some("img"), Some(""), Some(ps));
    ImageProps(n.url, n.text);
    TaggedLeafWithProps("img", "", Some(ps));
    ImageMarkup(UrlText(n.url), n.text);
  }
}
