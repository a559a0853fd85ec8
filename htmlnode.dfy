/**
 * The HTML tree of htmlnode.py: leaves carry a value, parents carry
 * children, both an optional tag and optional attributes kept in insertion
 * order. Rendering is total: every missing piece the source raises on is an
 * error value.
 */
module HtmlNodes {
  import opened Wrappers
  import opened PyStr

  /** Attributes in insertion order. A value may be unset: a link built from a span without a url. */
  type Props = seq<(string, Option<string>)>

  datatype HtmlNode =
    | Leaf(tag: Option<string>, value: Option<string>, props: Option<Props>)
    | Parent(tag: Option<string>, children: Children, props: Option<Props>)

  /** A parent's child list, which the source lets be None. */
  datatype Children = Unset | Given(nodes: seq<HtmlNode>)

  /** One attribute as props_to_html writes it: key="value" (an unset value is written as empty). */
  function Attribute(p: (string, Option<string>)): string {
    p.0 + "=\"" + (if p.1.Some? then p.1.value else "") + "\""
  }

  function Attributes(ps: Props): (r: seq<string>)
  {
    seq(|ps|, i requires 0 <= i < |ps| => Attribute(ps[i]))
  }

  /** The attribute text of a node: its attributes in order, separated by single spaces. */
  function PropsText(props: Option<Props>): (r: string)
    ensures props.Some? && props.value != [] ==> r + " " == Padded(props.value)
  {
    match props
    case None => ""
    case Some(ps) =>
      if ps != [] then PaddedIsJoinedPlusSpace(ps); Join(" ", Attributes(ps))
      else Join(" ", Attributes(ps))
  }

  /** Every attribute followed by one space, as the loop of props_to_html accumulates it. */
  function Padded(ps: Props): string {
    if ps == [] then "" else Padded(ps[..|ps| - 1]) + Attribute(ps[|ps| - 1]) + " "
  }

  lemma {:induction false} PaddedIsJoinedPlusSpace(ps: Props)
    requires ps != []
    ensures Padded(ps) == Join(" ", Attributes(ps)) + " "
  {
    var init := ps[..|ps| - 1];
    if init != [] {
      PaddedIsJoinedPlusSpace(init);
      assert Attributes(ps) == Attributes(init) + [Attribute(ps[|ps| - 1])];
      JoinSnoc(" ", Attributes(init), Attribute(ps[|ps| - 1]));
    }
  }

  /** HTMLNode.props_to_html: accumulate `key="value" ` for each attribute, then drop the final space. */
  method PropsToHtml(props: Option<Props>) returns (propStr: string)
    ensures propStr == PropsText(props)
  {
    propStr := "";
    if props.Some? {
      var ps := props.value;
      for i := 0 to |ps|
        invariant propStr == Padded(ps[..i])
      {
        assert ps[..i + 1][..i] == ps[..i];
        propStr := propStr + Attribute(ps[i]) + " ";
      }
      assert ps[..|ps|] == ps;
      if propStr != "" {
        PaddedIsJoinedPlusSpace(ps);
        propStr := propStr[..|propStr| - 1];
      }
    }
  }

  lemma {:induction false} JoinNonEmpty(sep: string, parts: seq<string>)
    requires |parts| >= 1
    ensures |Join(sep, parts)| >= |parts[0]|
    ensures |parts[0]| > 0 ==> Join(sep, parts)[0] == parts[0][0]
  {
  }

  lemma {:induction false} JoinLast(sep: string, parts: seq<string>)
    requires |parts| >= 1 && |parts[|parts| - 1]| > 0
    ensures |Join(sep, parts)| > 0
    ensures Join(sep, parts)[|Join(sep, parts)| - 1] == parts[|parts| - 1][|parts[|parts| - 1]| - 1]
  {
    if |parts| > 1 {
      JoinLast(sep, parts[1..]);
    }
  }

  /**
   * The attribute text is empty exactly when there are no attributes, and
   * otherwise ends in the closing quote of the last attribute (no trailing space).
   */
  lemma PropsTextEmpty(props: Option<Props>)
    ensures PropsText(props) == "" <==> props.None? || props.value == []
    ensures props.Some? && props.value != [] ==>
              PropsText(props)[|PropsText(props)| - 1] == '"'
  {
    if props.Some? && props.value != [] {
      var a := Attributes(props.value);
      JoinNonEmpty(" ", a);
      JoinLast(" ", a);
    }
  }

  /** Attributes are written in insertion order, one space between neighbours. */
  lemma PropsTextAppend(ps: Props, p: (string, Option<string>))
    requires ps != []
    ensures PropsText(Some(ps + [p])) == PropsText(Some(ps)) + " " + Attribute(p)
  {
    assert Attributes(ps + [p]) == Attributes(ps) + [Attribute(p)];
    JoinSnoc(" ", Attributes(ps), Attribute(p));
  }

  /** The opening tag: `<tag>`, or `<tag attrs>` with exactly one space when there is attribute text. */
  function OpenTag(tag: string, props: Option<Props>): string {
    if PropsText(props) != "" then "<" + tag + " " + PropsText(props) + ">" else "<" + tag + ">"
  }

  function CloseTag(tag: string): string {
    "</" + tag + ">"
  }

  /** A tree that renders: every leaf has a value, every parent a tag and at least one child. */
  predicate Renderable(n: HtmlNode)
    decreases n
  {
    match n
    case Leaf(_, value, _) => value.Some?
    case Parent(tag, children, _) =>
      tag.Some? && children.Given? && |children.nodes| > 0 &&
      forall i :: 0 <= i < |children.nodes| ==> Renderable(children.nodes[i])
  }

  /** LeafNode.to_html and ParentNode.to_html. */
  function ToHtml(n: HtmlNode): (r: Result<string>)
    decreases n, 1
    ensures r.Ok? <==> Renderable(n)
  {
    match n
    case Leaf(tag, value, props) =>
      if value.None? then Err(ValueNotSet)
      else if tag.None? then Ok(value.value)
      else Ok(OpenTag(tag.value, props) + value.value + CloseTag(tag.value))
    case Parent(tag, children, props) =>
      if tag.None? then Err(TagNotSet)
      else if children.Unset? || |children.nodes| == 0 then Err(ExpectedChildren)
      else
        var inner :- RenderChildren(children.nodes);
        Ok(OpenTag(tag.value, props) + inner + CloseTag(tag.value))
  }

  /** ''.join(map(to_html, children)): the concatenation, or the error of the first child that fails. */
  function RenderChildren(cs: seq<HtmlNode>): (r: Result<string>)
    decreases cs, 0
    ensures r.Ok? <==> forall i :: 0 <= i < |cs| ==> Renderable(cs[i])
  {
    if cs == [] then Ok("")
    else
      var head :- ToHtml(cs[0]);
      var tail :- RenderChildren(cs[1..]);
      assert forall i :: 1 <= i < |cs| ==> cs[i] == cs[1..][i - 1];
      Ok(head + tail)
  }

  /** A leaf fails without a value, renders its bare value without a tag, and is wrapped in its tag otherwise. */
  lemma LeafToHtml(tag: Option<string>, value: Option<string>, props: Option<Props>)
    ensures value.None? ==> ToHtml(Leaf(tag, value, props)) == Err(ValueNotSet)
    ensures value.Some? && tag.None? ==> ToHtml(Leaf(tag, value, props)) == Ok(value.value)
    ensures value.Some? && tag.Some? && PropsText(props) == "" ==>
              ToHtml(Leaf(tag, value, props)) == Ok("<" + tag.value + ">" + value.value + "</" + tag.value + ">")
    ensures value.Some? && tag.Some? && PropsText(props) != "" ==>
              ToHtml(Leaf(tag, value, props)) ==
              Ok("<" + tag.value + " " + PropsText(props) + ">" + value.value + "</" + tag.value + ">")
  {
    if value.Some? && tag.Some? {
      var t, v := tag.value, value.value;
      if PropsText(props) == "" {
        assert OpenTag(t, props) + v + CloseTag(t) == "<" + t + ">" + v + "</" + t + ">";
      } else {
        assert OpenTag(t, props) + v + CloseTag(t) == "<" + t + " " + PropsText(props) + ">" + v + "</" + t + ">";
      }
    }
  }

  /** A tagged leaf with attribute text renders that text after one space in the opening tag. */
  lemma TaggedLeafWithProps(tag: string, v: string, props: Option<Props>)
    requires PropsText(props) != ""
    ensures ToHtml(Leaf(Some(tag), Some(v), props)) == Ok("<" + tag + " " + PropsText(props) + ">" + v + "</" + tag + ">")
  {
    assert OpenTag(tag, props) + v + CloseTag(tag) == "<" + tag + " " + PropsText(props) + ">" + v + "</" + tag + ">";
  }

  /** A parent checks its tag before its children, and needs at least one child. */
  lemma ParentChecks(tag: Option<string>, children: Children, props: Option<Props>)
    ensures tag.None? ==> ToHtml(Parent(tag, children, props)) == Err(TagNotSet)
    ensures tag.Some? && (children.Unset? || children.nodes == []) ==>
              ToHtml(Parent(tag, children, props)) == Err(ExpectedChildren)
  {
  }

  /** The renders of the children of a tree whose children all render. */
  function ChildHtml(cs: seq<HtmlNode>): (r: seq<string>)
    requires forall i :: 0 <= i < |cs| ==> Renderable(cs[i])
  {
    seq(|cs|, i requires 0 <= i < |cs| => ToHtml(cs[i]).value)
  }

  lemma {:induction false} RenderChildrenIsConcatenation(cs: seq<HtmlNode>)
    requires forall i :: 0 <= i < |cs| ==> Renderable(cs[i])
    ensures RenderChildren(cs) == Ok(Join("", ChildHtml(cs)))
  {
    if |cs| > 1 {
      assert forall i :: 0 <= i < |cs| - 1 ==> cs[1..][i] == cs[i + 1];
      RenderChildrenIsConcatenation(cs[1..]);
      var h := ChildHtml(cs);
      assert h[1..] == ChildHtml(cs[1..]);
      assert Join("", h) == h[0] + Join("", h[1..]) by {
        assert h[0] + "" + Join("", h[1..]) == h[0] + Join("", h[1..]);
      }
    } else if |cs| == 1 {
      assert cs[1..] == [];
      assert ChildHtml(cs)[0] + "" == ChildHtml(cs)[0];
    }
  }

  /** A parent renders as its opening tag, its children's renders in order with no separator, and its closing tag. */
  lemma ParentRendersChildrenInOrder(tag: string, cs: seq<HtmlNode>, props: Option<Props>)
    requires cs != []
    requires forall i :: 0 <= i < |cs| ==> Renderable(cs[i])
    ensures ToHtml(Parent(Some(tag), Given(cs), props)) ==
            Ok(OpenTag(tag, props) + Join("", ChildHtml(cs)) + CloseTag(tag))
  {
    RenderChildrenIsConcatenation(cs);
  }

  lemma {:induction false} FirstFailingChild(cs: seq<HtmlNode>, k: nat)
    requires k < |cs| && ToHtml(cs[k]).Err?
    requires forall i :: 0 <= i < k ==> ToHtml(cs[i]).Ok?
    ensures RenderChildren(cs) == ToHtml(cs[k])
  {
    if k > 0 {
      assert forall i :: 0 <= i < k - 1 ==> cs[1..][i] == cs[i + 1];
      FirstFailingChild(cs[1..], k - 1);
    }
  }

  /** An error anywhere below a parent is the parent's error: that of its first failing child. */
  lemma ChildErrorPropagates(tag: string, cs: seq<HtmlNode>, props: Option<Props>, k: nat)
    requires k < |cs| && ToHtml(cs[k]).Err?
    requires forall i :: 0 <= i < k ==> ToHtml(cs[i]).Ok?
    ensures ToHtml(Parent(Some(tag), Given(cs), props)) == ToHtml(cs[k])
  {
    FirstFailingChild(cs, k);
  }

  /** A single attribute is written alone in the opening tag. */
  lemma OneAttribute(tag: string, key: string, v: string)
    ensures PropsText(Some([(key, Some(v))])) == key + "=\"" + v + "\""
    ensures OpenTag(tag, Some([(key, Some(v))])) == "<" + tag + " " + key + "=\"" + v + "\">"
  {
    assert Attributes([(key, Some(v))]) == [Attribute((key, Some(v)))];
  }

  /** A parent whose children are childless parents fails with the children's error. */
  lemma ChildlessChildrenExample()
    ensures ToHtml(Parent(Some("div"), Given([
              Parent(Some("p"), Given([]), Some([("href", Some("www.test.com"))])),
              Parent(Some("p"), Given([]), None)]), Some([("href", Some("parentProp"))]))) ==
            Err(ExpectedChildren)
  {
  }
}
