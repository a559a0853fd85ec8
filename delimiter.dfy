/**
 * split_nodes_delimiter and its two helpers (main.py): one pass of the inline
 * tokenizer, which cuts plain spans at an opening and a closing delimiter and
 * turns the text between them into a span of the given kind.
 */
module Delimiters {
  import opened Wrappers
  import opened PyStr
  import opened TextNodes

  /** The (delimiter, kind) pairs of the module's kind constants: the only pairs a pass accepts. */
  predicate ValidPair(d: string, k: TextType) {
    (k == Text && d == "") || (k == Bold && d == "**") ||
    (k == Italic && d == "*") || (k == Code && d == "`") ||
    (k == Link && d == "[") || (k == Image && d == "![")
  }

  /** validate_delimiter_for_type: true for a valid pair, an error for anything else. */
  function ValidateDelimiterForType(d: string, k: TextType): (r: Result<bool>)
    ensures r.Ok? <==> ValidPair(d, k)
    ensures r.Ok? ==> r.value
    ensures r.Err? ==> r.error == InvalidDelimiter
  {
    if k == Text && d == "" then Ok(true)
    else if k == Bold && d == "**" then Ok(true)
    else if k == Italic && d == "*" then Ok(true)
    else if k == Code && d == "`" then Ok(true)
    else if k == Link && d == "[" then Ok(true)
    else if k == Image && d == "![" then Ok(true)
    else Err(InvalidDelimiter)
  }

  /** Every valid pair names a known kind, and each kind has exactly one delimiter. */
  lemma ValidPairIsFunctional(d: string, d': string, k: TextType)
    requires ValidPair(d, k)
    ensures KnownType(k)
    ensures ValidPair(d', k) ==> d' == d
  {
  }

  /** set_closing_delimiter: "]" for links and images, the opening delimiter for the other kinds. */
  function SetClosingDelimiter(k: TextType): (r: Result<string>)
    ensures r.Ok? <==> KnownType(k)
    ensures r.Err? ==> r.error == InvalidTextType
    ensures k == Link || k == Image ==> r == Ok("]")
    ensures forall d {:trigger ValidPair(d, k)} :: ValidPair(d, k) && k != Link && k != Image ==> r == Ok(d)
  {
    if k == Text then Ok("")
    else if k == Bold then Ok("**")
    else if k == Italic then Ok("*")
    else if k == Code then Ok("`")
    else if k == Link then Ok("]")
    else if k == Image then Ok("]")
    else Err(InvalidTextType)
  }

  /**
   * The text before the opening delimiter and the text after it, as
   * split_nodes_delimiter computes them, or None when the node is to be kept
   * whole. Outside the italic pass this is split(d, maxsplit=1). In the italic
   * pass an opening '*' that is the first half of "**" makes the text be
   * re-split on "**": the first two pieces and the "**" after each are glued
   * onto the text before, the first '*' of the third piece is the opening
   * delimiter, and the pieces after the third are dropped.
   */
  function OpeningSplit(s: string, d: string, k: TextType): (r: Result<Option<(string, string)>>)
    requires d != "" && Contains(s, d) && (k == Italic ==> d == "*")
    ensures r.Ok? && r.value.Some? ==> |r.value.value.1| + |d| <= |s|
    ensures k != Italic || (SplitOnce(s, d).1 != "" && SplitOnce(s, d).1[0] != '*') ==>
              r == Ok(Some(SplitOnce(s, d)))
    ensures k == Italic && SplitOnce(s, d).1 == "" ==> r == Err(IndexOutOfRange)
    ensures r.Err? ==> k == Italic && r.error == IndexOutOfRange
    ensures r == Ok(None) ==> k == Italic
  {
    var first := SplitOnce(s, d);
    var after := first.1;
    if k != Italic then Ok(Some(first))
    else if after == "" then Err(IndexOutOfRange)
    else if [after[0]] != d then Ok(Some(first))
    else
      var b := Split(s, d + d);
      if |b| < 3 then Err(IndexOutOfRange)
      else if !Contains(b[2], d) then Ok(None)
      else
        SplitPieceShorter(s, d + d, 2);
        var next := SplitOnce(b[2], d);
        Ok(Some((b[0] + d + d + b[1] + d + d + next.0, next.1)))
  }

  /**
   * The spans split_nodes_delimiter makes of one node: the node itself when
   * it is not plain or lacks the delimiter; otherwise the text before the
   * opening delimiter, the text up to the closing one as a span of kind k,
   * then the spans of the rest (a trailing empty plain span included).
   * It is only reached once the pair is validated; it asks only for the two
   * facts about the pair it uses.
   */
  function SplitNode(n: TextNode, d: string, k: TextType): (r: Result<seq<TextNode>>)
    requires KnownType(k) && (k == Italic ==> d == "*")
    decreases |n.text|
    ensures r.Ok? ==> |r.value| >= 1
    ensures r.Err? ==> n.textType == Text && Contains(n.text, d)
    ensures r.Err? ==> (r.error == EmptySeparator && d == "") || r.error == IndexOutOfRange || r.error == ClosingNotFound
    ensures !(n.textType == Text && Contains(n.text, d)) ==> r == Ok([n])
  {
    if !(n.textType == Text && Contains(n.text, d)) then Ok([n])
    else if d == "" then Err(EmptySeparator)
    else
      var opening :- OpeningSplit(n.text, d, k);
      if opening.None? then Ok([n])
      else
        var head, tail := opening.value.0, opening.value.1;
        var closing := SetClosingDelimiter(k).value;
        if !Contains(tail, closing) then Err(ClosingNotFound)
        else
          var parts := SplitOnce(tail, closing);
          var more :- SplitNode(Plain(parts.1), d, k);
          Ok([Plain(head), TextNode(parts.0, k, None)] + more)
  }

  /** The spans of a list of nodes, node by node; the first node that fails decides the error. */
  function DelimitedEach(ns: seq<TextNode>, d: string, k: TextType): (r: Result<seq<TextNode>>)
    requires ValidPair(d, k)
    ensures r.Ok? ==> |r.value| >= |ns|
    ensures r.Err? ==> (r.error == EmptySeparator && d == "") || r.error == IndexOutOfRange || r.error == ClosingNotFound
  {
    if ns == [] then Ok([])
    else
      var init :- DelimitedEach(ns[..|ns| - 1], d, k);
      var last :- SplitNode(ns[|ns| - 1], d, k);
      Ok(init + last)
  }

  /**
   * split_nodes_delimiter: an empty list is returned before the pair is
   * validated; an invalid pair fails with InvalidDelimiter and nothing else
   * does; a valid pair splits node by node.
   */
  function Delimited(ns: seq<TextNode>, d: string, k: TextType): Result<seq<TextNode>> {
    if ns == [] then Ok([])
    else if !ValidPair(d, k) then Err(InvalidDelimiter)
    else DelimitedEach(ns, d, k)
  }

  /** The outcomes of split_nodes_delimiter, case by case. */
  lemma DelimitedCases(ns: seq<TextNode>, d: string, k: TextType)
    ensures ns == [] ==> Delimited(ns, d, k) == Ok([])
    ensures ns != [] && !ValidPair(d, k) ==> Delimited(ns, d, k) == Err(InvalidDelimiter)
    ensures ValidPair(d, k) ==> Delimited(ns, d, k) == DelimitedEach(ns, d, k)
    ensures Delimited(ns, d, k) == Err(InvalidDelimiter) ==> ns != [] && !ValidPair(d, k)
    ensures Delimited(ns, d, k).Ok? ==> |Delimited(ns, d, k).value| >= |ns|
    ensures Delimited(ns, d, k).Err? ==>
              Delimited(ns, d, k).error in {InvalidDelimiter, EmptySeparator, IndexOutOfRange, ClosingNotFound}
  {
  }

  /** An error while splitting the first j nodes is the error of the whole list. */
  lemma {:induction false} ErrorStops(ns: seq<TextNode>, j: nat, d: string, k: TextType)
    requires ValidPair(d, k)
    requires j <= |ns| && DelimitedEach(ns[..j], d, k).Err?
    ensures DelimitedEach(ns, d, k) == DelimitedEach(ns[..j], d, k)
  {
    if j < |ns| {
      var init := ns[..|ns| - 1];
      assert init[..j] == ns[..j];
      ErrorStops(init, j, d, k);
    } else {
      assert ns[..j] == ns;
    }
  }

  /** The recursive call on the rest of the text is a pass over one node. */
  lemma DelimitedSingle(n: TextNode, d: string, k: TextType)
    requires ValidPair(d, k)
    ensures Delimited([n], d, k) == SplitNode(n, d, k)
  {
    assert [n][..0] == [];
    assert DelimitedEach([n][..0], d, k) == Ok([]);
    var r := SplitNode(n, d, k);
    if r.Ok? {
      assert [] + r.value == r.value;
    }
  }

  /** Splitting one more node appends its spans to those of the nodes before it. */
  lemma NextNode(ns: seq<TextNode>, i: nat, d: string, k: TextType, prefix: seq<TextNode>, out: seq<TextNode>)
    requires ValidPair(d, k)
    requires i < |ns| && DelimitedEach(ns[..i], d, k) == Ok(prefix) && SplitNode(ns[i], d, k) == Ok(out)
    ensures DelimitedEach(ns[..i + 1], d, k) == Ok(prefix + out)
  {
    assert ns[..i + 1][..i] == ns[..i];
  }

  /** A node that fails makes the whole list fail with its error. */
  lemma FailingNode(ns: seq<TextNode>, i: nat, d: string, k: TextType, e: Error)
    requires ValidPair(d, k)
    requires i < |ns| && DelimitedEach(ns[..i], d, k).Ok? && SplitNode(ns[i], d, k) == Err(e)
    ensures Delimited(ns, d, k) == Err(e)
  {
    assert ns[..i + 1][..i] == ns[..i];
    ErrorStops(ns, i + 1, d, k);
  }

  /** The spans of a node that is split at an opening and a closing delimiter. */
  lemma SplitNodeStep(n: TextNode, d: string, k: TextType, head: string, tail: string, inner: string, rest: string)
    requires KnownType(k) && (k == Italic ==> d == "*") && d != ""
    requires n.textType == Text && Contains(n.text, d)
    requires OpeningSplit(n.text, d, k) == Ok(Some((head, tail)))
    requires Contains(tail, SetClosingDelimiter(k).value) && SplitOnce(tail, SetClosingDelimiter(k).value) == (inner, rest)
    ensures |rest| < |n.text|
    ensures SplitNode(Plain(rest), d, k).Err? ==> SplitNode(n, d, k) == SplitNode(Plain(rest), d, k)
    ensures SplitNode(Plain(rest), d, k).Ok? ==>
              SplitNode(n, d, k) == Ok([Plain(head), TextNode(inner, k, None)] + SplitNode(Plain(rest), d, k).value)
  {
    var closing := SetClosingDelimiter(k).value;
    assert |rest| < |n.text| by { assert tail == inner + closing + rest; }
    var more := SplitNode(Plain(rest), d, k);
    if more.Ok? {
      assert SplitNode(n, d, k) == Ok([Plain(head), TextNode(inner, k, None)] + more.value);
    }
  }

  /**
   * split_nodes_delimiter: builds the new list node by node and recurses on
   * the rest of each split node.
   */
  method SplitNodesDelimiter(oldNodes: seq<TextNode>, d: string, k: TextType) returns (r: Result<seq<TextNode>>)
    decreases TotalLength(oldNodes), 1
    ensures r == Delimited(oldNodes, d, k)
  {
    if |oldNodes| == 0 {
      return Ok([]);
    }
    var valid := ValidateDelimiterForType(d, k);
    if valid.Err? {
      return Err(valid.error);
    }
    var newList: seq<TextNode> := [];
    for i := 0 to |oldNodes|
      invariant DelimitedEach(oldNodes[..i], d, k) == Ok(newList)
    {
      TotalLengthBound(oldNodes, i);
      var out := SplitTextNode(oldNodes[i], d, k);
      if out.Err? {
        FailingNode(oldNodes, i, d, k, out.error);
        return Err(out.error);
      }
      NextNode(oldNodes, i, d, k, newList, out.value);
      newList := newList + out.value;
    }
    assert oldNodes[..|oldNodes|] == oldNodes;
    return Ok(newList);
  }

  /** The body of the loop of split_nodes_delimiter, for one node. */
  method SplitTextNode(node: TextNode, d: string, k: TextType) returns (r: Result<seq<TextNode>>)
    requires ValidPair(d, k)
    decreases |node.text|, 0
    ensures r == SplitNode(node, d, k)
  {
    if !(node.textType == Text && Contains(node.text, d)) {
      return Ok([node]);
    }
    if d == "" {
      return Err(EmptySeparator);
    }
    var opening := OpeningSplit(node.text, d, k);
    if opening.Err? {
      return Err(opening.error);
    }
    if opening.value.None? {
      return Ok([node]);
    }
    var head, tail := opening.value.value.0, opening.value.value.1;
    var closing := SetClosingDelimiter(k).value;
    if !Contains(tail, closing) {
      return Err(ClosingNotFound);
    }
    var newList := [Plain(head)];
    var parts := SplitOnce(tail, closing);
    var inner, rest := parts.0, parts.1;
    newList := newList + [TextNode(inner, k, None)];
    assert newList == [Plain(head), TextNode(inner, k, None)];
    SplitNodeStep(node, d, k, head, tail, inner, rest);
    TotalLengthSingle(Plain(rest));
    var more := SplitNodesDelimiter([Plain(rest)], d, k);
    DelimitedSingle(Plain(rest), d, k);
    if more.Err? {
      return Err(more.error);
    }
    newList := newList + more.value;
    return Ok(newList);
  }

  /** A span a pass may emit for node n: n itself, or a plain span or span of kind k without a url. */
  predicate FromPass(m: TextNode, n: TextNode, k: TextType) {
    m == n || (m.url.None? && (m.textType == Text || m.textType == k))
  }

  /** A pass emits nothing but the node or fresh plain spans and spans of its own kind. */
  lemma {:induction false} SplitNodeKinds(n: TextNode, d: string, k: TextType)
    requires KnownType(k) && (k == Italic ==> d == "*")
    requires SplitNode(n, d, k).Ok?
    ensures forall j :: 0 <= j < |SplitNode(n, d, k).value| ==> FromPass(SplitNode(n, d, k).value[j], n, k)
    decreases |n.text|
  {
    var r := SplitNode(n, d, k).value;
    if n.textType == Text && Contains(n.text, d) && d != "" {
      var opening := OpeningSplit(n.text, d, k);
      assert opening.Ok?;
      if opening.value.Some? {
        var head, tail := opening.value.value.0, opening.value.value.1;
        var closing := SetClosingDelimiter(k).value;
        assert Contains(tail, closing);
        var parts := SplitOnce(tail, closing);
        SplitNodeStep(n, d, k, head, tail, parts.0, parts.1);
        SplitNodeKinds(Plain(parts.1), d, k);
        KindsOfStep(n, k, head, parts.0, parts.1, SplitNode(Plain(parts.1), d, k).value);
      }
    }
  }

  lemma KindsOfStep(n: TextNode, k: TextType, head: string, inner: string, rest: string, more: seq<TextNode>)
    requires forall j :: 0 <= j < |more| ==> FromPass(more[j], Plain(rest), k)
    ensures forall j :: 0 <= j < |more| + 2 ==>
              FromPass(([Plain(head), TextNode(inner, k, None)] + more)[j], n, k)
  {
  }

  /**
   * The spans of the pieces of a split on the delimiter, when pieces alternate
   * between outside and inside the delimiters: an even number of pieces means
   * an opening delimiter without a closing one, which raises (an IndexError
   * for italic when the text ends with that '*').
   */
  function Alternate(ps: seq<string>, k: TextType): (r: Result<seq<TextNode>>)
    requires |ps| >= 1
    decreases |ps|
    ensures r.Ok? <==> |ps| % 2 == 1
    ensures r.Err? ==> r.error == (if k == Italic && ps[|ps| - 1] == "" then IndexOutOfRange else ClosingNotFound)
    ensures r.Ok? ==> |r.value| == |ps|
    ensures r.Ok? ==> forall j :: 0 <= j < |ps| ==> r.value[j] == TextNode(ps[j], if j % 2 == 0 then Text else k, None)
  {
    if |ps| == 1 then Ok([Plain(ps[0])])
    else if |ps| == 2 then Err(if k == Italic && ps[1] == "" then IndexOutOfRange else ClosingNotFound)
    else
      var rest :- Alternate(ps[2..], k);
      assert forall j :: 2 <= j < |ps| ==> ps[j] == ps[2..][j - 2];
      Ok([Plain(ps[0]), TextNode(ps[1], k, None)] + rest)
  }

  /** The kinds whose delimiter closes itself and never collides: bold, code, and italic in a text without "**". */
  predicate Symmetric(s: string, d: string, k: TextType) {
    (k == Bold && d == "**") || (k == Code && d == "`") ||
    (k == Italic && d == "*" && !Contains(s, "**"))
  }

  /** In a text without "**", a '*' is never followed by another. */
  lemma LoneStar(u: string, t: string)
    requires !Contains(u + "*" + t, "**")
    ensures t == "" || t[0] != '*'
  {
    var s := u + "*" + t;
    assert !StartsWithAt(s, "**", |u|);
    if t != "" {
      assert s[|u|..|u| + 2] == ['*', t[0]];
    }
  }

  /** What the alternation proof uses of a symmetric pair, with the delimiter left abstract. */
  predicate SelfClosing(s: string, d: string, k: TextType) {
    d != "" && KnownType(k) && SetClosingDelimiter(k) == Ok(d) && (k == Italic ==> d == "*" && !Contains(s, "**"))
  }

  /** The first split of a text holding the delimiter. */
  lemma SplitStep(s: string, d: string)
    requires d != "" && Contains(s, d)
    ensures Split(s, d) == [SplitOnce(s, d).0] + Split(SplitOnce(s, d).1, d)
  {
  }

  /** An opening delimiter with no closing one after it raises. */
  lemma Unclosed(s: string, d: string, k: TextType)
    requires SelfClosing(s, d, k) && Contains(s, d)
    requires OpeningSplit(s, d, k) == Ok(Some(SplitOnce(s, d))) && !Contains(SplitOnce(s, d).1, d)
    requires k == Italic ==> SplitOnce(s, d).1 != ""
    ensures SplitNode(Plain(s), d, k) == Err(ClosingNotFound)
    ensures Alternate(Split(s, d), k) == Err(ClosingNotFound)
  {
    SplitStep(s, d);
    assert Split(SplitOnce(s, d).1, d) == [SplitOnce(s, d).1];
  }

  /** Alternation takes the first two pieces off and goes on with the rest. */
  lemma AlternateStep(a: string, b: string, ps: seq<string>, k: TextType)
    requires |ps| >= 1
    ensures Alternate([a, b] + ps, k).Err? <==> Alternate(ps, k).Err?
    ensures Alternate(ps, k).Err? ==> Alternate([a, b] + ps, k) == Alternate(ps, k)
    ensures Alternate(ps, k).Ok? ==>
              Alternate([a, b] + ps, k) == Ok([Plain(a), TextNode(b, k, None)] + Alternate(ps, k).value)
  {
    assert ([a, b] + ps)[2..] == ps;
  }

  /** The pieces of a text with two delimiters: the two before them, then the pieces of the rest. */
  lemma ClosedPieces(s: string, d: string, first: (string, string), second: (string, string))
    requires d != "" && Contains(s, d) && first == SplitOnce(s, d)
    requires Contains(first.1, d) && second == SplitOnce(first.1, d)
    ensures Split(s, d) == [first.0, second.0] + Split(second.1, d)
  {
    SplitStep(s, d);
    SplitStep(first.1, d);
  }

  /** A closed pair: the first two pieces become a plain span and a span of the kind. */
  lemma Closed(s: string, d: string, k: TextType, first: (string, string), second: (string, string))
    requires SelfClosing(s, d, k) && Contains(s, d) && first == SplitOnce(s, d)
    requires OpeningSplit(s, d, k) == Ok(Some(first)) && Contains(first.1, d) && second == SplitOnce(first.1, d)
    requires SplitNode(Plain(second.1), d, k) == Alternate(Split(second.1, d), k)
    ensures SplitNode(Plain(s), d, k) == Alternate(Split(s, d), k)
  {
    ClosedPieces(s, d, first, second);
    AlternateStep(first.0, second.0, Split(second.1, d), k);
    SplitNodeStep(Plain(s), d, k, first.0, first.1, second.0, second.1);
  }

  /** The alternation, for a pair whose delimiter closes itself. */
  lemma {:induction false} SelfClosingAlternates(s: string, d: string, k: TextType)
    requires SelfClosing(s, d, k)
    ensures SplitNode(Plain(s), d, k) == Alternate(Split(s, d), k)
    decreases |s|
  {
    if Contains(s, d) {
      var first := SplitOnce(s, d);
      var after := first.1;
      if k == Italic {
        LoneStar(first.0, after);
        FreeSuffix(first.0 + d, after, "**");
      }
      if k == Italic && after == "" {
        SplitStep(s, d);
        assert Split(after, d) == [after];
      } else if Contains(after, d) {
        var second := SplitOnce(after, d);
        if k == Italic {
          FreeSuffix(second.0 + d, second.1, "**");
        }
        SelfClosingAlternates(second.1, d, k);
        Closed(s, d, k, first, second);
      } else {
        Unclosed(s, d, k);
      }
    }
  }

  /**
   * Outside the collision the pass over a plain node is the alternation of the
   * pieces of split(d): plain, kind, plain, ... when every opening delimiter
   * is closed, and the error for the unclosed one otherwise.
   */
  lemma SplitNodeAlternates(s: string, d: string, k: TextType)
    requires Symmetric(s, d, k)
    ensures SplitNode(Plain(s), d, k) == Alternate(Split(s, d), k)
  {
    assert ValidPair(d, k);
    SelfClosingAlternates(s, d, k);
  }

  /** The texts of a list of spans. */
  function Texts(ns: seq<TextNode>): (r: seq<string>)
  {
    seq(|ns|, j requires 0 <= j < |ns| => ns[j].text)
  }

  /** Joining the texts of the spans of a successful pass with the delimiter gives back the text. */
  lemma DelimiterRoundTrip(s: string, d: string, k: TextType)
    requires Symmetric(s, d, k) && SplitNode(Plain(s), d, k).Ok?
    ensures Join(d, Texts(SplitNode(Plain(s), d, k).value)) == s
  {
    SplitNodeAlternates(s, d, k);
    assert Texts(SplitNode(Plain(s), d, k).value) == Split(s, d);
    SplitJoin(s, d);
  }

  /** A pass leaves a list unchanged when no plain span in it holds the delimiter. */
  lemma {:induction false} DelimitedPassThrough(ns: seq<TextNode>, d: string, k: TextType)
    requires ValidPair(d, k)
    requires forall j :: 0 <= j < |ns| ==> !(ns[j].textType == Text && Contains(ns[j].text, d))
    ensures Delimited(ns, d, k) == Ok(ns)
  {
    if ns != [] {
      var init := ns[..|ns| - 1];
      DelimitedPassThrough(init, d, k);
      assert ns == init + [ns[|ns| - 1]];
    }
  }

  /** When the text is split, the spans do not depend on the node's url. */
  lemma SplitIgnoresUrl(n: TextNode, d: string, k: TextType)
    requires KnownType(k) && (k == Italic ==> d == "*") && d != ""
    requires n.textType == Text && Contains(n.text, d)
    requires OpeningSplit(n.text, d, k) != Ok(None)
    ensures SplitNode(n, d, k) == SplitNode(Plain(n.text), d, k)
  {
    var p := Plain(n.text);
    var opening := OpeningSplit(n.text, d, k);
    if opening.Err? {
      assert SplitNode(n, d, k) == Err(opening.error) == SplitNode(p, d, k);
    } else {
      var head, tail := opening.value.value.0, opening.value.value.1;
      var closing := SetClosingDelimiter(k).value;
      if !Contains(tail, closing) {
        assert SplitNode(n, d, k) == Err(ClosingNotFound) == SplitNode(p, d, k);
      } else {
        var parts := SplitOnce(tail, closing);
        SplitNodeStep(n, d, k, head, tail, parts.0, parts.1);
        SplitNodeStep(p, d, k, head, tail, parts.0, parts.1);
      }
    }
  }

  /** No plain span of the list contains sub. */
  predicate PlainFree(ns: seq<TextNode>, sub: string) {
    forall j :: 0 <= j < |ns| && ns[j].textType == Text ==> !Contains(ns[j].text, sub)
  }

  lemma PlainFreeConcat(a: seq<TextNode>, b: seq<TextNode>, sub: string)
    requires PlainFree(a, sub) && PlainFree(b, sub)
    ensures PlainFree(a + b, sub)
  {
    forall j | 0 <= j < |a + b| && (a + b)[j].textType == Text
      ensures !Contains((a + b)[j].text, sub)
    {
      if j >= |a| {
        assert (a + b)[j] == b[j - |a|];
      }
    }
  }

  /** After the bold pass over one node no plain span holds "**". */
  lemma BoldNodeClears(n: TextNode)
    requires SplitNode(n, "**", Bold).Ok?
    ensures PlainFree(SplitNode(n, "**", Bold).value, "**")
  {
    if n.textType == Text && Contains(n.text, "**") {
      SplitIgnoresUrl(n, "**", Bold);
      SplitNodeAlternates(n.text, "**", Bold);
      var ps := Split(n.text, "**");
      var out := SplitNode(n, "**", Bold).value;
      forall j | 0 <= j < |out| && out[j].textType == Text
        ensures !Contains(out[j].text, "**")
      {
        assert out[j] == TextNode(ps[j], if j % 2 == 0 then Text else Bold, None);
        SplitPiecesFree(n.text, "**", j);
      }
    }
  }

  /** After the bold pass no plain span holds "**": so the italic pass never meets the collision. */
  lemma {:induction false} BoldPassClears(ns: seq<TextNode>)
    requires Delimited(ns, "**", Bold).Ok?
    ensures PlainFree(Delimited(ns, "**", Bold).value, "**")
  {
    if ns != [] {
      var init := ns[..|ns| - 1];
      var last := ns[|ns| - 1];
      if init != [] {
        BoldPassClears(init);
      }
      BoldNodeClears(last);
      var a := DelimitedEach(init, "**", Bold).value;
      var b := SplitNode(last, "**", Bold).value;
      assert DelimitedEach(ns, "**", Bold) == Ok(a + b);
      PlainFreeConcat(a, b, "**");
    }
  }
}
