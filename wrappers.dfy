/** Option and Result, and the failures the rendering pipeline can raise. */
module Wrappers {

  datatype Option<+T> = None | Some(value: T)

  datatype Result<+T> = Ok(value: T) | Err(error: Error) {
    predicate IsFailure() {
      Err?
    }

    function PropagateFailure<U>(): Result<U>
      requires Err?
    {
      Err(error)
    }

    function Extract(): T
      requires Ok?
    {
      value
    }
  }

  /** One variant per kind of failure the pipeline raises; a variant may stand for several raise sites. */
  datatype Error =
    | InvalidDelimiter      // validate_delimiter_for_type: the delimiter does not belong to the kind
    | InvalidTextType       // set_closing_delimiter: the kind has no closing delimiter
    | ClosingNotFound       // split_nodes_delimiter: an opening delimiter is never closed
    | EmptySeparator        // str.split with an empty separator (ValueError)
    | IndexOutOfRange       // indexing past the end of a list or string (IndexError): src/main.py:269 and src/main.py:275
    | NoneOperand           // arithmetic on a missing heading count (TypeError)
    | UnknownTextType       // text_node_to_html_node: a kind outside the six
    | ValueNotSet           // LeafNode.to_html: the leaf has no value
    | TagNotSet             // ParentNode.to_html: the parent has no tag
    | ExpectedChildren      // ParentNode.to_html: the children are missing or empty
    | NoHeaderFound         // extract_title: no line starts with "# "

  /** list(map(f, xs)) for an f that cannot raise. */
  function MapSeq<A, B>(f: A -> B, xs: seq<A>): (r: seq<B>)
  {
    seq(|xs|, i requires 0 <= i < |xs| => f(xs[i]))
  }

  /** Mapping over a list with a first element maps that element first. */
  lemma MapSeqCons<A, B>(f: A -> B, x: A, xs: seq<A>)
    ensures MapSeq(f, [x] + xs) == [f(x)] + MapSeq(f, xs)
  {
    var l := [x] + xs;
    assert forall i :: 0 <= i < |xs| ==> l[i + 1] == xs[i];
  }

  /** A list mapped up to its last element, then that element mapped, is the whole list mapped. */
  lemma MapSnoc<A, B>(f: A -> B, xs: seq<A>, front: seq<B>)
    requires |xs| > 0 && |front| == |xs| - 1
    requires forall i :: 0 <= i < |front| ==> front[i] == f(xs[..|xs| - 1][i])
    ensures forall i :: 0 <= i < |xs| ==> (front + [f(xs[|xs| - 1])])[i] == f(xs[i])
  {
  }

  /**
   * list(map(f, xs)) for an f that may raise: the results in order, or the
   * error of the first element that fails.
   */
  function MapResult<A, B>(f: A -> Result<B>, xs: seq<A>): (r: Result<seq<B>>)
    ensures r.Ok? <==> forall i :: 0 <= i < |xs| ==> f(xs[i]).Ok?
    ensures r.Ok? ==> |r.value| == |xs| && forall i :: 0 <= i < |xs| ==> f(xs[i]) == Ok(r.value[i])
    ensures r.Err? ==> exists i :: 0 <= i < |xs| && f(xs[i]) == Err(r.error) && forall j :: 0 <= j < i ==> f(xs[j]).Ok?
  {
    if xs == [] then Ok([])
    else
      var init := xs[..|xs| - 1];
      assert forall i :: 0 <= i < |init| ==> init[i] == xs[i];
      var front :- MapResult(f, init);
      var last :- f(xs[|xs| - 1]);
      Ok(front + [last])
  }

  /** One more element that succeeds appends its result. */
  lemma MapResultNext<A, B>(f: A -> Result<B>, xs: seq<A>, i: nat, acc: seq<B>, y: B)
    requires i < |xs| && MapResult(f, xs[..i]) == Ok(acc) && f(xs[i]) == Ok(y)
    ensures MapResult(f, xs[..i + 1]) == Ok(acc + [y])
  {
    assert xs[..i + 1][..i] == xs[..i];
  }

  /** Once a prefix fails, the whole sequence fails with the same error. */
  lemma {:induction false} MapResultStops<A, B>(f: A -> Result<B>, xs: seq<A>, j: nat)
    requires j <= |xs| && MapResult(f, xs[..j]).Err?
    ensures MapResult(f, xs) == MapResult(f, xs[..j])
  {
    if j < |xs| {
      var init := xs[..|xs| - 1];
      assert init[..j] == xs[..j];
      MapResultStops(f, init, j);
    } else {
      assert xs[..j] == xs;
    }
  }

  /** An element that fails after a prefix that succeeds decides the error. */
  lemma MapResultFails<A, B>(f: A -> Result<B>, xs: seq<A>, i: nat)
    requires i < |xs| && MapResult(f, xs[..i]).Ok? && f(xs[i]).Err?
    ensures MapResult(f, xs) == Err(f(xs[i]).error)
  {
    assert xs[..i + 1][..i] == xs[..i];
    MapResultStops(f, xs, i + 1);
  }
}
