/**
 * The Python string operations the renderer is built from: find, the `in`
 * test, startswith/endswith, split (full and with maxsplit=1), join, strip,
 * removeprefix/removesuffix and clamped slicing.
 *
 * Only ASCII is modelled: `str.isspace` is the ASCII whitespace set and
 * `str.isnumeric` is the ASCII digits.
 */
module PyStr {
  import opened Wrappers

  /** str.isspace on ASCII: space, \t \n \v \f \r and the separators 0x1c..0x1f. */
  predicate IsSpace(c: char) {
    c == ' ' || (9 <= c as int <= 13) || (28 <= c as int <= 31)
  }

  predicate AllSpace(s: string) {
    forall k :: 0 <= k < |s| ==> IsSpace(s[k])
  }

  /** str.isnumeric on a one-character string, ASCII digits only. */
  predicate IsDigit(c: char) {
    '0' <= c <= '9'
  }

  /** s.startswith(p, i): p occurs in s at index i. */
  predicate StartsWithAt(s: string, p: string, i: nat) {
    i + |p| <= |s| && s[i..i + |p|] == p
  }

  /** s.startswith(p) */
  predicate StartsWith(s: string, p: string) {
    StartsWithAt(s, p, 0)
  }

  /** s.endswith(p) */
  predicate EndsWith(s: string, p: string) {
    |p| <= |s| && s[|s| - |p|..] == p
  }

  /** s.find(sub), with None standing for -1: the lowest index at which sub occurs. */
  function Find(s: string, sub: string): (r: Option<nat>)
    ensures r.Some? ==> StartsWithAt(s, sub, r.value)
    ensures forall j: nat {:trigger StartsWithAt(s, sub, j)} :: StartsWithAt(s, sub, j) ==> r.Some? && r.value <= j
  {
    FindFrom(s, sub, 0)
  }

  function FindFrom(s: string, sub: string, i: nat): (r: Option<nat>)
    decreases |s| - i
    ensures r.Some? ==> i <= r.value && StartsWithAt(s, sub, r.value)
    ensures forall j: nat {:trigger StartsWithAt(s, sub, j)} :: i <= j && StartsWithAt(s, sub, j) ==> r.Some? && r.value <= j
  {
    if i + |sub| > |s| then None
    else if s[i..i + |sub|] == sub then Some(i)
    else FindFrom(s, sub, i + 1)
  }

  /** `sub in s` */
  predicate Contains(s: string, sub: string) {
    Find(s, sub).Some?
  }

  /** Each character of a string that occurs in s occurs in s. */
  lemma ContainsPart(s: string, sub: string, i: nat)
    requires Contains(s, sub) && i < |sub|
    ensures Contains(s, [sub[i]])
  {
    var j := Find(s, sub).value;
    assert s[j + i..j + i + 1] == [sub[i]];
    assert StartsWithAt(s, [sub[i]], j + i);
  }

  /** s[k:] for k >= 0: Python clamps an index past the end to the end. */
  function Drop(s: string, k: nat): (r: string)
    ensures k <= |s| ==> s == s[..k] + r
    ensures k >= |s| ==> r == ""
  {
    if k <= |s| then s[k..] else ""
  }

  /** s.removeprefix(p) */
  function RemovePrefix(s: string, p: string): (r: string)
    ensures StartsWith(s, p) ==> s == p + r
    ensures !StartsWith(s, p) ==> r == s
  {
    if StartsWith(s, p) then s[|p|..] else s
  }

  /** s.removesuffix(p); Python leaves s unchanged when p is empty. */
  function RemoveSuffix(s: string, p: string): (r: string)
    ensures EndsWith(s, p) && p != "" ==> s == r + p
    ensures !(EndsWith(s, p) && p != "") ==> r == s
  {
    if EndsWith(s, p) && p != "" then s[..|s| - |p|] else s
  }

  /** s.split(sep, maxsplit=1) where sep occurs in s: the text before its first occurrence and the text after it. */
  function SplitOnce(s: string, sep: string): (r: (string, string))
    requires Contains(s, sep)
    ensures s == r.0 + sep + r.1
    ensures Find(s, sep) == Some(|r.0|)
  {
    var i := Find(s, sep).value;
    assert s == s[..i] + s[i..i + |sep|] + s[i + |sep|..];
    (s[..i], s[i + |sep|..])
  }

  /** s.split(sep) for a non-empty separator: the pieces between the non-overlapping occurrences of sep, left to right. */
  function Split(s: string, sep: string): (parts: seq<string>)
    requires |sep| > 0
    decreases |s|
    ensures |parts| >= 1
    ensures Contains(s, sep) <==> |parts| >= 2
  {
    match Find(s, sep)
    case None => [s]
    case Some(i) => [s[..i]] + Split(s[i + |sep|..], sep)
  }

  /** sep.join(parts) */
  function Join(sep: string, parts: seq<string>): string
  {
    if |parts| == 0 then ""
    else if |parts| == 1 then parts[0]
    else parts[0] + sep + Join(sep, parts[1..])
  }

  /** Appending one more part adds one separator and that part. */
  lemma {:induction false} JoinSnoc(sep: string, parts: seq<string>, x: string)
    requires |parts| >= 1
    ensures Join(sep, parts + [x]) == Join(sep, parts) + sep + x
  {
    if |parts| > 1 {
      assert (parts + [x])[1..] == parts[1..] + [x];
      JoinSnoc(sep, parts[1..], x);
    }
  }

  /** Joining the pieces of a split with the separator gives back the original text. */
  lemma {:induction false} SplitJoin(s: string, sep: string)
    requires |sep| > 0
    ensures Join(sep, Split(s, sep)) == s
    decreases |s|
  {
    match Find(s, sep)
    case None =>
    case Some(i) =>
      var rest := s[i + |sep|..];
      SplitJoin(rest, sep);
      assert s == s[..i] + sep + rest;
  }

  /** The text before the first occurrence of sub does not contain sub. */
  lemma NothingBeforeFirst(s: string, sub: string, i: nat)
    requires |sub| > 0 && Find(s, sub) == Some(i)
    ensures !Contains(s[..i], sub)
  {
    var p := s[..i];
    if Contains(p, sub) {
      var j := Find(p, sub).value;
      assert StartsWithAt(p, sub, j);
      assert s[j..j + |sub|] == p[j..j + |sub|];
      assert StartsWithAt(s, sub, j);
    }
  }

  /** What follows a text free of sub is itself free of sub. */
  lemma FreeSuffix(u: string, t: string, sub: string)
    requires !Contains(u + t, sub)
    ensures !Contains(t, sub)
  {
    if Contains(t, sub) {
      var j := Find(t, sub).value;
      assert (u + t)[|u| + j..|u| + j + |sub|] == t[j..j + |sub|];
      assert StartsWithAt(u + t, sub, |u| + j);
    }
  }

  /** No piece of a split contains the separator. */
  lemma {:induction false} SplitPiecesFree(s: string, sep: string, k: nat)
    requires |sep| > 0
    requires k < |Split(s, sep)|
    ensures !Contains(Split(s, sep)[k], sep)
    decreases |s|
  {
    match Find(s, sep)
    case None =>
    case Some(i) =>
      var rest := s[i + |sep|..];
      assert Split(s, sep) == [s[..i]] + Split(rest, sep);
      if k == 0 {
        NothingBeforeFirst(s, sep, i);
      } else {
        assert Split(s, sep)[k] == Split(rest, sep)[k - 1];
        SplitPiecesFree(rest, sep, k - 1);
      }
  }

  /** A string occurring inside a slice of s occurs in s. */
  lemma ContainsInSlice(s: string, k: nat, r: string, sub: string)
    requires k + |r| <= |s| && r == s[k..k + |r|] && Contains(r, sub)
    ensures Contains(s, sub)
  {
    var j := Find(r, sub).value;
    assert s[k + j..k + j + |sub|] == r[j..j + |sub|];
    assert StartsWithAt(s, sub, k + j);
  }

  /**
   * A two-character separator placed after a text that neither contains it
   * nor ends with its first character is the first occurrence, so the text
   * is the first piece of the split.
   */
  lemma SplitAfterFree(a: string, sep: string, t: string)
    requires |sep| == 2 && !Contains(a, sep) && (a == [] || a[|a| - 1] != sep[0])
    ensures Split(a + sep + t, sep) == [a] + Split(t, sep)
  {
    var s := a + sep + t;
    assert s[|a|..|a| + 2] == sep;
    assert StartsWithAt(s, sep, |a|);
    var i := Find(s, sep).value;
    if i + 2 <= |a| {
      assert s[i..i + 2] == a[i..i + 2];
      assert StartsWithAt(a, sep, i);
    }
    assert s[..|a|] == a;
    assert s[|a| + 2..] == t;
  }

  /** A one-character separator after a text without it is the first occurrence. */
  lemma SplitAfterFreeChar(a: string, sep: string, t: string)
    requires |sep| == 1 && !Contains(a, sep)
    ensures Split(a + sep + t, sep) == [a] + Split(t, sep)
  {
    var s := a + sep + t;
    assert s[|a|..|a| + 1] == sep;
    assert StartsWithAt(s, sep, |a|);
    var i := Find(s, sep).value;
    if i < |a| {
      assert s[i..i + 1] == a[i..i + 1];
      assert StartsWithAt(a, sep, i);
    }
    assert s[..|a|] == a;
    assert s[|a| + 1..] == t;
  }

  /** A character that is none of the characters of s does not occur in s. */
  lemma CharAbsent(s: string, c: string)
    requires |c| == 1 && forall i :: 0 <= i < |s| ==> s[i] != c[0]
    ensures !Contains(s, c)
  {
    forall j: nat | j + 1 <= |s|
      ensures !StartsWithAt(s, c, j)
    {
      assert s[j..j + 1][0] == s[j];
    }
  }

  /** A two-character piece occurs at i exactly when its two characters do. */
  lemma PairAt(s: string, i: nat, p: string)
    requires |p| == 2
    ensures StartsWithAt(s, p, i) <==> i + 2 <= |s| && s[i] == p[0] && s[i + 1] == p[1]
  {
    if i + 2 <= |s| && s[i] == p[0] && s[i + 1] == p[1] {
      assert s[i..i + 2] == p;
    }
  }

  /** A character absent from both parts is absent from their concatenation. */
  lemma CharAbsentFromConcat(a: string, b: string, c: string)
    requires |c| == 1 && !Contains(a, c) && !Contains(b, c)
    ensures !Contains(a + b, c)
  {
    if Contains(a + b, c) {
      var i := Find(a + b, c).value;
      if i < |a| {
        assert (a + b)[i..i + 1] == a[i..i + 1];
        assert StartsWithAt(a, c, i);
      } else {
        assert (a + b)[i..i + 1] == b[i - |a|..i - |a| + 1];
        assert StartsWithAt(b, c, i - |a|);
      }
    }
  }

  /** When the separator occurs, every piece is shorter than the text by at least the separator. */
  lemma {:induction false} SplitPieceShorter(s: string, sep: string, k: nat)
    requires |sep| > 0
    requires Contains(s, sep)
    requires k < |Split(s, sep)|
    ensures |Split(s, sep)[k]| + |sep| <= |s|
    decreases |s|
  {
    var i := Find(s, sep).value;
    var rest := s[i + |sep|..];
    assert Split(s, sep) == [s[..i]] + Split(rest, sep);
    if k > 0 {
      assert Split(s, sep)[k] == Split(rest, sep)[k - 1];
      if Contains(rest, sep) {
        SplitPieceShorter(rest, sep, k - 1);
      } else {
        assert Split(rest, sep) == [rest];
      }
    }
  }

  /** The first piece of a split and the rest rejoined are what split(sep, maxsplit=1) returns. */
  lemma SplitOnceIsSplitHead(s: string, sep: string)
    requires |sep| > 0
    requires Contains(s, sep)
    ensures SplitOnce(s, sep).0 == Split(s, sep)[0]
    ensures SplitOnce(s, sep).1 == Join(sep, Split(s, sep)[1..])
  {
    var i := Find(s, sep).value;
    SplitJoin(s[i + |sep|..], sep);
  }

  /** s.lstrip() */
  function TrimStart(s: string): (r: string)
    ensures |r| <= |s| && r == s[|s| - |r|..]
    ensures AllSpace(s[..|s| - |r|])
    ensures r == [] || !IsSpace(r[0])
  {
    if |s| > 0 && IsSpace(s[0]) then
      var r := TrimStart(s[1..]);
      assert s[..|s| - |r|] == [s[0]] + s[1..][..|s| - 1 - |r|];
      r
    else s
  }

  /** s.rstrip() */
  function TrimEnd(s: string): (r: string)
    ensures |r| <= |s| && r == s[..|r|]
    ensures AllSpace(s[|r|..])
    ensures r == [] || !IsSpace(r[|r| - 1])
  {
    if |s| > 0 && IsSpace(s[|s| - 1]) then
      var r := TrimEnd(s[..|s| - 1]);
      assert s[|r|..] == s[..|s| - 1][|r|..] + [s[|s| - 1]];
      r
    else s
  }

  /** A string with no whitespace at either end. */
  predicate IsStripped(s: string) {
    s == [] || (!IsSpace(s[0]) && !IsSpace(s[|s| - 1]))
  }

  /** r occurs in s at index k, with only whitespace before and after it. */
  predicate Between(s: string, k: nat, r: string) {
    k + |r| <= |s| && r == s[k..k + |r|] && AllSpace(s[..k]) && AllSpace(s[k + |r|..])
  }

  /** Leading whitespace removed and then trailing whitespace: the kept text sits between two whitespace runs. */
  lemma Margins(s: string, k: nat, t: string, r: string)
    requires k <= |s| && t == s[k..] && AllSpace(s[..k])
    requires |r| <= |t| && r == t[..|r|] && AllSpace(t[|r|..])
    requires t == [] || !IsSpace(t[0])
    ensures Between(s, k, r)
    ensures r == [] || !IsSpace(r[0])
  {
    assert s[k + |r|..] == t[|r|..];
    if r != [] {
      assert r[0] == t[0];
    }
  }

  lemma StripFacts(s: string)
    ensures IsStripped(TrimEnd(TrimStart(s)))
    ensures Between(s, |s| - |TrimStart(s)|, TrimEnd(TrimStart(s)))
  {
    var t := TrimStart(s);
    var r := TrimEnd(t);
    var k := |s| - |t|;
    assert t == s[k..] && AllSpace(s[..k]);
    assert r == t[..|r|] && AllSpace(t[|r|..]);
    Margins(s, k, t, r);
  }

  /** s.strip() */
  function Strip(s: string): (r: string)
    ensures IsStripped(r) && |r| <= |s|
  {
    StripFacts(s);
    TrimEnd(TrimStart(s))
  }

  /** s is the strip of s with a run of whitespace on each side. */
  lemma StripMargins(s: string)
    ensures Between(s, |s| - |TrimStart(s)|, Strip(s))
  {
    StripFacts(s);
  }

  /** Stripping a stripped string changes nothing, so strip is idempotent. */
  lemma StrippedIsFixed(s: string)
    requires IsStripped(s)
    ensures Strip(s) == s
  {
    var t := TrimStart(s);
    if s != [] {
      assert |t| == |s|;
      assert !IsSpace(t[|t| - 1]);
    }
  }

  /** strip() yields the empty string exactly for all-whitespace input. */
  lemma StripEmpty(s: string)
    ensures Strip(s) == "" <==> AllSpace(s)
  {
    var t := TrimStart(s);
    var k := |s| - |t|;
    StripMargins(s);
    if Strip(s) == "" {
      assert Between(s, k, "");
      assert s == s[..k] + s[k..];
    }
    if AllSpace(s) {
      assert t == [];
    }
  }

  /** What s does not contain, its strip does not contain either. */
  lemma StripKeepsAbsent(s: string, sub: string)
    requires !Contains(s, sub)
    ensures !Contains(Strip(s), sub)
  {
    var r := Strip(s);
    var k := |s| - |TrimStart(s)|;
    StripMargins(s);
    assert Between(s, k, r);
    if Contains(r, sub) {
      ContainsInSlice(s, k, r, sub);
    }
  }

}
