/**
 * The two regular expressions of main.py, `!\[(.*?)\]\((.*?)\)` for images
 * and `(?<!!)\[(.*?)\]\((.*?)\)` for links, as scanners with `re.findall`
 * semantics: the leftmost position where a match starts wins, matches do not
 * overlap, the text is the shortest one that lets the rest match, the url is
 * the shortest after it, and `.` does not match a newline.
 */
module Extractors {
  import opened Wrappers
  import opened PyStr

  datatype Pattern = ImagePattern | LinkPattern

  /** The literal text a match starts with. */
  function Opener(pat: Pattern): string {
    if pat == ImagePattern then "![" else "["
  }

  /** The markdown source of a match with the given text and url: what split_nodes_image/link split on. */
  function Source(pat: Pattern, text: string, url: string): string {
    Opener(pat) + text + "](" + url + ")"
  }

  /** One match: where it starts, its two groups, and the index just past its closing parenthesis. */
  datatype Match = Match(start: nat, text: string, url: string, end: nat)

  /** What `.*` can span: no newline. */
  predicate NoNewline(s: string) {
    forall i :: 0 <= i < |s| ==> s[i] != '\n'
  }

  /** What group 2 can hold before the first ')': no closing parenthesis. */
  predicate NoParen(s: string) {
    forall i :: 0 <= i < |s| ==> s[i] != ')'
  }

  /** Group 2 starting at j can end at f: the first ')' at or after j, with no newline before it. */
  predicate UrlEndsAt(s: string, j: nat, f: nat) {
    j <= f < |s| && s[f] == ')' && forall q :: j <= q < f ==> s[q] != ')' && s[q] != '\n'
  }

  /** The end of the shortest group 2 starting at j that is followed by ')'. */
  function UrlEnd(s: string, j: nat): (r: Option<nat>)
    decreases |s| - j
    ensures r.Some? ==> UrlEndsAt(s, j, r.value)
    ensures r.None? ==> forall f :: !UrlEndsAt(s, j, f)
  {
    if j >= |s| || s[j] == '\n' then None
    else if s[j] == ')' then Some(j)
    else
      assert forall f :: UrlEndsAt(s, j, f) ==> UrlEndsAt(s, j + 1, f);
      UrlEnd(s, j + 1)
  }

  /** Group 1 starting at ls can end at e: no newline in it, then "](" and a group 2 that closes. */
  predicate LabelEndsAt(s: string, ls: nat, e: nat) {
    ls <= e && e + 2 <= |s| && NoNewline(s[ls..e]) && s[e] == ']' && s[e + 1] == '(' && UrlEnd(s, e + 2).Some?
  }

  /** The end of the shortest group 1 starting at ls that lets the rest of the pattern match, searching from e. */
  function LabelEnd(s: string, ls: nat, e: nat): (r: Option<nat>)
    requires ls <= e <= |s| && NoNewline(s[ls..e])
    decreases |s| - e
    ensures r.Some? ==> e <= r.value && LabelEndsAt(s, ls, r.value)
    ensures r.Some? ==> forall e' :: e <= e' < r.value ==> !LabelEndsAt(s, ls, e')
    ensures r.None? ==> forall e' :: e <= e' ==> !LabelEndsAt(s, ls, e')
  {
    if e + 2 > |s| then None
    else if s[e] == ']' && s[e + 1] == '(' && UrlEnd(s, e + 2).Some? then Some(e)
    else if s[e] == '\n' then
      assert forall e' :: e < e' <= |s| ==> s[ls..e'][e - ls] == '\n';
      None
    else
      assert s[ls..e + 1] == s[ls..e] + [s[e]];
      LabelEnd(s, ls, e + 1)
  }

  /** The lookbehind and the opener: where a match of the pattern may start. */
  predicate OpensAt(s: string, p: nat, pat: Pattern) {
    StartsWithAt(s, Opener(pat), p) && (pat == LinkPattern ==> p == 0 || s[p - 1] != '!')
  }

  /** A match's text is its opener, its label, "](", its url and ")". */
  lemma MatchSource(s: string, p: nat, pat: Pattern, e: nat, f: nat)
    requires StartsWithAt(s, Opener(pat), p)
    requires p + |Opener(pat)| <= e && e + 2 <= f < |s|
    requires s[e] == ']' && s[e + 1] == '(' && UrlEndsAt(s, e + 2, f)
    ensures s[p..f + 1] == Source(pat, s[p + |Opener(pat)|..e], s[e + 2..f])
    ensures NoNewline(s[e + 2..f]) && NoParen(s[e + 2..f])
  {
    var ls := p + |Opener(pat)|;
    assert s[p..ls] == Opener(pat);
    assert s[e..e + 2] == "](";
    assert s[f..f + 1] == ")";
    SliceJoin(s, p, ls, e);
    SliceJoin(s, p, e, e + 2);
    SliceJoin(s, p, e + 2, f);
    SliceJoin(s, p, f, f + 1);
  }

  lemma SliceJoin(s: string, a: nat, b: nat, c: nat)
    requires a <= b <= c <= |s|
    ensures s[a..c] == s[a..b] + s[b..c]
  {
  }

  /** The match of the pattern that starts at p, if there is one. */
  function MatchAt(s: string, p: nat, pat: Pattern): (r: Option<Match>)
    ensures r.Some? ==> r.value.start == p && p < r.value.end <= |s|
  {
    if !OpensAt(s, p, pat) then None
    else
      var ls := p + |Opener(pat)|;
      var labelEnd := LabelEnd(s, ls, ls);
      if labelEnd.None? then None
      else
        var e := labelEnd.value;
        assert LabelEndsAt(s, ls, e);
        var f := UrlEnd(s, e + 2).value;
        assert UrlEndsAt(s, e + 2, f);
        Some(Match(p, s[ls..e], s[e + 2..f], f + 1))
  }

  /**
   * A match starts where the pattern opens, spans exactly the markdown
   * source of its two groups, and neither group holds a newline; the url
   * holds no ')'.
   */
  lemma MatchShape(s: string, p: nat, pat: Pattern)
    requires MatchAt(s, p, pat).Some?
    ensures var m := MatchAt(s, p, pat).value;
            OpensAt(s, p, pat) && m.start == p && p < m.end <= |s| &&
            s[p..m.end] == Source(pat, m.text, m.url) &&
            NoNewline(m.text) && NoNewline(m.url) && NoParen(m.url)
  {
    var ls := p + |Opener(pat)|;
    var e := LabelEnd(s, ls, ls).value;
    assert LabelEndsAt(s, ls, e);
    var f := UrlEnd(s, e + 2).value;
    MatchSource(s, p, pat, e, f);
    assert MatchAt(s, p, pat).value == Match(p, s[ls..e], s[e + 2..f], f + 1);
  }

  /** re.findall from position p: the leftmost match, then the matches after its end. */
  function FindMatches(s: string, p: nat, pat: Pattern): seq<Match>
    decreases |s| - p
  {
    if p >= |s| then []
    else match MatchAt(s, p, pat)
      case Some(m) => [m] + FindMatches(s, m.end, pat)
      case None => FindMatches(s, p + 1, pat)
  }

  /** Every element findall returns is the match at its own start, at or after the scan position. */
  lemma {:induction false} FoundAreMatches(s: string, p: nat, pat: Pattern, i: nat)
    requires i < |FindMatches(s, p, pat)|
    ensures var m := FindMatches(s, p, pat)[i];
            p <= m.start && MatchAt(s, m.start, pat) == Some(m)
    decreases |s| - p
  {
    var r := MatchAt(s, p, pat);
    if r.Some? {
      if i > 0 {
        FoundAreMatches(s, r.value.end, pat, i - 1);
      }
    } else {
      FoundAreMatches(s, p + 1, pat, i);
    }
  }

  /** The first match of a scan from the start of the text, which lies inside the text. */
  function FirstMatch(s: string, pat: Pattern): (m: Match)
    requires FindMatches(s, 0, pat) != []
    ensures m.start < m.end <= |s|
  {
    FoundAreMatches(s, 0, pat, 0);
    FindMatches(s, 0, pat)[0]
  }

  /** One step of the scan: a match at p is taken and the scan resumes at its end; otherwise it moves one character on. */
  lemma FindMatchesStep(s: string, p: nat, pat: Pattern)
    requires p < |s|
    ensures MatchAt(s, p, pat).Some? ==>
              FindMatches(s, p, pat) == [MatchAt(s, p, pat).value] + FindMatches(s, MatchAt(s, p, pat).value.end, pat)
    ensures MatchAt(s, p, pat).None? ==> FindMatches(s, p, pat) == FindMatches(s, p + 1, pat)
  {
  }

  /** Matches come left to right and do not overlap. */
  lemma FoundInOrder(s: string, p: nat, pat: Pattern, i: nat)
    requires i + 1 < |FindMatches(s, p, pat)|
    ensures FindMatches(s, p, pat)[i].end <= FindMatches(s, p, pat)[i + 1].start
  {
    var all := FindMatches(s, p, pat);
    var resumed := FindMatches(s, all[i].end, pat);
    assert resumed != [] && resumed[0] == all[i + 1] by { ScanResumes(s, p, pat, i); }
    FoundAreMatches(s, all[i].end, pat, 0);
  }

  /** No match starts between the scan position and the first match found (or anywhere after it, when none is found). */
  lemma {:induction false} FirstFoundIsLeftmost(s: string, p: nat, pat: Pattern, q: nat)
    requires p <= q
    requires FindMatches(s, p, pat) == [] || q < FindMatches(s, p, pat)[0].start
    ensures MatchAt(s, q, pat).None?
    decreases |s| - p
  {
    if p >= |s| {
      assert !StartsWithAt(s, Opener(pat), q);
    } else if MatchAt(s, p, pat).None? && q > p {
      FirstFoundIsLeftmost(s, p + 1, pat, q);
    }
  }

  /**
   * No match starts in a gap of the scan: between the scan position and the
   * first match, between the end of one match and the start of the next, or
   * after the end of the last.
   */
  lemma GapsHaveNoMatch(s: string, p: nat, pat: Pattern, i: nat, q: nat)
    requires i <= |FindMatches(s, p, pat)|
    requires (if i == 0 then p else FindMatches(s, p, pat)[i - 1].end) <= q
    requires i < |FindMatches(s, p, pat)| ==> q < FindMatches(s, p, pat)[i].start
    ensures MatchAt(s, q, pat).None?
  {
    if i == 0 {
      FirstFoundIsLeftmost(s, p, pat, q);
    } else {
      var all := FindMatches(s, p, pat);
      ScanResumes(s, p, pat, i - 1);
      assert FindMatches(s, all[i - 1].end, pat) == all[i..];
      FirstFoundIsLeftmost(s, all[i - 1].end, pat, q);
    }
  }

  /** Resuming the scan at the end of a match finds exactly the matches after it. */
  lemma {:induction false} ScanResumes(s: string, p: nat, pat: Pattern, i: nat)
    requires i < |FindMatches(s, p, pat)|
    ensures FindMatches(s, FindMatches(s, p, pat)[i].end, pat) == FindMatches(s, p, pat)[i + 1..]
    decreases |s| - p
  {
    var all := FindMatches(s, p, pat);
    var r := MatchAt(s, p, pat);
    if r.Some? {
      var rest := FindMatches(s, r.value.end, pat);
      assert all == [r.value] + rest by { FindMatchesStep(s, p, pat); }
      if i == 0 {
        assert FindMatches(s, all[i].end, pat) == all[i + 1..] by {
          assert all[1..] == rest;
        }
      } else {
        assert FindMatches(s, all[i].end, pat) == all[i + 1..] by {
          var e := rest[i - 1].end;
          assert FindMatches(s, e, pat) == rest[i..] by { ScanResumes(s, r.value.end, pat, i - 1); }
          ConsShift(all, r.value, rest, i);
          assert all[i].end == e;
        }
      }
    } else {
      assert all == FindMatches(s, p + 1, pat) by { FindMatchesStep(s, p, pat); }
      assert FindMatches(s, all[i].end, pat) == all[i + 1..] by { ScanResumes(s, p + 1, pat, i); }
    }
  }

  /** In a list with one element in front, position i and the tail after it are those of the rest, one earlier. */
  lemma ConsShift<T>(all: seq<T>, x: T, rest: seq<T>, i: nat)
    requires all == [x] + rest && 0 < i < |all|
    ensures all[i] == rest[i - 1] && all[i + 1..] == rest[i..]
  {
  }

  /** Without the opener nothing is found; every match found spans its own markdown source. */
  lemma FoundSources(s: string, pat: Pattern)
    ensures !Contains(s, Opener(pat)) ==> FindMatches(s, 0, pat) == []
    ensures forall i :: 0 <= i < |FindMatches(s, 0, pat)| ==>
              StartsWithAt(s, Source(pat, FindMatches(s, 0, pat)[i].text, FindMatches(s, 0, pat)[i].url), FindMatches(s, 0, pat)[i].start)
  {
    var ms := FindMatches(s, 0, pat);
    forall i | 0 <= i < |ms|
      ensures StartsWithAt(s, Source(pat, ms[i].text, ms[i].url), ms[i].start)
    {
      FoundAreMatches(s, 0, pat, i);
      MatchShape(s, ms[i].start, pat);
    }
    if ms != [] {
      FoundAreMatches(s, 0, pat, 0);
      assert OpensAt(s, ms[0].start, pat);
    }
  }

  /** The (group 1, group 2) pairs of all matches, left to right. */
  function Groups(ms: seq<Match>): (r: seq<(string, string)>)
  {
    seq(|ms|, i requires 0 <= i < |ms| => (ms[i].text, ms[i].url))
  }

  /** extract_markdown_images: one (alt, url) pair per image, each spelled `![alt](url)` in the text. */
  function ExtractMarkdownImages(text: string): (r: seq<(string, string)>)
    ensures |r| == |FindMatches(text, 0, ImagePattern)|
    ensures forall i :: 0 <= i < |r| ==> Contains(text, Source(ImagePattern, r[i].0, r[i].1))
    ensures !Contains(text, "![") ==> r == []
  {
    FoundSources(text, ImagePattern);
    Groups(FindMatches(text, 0, ImagePattern))
  }

  /** extract_markdown_links: one (text, url) pair per link, each spelled `[text](url)` in the text. */
  function ExtractMarkdownLinks(text: string): (r: seq<(string, string)>)
    ensures |r| == |FindMatches(text, 0, LinkPattern)|
    ensures forall i :: 0 <= i < |r| ==> Contains(text, Source(LinkPattern, r[i].0, r[i].1))
    ensures !Contains(text, "[") ==> r == []
  {
    FoundSources(text, LinkPattern);
    Groups(FindMatches(text, 0, LinkPattern))
  }

  /** The matches of a pattern in a text, left to right. */
  function Matches(text: string, pat: Pattern): (r: seq<(string, string)>)
    ensures forall i :: 0 <= i < |r| ==> Contains(text, Source(pat, r[i].0, r[i].1))
    ensures !Contains(text, Opener(pat)) ==> r == []
  {
    if pat == ImagePattern then ExtractMarkdownImages(text) else ExtractMarkdownLinks(text)
  }

  /**
   * Wherever the markdown source of a text and url occurs and the pattern
   * may open, the pattern matches there.
   */
  lemma SourceOccurrenceMatches(s: string, q: nat, pat: Pattern, text: string, url: string)
    requires NoNewline(text) && NoNewline(url) && NoParen(url)
    requires StartsWithAt(s, Source(pat, text, url), q)
    requires pat == LinkPattern ==> q == 0 || s[q - 1] != '!'
    ensures MatchAt(s, q, pat).Some?
  {
    var ls := q + |Opener(pat)|;
    var e := ls + |text|;
    var f := e + 2 + |url|;
    SourceParts(s, q, pat, text, url);
    assert UrlEndsAt(s, e + 2, f) by {
      forall j | e + 2 <= j < f
        ensures s[j] != ')' && s[j] != '\n'
      {
        assert s[j] == url[j - (e + 2)];
      }
    }
    assert LabelEndsAt(s, ls, e);
    assert NoNewline(s[ls..ls]);
  }

  /** Where the markdown source occurs, its opener, label, "](", url and ")" sit at the expected offsets. */
  lemma SourceParts(s: string, q: nat, pat: Pattern, text: string, url: string)
    requires StartsWithAt(s, Source(pat, text, url), q)
    ensures var e := q + |Opener(pat)| + |text|;
            StartsWithAt(s, Opener(pat), q) && e + 3 + |url| <= |s| &&
            s[q + |Opener(pat)|..e] == text && s[e] == ']' && s[e + 1] == '(' &&
            s[e + 2..e + 2 + |url|] == url && s[e + 2 + |url|] == ')'
  {
    var o := Opener(pat);
    SplitSlice(s, q, o + text + "](" + url, ")");
    SplitSlice(s, q, o + text + "](", url);
    SplitSlice(s, q, o + text, "](");
    SplitSlice(s, q, o, text);
    var e := q + |o| + |text|;
    assert s[e..e + 2] == "](";
    assert s[e + 2 + |url|..e + 3 + |url|] == ")";
  }

  /** An occurrence of a + b is an occurrence of a followed by one of b. */
  lemma SplitSlice(s: string, q: nat, a: string, b: string)
    requires StartsWithAt(s, a + b, q)
    ensures StartsWithAt(s, a, q) && s[q + |a|..q + |a| + |b|] == b
  {
    assert s[q..q + |a|] == (a + b)[..|a|];
    assert s[q + |a|..q + |a| + |b|] == (a + b)[|a|..];
  }

  /**
   * An image's markdown source first occurs where the leftmost image match
   * starts, so splitting on it puts exactly the text before the match first.
   */
  lemma FirstImageIsFirstOccurrence(s: string)
    requires FindMatches(s, 0, ImagePattern) != []
    ensures var m := FindMatches(s, 0, ImagePattern)[0];
            Find(s, Source(ImagePattern, m.text, m.url)) == Some(m.start)
  {
    var m := FindMatches(s, 0, ImagePattern)[0];
    FoundAreMatches(s, 0, ImagePattern, 0);
    MatchShape(s, m.start, ImagePattern);
    var src := Source(ImagePattern, m.text, m.url);
    assert StartsWithAt(s, src, m.start);
    var found := Find(s, src).value;
    if found < m.start {
      NoEarlierSource(s, m, found);
    }
  }

  /** Before the leftmost image match, its markdown source does not occur. */
  lemma NoEarlierSource(s: string, m: Match, q: nat)
    requires FindMatches(s, 0, ImagePattern) != [] && m == FindMatches(s, 0, ImagePattern)[0]
    requires NoNewline(m.text) && NoNewline(m.url) && NoParen(m.url)
    requires q < m.start
    ensures !StartsWithAt(s, Source(ImagePattern, m.text, m.url), q)
  {
    if StartsWithAt(s, Source(ImagePattern, m.text, m.url), q) {
      SourceOccurrenceMatches(s, q, ImagePattern, m.text, m.url);
      FirstFoundIsLeftmost(s, 0, ImagePattern, q);
    }
  }

  /**
   * Where split_nodes_link cuts: the first occurrence of the first link's
   * source. That is the link itself, unless the same source occurs earlier
   * right after a '!', where the link pattern may not match.
   */
  lemma LinkCut(s: string)
    requires FindMatches(s, 0, LinkPattern) != []
    ensures var m := FindMatches(s, 0, LinkPattern)[0];
            Find(s, Source(LinkPattern, m.text, m.url)).Some?
    ensures var m := FindMatches(s, 0, LinkPattern)[0];
            var i := Find(s, Source(LinkPattern, m.text, m.url)).value;
            i == m.start || (0 < i < m.start && s[i - 1] == '!')
    ensures var m := FindMatches(s, 0, LinkPattern)[0];
            !Contains(s, "!" + Source(LinkPattern, m.text, m.url)) ==> Find(s, Source(LinkPattern, m.text, m.url)) == Some(m.start)
  {
    var m := FindMatches(s, 0, LinkPattern)[0];
    FoundAreMatches(s, 0, LinkPattern, 0);
    MatchShape(s, m.start, LinkPattern);
    var src := Source(LinkPattern, m.text, m.url);
    assert StartsWithAt(s, src, m.start);
    var i := Find(s, src).value;
    if i < m.start {
      if i == 0 || s[i - 1] != '!' {
        SourceOccurrenceMatches(s, i, LinkPattern, m.text, m.url);
        FirstFoundIsLeftmost(s, 0, LinkPattern, i);
      }
      BangBefore(s, src, i);
    }
  }

  /** An occurrence of p right after a '!' is an occurrence of "!" + p one position earlier. */
  lemma BangBefore(s: string, p: string, i: nat)
    requires StartsWithAt(s, p, i) && 0 < i && s[i - 1] == '!'
    ensures StartsWithAt(s, "!" + p, i - 1)
  {
    assert s[i - 1..i + |p|] == [s[i - 1]] + s[i..i + |p|];
  }

  /** A link match never starts at a '[' right after a '!': image syntax is not a link. */
  lemma LinkNotAfterBang(s: string, i: nat)
    requires i < |FindMatches(s, 0, LinkPattern)|
    ensures var m := FindMatches(s, 0, LinkPattern)[i];
            m.start < |s| && s[m.start] == '[' && (m.start == 0 || s[m.start - 1] != '!')
  {
    var m := FindMatches(s, 0, LinkPattern)[i];
    FoundAreMatches(s, 0, LinkPattern, i);
    LinkOpener(s, m.start);
  }

  lemma LinkOpener(s: string, q: nat)
    requires MatchAt(s, q, LinkPattern).Some?
    ensures q < |s| && s[q] == '[' && (q == 0 || s[q - 1] != '!')
  {
    assert OpensAt(s, q, LinkPattern);
    assert s[q..q + 1] == "[";
  }

  /** A text in which every '[' directly follows a '!' has no links. */
  lemma NoLinksWhenAllBracketsAreImages(s: string)
    requires forall q :: 0 <= q < |s| && s[q] == '[' ==> q > 0 && s[q - 1] == '!'
    ensures ExtractMarkdownLinks(s) == []
  {
    var ms := FindMatches(s, 0, LinkPattern);
    if ms != [] {
      LinkNotAfterBang(s, 0);
    }
  }

  /** Without the opener there are no matches. */
  lemma NoOpenerNoMatches(s: string, pat: Pattern)
    requires !Contains(s, Opener(pat))
    ensures Matches(s, pat) == []
  {
    FoundSources(s, pat);
  }

  /** The markdown source of the first match occurs in the text. */
  lemma FirstMatchOccurs(s: string, pat: Pattern)
    requires Matches(s, pat) != []
    ensures |Source(pat, Matches(s, pat)[0].0, Matches(s, pat)[0].1)| > 0
    ensures Contains(s, Source(pat, Matches(s, pat)[0].0, Matches(s, pat)[0].1))
  {
  }
}
