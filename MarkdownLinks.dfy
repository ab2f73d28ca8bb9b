/**
 * Link extraction (`find_markdown_links`): every non-overlapping match of
 * `\[([^\]]*)\]\(([^)]+)\)`, scanned left to right.
 */
module MarkdownLinks {
  import opened Wrappers
  import opened Text

  /** One `(text, url)` pair of `re.findall`. */
  datatype Link = Link(text: string, url: string)

  /** The markdown source of a link. */
  function Render(l: Link): string {
    "[" + l.text + "](" + l.url + ")"
  }

  /** What the two groups of the pattern admit: no `]` in the text, a non-empty url without `)`. */
  predicate IsLinkShape(l: Link) {
    ']' !in l.text && l.url != "" && ')' !in l.url
  }

  /**
   * The pattern tried at the start of `s`: the link and the length of the match.
   * The text runs to the first `]`, which `(` must follow; the url runs to the
   * first `)` after that. Backtracking cannot shorten either group to a match,
   * as neither group admits its closing character.
   */
  function MatchHere(s: string): (r: Option<(Link, nat)>)
    ensures r.Some? ==> 0 < r.value.1 <= |s| && s[..r.value.1] == Render(r.value.0)
    ensures r.Some? ==> IsLinkShape(r.value.0)
  {
    if |s| == 0 || s[0] != '[' then None
    else
      var close := IndexFrom(s, ']', 1);
      if close + 1 >= |s| || s[close + 1] != '(' then None
      else
        var end := IndexFrom(s, ')', close + 2);
        if end == |s| || end == close + 2 then None
        else
          var l := Link(s[1..close], s[close + 2..end]);
          assert s[..end + 1] == "[" + s[1..close] + "](" + s[close + 2..end] + ")";
          Some((l, end + 1))
  }

  /** Whenever a well-shaped link starts `s`, the pattern matches exactly it. */
  lemma MatchHereExact(s: string, l: Link)
    requires IsLinkShape(l)
    requires Render(l) <= s
    ensures MatchHere(s) == Some((l, |Render(l)|))
  {
    var t, u := l.text, l.url;
    var close := 1 + |t|;
    var end := close + 2 + |u|;
    assert s[0] == Render(l)[0] == '[';
    assert s[close] == Render(l)[close] == ']';
    assert s[close + 1] == Render(l)[close + 1] == '(';
    assert s[end] == Render(l)[end] == ')';
    forall j | 1 <= j < close
      ensures s[j] != ']'
    {
      assert s[j] == Render(l)[j] == t[j - 1];
    }
    forall j | close + 2 <= j < end
      ensures s[j] != ')'
    {
      assert s[j] == Render(l)[j] == u[j - close - 2];
    }
    IndexFromIs(s, ']', 1, close);
    IndexFromIs(s, ')', close + 2, end);
    assert s[1..close] == Render(l)[1..close] == t;
    assert s[close + 2..end] == Render(l)[close + 2..end] == u;
  }

  /** `re.findall(link_pattern, content)` */
  function FindMarkdownLinks(content: string): (r: seq<Link>)
    ensures forall k :: 0 <= k < |r| ==> IsLinkShape(r[k])
    ensures forall k :: 0 <= k < |r| ==> Contains(content, Render(r[k]))
    decreases |content|
  {
    if content == [] then []
    else
      match MatchHere(content)
      case Some((l, n)) =>
        assert OccursAt(content, Render(l), 0);
        ContainsInSuffix(content, n);
        [l] + FindMarkdownLinks(content[n..])
      case None =>
        ContainsInSuffix(content, 1);
        FindMarkdownLinks(content[1..])
  }

  /** A match at the start is the first link found; the scan resumes after it. */
  lemma FindAfterMatch(s: string, l: Link, n: nat)
    requires MatchHere(s) == Some((l, n))
    ensures n <= |s|
    ensures FindMarkdownLinks(s) == [l] + FindMarkdownLinks(s[n..])
  {
  }

  /** The markdown source of several links, one after the other. */
  function RenderAll(ls: seq<Link>): string {
    if ls == [] then "" else Render(ls[0]) + RenderAll(ls[1..])
  }

  /** Extraction inverts rendering: the links written out are the links found. */
  lemma {:induction false} FindRenderedLinks(ls: seq<Link>)
    requires forall k :: 0 <= k < |ls| ==> IsLinkShape(ls[k])
    ensures FindMarkdownLinks(RenderAll(ls)) == ls
  {
    if ls != [] {
      var s := RenderAll(ls);
      var head := Render(ls[0]);
      var rest := RenderAll(ls[1..]);
      assert s == head + rest;
      MatchHereExact(s, ls[0]);
      FindAfterMatch(s, ls[0], |head|);
      assert s[|head|..] == rest;
      FindRenderedLinks(ls[1..]);
      assert ls == [ls[0]] + ls[1..];
    }
  }

  /** Prose without `[` before the links does not change what is found. */
  lemma {:induction false} SkipProse(prose: string, s: string)
    requires '[' !in prose
    ensures FindMarkdownLinks(prose + s) == FindMarkdownLinks(s)
  {
    if prose != [] {
      assert (prose + s)[1..] == prose[1..] + s;
      SkipProse(prose[1..], s);
    } else {
      assert prose + s == s;
    }
  }
}
