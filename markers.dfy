/** Marker identities and the markup that renders a region: every region owns
    two marker ids derived from a construction counter, and its outer markup is
    its start tag, its content, and its end tag. How a marker tag is spelled
    depends on what the host supports. */
module Markers {
  import opened Text

  /** The identity prefix `'metamorph-' + n` of the n-th region. */
  function Guid(n: nat): string {
    "metamorph-" + Decimal(n)
  }

  function StartId(n: nat): (s: string)
    ensures |s| > |"metamorph-"| + |"-start"| && s[|s| - 1] == 't'
  {
    Guid(n) + "-start"
  }

  function EndId(n: nat): (s: string)
    ensures |s| > |"metamorph-"| + |"-end"| && s[|s| - 1] == 'd'
  {
    Guid(n) + "-end"
  }

  /** The counter value can be read back from a marker id. */
  lemma GuidDecimal(m: nat, n: nat, sm: string, sn: string)
    requires Guid(m) + sm == Guid(n) + sn && |sm| == |sn|
    ensures m == n && sm == sn
  {
    var a := Guid(m) + sm;
    assert |Decimal(m)| == |Decimal(n)|;
    assert Decimal(m) == a[|"metamorph-"|..|a| - |sm|];
    assert Decimal(n) == a[|"metamorph-"|..|a| - |sn|];
    DecimalInjective(m, n);
    assert sm == a[|a| - |sm|..] == sn;
  }

  /** Two regions built from different counter values never share a marker id,
      and no start id is ever an end id. */
  lemma MarkerIdsDistinct(m: nat, n: nat)
    ensures StartId(m) == StartId(n) ==> m == n
    ensures EndId(m) == EndId(n) ==> m == n
    ensures StartId(m) != EndId(n)
  {
    if StartId(m) == StartId(n) {
      GuidDecimal(m, n, "-start", "-start");
    }
    if EndId(m) == EndId(n) {
      GuidDecimal(m, n, "-end", "-end");
    }
  }

  /** How the marker nodes are spelled in markup:
      - CommentMarkers: `<!--id-->` (range-capable host that keeps comments in `select`);
      - PlaceholderMarkers: an empty `text/x-placeholder` script carrying the id
        (range-capable host that drops comments in `select`, and the fallback of a
        host without ranges or comment elements);
      - CommentElementMarkers: a `<comment>` element carrying the id as attribute
        and as text, the start one preceded by an empty script. */
  datatype Strategy = CommentMarkers | PlaceholderMarkers | CommentElementMarkers

  /** The capability flags the engine detects once, at load time. */
  datatype Config = Config(
    supportsRange: bool,
    supportsCommentsInSelect: bool,
    hasCommentElement: bool,
    needsShy: bool,
    nativeContextualFragment: bool)

  /** The strategy the engine picks for a host. */
  function StrategyFor(c: Config): (s: Strategy)
    ensures s == CommentMarkers <==> c.supportsRange && c.supportsCommentsInSelect
    ensures s == CommentElementMarkers <==> !c.supportsRange && c.hasCommentElement
  {
    if c.supportsRange then
      if c.supportsCommentsInSelect then CommentMarkers else PlaceholderMarkers
    else if c.hasCommentElement then CommentElementMarkers
    else PlaceholderMarkers
  }

  function Placeholder(id: string): string {
    "<script id='" + id + "' type='text/x-placeholder'></script>"
  }

  function StartTag(s: Strategy, id: string): string {
    match s
    case CommentMarkers => "<!--" + id + "-->"
    case PlaceholderMarkers => Placeholder(id)
    case CommentElementMarkers => "<script></script><comment id='" + id + "'>" + id + "</comment>"
  }

  function EndTag(s: Strategy, id: string): string {
    match s
    case CommentMarkers => "<!--" + id + "-->"
    case PlaceholderMarkers => Placeholder(id)
    case CommentElementMarkers => "<comment id='" + id + "'>" + id + "</comment>"
  }

  /** A region's outer markup: its start tag, its content, its end tag. */
  function OuterHTML(s: Strategy, start: string, end: string, inner: string): (r: string)
    ensures |r| == |StartTag(s, start)| + |inner| + |EndTag(s, end)|
    ensures r[..|StartTag(s, start)|] == StartTag(s, start)
    ensures r[|r| - |EndTag(s, end)|..] == EndTag(s, end)
    ensures r[|StartTag(s, start)|..|r| - |EndTag(s, end)|] == inner
  {
    var r := StartTag(s, start) + inner + EndTag(s, end);
    assert r[..|StartTag(s, start)|] == StartTag(s, start);
    assert r[|r| - |EndTag(s, end)|..] == EndTag(s, end);
    assert r[|StartTag(s, start)|..|r| - |EndTag(s, end)|] == inner;
    r
  }

  /** The content is recovered from the outer markup by dropping the two tags. */
  function InnerOf(s: Strategy, start: string, end: string, outer: string): string
    requires |outer| >= |StartTag(s, start)| + |EndTag(s, end)|
  {
    outer[|StartTag(s, start)|..|outer| - |EndTag(s, end)|]
  }

  /** Rendering the outer markup loses nothing: the content comes back out. */
  lemma OuterHTMLRoundTrip(s: Strategy, start: string, end: string, inner: string)
    ensures InnerOf(s, start, end, OuterHTML(s, start, end, inner)) == inner
  {
  }

  /** Different contents render to different outer markup. */
  lemma OuterHTMLInjective(s: Strategy, start: string, end: string, a: string, b: string)
    ensures OuterHTML(s, start, end, a) == OuterHTML(s, start, end, b) ==> a == b
  {
    if OuterHTML(s, start, end, a) == OuterHTML(s, start, end, b) {
      OuterHTMLRoundTrip(s, start, end, a);
      OuterHTMLRoundTrip(s, start, end, b);
    }
  }

  /** With comment markers the tags are exactly comments holding the ids. */
  lemma CommentTags(id: string)
    ensures StartTag(CommentMarkers, id) == "<!--" + id + "-->"
    ensures EndTag(CommentMarkers, id) == "<!--" + id + "-->"
    ensures |StartTag(CommentMarkers, id)| == |id| + 7
  {
  }

  /** The earlier revision renders a region with placeholder scripts only. */
  function MainOuterHTML(start: string, end: string, inner: string): (r: string)
    ensures r == OuterHTML(PlaceholderMarkers, start, end, inner)
  {
    "<script id='" + start + "' type='text/x-placeholder'></script>" +
    inner +
    "<script id='" + end + "' type='text/x-placeholder'></script>"
  }
}
