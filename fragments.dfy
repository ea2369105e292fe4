/** Turning markup into nodes for a given parent: the context-wrapping table for
    parents whose content model swallows bare markup, the descent into the
    innermost wrapper, and the soft-hyphen placeholder that some hosts need in
    front of markup that starts with a "zero-scope" element. The host's own
    parser is a parameter. */
module Fragments {
  import opened Outcomes
  import opened Text
  import opened Dom
  import opened Markers

  /** The host: its capability flags and its two parsers.
      - `parse(m)`: the children a detached `div` gets from `div.innerHTML = m`;
      - `parseInContext(k, m)`: the native `createContextualFragment(m)` of a
        range starting in a node of kind `k`. */
  datatype Host = Host(
    config: Config,
    parse: string -> seq<Node>,
    parseInContext: (NodeKind, string) -> seq<Node>)

  /** One row of the wrapping table: how many `firstChild` steps lead from the
      parsing container to the node whose children are the content, and the
      markup put around the content. */
  datatype Wrap = Wrap(depth: nat, prefix: string, suffix: string)

  /** The wrapping rule for a parent, by lower-cased tag name. */
  function WrapFor(tag: string): (r: Option<Wrap>)
    ensures r.Some? <==> ToLower(tag) in WrappedTags()
  {
    var t := ToLower(tag);
    if t == "select" then Some(Wrap(1, "<select multiple='multiple'>", "</select>"))
    else if t == "fieldset" then Some(Wrap(1, "<fieldset>", "</fieldset>"))
    else if t == "table" then Some(Wrap(1, "<table>", "</table>"))
    else if t == "tbody" then Some(Wrap(2, "<table><tbody>", "</tbody></table>"))
    else if t == "tr" then Some(Wrap(3, "<table><tbody><tr>", "</tr></tbody></table>"))
    else if t == "colgroup" then Some(Wrap(2, "<table><tbody></tbody><colgroup>", "</colgroup></table>"))
    else if t == "map" then Some(Wrap(1, "<map>", "</map>"))
    else None
  }

  function WrappedTags(): set<string> {
    {"select", "fieldset", "table", "tbody", "tr", "colgroup", "map"}
  }

  /** The markup handed to the parser before wrapping. */
  function Prepared(c: Config, html: string): string {
    if c.needsShy then "&shy;" + html else html
  }

  /** The `firstChild` chain of length `depth`; `None` once it runs into a node
      without children (the host would then dereference `null`). */
  function Descend(n: Node, depth: nat): Option<Node>
    decreases depth
  {
    if depth == 0 then Some(n)
    else if n.children == [] then None
    else Descend(n.children[0], depth - 1)
  }

  // ---------------------------------------------------------------------------
  // The soft-hyphen strip

  /** A text node whose value starts with U+00AD. */
  predicate ShyText(n: Node) {
    n.kind.Text? && |n.kind.value| > 0 && n.kind.value[0] == '\U{00AD}'
  }

  predicate SingleNameless(n: Node) {
    IsNameless(n) && |n.children| == 1
  }

  /** Descends through nameless single-child elements and drops the leading
      U+00AD of the text node it arrives at, if that is where it arrives. */
  function StripShy(n: Node): (r: Node)
    ensures r.uid == n.uid
    decreases n
  {
    if SingleNameless(n) then n.(children := [StripShy(n.children[0])])
    else if ShyText(n) then n.(kind := Text(n.kind.value[1..]))
    else n
  }

  /** Whether `StripShy` finds a soft hyphen to drop. */
  predicate StripsShy(n: Node)
    decreases n
  {
    if SingleNameless(n) then StripsShy(n.children[0]) else ShyText(n)
  }

  /** The text of a forest in document order (what `textContent` reads). */
  function TextContent(ns: seq<Node>): string
    decreases ns
  {
    if ns == [] then ""
    else
      var own := match ns[0].kind
        case Text(v) => v
        case Element(_, _) => TextContent(ns[0].children)
        case Comment(_) => "";
      own + TextContent(ns[1..])
  }

  /** A forest with every text value erased: what remains is its shape. */
  function Shape(ns: seq<Node>): (r: seq<Node>)
    ensures |r| == |ns|
    decreases ns
  {
    if ns == [] then []
    else
      var k := if ns[0].kind.Text? then Text("") else ns[0].kind;
      [Node(ns[0].uid, k, Shape(ns[0].children))] + Shape(ns[1..])
  }

  lemma TextContentCons(n: Node, rest: seq<Node>)
    ensures TextContent([n] + rest) == TextContent([n]) + TextContent(rest)
    ensures Shape([n] + rest) == Shape([n]) + Shape(rest)
  {
    assert ([n] + rest)[0] == n && ([n] + rest)[1..] == rest;
    assert [n][1..] == [];
  }

  /** The strip removes exactly one leading U+00AD from the text when it finds
      one, and otherwise changes nothing. */
  lemma {:induction false} StripShyText(n: Node)
    ensures StripsShy(n) ==> TextContent([n]) == ['\U{00AD}'] + TextContent([StripShy(n)])
    ensures !StripsShy(n) ==> StripShy(n) == n
    decreases n
  {
    assert [n][1..] == [];
    assert [StripShy(n)][1..] == [];
    if SingleNameless(n) {
      var c := n.children[0];
      StripShyText(c);
      assert n.children == [c];
      assert [StripShy(n)][0].children == [StripShy(c)];
      assert TextContent([n]) == TextContent([c]);
      assert TextContent([StripShy(n)]) == TextContent([StripShy(c)]);
    }
  }

  /** The strip changes no node's identity, kind of node, or place in the tree. */
  lemma {:induction false} StripShyShape(n: Node)
    ensures Shape([StripShy(n)]) == Shape([n])
    decreases n
  {
    assert [n][1..] == [];
    assert [StripShy(n)][1..] == [];
    if SingleNameless(n) {
      StripShyShape(n.children[0]);
      assert n.children == [n.children[0]];
      assert StripShy(n).children == [StripShy(n.children[0])];
    }
  }

  // ---------------------------------------------------------------------------
  // The fragment for a parent

  /** The container the host parses into: a detached `div`. */
  function Container(h: Host, markup: string): Node {
    Node(0, Element("div", ""), h.parse(markup))
  }

  /** The nodes before the soft-hyphen strip: the children of the innermost
      wrapper, or of the container itself when the parent needs no wrapping.
      A parent that is not an element has no tag name to look up. */
  function Unstripped(h: Host, parent: NodeKind, html: string): (r: Result<seq<Node>>)
    ensures !parent.Element? ==> r == Fail(TypeError)
    ensures parent.Element? && WrapFor(parent.tag).None? ==>
      r == Ok(h.parse(Prepared(h.config, html)))
  {
    if !parent.Element? then Fail(TypeError)
    else
      var w := WrapFor(parent.tag);
      if w.None? then Ok(h.parse(Prepared(h.config, html)))
      else
        var e := Descend(Container(h, w.value.prefix + Prepared(h.config, html) + w.value.suffix), w.value.depth);
        if e.None? then Fail(TypeError) else Ok(e.value.children)
  }

  /** `fragmentFor(parent, html)`: the nodes the markup `html` stands for when
      placed under `parent`, in order. */
  function Fragment(h: Host, parent: NodeKind, html: string): Result<seq<Node>> {
    var u := Unstripped(h, parent, html);
    if u.Fail? || !h.config.needsShy then u
    else if u.value == [] then Fail(TypeError)
    else Ok([StripShy(u.value[0])] + u.value[1..])
  }

  /** Without the placeholder the fragment is what the parser produced; with
      it, the fragment differs from the parser's nodes only in its first node,
      which keeps its shape and loses at most one leading U+00AD of text. */
  lemma FragmentShyInvisible(h: Host, parent: NodeKind, html: string)
    ensures !h.config.needsShy ==> Fragment(h, parent, html) == Unstripped(h, parent, html)
    ensures Fragment(h, parent, html).Ok? <==>
      Unstripped(h, parent, html).Ok? && (h.config.needsShy ==> Unstripped(h, parent, html).value != [])
    ensures Fragment(h, parent, html).Ok? ==>
      var f := Fragment(h, parent, html).value;
      var g := Unstripped(h, parent, html).value;
      && |f| == |g| && (|f| > 0 ==> f[1..] == g[1..])
      && Shape(f) == Shape(g)
      && (TextContent(g) == TextContent(f) || TextContent(g) == ['\U{00AD}'] + TextContent(f))
  {
    var u := Unstripped(h, parent, html);
    if u.Ok? && h.config.needsShy && u.value != [] {
      var g := u.value;
      var f := [StripShy(g[0])] + g[1..];
      assert g == [g[0]] + g[1..];
      TextContentCons(g[0], g[1..]);
      TextContentCons(StripShy(g[0]), g[1..]);
      StripShyText(g[0]);
      StripShyShape(g[0]);
      var tail := TextContent(g[1..]);
      if StripsShy(g[0]) {
        calc {
          TextContent(g);
          TextContent([g[0]]) + tail;
          (['\U{00AD}'] + TextContent([StripShy(g[0])])) + tail;
          ['\U{00AD}'] + (TextContent([StripShy(g[0])]) + tail);
          ['\U{00AD}'] + TextContent(f);
        }
      } else {
        assert f == g;
      }
    }
  }

  /** Steps along a chain of nameless single-child elements. */
  predicate Chain(n: Node, k: nat)
    decreases k
  {
    k == 0 || (SingleNameless(n) && Chain(n.children[0], k - 1))
  }

  function Down(n: Node, k: nat): Node
    requires Chain(n, k)
    decreases k
  {
    if k == 0 then n else Down(n.children[0], k - 1)
  }

  /** `n` with the node `k` steps down its chain replaced by `m`. */
  function ReplaceDown(n: Node, k: nat, m: Node): Node
    requires Chain(n, k)
    decreases k
  {
    if k == 0 then m else n.(children := [ReplaceDown(n.children[0], k - 1, m)])
  }

  lemma {:induction false} ChainStep(n: Node, k: nat)
    requires Chain(n, k) && SingleNameless(Down(n, k))
    ensures Chain(n, k + 1) && Down(n, k + 1) == Down(n, k).children[0]
    ensures ReplaceDown(n, k, StripShy(Down(n, k))) == ReplaceDown(n, k + 1, StripShy(Down(n, k + 1)))
    decreases k
  {
    if k > 0 {
      ChainStep(n.children[0], k - 1);
    }
  }

  /** The parsing-container method of the host: `fragmentFor` step by step.
      The wrapper descent, the walk to the placeholder and the move of the
      children into the fragment are loops over the parsed nodes. */
  method FragmentFor(h: Host, parent: NodeKind, html: string) returns (r: Result<seq<Node>>)
    ensures r == Fragment(h, parent, html)
  {
    if !parent.Element? {
      return Fail(TypeError);
    }
    var markup := html;
    if h.config.needsShy {
      markup := "&shy;" + markup;
    }
    var element: Option<Node>;
    var w := WrapFor(parent.tag);
    if w.Some? {
      element := DescendWrappers(Container(h, w.value.prefix + markup + w.value.suffix), w.value.depth);
    } else {
      element := Some(Container(h, markup));
    }
    if element.None? {
      return Fail(TypeError);
    }
    var e := element.value;
    assert markup == Prepared(h.config, html);
    assert Unstripped(h, parent, html) == Ok(e.children);
    if h.config.needsShy {
      if e.children == [] {
        return Fail(TypeError);
      }
      var first := StripLeadingShy(e.children[0]);
      e := e.(children := [first] + e.children[1..]);
    }
    assert Fragment(h, parent, html) == Ok(e.children);
    var frag := MoveChildren(e.children);
    return Ok(frag);
  }

  /** The `while (child = element.firstChild)` loop: every child moves into
      the fragment, in order. */
  method MoveChildren(children: seq<Node>) returns (frag: seq<Node>)
    ensures frag == children
  {
    frag := [];
    var rest := children;
    while rest != []
      invariant frag + rest == children
      decreases |rest|
    {
      frag := frag + [rest[0]];
      rest := rest[1..];
    }
    assert frag == frag + rest;
  }

  /** The `while (depth--)` loop: `depth` steps down the `firstChild` chain. */
  method DescendWrappers(div: Node, depth: nat) returns (element: Option<Node>)
    ensures element == Descend(div, depth)
  {
    element := Some(div);
    var left := depth;
    while left > 0
      invariant element.Some? ==> Descend(element.value, left) == Descend(div, depth)
      invariant element.None? ==> Descend(div, depth).None?
    {
      if element.None? {
        return None;
      }
      var e := element.value;
      element := if e.children == [] then None else Some(e.children[0]);
      left := left - 1;
    }
  }

  /** The walk from the first parsed node through nameless single-child
      elements, then the removal of a leading U+00AD from the text node it
      arrives at. */
  method StripLeadingShy(first: Node) returns (r: Node)
    ensures r == StripShy(first)
  {
    var shyElement := first;
    var steps := 0;
    while SingleNameless(shyElement)
      invariant Chain(first, steps) && shyElement == Down(first, steps)
      invariant ReplaceDown(first, steps, StripShy(shyElement)) == StripShy(first)
      decreases shyElement
    {
      ChainStep(first, steps);
      shyElement := shyElement.children[0];
      steps := steps + 1;
    }
    if ShyText(shyElement) {
      var stripped := shyElement.(kind := Text(shyElement.kind.value[1..]));
      assert stripped == StripShy(shyElement);
      r := ReplaceDown(first, steps, stripped);
    } else {
      ReplaceDownSame(first, steps);
      assert shyElement == StripShy(shyElement);
      r := ReplaceDown(first, steps, shyElement);
    }
  }

  lemma {:induction false} ReplaceDownSame(n: Node, k: nat)
    requires Chain(n, k)
    ensures ReplaceDown(n, k, Down(n, k)) == n
    decreases k
  {
    if k > 0 {
      ReplaceDownSame(n.children[0], k - 1);
      assert n.children == [n.children[0]];
    }
  }
}
